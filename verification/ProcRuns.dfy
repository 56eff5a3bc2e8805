/** Whole runs of the process worker: commands, kernel events and the monitor
    thread's writes in any order. */
module ProcRuns {
  import opened CStrings
  import opened ProcTable
  import opened ProcRefinement
  import opened ShortLived
  import opened ProcWorker

  datatype Input =
    | Event(e: ProcEvent, now: int)
    | Command(cmd: ProcCommand, now: int)
    | Monitor(i: nat, stamp: int, off: bool)

  /** The monitor thread stamps a config and may switch it off. */
  function MonitorStep(st: WorkerState, i: nat, stamp: int, off: bool): WorkerState {
    if i >= |st.configs| then st
    else
      var c := st.configs[i].(lastMonitorTime := stamp);
      st.(configs := st.configs[i := if off then c.(monitorSwitch := false) else c])
  }

  function InputStep(st: WorkerState, input: Input): (st': WorkerState)
    requires |st.slots| >= 1 && |st.counters| >= 1
    ensures |st'.slots| == |st.slots| && |st'.counters| == |st.counters|
  {
    match input
    case Event(e, now) => EventStep(st, e, now)
    case Command(cmd, now) => CommandStep(st, cmd, now)
    case Monitor(i, stamp, off) => MonitorStep(st, i, stamp, off)
  }

  function Initial(configs: seq<ProcConfig>, n: nat): WorkerState {
    WorkerState(configs, false, EmptyTable(n), EmptyCounters(n), [], Nothing, [])
  }

  function WorkerRun(configs: seq<ProcConfig>, n: nat, inputs: seq<Input>): (st: WorkerState)
    requires n >= 1
    ensures |st.slots| == n && |st.counters| == n
  {
    if inputs == [] then Initial(configs, n)
    else InputStep(WorkerRun(configs, n, inputs[..|inputs| - 1]), inputs[|inputs| - 1])
  }

  // ----- starts and stops

  /** A start or stop that was answered with success: `[true]` or `[false]`. */
  function Switched(st: WorkerState, input: Input): seq<bool>
    requires |st.slots| >= 1 && |st.counters| >= 1
  {
    if input.Command? && (input.cmd.Start? || input.cmd.Stop?)
       && InputStep(st, input).responses == st.responses + [CMD_SUCCESS]
    then [input.cmd.Start?] else []
  }

  function Switches(configs: seq<ProcConfig>, n: nat, inputs: seq<Input>): seq<bool>
    requires n >= 1
  {
    if inputs == [] then []
    else
      var before := inputs[..|inputs| - 1];
      Switches(configs, n, before) + Switched(WorkerRun(configs, n, before), inputs[|inputs| - 1])
  }

  lemma SwitchedStep(st: WorkerState, input: Input)
    requires |st.slots| >= 1 && |st.counters| >= 1
    ensures Switched(st, input) in [[], [!st.running]]
    ensures InputStep(st, input).running == (if Switched(st, input) == [] then st.running else !st.running)
  {
    if input.Command? {
      assert st.responses + [CMD_INVALID] != st.responses + [CMD_SUCCESS] by {
        assert (st.responses + [CMD_INVALID])[|st.responses|] != (st.responses + [CMD_SUCCESS])[|st.responses|];
      }
      assert st.responses + [CMD_EBPF_ERR] != st.responses + [CMD_SUCCESS] by {
        assert (st.responses + [CMD_EBPF_ERR])[|st.responses|] != (st.responses + [CMD_SUCCESS])[|st.responses|];
      }
    }
  }

  ghost predicate Alternates(sw: seq<bool>, running: bool) {
    && (forall k :: 0 <= k < |sw| ==> sw[k] == (k % 2 == 0))
    && running == (|sw| % 2 == 1)
  }

  lemma AlternatesOn(sw: seq<bool>, running: bool, last: seq<bool>)
    requires Alternates(sw, running) && last in [[], [!running]]
    ensures Alternates(sw + last, if last == [] then running else !running)
  {
  }

  /** Successful starts and stops alternate, beginning with a start; and the worker is
      running exactly after an odd number of them. */
  lemma {:induction false} SwitchesAlternate(configs: seq<ProcConfig>, n: nat, inputs: seq<Input>)
    requires n >= 1
    ensures Alternates(Switches(configs, n, inputs), WorkerRun(configs, n, inputs).running)
  {
    if inputs != [] {
      var before, input := inputs[..|inputs| - 1], inputs[|inputs| - 1];
      var st := WorkerRun(configs, n, before);
      SwitchesAlternate(configs, n, before);
      SwitchedStep(st, input);
      AlternatesOn(Switches(configs, n, before), st.running, Switched(st, input));
    }
  }

  /** A command writes at most one config, and only when it is a start or stop that
      succeeds: then it sets the switch of the first config of its id and stamps it.
      Every command gets one response. */
  lemma CommandTouchesOneConfig(st: WorkerState, cmd: ProcCommand, now: int)
    ensures var st' := CommandStep(st, cmd, now);
            && (exists code :: st'.responses == st.responses + [code])
            && st'.slots == st.slots && st'.counters == st.counters && st'.log == st.log
            && (st'.configs != st.configs || st'.running != st.running ==>
                  && (cmd.Start? || cmd.Stop?) && cmd.id.Some?
                  && st'.running == !st.running == cmd.Start?
                  && st'.responses == st.responses + [CMD_SUCCESS]
                  && exists k: nat ::
                       && IsFindConfig(st.configs, cmd.id.value, Some(k))
                       && st'.configs ==
                            st.configs[k := st.configs[k].(monitorSwitch := cmd.Start?, lastMonitorTime := now)])
  {
    if (cmd.Start? || cmd.Stop?) && cmd.id.Some? {
      var r := FindConfig(st.configs, cmd.id.value);
      if r.Some? { assert IsFindConfig(st.configs, cmd.id.value, Some(r.value)); }
    }
  }

  /** The step leaves the table, the counters and the log alone. */
  ghost predicate Frozen(st: WorkerState, st': WorkerState) {
    st'.slots == st.slots && st'.counters == st.counters && st'.log == st.log
  }

  lemma FrozenWhileStopped(st: WorkerState, input: Input)
    requires |st.slots| >= 1 && |st.counters| >= 1 && !st.running
    ensures Frozen(st, InputStep(st, input))
  {
  }

  lemma NotRunning(sw: seq<bool>, running: bool)
    requires Alternates(sw, running) && (sw == [] || !sw[|sw| - 1])
    ensures !running
  {
  }

  /** Before the first successful start, and from each successful stop to the next
      successful start, no input changes table, counters or log. */
  lemma TableChangesOnlyWhileStarted(configs: seq<ProcConfig>, n: nat, inputs: seq<Input>, input: Input)
    requires n >= 1
    requires var sw := Switches(configs, n, inputs); sw == [] || !sw[|sw| - 1]
    ensures Frozen(WorkerRun(configs, n, inputs), InputStep(WorkerRun(configs, n, inputs), input))
  {
    SwitchesAlternate(configs, n, inputs);
    NotRunning(Switches(configs, n, inputs), WorkerRun(configs, n, inputs).running);
    FrozenWhileStopped(WorkerRun(configs, n, inputs), input);
  }

  // ----- the worker drives the table and the counters

  /** The events the worker takes in, with the configs it takes them in under. */
  function Ticks(configs: seq<ProcConfig>, n: nat, inputs: seq<Input>): seq<Tick>
    requires n >= 1
  {
    if inputs == [] then []
    else
      var before, input := inputs[..|inputs| - 1], inputs[|inputs| - 1];
      var st := WorkerRun(configs, n, before);
      Ticks(configs, n, before) +
      if input.Event? && st.running then [Tick(st.configs, input.e, input.now)] else []
  }

  /** The short-lived exits of a run of the table. */
  function ShortExits(n: nat, trace: seq<Tick>): seq<ShortExit>
    requires n >= 1
  {
    if trace == [] then []
    else
      var before := trace[..|trace| - 1];
      ShortExits(n, before) +
      match ShortExitOf(Run(n, before), trace[|trace| - 1]) case None => [] case Some(x) => [x]
  }

  function BurstLog(n: nat, xs: seq<ShortExit>): seq<BurstLine>
    requires n >= 1
  {
    if xs == [] then []
    else BurstLog(n, xs[..|xs| - 1]) + BurstLines(CounterRun(n, xs[..|xs| - 1]), xs[|xs| - 1])
  }

  /** Slots, counters and log are those of the table and counter runs: what is proved
      about these holds of the worker. */
  lemma {:induction false} WorkerDrivesTheTable(configs: seq<ProcConfig>, n: nat, inputs: seq<Input>)
    requires n >= 1
    ensures var st, trace := WorkerRun(configs, n, inputs), Ticks(configs, n, inputs);
            && st.slots == Run(n, trace)
            && st.counters == CounterRun(n, ShortExits(n, trace))
            && st.log == BurstLog(n, ShortExits(n, trace))
  {
    if inputs != [] {
      var before, input := inputs[..|inputs| - 1], inputs[|inputs| - 1];
      WorkerDrivesTheTable(configs, n, before);
      var st, trace := WorkerRun(configs, n, before), Ticks(configs, n, before);
      if input.Command? { CommandTouchesOneConfig(st, input.cmd, input.now); }
      if input.Event? && st.running {
        var t := Tick(st.configs, input.e, input.now);
        var xs := ShortExits(n, trace);
        assert Ticks(configs, n, inputs) == trace + [t];
        assert (trace + [t])[..|trace|] == trace;
        match ShortExitOf(st.slots, t) {
          case Some(x) =>
            assert ShortExits(n, trace + [t]) == xs + [x];
            assert (xs + [x])[..|xs|] == xs;
          case None =>
            assert ShortExits(n, trace + [t]) == xs;
        }
      } else {
        assert Ticks(configs, n, inputs) == trace;
      }
    }
  }

  // ----- bursts in the worker's log

  ghost predicate ClockNeverGoesBack(trace: seq<Tick>) {
    forall i, j :: 0 <= i < j < |trace| ==> trace[i].now <= trace[j].now
  }

  lemma {:induction false} NamesFit(n: nat, trace: seq<Tick>)
    requires n >= 1
    ensures forall i :: 0 <= i < n ==> |Run(n, trace)[i].comm| < TASK_COMM_LEN
  {
    if trace != [] { NamesFit(n, trace[..|trace| - 1]); }
  }

  /** No later than `now`, in the order of the clock. */
  ghost predicate WellTimedUntil(xs: seq<ShortExit>, now: int) {
    WellTimed(xs) && forall i :: 0 <= i < |xs| ==> xs[i].now <= now
  }

  lemma WellTimedMore(xs: seq<ShortExit>, x: ShortExit)
    requires WellTimedUntil(xs, x.now) && |x.comm| < TASK_COMM_LEN
    ensures WellTimedUntil(xs + [x], x.now)
  {
  }

  lemma ShortExitFits(s: seq<TrackedProcess>, t: Tick)
    requires forall i :: 0 <= i < |s| ==> |s[i].comm| < TASK_COMM_LEN
    ensures ShortExitOf(s, t).Some? ==>
              ShortExitOf(s, t).value.now == t.now && |ShortExitOf(s, t).value.comm| < TASK_COMM_LEN
  {
  }

  lemma ShortExitsStep(n: nat, before: seq<Tick>, t: Tick)
    requires n >= 1
    ensures ShortExits(n, before + [t]) ==
            ShortExits(n, before) + match ShortExitOf(Run(n, before), t) case None => [] case Some(x) => [x]
  {
    assert (before + [t])[..|before|] == before;
  }

  lemma WellTimedStep(n: nat, before: seq<Tick>, t: Tick)
    requires n >= 1 && WellTimedUntil(ShortExits(n, before), t.now)
    ensures WellTimedUntil(ShortExits(n, before + [t]), t.now)
  {
    ShortExitsStep(n, before, t);
    NamesFit(n, before);
    ShortExitFits(Run(n, before), t);
    match ShortExitOf(Run(n, before), t) {
      case None =>
      case Some(x) => WellTimedMore(ShortExits(n, before), x);
    }
  }

  lemma {:induction false} ShortExitsAreWellTimed(n: nat, trace: seq<Tick>)
    requires n >= 1 && ClockNeverGoesBack(trace)
    ensures WellTimed(ShortExits(n, trace))
    ensures trace != [] ==> WellTimedUntil(ShortExits(n, trace), trace[|trace| - 1].now)
  {
    if trace != [] {
      var before, t := trace[..|trace| - 1], trace[|trace| - 1];
      ShortExitsAreWellTimed(n, before);
      assert before + [t] == trace;
      if before != [] { assert before[|before| - 1].now <= t.now; }
      WellTimedStep(n, before, t);
    }
  }

  lemma LineOfBurst(s: seq<Counter>, x: ShortExit)
    requires |s| >= 1 && |x.comm| < TASK_COMM_LEN
    ensures BurstLines(s, x) == if ReportsBurst(s, x) then [BurstLine(x.comm, Bumped(s, x).count)] else []
  {
    BumpedIsOf(s, x);
  }

  lemma BurstAtPrefix(n: nat, xs: seq<ShortExit>, k: nat)
    requires n >= 1 && k < |xs| - 1
    ensures BurstAt(n, xs[..|xs| - 1], k) == BurstAt(n, xs, k)
  {
    assert xs[..|xs| - 1][..k] == xs[..k];
  }

  /** Exit `k` wrote line `i` of the log. */
  ghost predicate Wrote(n: nat, xs: seq<ShortExit>, k: nat, i: nat)
    requires n >= 1
  {
    k < |xs| && |BurstLog(n, xs[..k])| == i && |BurstLog(n, xs[..k + 1])| == i + 1
  }

  lemma BurstLogStep(n: nat, xs: seq<ShortExit>, k: nat)
    requires n >= 1 && k < |xs|
    ensures BurstLog(n, xs[..k + 1]) == BurstLog(n, xs[..k]) + BurstLines(CounterRun(n, xs[..k]), xs[k])
  {
    assert xs[..k + 1][..k] == xs[..k];
  }

  lemma WroteInPrefix(n: nat, xs: seq<ShortExit>, k: nat, i: nat)
    requires n >= 1 && xs != [] && Wrote(n, xs[..|xs| - 1], k, i)
    ensures Wrote(n, xs, k, i)
  {
    assert xs[..|xs| - 1][..k] == xs[..k] && xs[..|xs| - 1][..k + 1] == xs[..k + 1];
  }

  /** Every line was written by one exit, which reported a burst of its command. */
  lemma {:induction false} LineComesFromBurst(n: nat, xs: seq<ShortExit>, i: nat) returns (k: nat)
    requires n >= 1 && i < |BurstLog(n, xs)| && forall j :: 0 <= j < |xs| ==> |xs[j].comm| < TASK_COMM_LEN
    ensures k < |xs| && BurstAt(n, xs, k) && BurstLog(n, xs)[i].comm == xs[k].comm
    ensures BurstLog(n, xs)[i].count >= SHORT_LIVED_BURST_THRESHOLD
    ensures Wrote(n, xs, k, i)
  {
    var before := xs[..|xs| - 1];
    if i < |BurstLog(n, before)| {
      k := LineComesFromBurst(n, before, i);
      BurstAtPrefix(n, xs, k);
      WroteInPrefix(n, xs, k, i);
    } else {
      k := |xs| - 1;
      LineOfBurst(CounterRun(n, before), xs[k]);
      assert xs[..k + 1] == xs;
    }
  }

  /** Exit `k` is of this command, and so are at least 5 exits of the 10 s up to it. */
  ghost predicate BacksBurst(xs: seq<ShortExit>, k: nat, comm: string) {
    && k < |xs| && xs[k].comm == comm
    && CountSince(xs[..k + 1], comm, xs[k].now - 10) >= 5
  }

  lemma LogIsBacked(n: nat, xs: seq<ShortExit>, i: nat) returns (k: nat)
    requires n >= 1 && WellTimed(xs) && i < |BurstLog(n, xs)|
    ensures BacksBurst(xs, k, BurstLog(n, xs)[i].comm) && Wrote(n, xs, k, i)
  {
    k := LineComesFromBurst(n, xs, i);
    BurstIsBacked(n, xs, k);
  }

  /** One more short-lived exit raises the count of its command, or begins a new window with
      it, 10 s after the window began or when the command has no counter; it writes a line
      with the count exactly when this is 5 or more. */
  lemma LineIsWrittenExactly(n: nat, xs: seq<ShortExit>, x: ShortExit)
    requires n >= 1 && WellTimed(xs) && |x.comm| < 16
    ensures var c, c' := CounterOf(CounterRun(n, xs), x.comm), CounterOf(CounterRun(n, xs + [x]), x.comm);
            && c' == Some(if c.Some? && x.now - c.value.windowStart <= 10
                          then Counter(x.comm, c.value.windowStart, c.value.count + 1, true)
                          else Counter(x.comm, x.now, 1, true))
            && BurstLog(n, xs + [x]) ==
                 BurstLog(n, xs) + if c'.value.count >= 5 then [BurstLine(x.comm, c'.value.count)] else []
  {
    assert (xs + [x])[..|xs|] == xs;
    CountersAreSound(n, xs);
    CounterOfStep(CounterRun(n, xs), xs, x, x.comm);
  }

  /** Every exit that reports a burst writes one line, of its command. */
  lemma {:induction false} BurstIsLogged(n: nat, xs: seq<ShortExit>, k: nat) returns (i: nat)
    requires n >= 1 && k < |xs| && |xs[k].comm| < TASK_COMM_LEN && BurstAt(n, xs, k)
    ensures i < |BurstLog(n, xs)| && BurstLog(n, xs)[i].comm == xs[k].comm && Wrote(n, xs, k, i)
  {
    var before := xs[..|xs| - 1];
    if k < |before| {
      BurstAtPrefix(n, xs, k);
      i := BurstIsLogged(n, before, k);
      WroteInPrefix(n, xs, k, i);
    } else {
      i := |BurstLog(n, before)|;
      LineOfBurst(CounterRun(n, before), xs[k]);
      assert xs[..k + 1] == xs;
    }
  }

  /** The clock readings under which the worker takes in its events never go back. */
  ghost predicate EventsInOrder(inputs: seq<Input>) {
    forall i, j :: 0 <= i < j < |inputs| && inputs[i].Event? && inputs[j].Event? ==> inputs[i].now <= inputs[j].now
  }

  lemma {:induction false} TicksInOrder(configs: seq<ProcConfig>, n: nat, inputs: seq<Input>)
    requires n >= 1 && EventsInOrder(inputs)
    ensures ClockNeverGoesBack(Ticks(configs, n, inputs))
    ensures forall t :: t in Ticks(configs, n, inputs) ==>
              exists i :: 0 <= i < |inputs| && inputs[i].Event? && inputs[i].now == t.now
  {
    if inputs != [] {
      var before, input := inputs[..|inputs| - 1], inputs[|inputs| - 1];
      TicksInOrder(configs, n, before);
      var earlier := Ticks(configs, n, before);
      forall t | t in earlier
        ensures exists i :: 0 <= i < |inputs| && inputs[i].Event? && inputs[i].now == t.now
        ensures input.Event? ==> t.now <= input.now
      {
        var i :| 0 <= i < |before| && before[i].Event? && before[i].now == t.now;
        assert inputs[i] == before[i];
      }
      if input.Event? { assert inputs[|inputs| - 1].now == input.now; }
    }
  }

  /** The short-lived exits among the events: those of a tracked process at most 2 s after
      the `first_seen` of its record, which a forked child has from its parent. */
  ghost function ShortLivedExits(n: nat, trace: seq<Tick>): seq<ShortExit>
    requires n >= 1
  {
    if trace == [] then []
    else
      var before, t := trace[..|trace| - 1], trace[|trace| - 1];
      var tracked := ProcRefinement.Tracked(n, before);
      ShortLivedExits(n, before) +
      if t.event.Exit? && t.event.pid in tracked && t.now - tracked[t.event.pid].firstSeen <= 2
      then [ShortExit(tracked[t.event.pid].comm, t.now)] else []
  }

  lemma ShortExitOfTracked(s: seq<TrackedProcess>, t: Tick)
    requires Distinct(s)
    ensures ShortExitOf(s, t) ==
            if t.event.Exit? && t.event.pid in View(s) && t.now - View(s)[t.event.pid].firstSeen <= 2
            then Some(ShortExit(View(s)[t.event.pid].comm, t.now)) else None
  {
    FindIsLookup(s, t.event.pid);
  }

  /** An event adds an exit to those counted exactly when it is the exit of a tracked process
      at most 2 s after the `first_seen` of its record; and then under the record's name. */
  lemma ExitsCountedExactly(n: nat, trace: seq<Tick>, t: Tick)
    requires n >= 1
    ensures var v, xs, xs' := ProcRefinement.Tracked(n, trace), ShortExits(n, trace), ShortExits(n, trace + [t]);
            if t.event.Exit? && t.event.pid in v && t.now - v[t.event.pid].firstSeen <= 2
            then xs' == xs + [ShortExit(v[t.event.pid].comm, t.now)]
            else xs' == xs
  {
    ShortExitsStep(n, trace, t);
    RunDistinct(n, trace);
    ShortExitOfTracked(Run(n, trace), t);
  }

  lemma {:induction false} CountedAreShortLived(n: nat, trace: seq<Tick>)
    requires n >= 1
    ensures ShortExits(n, trace) == ShortLivedExits(n, trace)
  {
    if trace != [] {
      var before, t := trace[..|trace| - 1], trace[|trace| - 1];
      CountedAreShortLived(n, before);
      ExitsCountedExactly(n, before, t);
      assert before + [t] == trace;
    }
  }

  /** The short-lived exits in a run of the worker. */
  ghost function ExitsOf(configs: seq<ProcConfig>, n: nat, inputs: seq<Input>): seq<ShortExit>
    requires n >= 1
  {
    ShortLivedExits(n, Ticks(configs, n, inputs))
  }

  /** Every burst line in the worker's log was written by one short-lived exit of a tracked
      process of that name, the last of at least 5 within 10 s. */
  lemma LoggedBurstIsBacked(configs: seq<ProcConfig>, n: nat, inputs: seq<Input>, i: nat) returns (k: nat)
    requires n >= 1 && EventsInOrder(inputs) && i < |WorkerRun(configs, n, inputs).log|
    ensures BacksBurst(ExitsOf(configs, n, inputs), k, WorkerRun(configs, n, inputs).log[i].comm)
    ensures Wrote(n, ExitsOf(configs, n, inputs), k, i)
  {
    WorkerDrivesTheTable(configs, n, inputs);
    TicksInOrder(configs, n, inputs);
    ShortExitsAreWellTimed(n, Ticks(configs, n, inputs));
    CountedAreShortLived(n, Ticks(configs, n, inputs));
    k := LogIsBacked(n, ExitsOf(configs, n, inputs), i);
  }

  /** One of any 8 short-lived exits of a command within 10 s writes a burst line of it into
      the worker's log, if no more commands than counters have exited so by then, or else if
      its counter is not evicted among them. */
  lemma EightExitsAreLogged(
      configs: seq<ProcConfig>, n: nat, inputs: seq<Input>, i: nat, j: nat, comm: string)
    returns (k: nat, line: nat)
    requires n >= 1 && EventsInOrder(inputs)
    requires var xs := ExitsOf(configs, n, inputs);
             && i < j <= |xs| && xs[j - 1].now - xs[i].now <= 10
             && Occurrences(xs[i..j], comm) >= 8
             && (|Commands(xs[..j])| <= n || NotEvicted(n, xs, i, j, comm))
    ensures i <= k < j && ExitsOf(configs, n, inputs)[k].comm == comm
    ensures Wrote(n, ExitsOf(configs, n, inputs), k, line)
    ensures line < |WorkerRun(configs, n, inputs).log| && WorkerRun(configs, n, inputs).log[line].comm == comm
  {
    WorkerDrivesTheTable(configs, n, inputs);
    TicksInOrder(configs, n, inputs);
    var xs := ExitsOf(configs, n, inputs);
    ShortExitsAreWellTimed(n, Ticks(configs, n, inputs));
    CountedAreShortLived(n, Ticks(configs, n, inputs));
    if |Commands(xs[..j])| <= n { FewCommandsAreNotEvicted(n, xs, i, j, comm); }
    k := EightExitsAreReported(n, xs, i, j, comm);
    line := BurstIsLogged(n, xs, k);
  }

  // ----- a bound on commands that can be read off the events

  /** The command name an event can give a record. */
  function NameIn(e: ProcEvent): set<string> { if e.Exit? then {} else {Trunc(e.comm, TASK_COMM_LEN)} }

  function TraceNames(trace: seq<Tick>): set<string> {
    if trace == [] then {} else TraceNames(trace[..|trace| - 1]) + NameIn(trace[|trace| - 1].event)
  }

  /** All names in the exec and fork events that reach the worker. */
  function Names(inputs: seq<Input>): set<string> {
    if inputs == [] then {}
    else
      var last := inputs[|inputs| - 1];
      Names(inputs[..|inputs| - 1]) + if last.Event? then NameIn(last.e) else {}
  }

  lemma {:induction false} SlotNames(n: nat, trace: seq<Tick>)
    requires n >= 1
    ensures forall i :: 0 <= i < n && Run(n, trace)[i].active ==> Run(n, trace)[i].comm in TraceNames(trace)
  {
    if trace != [] { SlotNames(n, trace[..|trace| - 1]); }
  }

  lemma ShortExitName(s: seq<TrackedProcess>, t: Tick)
    ensures ShortExitOf(s, t).Some? ==>
              exists i :: 0 <= i < |s| && s[i].active && s[i].comm == ShortExitOf(s, t).value.comm
  {
  }

  lemma {:induction false} ExitNames(n: nat, trace: seq<Tick>)
    requires n >= 1
    ensures Commands(ShortExits(n, trace)) <= TraceNames(trace)
  {
    if trace != [] {
      var before, t := trace[..|trace| - 1], trace[|trace| - 1];
      ExitNames(n, before);
      SlotNames(n, before);
      match ShortExitOf(Run(n, before), t) {
        case None => assert ShortExits(n, trace) == ShortExits(n, before);
        case Some(x) =>
          ShortExitName(Run(n, before), t);
          assert (ShortExits(n, before) + [x])[..|ShortExits(n, before)|] == ShortExits(n, before);
      }
    }
  }

  lemma {:induction false} TickNames(configs: seq<ProcConfig>, n: nat, inputs: seq<Input>)
    requires n >= 1
    ensures TraceNames(Ticks(configs, n, inputs)) <= Names(inputs)
  {
    if inputs != [] {
      var before, input := inputs[..|inputs| - 1], inputs[|inputs| - 1];
      TickNames(configs, n, before);
      var st, trace := WorkerRun(configs, n, before), Ticks(configs, n, before);
      if input.Event? && st.running {
        var t := Tick(st.configs, input.e, input.now);
        assert Ticks(configs, n, inputs) == trace + [t] && (trace + [t])[..|trace|] == trace;
      } else {
        assert Ticks(configs, n, inputs) == trace;
      }
    }
  }

  /** The commands counted are names in the events: if these have no more names than there
      are counters, no counter is ever evicted. */
  lemma FewNamesAreNotEvicted(configs: seq<ProcConfig>, n: nat, inputs: seq<Input>, i: nat, j: nat, comm: string)
    requires n >= 1 && EventsInOrder(inputs) && |Names(inputs)| <= n && i <= j <= |ExitsOf(configs, n, inputs)|
    ensures NotEvicted(n, ExitsOf(configs, n, inputs), i, j, comm)
  {
    var xs := ExitsOf(configs, n, inputs);
    TicksInOrder(configs, n, inputs);
    ShortExitsAreWellTimed(n, Ticks(configs, n, inputs));
    CountedAreShortLived(n, Ticks(configs, n, inputs));
    ExitNames(n, Ticks(configs, n, inputs));
    TickNames(configs, n, inputs);
    CommandsOfPrefix(xs, j);
    SubsetSize(Commands(xs[..j]), Names(inputs));
    FewCommandsAreNotEvicted(n, xs, i, j, comm);
  }

  // ----- the tracked listing

  lemma {:induction false} RowsComeFromSlots(s: seq<TrackedProcess>, now: int, i: nat) returns (k: nat)
    requires i < |ActiveRows(s, now)|
    ensures k < |s| && s[k].active && ActiveRows(s, now)[i] == Row(s[k], now - s[k].firstSeen)
  {
    var front := s[..|s| - 1];
    if i < |ActiveRows(front, now)| {
      k := RowsComeFromSlots(front, now, i);
    } else {
      k := |s| - 1;
    }
  }

  lemma {:induction false} SlotsHaveRows(s: seq<TrackedProcess>, now: int, k: nat) returns (i: nat)
    requires k < |s| && s[k].active
    ensures i < |ActiveRows(s, now)| && ActiveRows(s, now)[i].process == s[k]
  {
    var front := s[..|s| - 1];
    if k == |s| - 1 {
      i := |ActiveRows(front, now)|;
    } else {
      i := SlotsHaveRows(front, now, k);
    }
  }

  lemma {:induction false} RowCount(s: seq<TrackedProcess>, now: int)
    requires Distinct(s)
    ensures |ActiveRows(s, now)| == |View(s)|
  {
    if s != [] {
      var front, last := s[..|s| - 1], s[|s| - 1];
      RowCount(front, now);
      if last.active && last.pid in View(front) {
        var k := ViewComesFrom(front, last.pid);
        assert false;
      }
    }
  }

  /** `list tracked` shows every tracked process exactly once, with its age. */
  lemma TrackedListingIsComplete(s: seq<TrackedProcess>, now: int)
    requires Distinct(s)
    ensures var rows := ActiveRows(s, now);
            && |rows| == |View(s)|
            && (forall i :: 0 <= i < |rows| ==>
                  && var p := rows[i].process;
                  && p.pid in View(s) && View(s)[p.pid] == p
                  && rows[i].runtime == now - p.firstSeen)
            && (forall pid :: pid in View(s) ==> exists i :: 0 <= i < |rows| && rows[i].process == View(s)[pid])
  {
    var rows := ActiveRows(s, now);
    RowCount(s, now);
    forall i | 0 <= i < |rows|
      ensures rows[i].process.pid in View(s) && View(s)[rows[i].process.pid] == rows[i].process
      ensures rows[i].runtime == now - rows[i].process.firstSeen
    {
      var k := RowsComeFromSlots(s, now, i);
      ViewHas(s, k);
    }
    forall pid | pid in View(s) ensures exists i :: 0 <= i < |rows| && rows[i].process == View(s)[pid] {
      var k := ViewComesFrom(s, pid);
      var i := SlotsHaveRows(s, now, k);
      assert rows[i].process == View(s)[pid];
    }
  }
}
