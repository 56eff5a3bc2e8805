/** The process worker (proc.c): commands and kernel events update the configs, the
    tracked slots, the short-lived counters and the `ebpf_running` switch in place.
    `CommandStep` and `EventStep` say what each does to the whole state; the class
    does it on arrays, with the source's loops. */
module ProcWorker {
  import opened CStrings
  import opened Decimals
  import opened ProcTable
  import opened ShortLived
  import opened Slots
  import opened ArgvJoin

  const CMD_SUCCESS := 0
  const CMD_INVALID := -1
  const CMD_EBPF_ERR := -2
  const ULONG_MAX: nat := 0xFFFF_FFFF_FFFF_FFFF

  /** A burst line of the log. */
  datatype BurstLine = BurstLine(comm: string, count: nat)

  /** One row of `list tracked`: the record and its runtime. */
  datatype Row = Row(process: TrackedProcess, runtime: int)

  /** The rows last written to the output file. */
  datatype Listing = Nothing | Configs(configs: seq<ProcConfig>) | Tracked(rows: seq<Row>)

  datatype WorkerState = WorkerState(
    configs: seq<ProcConfig>, running: bool, slots: seq<TrackedProcess>, counters: seq<Counter>,
    log: seq<BurstLine>, out: Listing, responses: seq<int>)

  // ----- numbers in commands

  /** `strtoul(s, &end, 10)` when it sets no error and leaves nothing unread. */
  function ParseUlong(s: string): Option<nat> {
    var t := LStrip(s);
    var digits := if t != "" && (t[0] == '-' || t[0] == '+') then t[1..] else t;
    if digits == "" || !AllDigits(digits) || Value(digits) > ULONG_MAX then None
    else if t[0] == '-' && Value(digits) > 0 then Some(ULONG_MAX + 1 - Value(digits))
    else Some(Value(digits))
  }

  /** What `strtoul` accepts is, behind space, a sign or none and digits of at most 64 bits,
      and nothing else; a minus sign wraps around. */
  lemma UlongExactly(s: string)
    ensures forall sign, digits :: IsNumber(LStrip(s), sign, digits) ==>
              var v := Value(digits);
              ParseUlong(s) == if v > 0xFFFF_FFFF_FFFF_FFFF then None
                               else if sign == "-" && v > 0 then Some(0x1_0000_0000_0000_0000 - v)
                               else Some(v)
    ensures (forall sign, digits :: !IsNumber(LStrip(s), sign, digits)) ==> ParseUlong(s).None?
  {
    var t := LStrip(s);
    forall sign, digits | IsNumber(t, sign, digits)
      ensures var v := Value(digits);
              ParseUlong(s) == if v > 0xFFFF_FFFF_FFFF_FFFF then None
                               else if sign == "-" && v > 0 then Some(0x1_0000_0000_0000_0000 - v)
                               else Some(v)
    {
      NumberIsUlong(s, sign, digits);
    }
    if ParseUlong(s).Some? {
      var sign, digits := UlongIsNumber(s);
    }
  }

  lemma UlongIsNumber(s: string) returns (sign: string, digits: string)
    requires ParseUlong(s).Some?
    ensures IsNumber(LStrip(s), sign, digits)
  {
    var t := LStrip(s);
    sign := if t[0] == '-' || t[0] == '+' then [t[0]] else "";
    digits := t[|sign|..];
    assert t == sign + digits;
  }

  lemma NumberIsUlong(s: string, sign: string, digits: string)
    requires IsNumber(LStrip(s), sign, digits)
    ensures var v := Value(digits);
            ParseUlong(s) == if v > 0xFFFF_FFFF_FFFF_FFFF then None
                             else if sign == "-" && v > 0 then Some(0x1_0000_0000_0000_0000 - v)
                             else Some(v)
  {
    var t := LStrip(s);
    assert IsDigit(digits[0]);
    if sign == "" {
      assert t == digits;
    } else {
      assert t[0] == sign[0] && t[1..] == digits;
    }
  }

  /** The id a listing prints is read back as the same id. */
  lemma ListedIdIsReadBack(id: nat)
    requires id <= ULONG_MAX
    ensures ParseUlong(Decimal(id)) == Some(id)
  {
    ValueOfDecimal(id);
    assert IsDigit(Decimal(id)[0]);
  }

  // ----- events

  /** The exit an event hands to the short-lived counters, if any. */
  function ShortExitOf(slots: seq<TrackedProcess>, t: Tick): Option<ShortExit> {
    if !t.event.Exit? then None
    else match Find(slots, t.event.pid)
      case None => None
      case Some(k) =>
        if t.now - slots[k].firstSeen <= SHORT_LIVED_PROC_SECONDS then Some(ShortExit(slots[k].comm, t.now)) else None
  }

  function BurstLines(counters: seq<Counter>, x: ShortExit): seq<BurstLine>
    requires |counters| >= 1
  {
    if ReportsBurst(counters, x) then [BurstLine(Bumped(counters, x).comm, Bumped(counters, x).count)] else []
  }

  function EventStep(st: WorkerState, e: ProcEvent, now: int): (st': WorkerState)
    requires |st.slots| >= 1 && |st.counters| >= 1
    ensures |st'.slots| == |st.slots| && |st'.counters| == |st.counters|
  {
    var t := Tick(st.configs, e, now);
    if !st.running then st
    else
      var counted := match ShortExitOf(st.slots, t)
        case None => st
        case Some(x) => st.(counters := CounterStep(st.counters, x), log := st.log + BurstLines(st.counters, x));
      counted.(slots := Step(st.slots, t))
  }

  // ----- commands

  predicate IsFindConfig(configs: seq<ProcConfig>, id: nat, r: Option<nat>) {
    match r
    case None => forall j :: 0 <= j < |configs| ==> configs[j].id != id
    case Some(k) => k < |configs| && configs[k].id == id && forall j :: 0 <= j < k ==> configs[j].id != id
  }

  function FindConfig(configs: seq<ProcConfig>, id: nat): (r: Option<nat>)
    ensures IsFindConfig(configs, id, r)
  {
    First(configs, (c: ProcConfig) => c.id == id)
  }

  /** What a message asks for. A start or stop whose id is missing or is not a number
      still counts as a start or stop. */
  datatype ProcCommand =
    | ListConfigs | ListTracked | Start(id: Option<nat>) | Stop(id: Option<nat>) | Invalid

  function ParseId(tokens: seq<string>): Option<nat> {
    if |tokens| < 2 then None else ParseUlong(tokens[1])
  }

  function ParseCommand(tokens: seq<string>): ProcCommand {
    if tokens == [] then Invalid
    else if tokens[0] == "list" then
      if |tokens| == 1 || tokens[1] == "config" then ListConfigs
      else if tokens[1] == "tracked" then ListTracked
      else Invalid
    else if tokens[0] == "start" then Start(ParseId(tokens))
    else if tokens[0] == "stop" then Stop(ParseId(tokens))
    else Invalid
  }

  function Respond(st: WorkerState, code: int): WorkerState { st.(responses := st.responses + [code]) }

  function SwitchConfig(st: WorkerState, id: Option<nat>, on: bool, now: int): WorkerState {
    match (match id case None => None case Some(n) => FindConfig(st.configs, n))
    case None => Respond(st, CMD_INVALID)
    case Some(k) =>
      Respond(st, CMD_SUCCESS).(
        configs := st.configs[k := st.configs[k].(monitorSwitch := on, lastMonitorTime := now)], running := on)
  }

  /** The active slots in slot order, each with its runtime. */
  function ActiveRows(s: seq<TrackedProcess>, now: int): seq<Row> {
    if s == [] then []
    else
      var last := s[|s| - 1];
      ActiveRows(s[..|s| - 1], now) + if last.active then [Row(last, now - last.firstSeen)] else []
  }

  function CommandStep(st: WorkerState, cmd: ProcCommand, now: int): WorkerState {
    match cmd
    case ListConfigs => Respond(st, CMD_SUCCESS).(out := Configs(st.configs))
    case ListTracked => Respond(st, CMD_SUCCESS).(out := Tracked(ActiveRows(st.slots, now)))
    case Start(id) => if st.running then Respond(st, CMD_EBPF_ERR) else SwitchConfig(st, id, true, now)
    case Stop(id) => if st.running then SwitchConfig(st, id, false, now) else Respond(st, CMD_EBPF_ERR)
    case Invalid => Respond(st, CMD_INVALID)
  }

  /** What a start (`on`) or stop of `id` comes to: it is refused with -2 when the worker is
      already started (stopped); it is invalid, with -1, when the id is missing or no config
      has it; and else it succeeds, with 0: the first config of that id is switched and
      stamped, and the worker is started (stopped). */
  ghost predicate SwitchedBy(st: WorkerState, st': WorkerState, id: Option<nat>, on: bool, now: int) {
    if st.running == on then st' == st.(responses := st.responses + [-2])
    else if id.None? || forall j :: 0 <= j < |st.configs| ==> st.configs[j].id != id.value then
      st' == st.(responses := st.responses + [-1])
    else exists k: nat ::
      && k < |st.configs| && st.configs[k].id == id.value
      && (forall j :: 0 <= j < k ==> st.configs[j].id != id.value)
      && st' == st.(configs := st.configs[k := st.configs[k].(monitorSwitch := on, lastMonitorTime := now)],
                    running := on, responses := st.responses + [0])
  }

  lemma SwitchIsExact(st: WorkerState, id: Option<nat>, on: bool, now: int)
    ensures SwitchedBy(st, CommandStep(st, if on then Start(id) else Stop(id), now), id, on, now)
  {
    if id.Some? {
      var r := FindConfig(st.configs, id.value);
      if r.Some? { assert st.configs[r.value].id == id.value; }
    }
  }

  /** The words of a start or stop: the id is the second, when there is one and it is a
      number. Any other message changes neither configs nor table, and is answered with 0
      if it is a list of a known scope, and with -1 otherwise. */
  lemma WordsDecide(st: WorkerState, tokens: seq<string>, now: int)
    ensures var st' := CommandStep(st, ParseCommand(tokens), now);
            var id := if |tokens| >= 2 then ParseUlong(tokens[1]) else None;
            if tokens != [] && tokens[0] == "start" then SwitchedBy(st, st', id, true, now)
            else if tokens != [] && tokens[0] == "stop" then SwitchedBy(st, st', id, false, now)
            else if tokens != [] && tokens[0] == "list" && (|tokens| == 1 || tokens[1] in ["config", "tracked"]) then
              st' == st.(out := st'.out, responses := st.responses + [0])
            else st' == st.(responses := st.responses + [-1])
  {
    SwitchIsExact(st, ParseId(tokens), true, now);
    SwitchIsExact(st, ParseId(tokens), false, now);
  }

  /** Among the valid options the first letters decide. */
  lemma OptionsDifferEarly(opt: string)
    requires opt in ["start", "stop", "list"]
    ensures "list" <= opt <==> opt == "list"
    ensures "start" <= opt <==> opt == "start"
    ensures "stop" <= opt <==> opt == "stop"
  {
    assert "start"[0] == 's' && "stop"[0] == 's' && "list"[0] == 'l';
    assert "start"[2] == 'a' && "stop"[2] == 'o';
  }

  // ----- the worker

  class Worker {
    const configs: array<ProcConfig>
    const tracked: array<TrackedProcess>
    const counters: array<Counter>
    var ebpfRunning: bool
    var log: seq<BurstLine>
    var out: Listing
    var responses: seq<int>

    ghost predicate Valid() {
      tracked.Length == MAX_TRACKED_PROCS && counters.Length == MAX_TRACKED_PROCS
    }

    function State(): WorkerState
      reads this, configs, tracked, counters
    {
      WorkerState(configs[..], ebpfRunning, tracked[..], counters[..], log, out, responses)
    }

    constructor (parsed: seq<ProcConfig>)
      ensures Valid() && fresh(configs) && fresh(tracked) && fresh(counters)
      ensures tracked.Length == counters.Length == 4096
      ensures State() == WorkerState(
                parsed, false, EmptyTable(MAX_TRACKED_PROCS), EmptyCounters(MAX_TRACKED_PROCS), [], Nothing, [])
    {
      configs := new ProcConfig[|parsed|](i requires 0 <= i < |parsed| => parsed[i]);
      tracked := new TrackedProcess[MAX_TRACKED_PROCS](_ => FREE_SLOT);
      counters := new Counter[MAX_TRACKED_PROCS](_ => FREE_COUNTER);
      ebpfRunning, log, out, responses := false, [], Nothing, [];
      new;
      assert configs[..] == parsed;
      assert tracked[..] == EmptyTable(MAX_TRACKED_PROCS);
      assert counters[..] == EmptyCounters(MAX_TRACKED_PROCS);
    }

    method FindTracked(pid: nat) returns (r: Option<nat>)
      requires Valid()
      ensures r == Find(tracked[..], pid)
    {
      r := None;
      for i := 0 to tracked.Length
        invariant forall j :: 0 <= j < i ==> !Holds(tracked[j], pid)
      {
        if tracked[i].active && tracked[i].pid == pid {
          FindIs(tracked[..], pid, Some(i));
          return Some(i);
        }
      }
      FindIs(tracked[..], pid, None);
    }

    method AllocTracked() returns (k: nat)
      requires Valid()
      ensures k == Alloc(tracked[..]) && k < tracked.Length
    {
      var oldest: nat := 0;
      ghost var seen := Seen(tracked[..]);
      for i := 0 to tracked.Length
        invariant OldestBefore(seen, i, oldest)
      {
        assert seen[i] == Slot(tracked[i].active, tracked[i].lastSeen);
        if !tracked[i].active {
          PickIs(seen, i);
          return i;
        }
        if tracked[i].lastSeen < tracked[oldest].lastSeen { oldest := i; }
      }
      PickIs(seen, oldest);
      return oldest;
    }

    /** The slot an event of this pid goes to: the pid's own, or an allocated one. */
    method SlotOf(pid: nat) returns (k: nat)
      requires Valid()
      ensures k == Target(tracked[..], pid)
    {
      var found := FindTracked(pid);
      match found {
        case Some(i) => k := i;
        case None => k := AllocTracked();
      }
    }

    method IsEnabled(e: ProcEvent) returns (b: bool)
      ensures b == Enabled(configs[..], e.comm, ExecFilename(e))
      ensures b <==> Configured(configs[..], e.comm, ExecFilename(e))
    {
      EnabledIsConfigured(configs[..], e.comm, ExecFilename(e));
      var filename := Basename(ExecFilename(e));
      b := HasNamed(e.comm, filename);
      EnabledIsAnyNamed(configs[..], e.comm, ExecFilename(e));
    }

    method HasNamed(comm: string, name: string) returns (b: bool)
      ensures b == AnyNamed(configs[..], comm, name)
    {
      for i := 0 to configs.Length
        invariant forall j :: 0 <= j < i ==> !Named(configs[..][j], comm, name)
      {
        if !configs[i].monitorSwitch { continue; }
        if configs[i].name == comm || configs[i].name == name {
          assert Named(configs[..][i], comm, name);
          return true;
        }
      }
      return false;
    }

    /** The slot is filled from the event, its argument line by way of a buffer. */
    method FillSlot(k: nat, e: ProcEvent, now: int)
      requires k < tracked.Length && e.Exec? && forall i :: 0 <= i < |e.argv| ==> NoNul(e.argv[i])
      modifies tracked
      ensures tracked[..] == old(tracked[..])[k := ExecRecord(e, now)]
    {
      var argv := new char[ARGV_MAX_LEN](_ => NUL);
      JoinEventArgv(e.argv, argv);
      tracked[k] := tracked[k].(
        pid := e.pid, ppid := e.ppid, comm := Trunc(e.comm, TASK_COMM_LEN),
        filename := Trunc(e.filename, TASK_NAME_MAX), argv := Trunc(CStr(argv[..]), ARGV_MAX_LEN),
        firstSeen := now, lastSeen := now, active := true);
      assert tracked[k] == ExecRecord(e, now);
    }

    method TrackExec(e: ProcEvent, now: int) returns (done: bool)
      requires Valid() && e.Exec? && forall i :: 0 <= i < |e.argv| ==> NoNul(e.argv[i])
      modifies tracked
      ensures done == Enabled(configs[..], e.comm, e.filename)
      ensures tracked[..] == Step(old(tracked[..]), Tick(configs[..], e, now))
    {
      var enabled := IsEnabled(e);
      if !enabled { return false; }
      var k := SlotOf(e.pid);
      FillSlot(k, e, now);
      return true;
    }

    method TrackFork(e: ProcEvent, now: int) returns (done: bool)
      requires Valid() && e.Fork?
      modifies tracked
      ensures done == Find(old(tracked[..]), e.ppid).Some?
      ensures tracked[..] == Step(old(tracked[..]), Tick(configs[..], e, now))
    {
      var parent := FindTracked(e.ppid);
      if parent.None? { return false; }
      var child := SlotOf(e.pid);
      tracked[child] := tracked[parent.value];
      tracked[child] := tracked[child].(
        pid := e.pid, ppid := e.ppid, comm := Trunc(e.comm, TASK_COMM_LEN), lastSeen := now, active := true);
      return true;
    }

    method FindShortLived(comm: string) returns (r: Option<nat>)
      requires Valid()
      ensures r == FindCounter(counters[..], comm)
    {
      r := None;
      for i := 0 to counters.Length
        invariant forall j :: 0 <= j < i ==> !Counts(counters[j], comm)
      {
        if counters[i].active && counters[i].comm == comm {
          FindCounterIs(counters[..], comm, Some(i));
          return Some(i);
        }
      }
      FindCounterIs(counters[..], comm, None);
    }

    method AllocShortLived() returns (k: nat)
      requires Valid()
      ensures k == AllocCounter(counters[..]) && k < counters.Length
    {
      var oldest: nat := 0;
      ghost var windows := Windows(counters[..]);
      for i := 0 to counters.Length
        invariant OldestBefore(windows, i, oldest)
      {
        assert windows[i] == Slot(counters[i].active, counters[i].windowStart);
        if !counters[i].active {
          PickIs(windows, i);
          return i;
        }
        if counters[i].windowStart < counters[oldest].windowStart { oldest := i; }
      }
      PickIs(windows, oldest);
      return oldest;
    }

    method RecordShortLived(comm: string, now: int)
      requires Valid()
      modifies counters, this`log
      ensures counters[..] == CounterStep(old(counters[..]), ShortExit(comm, now))
      ensures log == old(log) + BurstLines(old(counters[..]), ShortExit(comm, now))
    {
      var found := FindShortLived(comm);
      var k: nat;
      match found {
        case Some(i) => k := i;
        case None =>
          k := AllocShortLived();
          counters[k] := FREE_COUNTER.(comm := Trunc(comm, TASK_COMM_LEN), windowStart := now, active := true);
      }
      if now - counters[k].windowStart > SHORT_LIVED_BURST_WINDOW_SECONDS {
        counters[k] := counters[k].(windowStart := now, count := 0);
      }
      counters[k] := counters[k].(count := counters[k].count + 1);
      assert counters[k] == Bumped(old(counters[..]), ShortExit(comm, now));
      if counters[k].count >= SHORT_LIVED_BURST_THRESHOLD {
        log := log + [BurstLine(counters[k].comm, counters[k].count)];
      }
    }

    method TrackExit(e: ProcEvent, now: int) returns (done: bool)
      requires Valid() && e.Exit?
      modifies tracked, counters, this`log
      ensures done == Find(old(tracked[..]), e.pid).Some?
      ensures tracked[..] == Step(old(tracked[..]), Tick(configs[..], e, now))
      ensures var was := old(tracked[..]);
              match Find(was, e.pid)
              case Some(k) =>
                if now - was[k].firstSeen <= 2 then
                  && counters[..] == CounterStep(old(counters[..]), ShortExit(was[k].comm, now))
                  && log == old(log) + BurstLines(old(counters[..]), ShortExit(was[k].comm, now))
                else counters[..] == old(counters[..]) && log == old(log)
              case None => counters[..] == old(counters[..]) && log == old(log)
    {
      var found := FindTracked(e.pid);
      if found.None? {
        var enabled := IsEnabled(e);
        if !enabled { return false; }
      }
      found := FindTracked(e.pid);
      if found.None? { return false; }
      var k := found.value;
      tracked[k] := tracked[k].(lastSeen := now);
      var runtime := tracked[k].lastSeen - tracked[k].firstSeen;
      if runtime <= SHORT_LIVED_PROC_SECONDS { RecordShortLived(tracked[k].comm, now); }
      tracked[k] := tracked[k].(active := false);
      return true;
    }

    method HandleEvent(e: ProcEvent, now: int)
      requires Valid() && (e.Exec? ==> forall i :: 0 <= i < |e.argv| ==> NoNul(e.argv[i]))
      modifies tracked, counters, this`log
      ensures State() == EventStep(old(State()), e, now)
    {
      if ebpfRunning {
        var done: bool;
        match e {
          case Exec(_, _, _, _, _) => done := TrackExec(e, now);
          case Exit(_, _, _) => done := TrackExit(e, now);
          case Fork(_, _, _) => done := TrackFork(e, now);
        }
      }
    }

    method SendResponse(code: int)
      modifies this`responses
      ensures responses == old(responses) + [code]
    {
      responses := responses + [code];
    }

    method HandleStatus(tokens: seq<string>, on: bool, now: int) returns (ok: bool)
      modifies configs, this`responses
      ensures State().(running := on) == SwitchConfig(old(State()), ParseId(tokens), on, now).(running := on)
      ensures ok == (ParseId(tokens).Some? && FindConfig(old(configs[..]), ParseId(tokens).value).Some?)
    {
      if |tokens| < 2 {
        SendResponse(CMD_INVALID);
        return false;
      }
      var parsed := ParseUlong(tokens[1]);
      if parsed.None? {
        SendResponse(CMD_INVALID);
        return false;
      }
      for i := 0 to configs.Length
        invariant forall j :: 0 <= j < i ==> configs[j].id != parsed.value
        invariant configs[..] == old(configs[..]) && responses == old(responses)
      {
        if configs[i].id == parsed.value {
          assert FindConfig(old(configs[..]), parsed.value) == Some(i);
          configs[i] := configs[i].(monitorSwitch := on);
          configs[i] := configs[i].(lastMonitorTime := now);
          SendResponse(CMD_SUCCESS);
          return true;
        }
      }
      SendResponse(CMD_INVALID);
      return false;
    }

    method ListTracked(now: int) returns (rows: seq<Row>)
      ensures rows == ActiveRows(tracked[..], now)
    {
      rows := [];
      for i := 0 to tracked.Length
        invariant rows == ActiveRows(tracked[..i], now)
      {
        assert tracked[..i + 1][..i] == tracked[..i];
        if !tracked[i].active { continue; }
        rows := rows + [Row(tracked[i], now - tracked[i].firstSeen)];
      }
      assert tracked[..tracked.Length] == tracked[..];
    }

    method HandleList(tokens: seq<string>, now: int)
      requires |tokens| >= 1
      modifies this`responses, this`out
      ensures tokens[0] == "list" ==> State() == CommandStep(old(State()), ParseCommand(tokens), now)
    {
      if |tokens| == 1 || tokens[1] == "config" {
        out := Configs(configs[..]);
        SendResponse(CMD_SUCCESS);
      } else if tokens[1] == "tracked" {
        var rows := ListTracked(now);
        out := Tracked(rows);
        SendResponse(CMD_SUCCESS);
      } else {
        SendResponse(CMD_INVALID);
      }
    }

    /** One command as the main loop dispatches it: the option is checked for equality
        first, and by its first letters afterwards. */
    method HandleCommand(tokens: seq<string>, now: int)
      modifies this`ebpfRunning, this`responses, this`out, configs
      ensures State() == CommandStep(old(State()), ParseCommand(tokens), now)
    {
      if tokens == [] || tokens[0] !in ["start", "stop", "list"] {
        SendResponse(CMD_INVALID);
        return;
      }
      OptionsDifferEarly(tokens[0]);
      if "list" <= tokens[0] {
        HandleList(tokens, now);
      } else if "start" <= tokens[0] {
        if !ebpfRunning {
          var ok := HandleStatus(tokens, true, now);
          if ok { ebpfRunning := true; }
        } else {
          SendResponse(CMD_EBPF_ERR);
        }
      } else if "stop" <= tokens[0] {
        if ebpfRunning {
          var ok := HandleStatus(tokens, false, now);
          if ok { ebpfRunning := false; }
        } else {
          SendResponse(CMD_EBPF_ERR);
        }
      } else {
        SendResponse(CMD_INVALID);
      }
    }
  }
}
