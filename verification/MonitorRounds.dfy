/** What the monitor thread does with every config between one tick and the next (proc.c),
    whatever the command handler does meanwhile. */
module MonitorRounds {
  import opened Monitor

  predicate SeesOn(s: State, a: Action, i: nat) {
    a.ReadSwitch? && s.pc == AtConfig(i) && i < |s.configs| && s.configs[i].on
  }

  predicate SeesOff(s: State, a: Action, i: nat) {
    a.ReadSwitch? && s.pc == AtConfig(i) && i < |s.configs| && !s.configs[i].on
  }

  /** The period of the config is over. */
  predicate FindsDue(s: State, a: Action, i: nat) {
    a.ReadLast? && s.pc == SeenOn(i) && i < |s.configs| && s.now - s.configs[i].last >= s.configs[i].period
  }

  predicate FindsEarly(s: State, a: Action, i: nat) {
    a.ReadLast? && s.pc == SeenOn(i) && i < |s.configs| && s.now - s.configs[i].last < s.configs[i].period
  }

  predicate Stamps(s: State, a: Action, i: nat) {
    a.Stamp? && s.pc == Stamping(i) && i < |s.configs|
  }

  predicate Leaves(s: State, a: Action, i: nat) {
    SeesOff(s, a, i) || FindsEarly(s, a, i) || Stamps(s, a, i)
  }

  /** The thread is done with config `i` until the next tick. */
  predicate Past(pc: Pc, i: nat) { pc.Sleeping? || i < pc.i }

  /** The last tick before `m` was action `k`. */
  ghost predicate SinceTick(actions: seq<Action>, k: nat, m: nat) {
    && k < m <= |actions| && actions[k].Tick?
    && forall j :: k < j < m ==> !actions[j].Tick?
  }

  // ----- what a round records

  /** The outcomes of the checks and re-checks among some actions. */
  function Outcomes(trace: seq<Action>): seq<bool> {
    if trace == [] then []
    else
      var a := trace[|trace| - 1];
      Outcomes(trace[..|trace| - 1]) + if a.Check? || a.Recheck? then [a.ok] else []
  }

  function Recoveries(trace: seq<Action>): nat {
    if trace == [] then 0
    else Recoveries(trace[..|trace| - 1]) + if trace[|trace| - 1].Recover? then 1 else 0
  }

  /** A round records what the thread did. */
  predicate Records(r: Round, trace: seq<Action>) {
    && r.statuses == Outcomes(trace) && r.recoveries == Recoveries(trace)
    && (r.alarmed <==> Alarm in trace)
  }

  /** The actions since the thread found its config due. */
  predicate Told(s: State, trace: seq<Action>) {
    && (if s.pc.Checking? then Outcomes(trace) == [] && Recoveries(trace) == 0 && Alarm !in trace
        else Records(s.round, trace))
    && (SwitchOff in trace <==> Alarm in trace && !s.pc.SwitchingOff?)
  }

  lemma TraceStep(trace: seq<Action>, a: Action)
    ensures Outcomes(trace + [a]) == Outcomes(trace) + if a.Check? || a.Recheck? then [a.ok] else []
    ensures Recoveries(trace + [a]) == Recoveries(trace) + if a.Recover? then 1 else 0
    ensures Alarm in trace + [a] <==> Alarm in trace || a == Alarm
    ensures SwitchOff in trace + [a] <==> SwitchOff in trace || a == SwitchOff
  {
    assert (trace + [a])[..|trace|] == trace;
  }

  predicate InCheck(pc: Pc) { pc.Checking? || InRound(pc) }

  lemma ToldStep(s: State, a: Action, trace: seq<Action>)
    requires Enabled(s, a) && RoundInv(s) && InCheck(s.pc) && Told(s, trace) && !a.Stamp?
    ensures InCheck(Apply(s, a).pc) && Apply(s, a).pc.i == s.pc.i && Told(Apply(s, a), trace + [a])
  {
    TraceStep(trace, a);
  }

  // ----- from tick to tick

  /** The thread is past a config as soon as it leaves it, until the next tick. */
  lemma PastStep(s: State, a: Action, i: nat)
    requires Enabled(s, a) && i < |s.configs|
    ensures |Apply(s, a).configs| == |s.configs|
    ensures Past(Apply(s, a).pc, i) <==> !a.Tick? && (Past(s.pc, i) || Leaves(s, a, i))
    ensures Past(s.pc, i) ==> !Leaves(s, a, i)
  {
  }

  ghost predicate PastSteps(states: seq<State>, actions: seq<Action>, k: nat, m: nat, i: nat) {
    && k < m <= |actions| < |states| && !Past(states[k + 1].pc, i)
    && forall j :: k < j < m ==>
         && (Past(states[j + 1].pc, i) <==> Past(states[j].pc, i) || Leaves(states[j], actions[j], i))
         && (Past(states[j].pc, i) ==> !Leaves(states[j], actions[j], i))
  }

  lemma RunPastSteps(
      configs: seq<Config>, clock: int, states: seq<State>, actions: seq<Action>, k: nat, m: nat, i: nat)
    requires IsRun(configs, clock, states, actions) && SinceTick(actions, k, m) && i < |configs|
    ensures PastSteps(states, actions, k, m, i)
  {
    forall j | k < j < m
      ensures Past(states[j + 1].pc, i) <==> Past(states[j].pc, i) || Leaves(states[j], actions[j], i)
      ensures Past(states[j].pc, i) ==> !Leaves(states[j], actions[j], i)
    {
      ConfigsStay(configs, clock, states, actions, j);
      PastStep(states[j], actions[j], i);
    }
  }

  /** Since the last tick the thread has left the configs it is past, once, and no others. */
  lemma {:induction false} LeftOnce(states: seq<State>, actions: seq<Action>, k: nat, m: nat, i: nat)
    requires PastSteps(states, actions, k, m, i)
    ensures Past(states[m].pc, i) <==> exists j :: k < j < m && Leaves(states[j], actions[j], i)
    ensures forall j, j' :: k < j < j' < m && Leaves(states[j], actions[j], i) ==> !Leaves(states[j'], actions[j'], i)
    decreases m
  {
    if m > k + 1 { LeftOnce(states, actions, k, m - 1, i); }
  }

  lemma {:induction false} TickTime(
      configs: seq<Config>, clock: int, states: seq<State>, actions: seq<Action>, k: nat, m: nat)
    requires IsRun(configs, clock, states, actions) && SinceTick(actions, k, m)
    ensures states[m].now == states[k].clock
    decreases m
  {
    if m > k + 1 { TickTime(configs, clock, states, actions, k, m - 1); }
  }

  ghost predicate SeenOnAt(states: seq<State>, actions: seq<Action>, k: nat, m: nat, i: nat, on: nat) {
    k < on < m <= |actions| < |states| && SeesOn(states[on], actions[on], i)
  }

  ghost predicate DueAt(states: seq<State>, actions: seq<Action>, on: nat, m: nat, i: nat, due: nat) {
    on < due < m <= |actions| < |states| && FindsDue(states[due], actions[due], i)
  }

  /** The thread gets to a read of the last check time only by seeing the switch on, and
      to a round only by finding the config due. */
  ghost predicate Moves(s: State, a: Action, s': State) {
    && (s'.pc.SeenOn? ==> s.pc == s'.pc || SeesOn(s, a, s'.pc.i))
    && (InCheck(s'.pc) ==>
          || (FindsDue(s, a, s'.pc.i) && s'.pc.Checking?)
          || (InCheck(s.pc) && s.pc.i == s'.pc.i))
  }

  lemma MovesStep(s: State, a: Action)
    requires Enabled(s, a) && RoundInv(s)
    ensures Moves(s, a, Apply(s, a))
  {
  }

  ghost predicate MoveSteps(states: seq<State>, actions: seq<Action>, k: nat, m: nat) {
    && k < m <= |actions| < |states| && states[k + 1].pc == AtConfig(0)
    && forall j :: k < j < m ==> Moves(states[j], actions[j], states[j + 1])
  }

  lemma RunMoveSteps(
      configs: seq<Config>, clock: int, states: seq<State>, actions: seq<Action>, k: nat, m: nat)
    requires IsRun(configs, clock, states, actions) && SinceTick(actions, k, m)
    ensures MoveSteps(states, actions, k, m)
  {
    forall j | k < j < m
      ensures Moves(states[j], actions[j], states[j + 1])
    {
      RunKeepsInv(configs, clock, states, actions, j);
      MovesStep(states[j], actions[j]);
    }
  }

  /** The config the thread is busy with was seen on since the tick. */
  lemma {:induction false} BusyWithOn(states: seq<State>, actions: seq<Action>, k: nat, m: nat) returns (on: nat)
    requires MoveSteps(states, actions, k, m) && states[m].pc.SeenOn?
    ensures SeenOnAt(states, actions, k, m, states[m].pc.i, on)
    decreases m
  {
    assert m > k + 1 && Moves(states[m - 1], actions[m - 1], states[m]);
    if SeesOn(states[m - 1], actions[m - 1], states[m].pc.i) {
      on := m - 1;
    } else {
      on := BusyWithOn(states, actions, k, m - 1);
    }
  }

  /** From `due` to `m` the thread is in one check. */
  ghost predicate OneCheck(states: seq<State>, due: nat, m: nat) {
    && due < m < |states| && states[due + 1].pc.Checking?
    && forall j :: due < j <= m ==> InCheck(states[j].pc)
  }

  lemma {:induction false} BusyWithDue(states: seq<State>, actions: seq<Action>, k: nat, m: nat)
    returns (on: nat, due: nat)
    requires MoveSteps(states, actions, k, m) && InCheck(states[m].pc)
    ensures SeenOnAt(states, actions, k, m, states[m].pc.i, on)
    ensures DueAt(states, actions, on, m, states[m].pc.i, due) && OneCheck(states, due, m)
    decreases m
  {
    assert m > k + 1 && Moves(states[m - 1], actions[m - 1], states[m]);
    if FindsDue(states[m - 1], actions[m - 1], states[m].pc.i) && states[m].pc.Checking? {
      due := m - 1;
      on := BusyWithOn(states, actions, k, m - 1);
    } else {
      on, due := BusyWithDue(states, actions, k, m - 1);
    }
  }

  lemma ToldAfter(
      configs: seq<Config>, clock: int, states: seq<State>, actions: seq<Action>, due: nat, m: nat)
    requires IsRun(configs, clock, states, actions) && due < m < |actions|
    requires InCheck(states[m].pc) && InCheck(states[m + 1].pc) && Told(states[m], actions[due + 1..m])
    requires actions[m].Stamp? ==> !states[m].pc.Stamping?
    ensures Told(states[m + 1], actions[due + 1..m + 1])
  {
    RunKeepsInv(configs, clock, states, actions, m);
    ToldStep(states[m], actions[m], actions[due + 1..m]);
    assert actions[due + 1..m] + [actions[m]] == actions[due + 1..m + 1];
  }

  lemma StampLeaves(s: State)
    requires Enabled(s, Stamp)
    ensures !InCheck(Apply(s, Stamp).pc)
  {
  }

  ghost predicate ToldAt(states: seq<State>, actions: seq<Action>, due: nat, j: nat) {
    due < j <= |actions| < |states| && Told(states[j], actions[due + 1..j])
  }

  lemma {:induction false} ToldUpTo(states: seq<State>, actions: seq<Action>, due: nat, m: nat)
    requires due < m && ToldAt(states, actions, due, due + 1)
    requires forall j :: due < j < m && ToldAt(states, actions, due, j) ==> ToldAt(states, actions, due, j + 1)
    ensures ToldAt(states, actions, due, m)
    decreases m
  {
    if m > due + 1 { ToldUpTo(states, actions, due, m - 1); }
  }

  lemma ToldThroughout(
      configs: seq<Config>, clock: int, states: seq<State>, actions: seq<Action>, due: nat, m: nat)
    requires IsRun(configs, clock, states, actions) && m <= |actions| && OneCheck(states, due, m)
    ensures ToldAt(states, actions, due, m)
  {
    assert actions[due + 1..due + 1] == [];
    forall j | due < j < m && ToldAt(states, actions, due, j)
      ensures ToldAt(states, actions, due, j + 1)
    {
      if actions[j].Stamp? { StampLeaves(states[j]); }
      ToldAfter(configs, clock, states, actions, due, j);
    }
    ToldUpTo(states, actions, due, m);
  }

  // ----- results

  /** At `j` the thread ends a round on config `i`. It saw the switch on at `on` and the
      period over at `due`, both since the tick `k`; the round is what it did from there,
      with the switching off behind an alarm; the config is stamped with the tick's time. */
  ghost predicate RoundEnds(
      states: seq<State>, actions: seq<Action>, k: nat, j: nat, i: nat, on: nat, due: nat) {
    && k < on < due < j < |actions| < |states|
    && actions[on].ReadSwitch? && i < |states[on].configs| && states[on].configs[i].on
    && actions[due].ReadLast? && i < |states[due].configs|
    && states[k].clock - states[due].configs[i].last >= states[due].configs[i].period
    && states[on].pc == AtConfig(i) && states[due].pc == SeenOn(i)
    && actions[j].Stamp? && states[j].pc == Stamping(i)
    && var r := states[j].round;
       && r.config == i && r.time == states[k].clock
       && Records(r, actions[due + 1..j]) && (SwitchOff in actions[due + 1..j] <==> r.alarmed)
       && states[j + 1].done == states[j].done + [r]
       && i < |states[j + 1].configs| && states[j + 1].configs[i].last == states[k].clock
  }

  lemma StampEndsRound(
      configs: seq<Config>, clock: int, states: seq<State>, actions: seq<Action>, k: nat, j: nat, i: nat)
    returns (on: nat, due: nat)
    requires IsRun(configs, clock, states, actions) && k < j < |actions| && SinceTick(actions, k, j)
    requires Stamps(states[j], actions[j], i)
    ensures RoundEnds(states, actions, k, j, i, on, due)
  {
    RunMoveSteps(configs, clock, states, actions, k, j);
    on, due := BusyWithDue(states, actions, k, j);
    ToldThroughout(configs, clock, states, actions, due, j);
    RunKeepsInv(configs, clock, states, actions, j);
    TickTime(configs, clock, states, actions, k, j);
    TickTime(configs, clock, states, actions, k, due);
  }

  /** A config the thread is past since the last tick was left once, at `j`: its switch was
      off, or less than its period had gone by since its last check, or else a round on it
      has ended. So every config that is read on and due is checked, and no other. */
  lemma EveryConfigIsVisited(
      configs: seq<Config>, clock: int, states: seq<State>, actions: seq<Action>, k: nat, m: nat, i: nat)
    returns (j: nat, on: nat, due: nat)
    requires IsRun(configs, clock, states, actions) && SinceTick(actions, k, m) && i < |configs|
    requires states[m].pc.Sleeping? || i < states[m].pc.i
    ensures k < j < m && |states[j].configs| == |configs|
    ensures || (actions[j].ReadSwitch? && states[j].pc == AtConfig(i) && !states[j].configs[i].on)
            || (actions[j].ReadLast? && states[j].pc == SeenOn(i) &&
                states[k].clock - states[j].configs[i].last < configs[i].period)
            || RoundEnds(states, actions, k, j, i, on, due)
    ensures forall j' :: k < j' < m && j' != j ==>
              && !SeesOff(states[j'], actions[j'], i)
              && !FindsEarly(states[j'], actions[j'], i)
              && !Stamps(states[j'], actions[j'], i)
  {
    RunPastSteps(configs, clock, states, actions, k, m, i);
    LeftOnce(states, actions, k, m, i);
    assert Past(states[m].pc, i);
    j :| k < j < m && Leaves(states[j], actions[j], i);
    on, due := 0, 0;
    RunKeepsInv(configs, clock, states, actions, j);
    if j == k + 1 {
      assert states[j].pc == AtConfig(0) && states[j].now == states[k].clock;
    } else {
      assert SinceTick(actions, k, j);
      TickTime(configs, clock, states, actions, k, j);
      if Stamps(states[j], actions[j], i) {
        on, due := StampEndsRound(configs, clock, states, actions, k, j, i);
      }
    }
  }

  // ----- the stamp and the switch of a config

  predicate StampsConfig(s: State, a: Action, i: nat) {
    (a.Stamp? && s.pc == Stamping(i)) || (a.Finish? && s.handler.HalfDone? && s.handler.i == i)
  }

  lemma StampedStep(s: State, a: Action, i: nat)
    requires Enabled(s, a) && i < |s.configs|
    ensures |Apply(s, a).configs| == |s.configs|
    ensures Apply(s, a).configs[i].last ==
            if a.Stamp? && s.pc == Stamping(i) then s.now
            else if a.Finish? && s.handler.i == i then s.clock
            else s.configs[i].last
  {
  }

  lemma {:induction false} StampStays(states: seq<State>, i: nat, w: nat, m: nat)
    requires w <= m < |states| && forall j :: w <= j <= m ==> i < |states[j].configs|
    requires forall j :: w <= j < m ==> states[j + 1].configs[i].last == states[j].configs[i].last
    ensures states[m].configs[i].last == states[w].configs[i].last
    decreases m
  {
    if w < m { StampStays(states, i, w, m - 1); }
  }

  /** From `w` to `m` nothing stamps config `i`. */
  ghost predicate NotStamped(states: seq<State>, actions: seq<Action>, i: nat, w: nat, m: nat) {
    w <= m <= |actions| < |states| && forall j :: w <= j < m ==> !StampsConfig(states[j], actions[j], i)
  }

  lemma UnstampedStays(
      configs: seq<Config>, clock: int, states: seq<State>, actions: seq<Action>, w: nat, m: nat, i: nat)
    requires IsRun(configs, clock, states, actions) && i < |configs| && NotStamped(states, actions, i, w, m)
    ensures |states[w].configs| == |states[m].configs| == |configs|
    ensures states[m].configs[i].last == states[w].configs[i].last
  {
    forall j | w <= j <= m
      ensures |states[j].configs| == |configs|
      ensures j < m ==> states[j + 1].configs[i].last == states[j].configs[i].last
    {
      ConfigsStay(configs, clock, states, actions, j);
      if j < m { StampedStep(states[j], actions[j], i); }
    }
    StampStays(states, i, w, m);
  }

  /** The last check time of a config is the tick time of its last round or the time of its
      last command, whichever was written last; before the first it is the loaded one. */
  lemma LastCheckTime(
      configs: seq<Config>, clock: int, states: seq<State>, actions: seq<Action>, w: nat, m: nat, i: nat)
    requires IsRun(configs, clock, states, actions) && w < m <= |actions| && i < |configs|
    requires NotStamped(states, actions, i, w + 1, m)
    ensures |states[m].configs| == |configs|
    ensures actions[w].Stamp? && states[w].pc == Stamping(i) ==> states[m].configs[i].last == states[w].now
    ensures actions[w].Finish? && states[w].handler.HalfDone? && states[w].handler.i == i ==>
              states[m].configs[i].last == states[w].clock
    ensures NotStamped(states, actions, i, 0, m) ==> states[m].configs[i].last == configs[i].last
  {
    UnstampedStays(configs, clock, states, actions, w + 1, m, i);
    ConfigsStay(configs, clock, states, actions, w);
    StampedStep(states[w], actions[w], i);
    if NotStamped(states, actions, i, 0, m) { UnstampedStays(configs, clock, states, actions, 0, m, i); }
  }

  // ----- the commands

  function Finishes(trace: seq<Action>): nat {
    if trace == [] then 0
    else Finishes(trace[..|trace| - 1]) + if trace[|trace| - 1].Finish? then 1 else 0
  }

  /** After `n` commands monitoring runs exactly if `n` is odd, and every other one was a
      start; the one under way is for the other state. */
  ghost predicate AfterCommands(s: State, n: nat) {
    && (s.running <==> n % 2 == 1) && |s.starts| == (n + 1) / 2
    && (s.handler.HalfDone? ==> s.handler.on == !s.running)
  }

  lemma CommandsStep(s: State, a: Action, n: nat)
    requires Enabled(s, a) && AfterCommands(s, n)
    ensures AfterCommands(Apply(s, a), if a.Finish? then n + 1 else n)
  {
  }

  /** Commands that succeed are starts and stops in turn, beginning with a start, whatever
      the thread switches off. */
  lemma {:induction false} CommandsAlternate(
      configs: seq<Config>, clock: int, states: seq<State>, actions: seq<Action>, m: nat)
    requires IsRun(configs, clock, states, actions) && m < |states|
    ensures AfterCommands(states[m], Finishes(actions[..m]))
  {
    if m > 0 {
      CommandsAlternate(configs, clock, states, actions, m - 1);
      CommandsStep(states[m - 1], actions[m - 1], Finishes(actions[..m - 1]));
      assert actions[..m][..m - 1] == actions[..m - 1];
    }
  }

  lemma HandlerStep(s: State, a: Action)
    requires Enabled(s, a) && Apply(s, a).handler.HalfDone?
    ensures var h := Apply(s, a).handler;
            if s.handler.Idle? then a == SetSwitch(h.i, h.on) else !a.SetSwitch? && !a.Finish? && h == s.handler
  {
  }

  /** The command under way set its switch at `k`, and is the last that did. */
  lemma {:induction false} CommandUnderWay(
      configs: seq<Config>, clock: int, states: seq<State>, actions: seq<Action>, m: nat)
    returns (k: nat)
    requires IsRun(configs, clock, states, actions) && m < |states| && states[m].handler.HalfDone?
    ensures k < m && actions[k] == SetSwitch(states[m].handler.i, states[m].handler.on)
    ensures forall j :: k < j < m ==> !actions[j].SetSwitch? && !actions[j].Finish?
  {
    HandlerStep(states[m - 1], actions[m - 1]);
    if states[m - 1].handler.Idle? {
      k := m - 1;
    } else {
      k := CommandUnderWay(configs, clock, states, actions, m - 1);
    }
  }

  // ----- the thread gets on

  predicate OfThread(a: Action) { !a.Advance? && !a.SetSwitch? && !a.Finish? }

  ghost predicate InBounds(s: State) {
    && (s.pc.Sleeping? || s.pc.i <= |s.configs|)
    && (s.pc.Sleeping? || s.pc.AtConfig? || s.pc.i < |s.configs|)
    && (s.handler.HalfDone? ==> s.handler.i < |s.configs|)
  }

  lemma BoundsStep(s: State, a: Action)
    requires Enabled(s, a) && InBounds(s)
    ensures InBounds(Apply(s, a)) && |Apply(s, a).configs| == |s.configs|
  {
  }

  lemma {:induction false} RunInBounds(
      configs: seq<Config>, clock: int, states: seq<State>, actions: seq<Action>, m: nat)
    requires IsRun(configs, clock, states, actions) && m < |states|
    ensures InBounds(states[m]) && RoundInv(states[m]) && |states[m].configs| == |configs|
  {
    RunKeepsInv(configs, clock, states, actions, m);
    if m > 0 {
      RunInBounds(configs, clock, states, actions, m - 1);
      BoundsStep(states[m - 1], actions[m - 1]);
    }
  }

  /** In every reachable state the thread can act, and so can the handler: it takes a start
      when process monitoring is stopped and a stop when it runs, or ends its command. */
  lemma NothingBlocks(configs: seq<Config>, clock: int, states: seq<State>, actions: seq<Action>, m: nat)
    requires IsRun(configs, clock, states, actions) && m < |states|
    ensures exists a :: OfThread(a) && Enabled(states[m], a)
    ensures if states[m].handler.Idle?
            then forall i: nat, on :: Enabled(states[m], SetSwitch(i, on)) <==> i < |configs| && on != states[m].running
            else Enabled(states[m], Finish)
  {
    RunInBounds(configs, clock, states, actions, m);
    var s := states[m];
    var a := match s.pc
      case Sleeping => Tick
      case AtConfig(_) => ReadSwitch
      case SeenOn(_) => ReadLast
      case Checking(_) => Check(true)
      case Recovering(_, _) => Recover
      case Rechecking(_, _) => Recheck(true)
      case Alarming(_) => Alarm
      case SwitchingOff(_) => SwitchOff
      case Stamping(_) => Stamp;
    assert OfThread(a) && Enabled(s, a);
  }

  function StepsOf(trace: seq<Action>): nat {
    if trace == [] then 0
    else StepsOf(trace[..|trace| - 1]) + if OfThread(trace[|trace| - 1]) then 1 else 0
  }

  /** An upper bound on the steps the thread still has before it sleeps. */
  function StepsLeft(pc: Pc, n: nat): int {
    match pc
    case Sleeping => 0
    case AtConfig(i) => 12 * (n - i) + 1
    case SeenOn(i) => 12 * (n - i)
    case Checking(i) => 12 * (n - i) - 1
    case Recovering(i, retry) => 12 * (n - i) - 2 - 2 * retry
    case Rechecking(i, retry) => 12 * (n - i) - 3 - 2 * retry
    case Alarming(i) => 12 * (n - i) - 8
    case SwitchingOff(i) => 12 * (n - i) - 9
    case Stamping(i) => 12 * (n - i) - 10
  }

  lemma StepCounts(s: State, a: Action)
    requires Enabled(s, a) && RoundInv(s) && InBounds(s) && !a.Tick?
    ensures var n := |s.configs|;
            StepsLeft(Apply(s, a).pc, n) <= StepsLeft(s.pc, n) - if OfThread(a) then 1 else 0
  {
  }

  ghost predicate CountSteps(states: seq<State>, actions: seq<Action>, k: nat, m: nat, n: nat) {
    && k < m <= |actions| < |states| && states[k + 1].pc == AtConfig(0)
    && forall j :: k < j < m ==>
         StepsLeft(states[j + 1].pc, n) <= StepsLeft(states[j].pc, n) - if OfThread(actions[j]) then 1 else 0
  }

  lemma {:induction false} StepsSinceTick(states: seq<State>, actions: seq<Action>, k: nat, m: nat, n: nat)
    requires CountSteps(states, actions, k, m, n)
    ensures StepsOf(actions[k + 1..m]) + StepsLeft(states[m].pc, n) <= 12 * n + 1
    decreases m
  {
    if m > k + 1 {
      StepsSinceTick(states, actions, k, m - 1, n);
      assert actions[k + 1..m][..m - 1 - k - 1] == actions[k + 1..m - 1];
    }
  }

  lemma RunCountSteps(
      configs: seq<Config>, clock: int, states: seq<State>, actions: seq<Action>, k: nat, m: nat)
    requires IsRun(configs, clock, states, actions) && SinceTick(actions, k, m)
    ensures CountSteps(states, actions, k, m, |configs|)
  {
    forall j | k < j < m
      ensures StepsLeft(states[j + 1].pc, |configs|) <=
              StepsLeft(states[j].pc, |configs|) - if OfThread(actions[j]) then 1 else 0
    {
      RunInBounds(configs, clock, states, actions, j);
      StepCounts(states[j], actions[j]);
    }
  }

  /** The thread takes at most 12 steps for each config, and one, from a tick until it sleeps. */
  lemma TicksEnd(configs: seq<Config>, clock: int, states: seq<State>, actions: seq<Action>, k: nat, m: nat)
    requires IsRun(configs, clock, states, actions) && SinceTick(actions, k, m)
    ensures StepsOf(actions[k + 1..m]) <= 12 * |configs| + 1
    ensures StepsOf(actions[k + 1..m]) == 12 * |configs| + 1 ==> states[m].pc.Sleeping?
  {
    RunCountSteps(configs, clock, states, actions, k, m);
    StepsSinceTick(states, actions, k, m, |configs|);
    RunInBounds(configs, clock, states, actions, m);
  }
}
