/** The monitor thread against the command handler (proc.c): two threads share the
    switch and the last check time of every config. Each read or write of a shared
    field and each external command is one step, and steps interleave freely. */
module Monitor {
  const MAX_RETRIES: nat := 3

  datatype Config = Config(period: int, on: bool, last: int)

  /** Where the monitor thread is: between ticks, about to read the switch of a config,
      about to read its last check time, and so on through a round of checks. */
  datatype Pc =
    | Sleeping
    | AtConfig(i: nat) | SeenOn(i: nat)
    | Checking(i: nat) | Recovering(i: nat, retry: nat) | Rechecking(i: nat, retry: nat)
    | Alarming(i: nat) | SwitchingOff(i: nat) | Stamping(i: nat)

  /** The handler idles, or has set a switch and is about to stamp the config. */
  datatype Handler = Idle | HalfDone(i: nat, on: bool)

  /** One round on a config: the tick time, the outcomes of the check and the re-checks,
      the recovery attempts, and whether the alarm ran. */
  datatype Round = Round(config: nat, time: int, statuses: seq<bool>, recoveries: nat, alarmed: bool)

  const NO_ROUND := Round(0, 0, [], 0, false)

  /** `starts` lists the configs of the successful start commands, `done` the rounds the
      thread has ended, and `round` is the one it is in, if it is in one. */
  datatype State = State(
    configs: seq<Config>, clock: int, now: int, pc: Pc, handler: Handler, running: bool,
    starts: seq<nat>, done: seq<Round>, round: Round)

  datatype Action =
    | Advance(seconds: nat)
    | Tick | ReadSwitch | ReadLast | Check(ok: bool) | Recover | Recheck(ok: bool) | Alarm | SwitchOff | Stamp
    | SetSwitch(i: nat, on: bool) | Finish

  predicate Enabled(s: State, a: Action) {
    match a
    case Advance(_) => true
    case Tick => s.pc.Sleeping?
    case ReadSwitch => s.pc.AtConfig? && s.pc.i <= |s.configs|
    case ReadLast => s.pc.SeenOn? && s.pc.i < |s.configs|
    case Check(_) => s.pc.Checking?
    case Recover => s.pc.Recovering? && s.pc.retry < MAX_RETRIES
    case Recheck(_) => s.pc.Rechecking?
    case Alarm => s.pc.Alarming?
    case SwitchOff => s.pc.SwitchingOff? && s.pc.i < |s.configs|
    case Stamp => s.pc.Stamping? && s.pc.i < |s.configs|
    case SetSwitch(i, on) => s.handler.Idle? && i < |s.configs| && on == !s.running
    case Finish => s.handler.HalfDone? && s.handler.i < |s.configs|
  }

  function Apply(s: State, a: Action): State
    requires Enabled(s, a)
  {
    match a
    case Advance(seconds) => s.(clock := s.clock + seconds)
    case Tick => s.(now := s.clock, pc := AtConfig(0))
    case ReadSwitch =>
      if s.pc.i == |s.configs| then s.(pc := Sleeping)
      else s.(pc := if s.configs[s.pc.i].on then SeenOn(s.pc.i) else AtConfig(s.pc.i + 1))
    case ReadLast =>
      var c := s.configs[s.pc.i];
      s.(pc := if s.now - c.last >= c.period then Checking(s.pc.i) else AtConfig(s.pc.i + 1))
    case Check(ok) =>
      s.(round := Round(s.pc.i, s.now, [ok], 0, false), pc := if ok then Stamping(s.pc.i) else Recovering(s.pc.i, 0))
    case Recover =>
      s.(round := s.round.(recoveries := s.round.recoveries + 1), pc := Rechecking(s.pc.i, s.pc.retry))
    case Recheck(ok) =>
      s.(round := s.round.(statuses := s.round.statuses + [ok]),
         pc := if ok then Stamping(s.pc.i)
               else if s.pc.retry + 1 < MAX_RETRIES then Recovering(s.pc.i, s.pc.retry + 1)
               else Alarming(s.pc.i))
    case Alarm => s.(round := s.round.(alarmed := true), pc := SwitchingOff(s.pc.i))
    case SwitchOff =>
      s.(configs := s.configs[s.pc.i := s.configs[s.pc.i].(on := false)], pc := Stamping(s.pc.i))
    case Stamp =>
      s.(configs := s.configs[s.pc.i := s.configs[s.pc.i].(last := s.now)], pc := AtConfig(s.pc.i + 1),
         done := s.done + [s.round])
    case SetSwitch(i, on) =>
      s.(configs := s.configs[i := s.configs[i].(on := on)], handler := HalfDone(i, on))
    case Finish =>
      s.(configs := s.configs[s.handler.i := s.configs[s.handler.i].(last := s.clock)], handler := Idle,
         running := s.handler.on, starts := if s.handler.on then s.starts + [s.handler.i] else s.starts)
  }

  function Initial(configs: seq<Config>, clock: int): State {
    State(configs, clock, clock, Sleeping, Idle, false, [], [], NO_ROUND)
  }

  /** A run: the states passed through and the actions between them. */
  ghost predicate IsRun(configs: seq<Config>, clock: int, states: seq<State>, actions: seq<Action>) {
    && |states| == |actions| + 1 && states[0] == Initial(configs, clock)
    && forall k :: 0 <= k < |actions| ==>
         Enabled(states[k], actions[k]) && states[k + 1] == Apply(states[k], actions[k])
  }

  // ----- what is counted

  /** The monitor thread is in a round on a config, which it will end by a stamp. */
  predicate InRound(pc: Pc) {
    pc.Recovering? || pc.Rechecking? || pc.Alarming? || pc.SwitchingOff? || pc.Stamping?
  }

  /** All rounds begun so far. */
  function Rounds(s: State): seq<Round> { if InRound(s.pc) then s.done + [s.round] else s.done }

  function AlarmsOf(rounds: seq<Round>, i: nat): nat {
    if rounds == [] then 0
    else
      var r := rounds[|rounds| - 1];
      AlarmsOf(rounds[..|rounds| - 1], i) + if r.config == i && r.alarmed then 1 else 0
  }

  function StartsOf(starts: seq<nat>, i: nat): nat {
    if starts == [] then 0
    else StartsOf(starts[..|starts| - 1], i) + if starts[|starts| - 1] == i then 1 else 0
  }

  /** The alarms a config may have run: one if it was on at first, and one for each
      start, counting the one whose switch is set and whose answer is due. */
  function Allowance(configs: seq<Config>, s: State, i: nat): nat
    requires i < |configs|
  {
    (if configs[i].on then 1 else 0) + StartsOf(s.starts, i) + (if s.handler == HalfDone(i, true) then 1 else 0)
  }

  // ----- invariants

  predicate AllFailed(statuses: seq<bool>) { forall k :: 0 <= k < |statuses| ==> !statuses[k] }

  /** A finished round stops at the first success; it runs one recovery before each
      re-check; and the alarm runs exactly when the check and three re-checks fail. */
  predicate Finished(r: Round) {
    && 1 <= |r.statuses| <= 4
    && (forall k :: 0 <= k < |r.statuses| - 1 ==> !r.statuses[k])
    && r.recoveries == |r.statuses| - 1
    && (r.alarmed <==> |r.statuses| == 4 && AllFailed(r.statuses))
    && (!r.alarmed ==> r.statuses[|r.statuses| - 1])
  }

  /** A round under way after `checks` failed checks. */
  predicate Failing(r: Round, checks: nat, recoveries: nat) {
    |r.statuses| == checks && AllFailed(r.statuses) && r.recoveries == recoveries && !r.alarmed
  }

  ghost predicate RoundInv(s: State) {
    && (match s.pc
        case Recovering(_, retry) => retry < MAX_RETRIES && Failing(s.round, retry + 1, retry)
        case Rechecking(_, retry) => retry < MAX_RETRIES && Failing(s.round, retry + 1, retry + 1)
        case Alarming(_) => Failing(s.round, MAX_RETRIES + 1, MAX_RETRIES)
        case SwitchingOff(_) => Finished(s.round) && s.round.alarmed
        case Stamping(_) => Finished(s.round)
        case _ => true)
    && (InRound(s.pc) ==> s.round.config == s.pc.i && s.round.time == s.now)
  }

  ghost predicate DoneInv(s: State) { forall k :: 0 <= k < |s.done| ==> Finished(s.done[k]) }

  /** The thread has seen the switch on and may still run the alarm. */
  predicate Committed(pc: Pc, i: nat) {
    (pc.SeenOn? || pc.Checking? || pc.Recovering? || pc.Rechecking? || pc.Alarming?) && pc.i == i
  }

  /** Alarms of the ended rounds, and of the present one. */
  function Alarms(s: State, i: nat): nat {
    AlarmsOf(s.done, i) + if InRound(s.pc) && s.round.config == i && s.round.alarmed then 1 else 0
  }

  /** What the alarm invariant says of one config. */
  ghost predicate AlarmInvAt(configs: seq<Config>, s: State, i: nat)
    requires i < |configs| == |s.configs|
  {
    && Alarms(s, i) <= Allowance(configs, s, i)
    && (Committed(s.pc, i) || (s.configs[i].on && s.pc != SwitchingOff(i)) ==> Alarms(s, i) < Allowance(configs, s, i))
  }

  ghost predicate AlarmInv(configs: seq<Config>, s: State) {
    |s.configs| == |configs| && forall i :: 0 <= i < |configs| ==> AlarmInvAt(configs, s, i)
  }

  /** No ended round is later than its config's last stamp, unless the thread is in a
      round on that config; and a round begins a period after the last stamp it read. */
  ghost predicate StampInv(configs: seq<Config>, s: State) {
    && |s.configs| == |configs| && s.now <= s.clock
    && (forall i :: 0 <= i < |configs| ==> s.configs[i].period == configs[i].period)
    && (s.pc.SeenOn? || s.pc.Checking? || InRound(s.pc) ==> s.pc.i < |configs|)
    && forall k :: 0 <= k < |s.done| ==>
         var r := s.done[k];
         && r.config < |configs| && r.time <= s.now && r.time <= s.configs[r.config].last
         && (s.pc.Checking? || InRound(s.pc) ==> s.pc.i == r.config ==> s.now - r.time >= configs[r.config].period)
  }

  ghost predicate SpacingInv(configs: seq<Config>, s: State) {
    forall j, k :: 0 <= j < k < |s.done| && s.done[j].config == s.done[k].config < |configs| ==>
      s.done[k].time - s.done[j].time >= configs[s.done[k].config].period
  }

  ghost predicate Inv(configs: seq<Config>, s: State) {
    RoundInv(s) && DoneInv(s) && AlarmInv(configs, s) && StampInv(configs, s) && SpacingInv(configs, s)
  }

  lemma RecheckedRound(r: Round, retry: nat, ok: bool)
    requires retry < MAX_RETRIES && Failing(r, retry + 1, retry + 1)
    ensures var r' := r.(statuses := r.statuses + [ok]);
            if ok then Finished(r') else Failing(r', retry + 2, retry + 1)
  {
    var st := r.statuses + [ok];
    assert st[|st| - 1] == ok;
  }

  lemma CheckStep(s: State, a: Action)
    requires Enabled(s, a) && RoundInv(s) && (a.Check? || a.Recover? || a.Recheck?)
    ensures RoundInv(Apply(s, a))
  {
    if a.Check? { assert [a.ok][0] == a.ok; }
    if a.Recheck? { RecheckedRound(s.round, s.pc.retry, a.ok); }
  }

  lemma RoundStep(s: State, a: Action)
    requires Enabled(s, a) && RoundInv(s)
    ensures RoundInv(Apply(s, a))
  {
    if a.Check? || a.Recover? || a.Recheck? {
      CheckStep(s, a);
    } else if !a.Alarm? {
      assert Apply(s, a).round == s.round;
    }
  }

  lemma DoneStep(s: State, a: Action)
    requires Enabled(s, a) && RoundInv(s) && DoneInv(s)
    ensures DoneInv(Apply(s, a))
  {
  }

  lemma AlarmsOfMore(rounds: seq<Round>, r: Round, i: nat)
    ensures AlarmsOf(rounds + [r], i) == AlarmsOf(rounds, i) + if r.config == i && r.alarmed then 1 else 0
  {
    assert (rounds + [r])[..|rounds|] == rounds;
  }

  lemma StartsOfMore(starts: seq<nat>, start: nat, i: nat)
    ensures StartsOf(starts + [start], i) == StartsOf(starts, i) + if start == i then 1 else 0
  {
    assert (starts + [start])[..|starts|] == starts;
  }

  lemma AlarmCountStep(s: State, a: Action, i: nat)
    requires Enabled(s, a) && RoundInv(s)
    ensures Alarms(Apply(s, a), i) == Alarms(s, i) + if a.Alarm? && s.pc.i == i then 1 else 0
  {
    if a.Stamp? {
      AlarmsOfMore(s.done, s.round, i);
    } else {
      assert Apply(s, a).done == s.done;
    }
  }

  lemma AllowanceStep(configs: seq<Config>, s: State, a: Action, i: nat)
    requires Enabled(s, a) && i < |configs|
    ensures Allowance(configs, Apply(s, a), i) == Allowance(configs, s, i) + if a == SetSwitch(i, true) then 1 else 0
  {
    if a.Finish? {
      StartsOfMore(s.starts, s.handler.i, i);
    } else {
      assert Apply(s, a).starts == s.starts;
    }
  }

  lemma CountsStep(configs: seq<Config>, s: State, a: Action, i: nat)
    requires Enabled(s, a) && RoundInv(s) && i < |configs|
    ensures Alarms(Apply(s, a), i) == Alarms(s, i) + if a.Alarm? && s.pc.i == i then 1 else 0
    ensures Allowance(configs, Apply(s, a), i) == Allowance(configs, s, i) + if a == SetSwitch(i, true) then 1 else 0
  {
    AlarmCountStep(s, a, i);
    AllowanceStep(configs, s, a, i);
  }

  /** A config is on afterwards only if it was on, or the command switches it on; and the
      thread commits itself only to a config it has seen on. */
  lemma CommitStep(s: State, a: Action, i: nat)
    requires Enabled(s, a) && i < |s.configs|
    ensures |Apply(s, a).configs| == |s.configs|
    ensures var s' := Apply(s, a);
            Committed(s'.pc, i) || (s'.configs[i].on && s'.pc != SwitchingOff(i)) ==>
              || a == SetSwitch(i, true)
              || Committed(s.pc, i) || (s.configs[i].on && s.pc != SwitchingOff(i))
    ensures a.Alarm? && s.pc.i == i ==>
              && Committed(s.pc, i) && Apply(s, a).pc == SwitchingOff(i)
  {
  }

  lemma AlarmStepAt(configs: seq<Config>, s: State, a: Action, i: nat)
    requires Enabled(s, a) && RoundInv(s) && i < |configs| == |s.configs| && AlarmInvAt(configs, s, i)
    ensures |Apply(s, a).configs| == |s.configs| && AlarmInvAt(configs, Apply(s, a), i)
  {
    CountsStep(configs, s, a, i);
    CommitStep(s, a, i);
  }

  lemma AlarmStep(configs: seq<Config>, s: State, a: Action)
    requires Enabled(s, a) && RoundInv(s) && AlarmInv(configs, s)
    ensures AlarmInv(configs, Apply(s, a))
  {
    forall i | 0 <= i < |configs|
      ensures |Apply(s, a).configs| == |configs| && AlarmInvAt(configs, Apply(s, a), i)
    {
      AlarmStepAt(configs, s, a, i);
    }
    assert |Apply(s, a).configs| == |configs|;
  }

  lemma StampStep(configs: seq<Config>, s: State, a: Action)
    requires Enabled(s, a) && RoundInv(s) && StampInv(configs, s)
    ensures StampInv(configs, Apply(s, a))
  {
    if a.Stamp? {
      assert Apply(s, a).done == s.done + [s.round];
    } else {
      assert Apply(s, a).done == s.done;
    }
  }

  lemma SpacingStep(configs: seq<Config>, s: State, a: Action)
    requires Enabled(s, a) && RoundInv(s) && StampInv(configs, s) && SpacingInv(configs, s)
    ensures SpacingInv(configs, Apply(s, a))
  {
  }

  lemma {:induction false} RunKeepsInv(
      configs: seq<Config>, clock: int, states: seq<State>, actions: seq<Action>, k: nat)
    requires IsRun(configs, clock, states, actions) && k < |states|
    ensures Inv(configs, states[k])
  {
    if k > 0 {
      var s, a := states[k - 1], actions[k - 1];
      RunKeepsInv(configs, clock, states, actions, k - 1);
      RoundStep(s, a);
      DoneStep(s, a);
      AlarmStep(configs, s, a);
      StampStep(configs, s, a);
      SpacingStep(configs, s, a);
    }
  }

  // ----- results

  /** A config runs at most one alarm more than its successful starts if it was on at
      first, and no more than its successful starts otherwise. */
  lemma AlarmsAreAuthorised(configs: seq<Config>, clock: int, states: seq<State>, actions: seq<Action>, k: nat, i: nat)
    requires IsRun(configs, clock, states, actions) && k < |states| && i < |configs|
    ensures AlarmsOf(Rounds(states[k]), i) <= Allowance(configs, states[k], i)
    ensures states[k].handler.Idle? ==>
              AlarmsOf(Rounds(states[k]), i) <= (if configs[i].on then 1 else 0) + StartsOf(states[k].starts, i)
  {
    RunKeepsInv(configs, clock, states, actions, k);
    assert AlarmInvAt(configs, states[k], i);
    AlarmsOfMore(states[k].done, states[k].round, i);
  }

  /** Any two rounds on one config begin at tick times at least its period apart. */
  lemma ChecksAreSpaced(
      configs: seq<Config>, clock: int, states: seq<State>, actions: seq<Action>, k: nat, a: nat, b: nat)
    requires IsRun(configs, clock, states, actions) && k < |states| && a < b < |Rounds(states[k])|
    requires Rounds(states[k])[a].config == Rounds(states[k])[b].config
    ensures Rounds(states[k])[b].config < |configs|
    ensures Rounds(states[k])[b].time - Rounds(states[k])[a].time >= configs[Rounds(states[k])[b].config].period
  {
    RunKeepsInv(configs, clock, states, actions, k);
  }

  lemma RoundsAreBounded(s: State, j: nat)
    requires RoundInv(s) && DoneInv(s) && j < |Rounds(s)|
    ensures Rounds(s)[j].recoveries <= 3
    ensures j < |s.done| || s.pc.SwitchingOff? || s.pc.Stamping? ==> Finished(Rounds(s)[j])
  {
    if j < |s.done| { assert Rounds(s)[j] == s.done[j]; }
  }

  /** Every round has at most three recoveries, one for each re-check and before it; and
      once the last check of a round is over, and its alarm if it needs one, the alarm ran
      exactly when the check and all three re-checks failed. */
  lemma RoundsEndRight(configs: seq<Config>, clock: int, states: seq<State>, actions: seq<Action>, k: nat, j: nat)
    requires IsRun(configs, clock, states, actions) && k < |states| && j < |Rounds(states[k])|
    ensures Rounds(states[k])[j].recoveries <= 3
    ensures j < |states[k].done| || states[k].pc.SwitchingOff? || states[k].pc.Stamping? ==>
              Finished(Rounds(states[k])[j])
    ensures states[k].pc.Recovering? ==> states[k].round.recoveries == |states[k].round.statuses| - 1
    ensures states[k].pc.Rechecking? ==> states[k].round.recoveries == |states[k].round.statuses|
  {
    RunKeepsInv(configs, clock, states, actions, k);
    RoundsAreBounded(states[k], j);
  }

  lemma OffStep(s: State, a: Action, i: nat)
    requires Enabled(s, a) && RoundInv(s) && i < |s.configs|
    ensures |Apply(s, a).configs| == |s.configs|
    ensures s.configs[i].on && !Apply(s, a).configs[i].on ==>
              a == SetSwitch(i, false) || (a.SwitchOff? && s.round.config == i && s.round.alarmed)
  {
  }

  /** A switch goes off only by a stop command, or behind an alarm of the same config. */
  lemma SwitchedOffByStopOrAlarm(
      configs: seq<Config>, clock: int, states: seq<State>, actions: seq<Action>, k: nat, i: nat)
    requires IsRun(configs, clock, states, actions) && k < |actions| && i < |configs|
    ensures |states[k].configs| == |states[k + 1].configs| == |configs|
    ensures states[k].configs[i].on && !states[k + 1].configs[i].on ==>
              || actions[k] == SetSwitch(i, false)
              || (actions[k].SwitchOff? && states[k].round.config == i && states[k].round.alarmed)
  {
    RunKeepsInv(configs, clock, states, actions, k);
    OffStep(states[k], actions[k], i);
  }

  // ----- a start that is lost

  /** Between `k` and `m` no command sets switch `i`, and no alarm of config `i` runs. */
  ghost predicate LeftAlone(states: seq<State>, actions: seq<Action>, i: nat, k: nat, m: nat) {
    && k < m <= |actions| < |states|
    && forall j :: k < j < m ==> SparesSwitch(states[j], actions[j], i)
  }

  predicate SparesSwitch(s: State, a: Action, i: nat) {
    && !(a.SetSwitch? && a.i == i)
    && !(a.Alarm? && s.pc.Alarming? && s.pc.i == i)
  }

  /** The thread has switched something off between `k` and `m`. */
  ghost predicate SwitchesOff(actions: seq<Action>, k: nat, m: nat) {
    exists j :: k < j < m && j < |actions| && actions[j].SwitchOff?
  }

  /** One step on a config whose switch was set by a command: the switch goes off exactly
      when the thread was about to switch this config off, and does so. */
  lemma SparedStep(s: State, a: Action, i: nat)
    requires Enabled(s, a) && i < |s.configs| && SparesSwitch(s, a, i)
    ensures |Apply(s, a).configs| == |s.configs|
    ensures Apply(s, a).pc == SwitchingOff(i) <==> s.pc == SwitchingOff(i) && !a.SwitchOff?
    ensures Apply(s, a).configs[i].on <==> s.configs[i].on && !(s.pc == SwitchingOff(i) && a.SwitchOff?)
  {
  }

  lemma SwitchesOffStep(actions: seq<Action>, k: nat, m: nat)
    requires k < m < |actions|
    ensures SwitchesOff(actions, k, m + 1) <==> SwitchesOff(actions, k, m) || actions[m].SwitchOff?
  {
  }

  lemma ConfigsStay(configs: seq<Config>, clock: int, states: seq<State>, actions: seq<Action>, k: nat)
    requires IsRun(configs, clock, states, actions) && k < |states|
    ensures |states[k].configs| == |configs|
  {
    RunKeepsInv(configs, clock, states, actions, k);
  }

  lemma StartSets(s: State, i: nat)
    requires Enabled(s, SetSwitch(i, true))
    ensures Apply(s, SetSwitch(i, true)).pc == s.pc && |Apply(s, SetSwitch(i, true)).configs| == |s.configs|
    ensures Apply(s, SetSwitch(i, true)).configs[i].on
  {
  }

  lemma {:induction false} LostFrom(
      configs: seq<Config>, clock: int, states: seq<State>, actions: seq<Action>, i: nat, k: nat, m: nat)
    requires IsRun(configs, clock, states, actions) && k < m <= |actions| && i < |configs|
    requires actions[k] == SetSwitch(i, true) && LeftAlone(states, actions, i, k, m)
    ensures |states[m].configs| == |configs|
    ensures states[m].pc == SwitchingOff(i) <==> states[k].pc == SwitchingOff(i) && !SwitchesOff(actions, k, m)
    ensures !states[m].configs[i].on <==> states[k].pc == SwitchingOff(i) && SwitchesOff(actions, k, m)
    decreases m
  {
    ConfigsStay(configs, clock, states, actions, k);
    if m == k + 1 {
      StartSets(states[k], i);
    } else {
      assert SparesSwitch(states[m - 1], actions[m - 1], i);
      LostFrom(configs, clock, states, actions, i, k, m - 1);
      SparedStep(states[m - 1], actions[m - 1], i);
      SwitchesOffStep(actions, k, m - 1);
    }
  }

  /** A start that no later command on its config and no later alarm of it undoes is lost
      exactly when its switch was set between an alarm of the same config and the switching
      off that follows, and that has happened by now. */
  lemma StartIsLostExactlyBehindAnAlarm(
      configs: seq<Config>, clock: int, states: seq<State>, actions: seq<Action>, i: nat, k: nat, m: nat)
    requires IsRun(configs, clock, states, actions) && k < m <= |actions| && i < |configs|
    requires actions[k] == SetSwitch(i, true) && LeftAlone(states, actions, i, k, m)
    ensures |states[m].configs| == |configs|
    ensures !states[m].configs[i].on <==>
              states[k].pc == SwitchingOff(i) && exists j :: k < j < m && actions[j].SwitchOff?
  {
    LostFrom(configs, clock, states, actions, i, k, m);
  }

  const LOST_START := [
    Advance(1), Tick, ReadSwitch, ReadLast, Check(false),
    Recover, Advance(2), Recheck(false), Recover, Advance(2), Recheck(false), Recover, Advance(2), Recheck(false),
    Alarm, SetSwitch(0, true), Finish, SwitchOff]

  /** The state of the one config after the first `k` actions of the run above. */
  function Lost(k: nat): State
    requires k <= 18
  {
    var s0 := Initial([Config(1, true, 0)], 0);
    var s4 := s0.(clock := 1, now := 1, pc := Checking(0));
    var s5 := s4.(round := Round(0, 1, [false], 0, false), pc := Recovering(0, 0));
    var s8 := s4.(clock := 3, round := Round(0, 1, [false, false], 1, false), pc := Recovering(0, 1));
    var s11 := s4.(clock := 5, round := Round(0, 1, [false, false, false], 2, false), pc := Recovering(0, 2));
    var s14 := s4.(clock := 7, round := Round(0, 1, [false, false, false, false], 3, false), pc := Alarming(0));
    var s15 := s14.(round := s14.round.(alarmed := true), pc := SwitchingOff(0));
    var s17 := s15.(configs := [Config(1, true, 7)], running := true, starts := [0]);
    match k
    case 0 => s0
    case 1 => s0.(clock := 1)
    case 2 => s4.(pc := AtConfig(0))
    case 3 => s4.(pc := SeenOn(0))
    case 4 => s4
    case 5 => s5
    case 6 => s5.(round := s5.round.(recoveries := 1), pc := Rechecking(0, 0))
    case 7 => s5.(clock := 3, round := s5.round.(recoveries := 1), pc := Rechecking(0, 0))
    case 8 => s8
    case 9 => s8.(round := s8.round.(recoveries := 2), pc := Rechecking(0, 1))
    case 10 => s8.(clock := 5, round := s8.round.(recoveries := 2), pc := Rechecking(0, 1))
    case 11 => s11
    case 12 => s11.(round := s11.round.(recoveries := 3), pc := Rechecking(0, 2))
    case 13 => s11.(clock := 7, round := s11.round.(recoveries := 3), pc := Rechecking(0, 2))
    case 14 => s14
    case 15 => s15
    case 16 => s15.(handler := HalfDone(0, true))
    case 17 => s17
    case _ => s17.(configs := [Config(1, false, 7)], pc := Stamping(0))
  }

  predicate LostStep(k: nat)
    requires k < 18
  {
    Enabled(Lost(k), LOST_START[k]) && Lost(k + 1) == Apply(Lost(k), LOST_START[k])
  }

  lemma LostStepsBefore(k: nat)
    requires k < 6
    ensures LostStep(k)
  {
  }

  lemma LostStepsAmid(k: nat)
    requires 6 <= k < 12
    ensures LostStep(k)
  {
  }

  lemma LostStepsAfter(k: nat)
    requires 12 <= k < 18
    ensures LostStep(k)
  {
  }

  /** A run in which this happens: the start falls between the alarm and the switching off,
      is answered with success, and yet leaves its config off, without a stop command and
      without a later alarm. */
  lemma StartCanBeLost() returns (states: seq<State>)
    ensures IsRun([Config(1, true, 0)], 0, states, LOST_START)
    ensures LOST_START[14] == Alarm && LOST_START[15] == SetSwitch(0, true) && LeftAlone(states, LOST_START, 0, 15, 18)
    ensures states[18].starts == [0] && states[18].running && states[18].configs == [Config(1, false, 7)]
  {
    states := seq(19, k requires 0 <= k < 19 => Lost(k));
    forall k | 0 <= k < 18
      ensures Enabled(states[k], LOST_START[k]) && states[k + 1] == Apply(states[k], LOST_START[k])
    {
      if k < 6 { LostStepsBefore(k); } else if k < 12 { LostStepsAmid(k); } else { LostStepsAfter(k); }
      assert LostStep(k);
    }
  }
}
