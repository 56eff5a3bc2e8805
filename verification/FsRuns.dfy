/** Whole runs of the file worker: any sequence of commands and rounds of events, from the
    start of `main`, with a directory that nobody else changes. */
module FsRuns {
  import opened ArgvJoin
  import opened CStrings
  import opened CommandCodec
  import opened Decimals
  import opened FsConfigFile
  import opened FsEvents
  import opened FsStore
  import opened FsWatch
  import opened FsWorker
  import opened MachineWords

  datatype FsInput = Command(parts: seq<string>, env: Inotify) | Events(visits: seq<Visit>)

  predicate IsInput(i: FsInput) { i.Command? ==> |i.env.wds| == MAX_CONFIGS }

  ghost predicate AreInputs(inputs: seq<FsInput>) { forall i :: 0 <= i < |inputs| ==> IsInput(inputs[i]) }

  ghost predicate Runnable(st: FsState) {
    Sized(st) && IndicesBelow(st.watches, MAX_CONFIGS) && |st.log.rows| <= MAX_EVENTS
  }

  function Front(inputs: seq<FsInput>): seq<FsInput>
    requires inputs != []
  {
    inputs[..|inputs| - 1]
  }

  function Final(inputs: seq<FsInput>): FsInput
    requires inputs != []
  {
    inputs[|inputs| - 1]
  }

  function FsStep(st: FsState, i: FsInput): FsState
    requires Runnable(st) && IsInput(i)
  {
    match i
    case Command(parts, env) => CommandStep(st, parts, env)
    case Events(visits) => EventStep(st, visits)
  }

  lemma RewatchKeepsRunnable(st: FsState, env: Inotify)
    requires Runnable(st) && |env.wds| == MAX_CONFIGS
    ensures Runnable(Rewatch(st, env))
  {
    RebuiltIndices(Configs(st), env.wds);
  }

  lemma StepKeepsRunnable(st: FsState, i: FsInput)
    requires Runnable(st) && IsInput(i)
    ensures Runnable(FsStep(st, i))
  {
    match i {
      case Command(parts, env) =>
        var loaded := Reload(st);
        if |parts| >= 2 && (parts[0] == "start" || parts[0] == "stop") {
          SwitchKeepsRunnable(loaded, Atoi(parts[1]), parts[0] == "start", env);
        }
      case Events(visits) =>
    }
  }

  lemma SwitchKeepsRunnable(st: FsState, id: int, on: bool, env: Inotify)
    requires Runnable(st) && |env.wds| == MAX_CONFIGS
    ensures Runnable(SwitchStep(st, id, on, env))
  {
    match Find(Configs(st), id) {
      case None =>
      case Some(k) =>
        var c := st.cells[k].(monitorSwitch := on);
        RewatchKeepsRunnable(Reload(st.(cells := st.cells[k := c], dir := Write(st.dir, c))), env);
    }
  }

  /** The state after the inputs. */
  ghost function FsRun(st: FsState, inputs: seq<FsInput>): (st': FsState)
    requires Runnable(st) && AreInputs(inputs)
    ensures Runnable(st')
  {
    if inputs == [] then st
    else
      var before := FsRun(st, Front(inputs));
      StepKeepsRunnable(before, Final(inputs));
      FsStep(before, Final(inputs))
  }

  lemma StartIsRunnable(dir: seq<DirEntry>, env: Inotify)
    requires |env.wds| == MAX_CONFIGS
    ensures Runnable(StartState(dir, env))
  {
    var empty := FsState(dir, seq(MAX_CONFIGS, _ => FREE_CELL), 0, false, [], [], EventLog([], []), Nothing, []);
    RewatchKeepsRunnable(Reload(empty), env);
  }

  /** The state in which a run begins. */
  ghost function Start(dir: seq<DirEntry>, env: Inotify): (st: FsState)
    requires |env.wds| == MAX_CONFIGS
    ensures Runnable(st)
  {
    StartIsRunnable(dir, env);
    StartState(dir, env)
  }

  // ----- the ring over a run

  /** All events matched in a run, each by the configs and watches of its time. */
  ghost function Recorded(st: FsState, inputs: seq<FsInput>): seq<EventRow>
    requires Runnable(st) && AreInputs(inputs)
  {
    if inputs == [] then []
    else
      var front := Front(inputs);
      Recorded(st, front) + RecordedBy(FsRun(st, front), Final(inputs))
  }

  ghost function RecordedBy(st: FsState, i: FsInput): seq<EventRow>
    requires Runnable(st)
  {
    if i.Events? && st.ready then Matched(st.cells, st.watches, i.visits).rows else []
  }

  lemma CommandKeepsLog(st: FsState, parts: seq<string>, env: Inotify)
    requires Sized(st) && |env.wds| == MAX_CONFIGS
    ensures CommandStep(st, parts, env).log == st.log
  {
  }

  /** The ring holds exactly the last rows recorded, oldest first. */
  lemma {:induction false} RingHoldsTheLast(st: FsState, inputs: seq<FsInput>)
    requires Runnable(st) && AreInputs(inputs)
    ensures FsRun(st, inputs).log.rows == Last(st.log.rows + Recorded(st, inputs), MAX_EVENTS)
  {
    if inputs == [] {
      assert st.log.rows + [] == st.log.rows;
    } else {
      var front, last := Front(inputs), Final(inputs);
      var before := FsRun(st, front);
      RingHoldsTheLast(st, front);
      LastBehind(st.log.rows, Recorded(st, front), RecordedBy(before, last), MAX_EVENTS);
      RowsAfterStep(before, last);
    }
  }

  lemma RowsAfterStep(st: FsState, i: FsInput)
    requires Runnable(st) && IsInput(i)
    ensures FsStep(st, i).log.rows == Last(st.log.rows + RecordedBy(st, i), MAX_EVENTS)
  {
    match i {
      case Command(parts, env) => CommandKeepsLog(st, parts, env);
      case Events(visits) =>
    }
    assert st.log.rows + [] == st.log.rows;
  }

  lemma ListEventsStep(st: FsState, env: Inotify)
    requires Sized(st) && |env.wds| == MAX_CONFIGS
    ensures CommandStep(st, ["list", "events"], env) == Respond(Reload(st).(out := EventRows(st.log.rows)), 0)
  {
  }

  lemma StartLogIsEmpty(dir: seq<DirEntry>, env: Inotify)
    requires |env.wds| == MAX_CONFIGS
    ensures StartState(dir, env).log == EventLog([], [])
  {
  }

  /** What `list events` writes after any run: the last 128 events recorded since the start. */
  lemma ListedEventsAreTheLast(dir: seq<DirEntry>, env: Inotify, inputs: seq<FsInput>, env': Inotify)
    requires |env.wds| == MAX_CONFIGS == |env'.wds| && AreInputs(inputs)
    ensures var st := FsRun(Start(dir, env), inputs);
            && CommandStep(st, ["list", "events"], env').out ==
                 EventRows(Last(Recorded(Start(dir, env), inputs), 128))
            && CommandStep(st, ["list", "events"], env').responses == st.responses + [0]
  {
    StartLogIsEmpty(dir, env);
    var start := Start(dir, env);
    RingHoldsTheLast(start, inputs);
    assert [] + Recorded(start, inputs) == Recorded(start, inputs);
    ListEventsStep(FsRun(start, inputs), env');
  }

  // ----- configs and watches over a run

  /** The configs in use are those in the directory, and their watches those of the last
      rebuild, which got the descriptors `wds`. */
  ghost predicate Synced(st: FsState, wds: seq<int>) {
    && Runnable(st) && |wds| == MAX_CONFIGS
    && Configs(st) == Load(st.dir)
    && st.watches == if st.ready then Rebuilt(Load(st.dir), wds) else []
  }

  /** The command is a start or stop of a loaded config. */
  ghost predicate Switches(st: FsState, i: FsInput) {
    i.Command? && SwitchOf(i).Some? && Find(Load(st.dir), SwitchOf(i).value.0).Some?
  }

  /** The id and switch that a start or stop asks for. */
  function SwitchOf(i: FsInput): Option<(int, bool)>
    requires i.Command?
  {
    if |i.parts| >= 2 && i.parts[0] == "start" then Some((Atoi(i.parts[1]), true))
    else if |i.parts| >= 2 && i.parts[0] == "stop" then Some((Atoi(i.parts[1]), false))
    else None
  }

  lemma ReloadIsSynced(st: FsState)
    requires Runnable(st)
    ensures Configs(Reload(st)) == Load(st.dir) && Runnable(Reload(st))
  {
    LoadIntoIsLoad(st.cells, st.dir);
  }

  /** A start or stop of loaded config `k`, as the worker carries it out. */
  lemma SwitchIsSynced(st: FsState, id: int, on: bool, env: Inotify, wds: seq<int>, k: nat)
    requires Synced(st, wds) && |env.wds| == MAX_CONFIGS && Find(Load(st.dir), id) == Some(k)
    ensures var st' := SwitchStep(Reload(st), id, on, env);
            && Synced(st', env.wds)
            && st'.dir == Write(st.dir, Load(st.dir)[k].(monitorSwitch := on))
            && st'.responses == st.responses + [0]
  {
    ReloadIsSynced(st);
    var loaded := Reload(st);
    var c := loaded.cells[k].(monitorSwitch := on);
    assert loaded.cells[k] == Configs(loaded)[k];
    var written := loaded.(cells := loaded.cells[k := c], dir := Write(st.dir, c));
    ReloadIsSynced(written);
    RewatchKeepsRunnable(Reload(written), env);
  }

  /** The descriptors of the last rebuild. */
  ghost function LastWds(st: FsState, wds: seq<int>, inputs: seq<FsInput>): (last: seq<int>)
    requires Runnable(st) && AreInputs(inputs) && |wds| == MAX_CONFIGS
    ensures |last| == MAX_CONFIGS
  {
    if inputs == [] then wds
    else
      var front, last := Front(inputs), Final(inputs);
      if Switches(FsRun(st, front), last) then last.env.wds else LastWds(st, wds, front)
  }

  /** The directory after a step: a start or stop writes its config. */
  ghost function DirAfter(st: FsState, i: FsInput): seq<DirEntry> {
    if !Switches(st, i) then st.dir
    else
      var c := Load(st.dir)[Find(Load(st.dir), SwitchOf(i).value.0).value];
      Write(st.dir, c.(monitorSwitch := SwitchOf(i).value.1))
  }

  lemma ListAnswers(st: FsState, parts: seq<string>) returns (out: FsListing, code: int)
    requires Sized(st) && |parts| >= 1
    ensures ListStep(st, parts) == Respond(st.(out := out), code)
  {
    var after := ListStep(st, parts);
    return after.out, after.responses[|st.responses|];
  }

  lemma NotSwitching(st: FsState, i: FsInput)
    requires Runnable(st) && IsInput(i) && i.Command? && !Switches(st, i)
    requires i.parts != [] && Configs(Reload(st)) == Load(st.dir)
    ensures FsStep(st, i) == if i.parts[0] == "list" then ListStep(Reload(st), i.parts) else Respond(Reload(st), 1)
  {
  }

  /** Any other command reloads, may write a listing, and answers. */
  lemma OtherCommand(st: FsState, i: FsInput) returns (out: FsListing, code: int)
    requires Runnable(st) && IsInput(i) && i.Command? && !Switches(st, i)
    requires i.parts != [] && Configs(Reload(st)) == Load(st.dir)
    ensures FsStep(st, i) == Respond(Reload(st).(out := out), code)
  {
    NotSwitching(st, i);
    if i.parts[0] == "list" {
      out, code := ListAnswers(Reload(st), i.parts);
    } else {
      out, code := st.out, 1;
    }
  }

  lemma RespondingStaysSynced(st: FsState, wds: seq<int>, out: FsListing, code: int)
    requires Synced(st, wds)
    ensures var st' := Respond(Reload(st).(out := out), code);
            Synced(st', wds) && st'.dir == st.dir && |st'.responses| == |st.responses| + 1
  {
    ReloadIsSynced(st);
    assert Configs(Respond(Reload(st).(out := out), code)) == Configs(Reload(st));
  }

  lemma OtherStaysSynced(st: FsState, wds: seq<int>, i: FsInput)
    requires Synced(st, wds) && IsInput(i) && i.Command? && !Switches(st, i)
    ensures Synced(FsStep(st, i), wds) && FsStep(st, i).dir == st.dir
    ensures |FsStep(st, i).responses| == |st.responses| + 1
  {
    if i.parts == [] {
      assert FsStep(st, i) == Respond(st, 1);
    } else {
      ReloadIsSynced(st);
      var out, code := OtherCommand(st, i);
      RespondingStaysSynced(st, wds, out, code);
    }
  }

  lemma SwitchingIsSwitchStep(st: FsState, i: FsInput)
    requires Runnable(st) && IsInput(i) && i.Command? && SwitchOf(i).Some?
    ensures FsStep(st, i) == SwitchStep(Reload(st), SwitchOf(i).value.0, SwitchOf(i).value.1, i.env)
  {
  }

  lemma StepStaysSynced(st: FsState, wds: seq<int>, i: FsInput)
    requires Synced(st, wds) && IsInput(i)
    ensures Synced(FsStep(st, i), if Switches(st, i) then i.env.wds else wds)
    ensures FsStep(st, i).dir == DirAfter(st, i)
    ensures |FsStep(st, i).responses| == |st.responses| + if i.Command? then 1 else 0
  {
    if i.Events? {
      StepKeepsRunnable(st, i);
    } else if Switches(st, i) {
      SwitchingIsSwitchStep(st, i);
      var (id, on) := SwitchOf(i).value;
      SwitchIsSynced(st, id, on, i.env, wds, Find(Load(st.dir), id).value);
    } else {
      OtherStaysSynced(st, wds, i);
    }
  }

  lemma StartIsSynced(dir: seq<DirEntry>, env: Inotify)
    requires |env.wds| == MAX_CONFIGS
    ensures Synced(StartState(dir, env), env.wds)
  {
    var empty := FsState(dir, seq(MAX_CONFIGS, _ => FREE_CELL), 0, false, [], [], EventLog([], []), Nothing, []);
    ReloadIsSynced(empty);
    RewatchKeepsRunnable(Reload(empty), env);
  }

  /** In every reachable state the configs in use are those on disk, and the watch table is
      the one rebuilt from exactly these. */
  lemma {:induction false} RunStaysSynced(st: FsState, wds: seq<int>, inputs: seq<FsInput>)
    requires Synced(st, wds) && AreInputs(inputs)
    ensures Synced(FsRun(st, inputs), LastWds(st, wds, inputs))
  {
    if inputs != [] {
      var front, last := Front(inputs), Final(inputs);
      RunStaysSynced(st, wds, front);
      StepStaysSynced(FsRun(st, front), LastWds(st, wds, front), last);
    }
  }

  function Commands(inputs: seq<FsInput>): nat {
    if inputs == [] then 0
    else Commands(Front(inputs)) + if Final(inputs).Command? then 1 else 0
  }

  /** Every command is answered exactly once. */
  lemma {:induction false} EveryCommandIsAnswered(st: FsState, wds: seq<int>, inputs: seq<FsInput>)
    requires Synced(st, wds) && AreInputs(inputs)
    ensures |FsRun(st, inputs).responses| == |st.responses| + Commands(inputs)
  {
    if inputs != [] {
      var front, last := Front(inputs), Final(inputs);
      EveryCommandIsAnswered(st, wds, front);
      RunStaysSynced(st, wds, front);
      StepStaysSynced(FsRun(st, front), LastWds(st, wds, front), last);
    }
  }

  /** What the last start or stop of `id` asked for. */
  function LastSwitch(inputs: seq<FsInput>, id: int): Option<bool> {
    if inputs == [] then None
    else
      var last := Final(inputs);
      if last.Command? && SwitchOf(last).Some? && SwitchOf(last).value.0 == id then Some(SwitchOf(last).value.1)
      else LastSwitch(Front(inputs), id)
  }

  /** A config as the last start or stop of it leaves it. */
  function Switched(c: FsConfig, last: Option<bool>): FsConfig {
    match last case None => c case Some(on) => Norm(c).(monitorSwitch := on)
  }

  lemma SwitchedTwice(c: FsConfig, last: Option<bool>, on: bool)
    requires WellParsed(c)
    ensures Norm(Switched(c, last).(monitorSwitch := on)) == Switched(c, Some(on))
  {
    NormIsStable(c);
  }

  /** The list after a run: as it was at the start, but for the switches and printed form
      of the configs that were started or stopped. */
  ghost predicate ListAfter(list: seq<FsConfig>, list': seq<FsConfig>, inputs: seq<FsInput>) {
    && |list'| == |list|
    && forall k :: 0 <= k < |list| ==> list'[k] == Switched(list[k], LastSwitch(inputs, list[k].id))
  }

  lemma FindAfter(list: seq<FsConfig>, list': seq<FsConfig>, inputs: seq<FsInput>, id: int)
    requires ListAfter(list, list', inputs)
    ensures Find(list', id) == Find(list, id)
  {
    forall k | 0 <= k < |list| ensures list'[k].id == list[k].id {}
    FsWorker.FindIs(list', id, Find(list, id));
  }

  lemma ListAfterSwitch(list: seq<FsConfig>, list': seq<FsConfig>, inputs: seq<FsInput>, k: nat)
    requires inputs != [] && ListAfter(list, list', Front(inputs))
    requires Final(inputs).Command? && SwitchOf(Final(inputs)).Some?
    requires Find(list, SwitchOf(Final(inputs)).value.0) == Some(k) && WellParsed(list[k])
    requires forall i, j :: 0 <= i < j < |list| ==> list[i].id != list[j].id
    ensures ListAfter(list, list'[k := Norm(list'[k].(monitorSwitch := SwitchOf(Final(inputs)).value.1))], inputs)
  {
    var on := SwitchOf(Final(inputs)).value.1;
    SwitchedTwice(list[k], LastSwitch(Front(inputs), list[k].id), on);
    forall j | 0 <= j < |list|
      ensures LastSwitch(inputs, list[j].id) == if j == k then Some(on) else LastSwitch(Front(inputs), list[j].id)
    {
      if j < k { assert list[j].id != list[k].id; }
    }
  }

  lemma ListAfterOther(list: seq<FsConfig>, list': seq<FsConfig>, inputs: seq<FsInput>)
    requires inputs != [] && ListAfter(list, list', Front(inputs))
    requires Final(inputs).Command? && SwitchOf(Final(inputs)).Some? ==>
               Find(list, SwitchOf(Final(inputs)).value.0).None?
    ensures ListAfter(list, list', inputs)
  {
    forall j | 0 <= j < |list| ensures LastSwitch(inputs, list[j].id) == LastSwitch(Front(inputs), list[j].id) {}
  }

  lemma DirAfterRun(st: FsState, wds: seq<int>, inputs: seq<FsInput>)
    requires Synced(st, wds) && AreInputs(inputs) && inputs != []
    ensures FsRun(st, inputs).dir == DirAfter(FsRun(st, Front(inputs)), Final(inputs))
  {
    var front, last := Front(inputs), Final(inputs);
    RunStaysSynced(st, wds, front);
    StepStaysSynced(FsRun(st, front), LastWds(st, wds, front), last);
  }

  lemma RememberStep(dir: seq<DirEntry>, st: FsState, inputs: seq<FsInput>)
    requires inputs != [] && DistinctIds(dir) && DistinctIds(st.dir)
    requires ListAfter(Load(dir), Load(st.dir), Front(inputs))
    ensures DistinctIds(DirAfter(st, Final(inputs)))
    ensures ListAfter(Load(dir), Load(DirAfter(st, Final(inputs))), inputs)
  {
    var (list, list', last) := (Load(dir), Load(st.dir), Final(inputs));
    if Switches(st, last) {
      var (id, on) := SwitchOf(last).value;
      FindAfter(list, list', Front(inputs), id);
      var k := Find(list, id).value;
      ReloadAfterSwitch(st.dir, k, on);
      WriteKeepsIds(st.dir, list'[k].(monitorSwitch := on));
      LoadedIdsAreDistinct(dir);
      var p := EveryConfigHasAnEntry(dir, k);
      LoadedIsWellParsed(dir, k, p);
      ListAfterSwitch(list, list', inputs, k);
    } else {
      if last.Command? && SwitchOf(last).Some? { FindAfter(list, list', Front(inputs), SwitchOf(last).value.0); }
      ListAfterOther(list, list', inputs);
    }
  }

  /** The run from `st` has kept ids distinct and switches remembered. */
  ghost predicate Remembers(st: FsState, inputs: seq<FsInput>)
    requires Runnable(st) && AreInputs(inputs)
  {
    var dir' := FsRun(st, inputs).dir;
    DistinctIds(dir') && ListAfter(Load(st.dir), Load(dir'), inputs)
  }

  lemma RememberMore(st: FsState, wds: seq<int>, inputs: seq<FsInput>)
    requires Synced(st, wds) && AreInputs(inputs) && inputs != [] && DistinctIds(st.dir)
    requires Remembers(st, Front(inputs))
    ensures Remembers(st, inputs)
  {
    DirAfterRun(st, wds, inputs);
    RememberStep(st.dir, FsRun(st, Front(inputs)), inputs);
  }

  lemma NothingSwitched(list: seq<FsConfig>)
    ensures ListAfter(list, list, [])
  {
  }

  /** Over any run with distinct ids, the list of configs keeps its length and order; a
      config that was never started or stopped is unchanged, and any other is as printing
      leaves it, with the switch of the last such command. */
  lemma {:induction false} SwitchesAreRemembered(st: FsState, wds: seq<int>, inputs: seq<FsInput>)
    requires Synced(st, wds) && AreInputs(inputs) && DistinctIds(st.dir)
    ensures Remembers(st, inputs)
  {
    if inputs == [] {
      NothingSwitched(Load(st.dir));
    } else {
      SwitchesAreRemembered(st, wds, Front(inputs));
      RememberMore(st, wds, inputs);
    }
  }

  // ----- what a start, a stop and an event come to

  /** The parts of a received text: at most three of its words. */
  function PartsOf(text: string): seq<string> { Cut(Words(CStr(text)), FS_MAX_PARTS) }

  /** Keeping only three parts of a message loses nothing: no command has a use for more. */
  lemma ThreePartsSuffice(st: FsState, text: string, env: Inotify)
    requires Sized(st) && |env.wds| == MAX_CONFIGS
    ensures CommandStep(st, PartsOf(text), env) == CommandStep(st, Words(CStr(text)), env)
  {
    var parts, kept := Words(CStr(text)), PartsOf(text);
    if |parts| > FS_MAX_PARTS { assert kept[0] == parts[0] && kept[1] == parts[1]; }
  }

  /** The id that a listing printed, sent back with an option, is cut and read as it was. */
  lemma ListedIdIsRead(opt: string, id: i32)
    requires ValidOption(opt)
    ensures Words(CStr(Join([opt, PrintInt(id)]))) == [opt, PrintInt(id)] && Atoi(PrintInt(id)) == id
  {
    var v: nat := if id < 0 then -(id as int) else id;
    ValueOfDecimal(v);
    assert IsWord(PrintInt(id));
    TokensOfCommand(opt, [PrintInt(id)]);
    assert [opt] + [PrintInt(id)] == [opt, PrintInt(id)];
    AtoiOfPrinted(id);
    var text := Join([opt, PrintInt(id)]);
    SwitchTextHasNoNul(opt, id);
    assert text[..|text|] == text;
    StrLenIs(text, |text|);
  }

  lemma SwitchTextHasNoNul(opt: string, id: i32)
    requires ValidOption(opt)
    ensures NoNul(Join([opt, PrintInt(id)]))
  {
    var v: nat := if id < 0 then -(id as int) else id;
    ValueOfDecimal(v);
    JoinHasNoNul([opt, PrintInt(id)]);
  }

  /** The list and the watches that a switch of loaded config `id` leads to. */
  ghost predicate SwitchedState(st: FsState, st': FsState, id: int, on: bool, env: Inotify)
    requires Sized(st') && Find(Load(st.dir), id).Some? && |env.wds| == MAX_CONFIGS
  {
    var k := Find(Load(st.dir), id).value;
    && st'.responses == st.responses + [0]
    && Configs(st') == Load(st.dir)[k := Norm(Load(st.dir)[k]).(monitorSwitch := on)]
    && (st'.ready <==> st.ready || env.initOk)
    && st'.watches == (if st'.ready then Rebuilt(Configs(st'), env.wds) else [])
    && RemovesAll(st, st') && st'.log == st.log
  }

  /** Exactly the watches there were are removed, each by its descriptor. */
  ghost predicate RemovesAll(st: FsState, st': FsState) {
    && |st'.removed| == |st.removed| + |st.watches| && st'.removed[..|st.removed|] == st.removed
    && forall j :: 0 <= j < |st.watches| ==> st'.removed[|st.removed| + j] == st.watches[j] / 0x1_0000
  }

  lemma SwitchOutcome(st: FsState, wds: seq<int>, id: int, on: bool, env: Inotify)
    requires Synced(st, wds) && DistinctIds(st.dir) && |env.wds| == MAX_CONFIGS
    requires Find(Load(st.dir), id).Some?
    ensures SwitchedState(st, SwitchStep(Reload(st), id, on, env), id, on, env)
  {
    var k := Find(Load(st.dir), id).value;
    SwitchIsSynced(st, id, on, env, wds, k);
    ReloadAfterSwitch(st.dir, k, on);
    SwitchStepRewatches(st, id, on, env, k);
    assert st.removed + [] == st.removed;
  }

  /** A start or stop of a listed id, end to end: it succeeds, the list is the same but for
      this config, whose switch is set and whose fields are as printing leaves them;
      the worker is ready afterwards exactly if it was or inotify can now be initialised, and
      then all old watches are removed and the table is the one rebuilt from that list. */
  lemma SwitchEndToEnd(st: FsState, wds: seq<int>, id: i32, on: bool, env: Inotify)
    requires Synced(st, wds) && DistinctIds(st.dir) && |env.wds| == MAX_CONFIGS
    requires Find(Load(st.dir), id).Some?
    ensures var text := Join([if on then "start" else "stop", PrintInt(id)]);
            SwitchedState(st, CommandStep(st, PartsOf(text), env), id, on, env)
  {
    var opt := if on then "start" else "stop";
    ThreePartsSuffice(st, Join([opt, PrintInt(id)]), env);
    ListedIdIsRead(opt, id);
    SwitchingIsSwitchStep(st, Command([opt, PrintInt(id)], env));
    SwitchOutcome(st, wds, id, on, env);
  }

  /** A start or stop of an id that no loaded config has is answered with 1, and changes
      nothing on disk, nothing of the configs in use, and no watch. */
  lemma UnknownEndToEnd(st: FsState, wds: seq<int>, id: i32, on: bool, env: Inotify)
    requires Synced(st, wds) && |env.wds| == MAX_CONFIGS
    requires forall k :: 0 <= k < |Load(st.dir)| ==> Load(st.dir)[k].id != id
    ensures var text := Join([if on then "start" else "stop", PrintInt(id)]);
            var st' := CommandStep(st, PartsOf(text), env);
            && st' == st.(cells := st'.cells, count := st'.count, responses := st.responses + [1])
            && Configs(st') == Configs(st)
  {
    var opt := if on then "start" else "stop";
    ThreePartsSuffice(st, Join([opt, PrintInt(id)]), env);
    ListedIdIsRead(opt, id);
    SwitchingIsSwitchStep(st, Command([opt, PrintInt(id)], env));
    ReloadIsSynced(st);
    FsWorker.FindIs(Load(st.dir), id, None);
  }

  lemma SwitchDecides(st: FsState, wds: seq<int>, id: int, on: bool, env: Inotify)
    requires Synced(st, wds) && DistinctIds(st.dir) && |env.wds| == MAX_CONFIGS
    ensures var st' := SwitchStep(Reload(st), id, on, env);
            if exists k :: 0 <= k < |Load(st.dir)| && Load(st.dir)[k].id == id
            then SwitchedState(st, st', id, on, env)
            else OnlyAnswers(st, st', 1)
  {
    ReloadIsSynced(st);
    if Find(Load(st.dir), id).Some? { SwitchOutcome(st, wds, id, on, env); }
  }

  /** The words of a command decide: a start or stop of the first config with the id, as
      above; one of an unknown id, or any other command, changes nothing on disk, nothing of
      the configs in use and no watch, and is answered with 0 exactly if it is a list of a
      known scope, and with 1 otherwise. */
  lemma WordsDecide(st: FsState, wds: seq<int>, parts: seq<string>, env: Inotify)
    requires Synced(st, wds) && DistinctIds(st.dir) && |env.wds| == MAX_CONFIGS
    ensures var st' := CommandStep(st, parts, env);
            if |parts| >= 2 && parts[0] in ["start", "stop"]
               && exists k :: 0 <= k < |Load(st.dir)| && Load(st.dir)[k].id == Atoi(parts[1])
            then SwitchedState(st, st', Atoi(parts[1]), parts[0] == "start", env)
            else OnlyAnswers(
              st, st', if parts != [] && parts[0] == "list" && (|parts| == 1 || parts[1] in ["config", "events"])
                       then 0 else 1)
  {
    if |parts| >= 2 && parts[0] in ["start", "stop"] {
      SwitchingIsSwitchStep(st, Command(parts, env));
      SwitchDecides(st, wds, Atoi(parts[1]), parts[0] == "start", env);
    } else if parts != [] {
      ReloadIsSynced(st);
      NotSwitching(st, Command(parts, env));
    }
  }

  /** Nothing changes but the answers, and with a list what it writes. */
  ghost predicate OnlyAnswers(st: FsState, st': FsState, code: int)
    requires Sized(st) && Sized(st')
  {
    && st' == st.(cells := st'.cells, count := st'.count, out := st'.out, responses := st.responses + [code])
    && Configs(st') == Configs(st) && (code != 0 ==> st'.out == st.out)
  }

  // ----- when inotify is in place

  /** What a start or stop of loaded config `k` does to readiness and watches. */
  lemma SwitchStepRewatches(st: FsState, id: int, on: bool, env: Inotify, k: nat)
    requires Runnable(st) && |env.wds| == MAX_CONFIGS && Find(Load(st.dir), id) == Some(k)
    ensures var st' := SwitchStep(Reload(st), id, on, env);
            && (st'.ready <==> st.ready || env.initOk) && st'.log == st.log
            && st'.removed == st.removed + if st'.ready then Descriptors(st.watches) else []
  {
    ReloadIsSynced(st);
  }

  /** `main` enters its loop with inotify in place exactly if it could be initialised; then
      the watches are those rebuilt from the configs on disk, and else there are none. */
  lemma StartIsWatched(dir: seq<DirEntry>, env: Inotify)
    requires |env.wds| == MAX_CONFIGS
    ensures var st := Start(dir, env);
            && (st.ready <==> env.initOk) && Configs(st) == Load(dir)
            && st.watches == (if env.initOk then Rebuilt(Load(dir), env.wds) else [])
            && st.removed == [] && st.log == EventLog([], []) && st.responses == []
  {
    StartIsSynced(dir, env);
  }

  lemma ReadyAfterOther(st: FsState, i: FsInput)
    requires Runnable(st) && IsInput(i) && !Switches(st, i)
    ensures FsStep(st, i).ready == st.ready
  {
    if i.Command? && i.parts != [] {
      ReloadIsSynced(st);
      var out, code := OtherCommand(st, i);
    }
  }

  lemma ReadyStep(st: FsState, i: FsInput)
    requires Runnable(st) && IsInput(i)
    ensures FsStep(st, i).ready <==> st.ready || (Switches(st, i) && i.env.initOk)
  {
    if Switches(st, i) {
      SwitchingIsSwitchStep(st, i);
      var (id, on) := SwitchOf(i).value;
      SwitchStepRewatches(st, id, on, i.env, Find(Load(st.dir), id).value);
    } else {
      ReadyAfterOther(st, i);
    }
  }

  /** Input `k` of the run is a start or stop of a config on disk, and inotify can be
      initialised when it comes. */
  ghost predicate Readies(st: FsState, inputs: seq<FsInput>, k: nat)
    requires Runnable(st) && AreInputs(inputs) && k < |inputs|
  {
    Switches(FsRun(st, inputs[..k]), inputs[k]) && inputs[k].env.initOk
  }

  lemma ReadyAtLast(st: FsState, inputs: seq<FsInput>)
    requires Runnable(st) && AreInputs(inputs) && inputs != []
    ensures FsRun(st, inputs).ready <==> FsRun(st, Front(inputs)).ready || Readies(st, inputs, |inputs| - 1)
  {
    ReadyStep(FsRun(st, Front(inputs)), Final(inputs));
  }

  lemma ReadiesInPrefix(st: FsState, inputs: seq<FsInput>, k: nat)
    requires Runnable(st) && AreInputs(inputs) && inputs != [] && k < |inputs| - 1
    ensures Readies(st, inputs, k) <==> Readies(st, Front(inputs), k)
  {
    assert Front(inputs)[..k] == inputs[..k];
  }

  /** Some input of the run readies the worker. */
  ghost predicate SomeReadies(st: FsState, inputs: seq<FsInput>)
    requires Runnable(st) && AreInputs(inputs)
  {
    exists k :: 0 <= k < |inputs| && Readies(st, inputs, k)
  }

  lemma SomeReadiesStep(st: FsState, inputs: seq<FsInput>)
    requires Runnable(st) && AreInputs(inputs) && inputs != []
    ensures SomeReadies(st, inputs) <==> SomeReadies(st, Front(inputs)) || Readies(st, inputs, |inputs| - 1)
  {
    forall k | 0 <= k < |inputs| - 1 ensures Readies(st, inputs, k) <==> Readies(st, Front(inputs), k) {
      ReadiesInPrefix(st, inputs, k);
    }
  }

  lemma {:induction false} ReadyAfter(st: FsState, inputs: seq<FsInput>)
    requires Runnable(st) && AreInputs(inputs)
    ensures FsRun(st, inputs).ready <==> st.ready || SomeReadies(st, inputs)
  {
    if inputs != [] {
      ReadyAfter(st, Front(inputs));
      ReadyAtLast(st, inputs);
      SomeReadiesStep(st, inputs);
    }
  }

  /** Over any run of `main` the worker watches exactly if inotify could be initialised at
      the start or at a start or stop of a config on disk. */
  lemma ReadyExactly(dir: seq<DirEntry>, env: Inotify, inputs: seq<FsInput>)
    requires |env.wds| == MAX_CONFIGS && AreInputs(inputs)
    ensures FsRun(Start(dir, env), inputs).ready <==>
              env.initOk || SomeReadies(Start(dir, env), inputs)
  {
    StartIsWatched(dir, env);
    ReadyAfter(Start(dir, env), inputs);
  }

  lemma ConfigForInUse(cells: seq<FsConfig>, n: nat, watches: seq<int>, wd: int)
    requires n <= |cells| && IndicesBelow(watches, n)
    ensures ConfigFor(cells, watches, wd) == ConfigFor(cells[..n], watches, wd)
  {
  }

  /** In every reachable state an event belongs to the first enabled config on disk of whose
      descriptor at the last rebuild the watch table keeps that of the event, and to none
      when there is none. */
  lemma EventsAreAttributed(dir: seq<DirEntry>, env: Inotify, inputs: seq<FsInput>, wd: int, r: Option<nat>)
    requires |env.wds| == MAX_CONFIGS && AreInputs(inputs) && FsRun(Start(dir, env), inputs).ready
    requires var st, wds := FsRun(Start(dir, env), inputs), LastWds(Start(dir, env), env.wds, inputs);
             IsFirstConfig(Load(st.dir), wds, AllKept(wds), wd, r)
    ensures var st := FsRun(Start(dir, env), inputs);
            ConfigFor(st.cells, st.watches, wd) == ConfigAt(Load(st.dir), r)
  {
    StartIsSynced(dir, env);
    RunStaysSynced(Start(dir, env), env.wds, inputs);
    var st, wds := FsRun(Start(dir, env), inputs), LastWds(Start(dir, env), env.wds, inputs);
    EventGoesToFirstConfig(Load(st.dir), wds, wd, r);
    ConfigForInUse(st.cells, st.count, st.watches, wd);
  }

  // ----- what an event leaves behind

  /** A text in a field of 256 bytes. */
  predicate FitsField(field: string, text: string) { field == if |text| < 256 then text else text[..255] }

  /** The row of an event on config `c`: the time, the config's id and name, and its path,
      behind which the name in the record stands, if there is one. */
  ghost predicate RowShows(row: EventRow, c: FsConfig, v: Visit, nm: string) {
    && row.time == v.now && row.configId == c.id && FitsField(row.name, c.name)
    && row.op == MaskToOp(v.record.mask)
    && FitsField(row.path, if v.record.name == [] then c.path else c.path + "/" + nm)
  }

  lemma NameOfRecord(r: Record, nm: string)
    requires PaddedName(r.name, nm)
    ensures CStr(Chars(r.name)) == nm
  {
    var chars := Chars(r.name);
    forall j | 0 <= j < |nm| ensures chars[..|nm|][j] == nm[j] { assert chars[j] == nm[j]; }
    assert chars[..|nm|] == nm;
    StrLenIs(chars, |nm|);
  }

  lemma RowOfShows(c: FsConfig, v: Visit, nm: string)
    requires v.record.name != [] ==> PaddedName(v.record.name, nm)
    ensures RowShows(RowOf(c, v), c, v, nm)
  {
    if v.record.name != [] { NameOfRecord(v.record, nm); }
    OpsAreShort(v.record.mask);
  }

  /** In every reachable ready state an event of the first enabled config with its
      descriptor puts one row for it behind the others, the last 128 of which are kept, and
      runs that config's alarm unless this is empty or "true"; another event does nothing. */
  lemma EventIsRecorded(
      dir: seq<DirEntry>, env: Inotify, inputs: seq<FsInput>, v: Visit, nm: string, r: Option<nat>)
    requires |env.wds| == MAX_CONFIGS && AreInputs(inputs) && FsRun(Start(dir, env), inputs).ready
    requires var st, wds := FsRun(Start(dir, env), inputs), LastWds(Start(dir, env), env.wds, inputs);
             IsFirstConfig(Load(st.dir), wds, AllKept(wds), v.record.wd, r)
    requires v.record.name != [] ==> PaddedName(v.record.name, nm)
    ensures var st := FsRun(Start(dir, env), inputs);
            var st' := FsStep(st, Events([v]));
            match r
            case None => st' == st
            case Some(i) =>
              var c := Load(st.dir)[i];
              && (exists row :: RowShows(row, c, v, nm) && st'.log.rows == Last(st.log.rows + [row], 128))
              && st'.log.alarms == st.log.alarms + (if c.alarmCmd in ["", "true"] then [] else [c.alarmCmd])
              && st' == st.(log := st'.log)
  {
    var st := FsRun(Start(dir, env), inputs);
    EventsAreAttributed(dir, env, inputs, v.record.wd, r);
    MatchedOne(st.cells, st.watches, v);
    match r {
      case None => NothingLogged(st.log);
      case Some(i) => RowOfShows(Load(st.dir)[i], v, nm);
    }
  }

  /** Before inotify is in place nothing is recorded; and a round of events is its events
      one after the other. */
  lemma RoundsOfEvents(st: FsState, a: seq<Visit>, b: seq<Visit>)
    requires Runnable(st)
    ensures FsStep(st, Events([])) == st && (!st.ready ==> FsStep(st, Events(a)) == st)
    ensures Runnable(FsStep(st, Events(a))) && FsStep(st, Events(a + b)) == FsStep(FsStep(st, Events(a)), Events(b))
  {
    NothingLogged(st.log);
    EventStepTwice(st, a, b);
  }

  /** A start or stop rewrites the alarm of its config without trailing space, or as "true"
      when there is none: events run the same alarm afterwards exactly if it had no trailing
      space. */
  lemma AlarmAfterSwitch(c: FsConfig)
    requires WellParsed(c)
    ensures AlarmOf(Norm(c)) == AlarmOf(c) <==> NoTrailingSpace(c.alarmCmd)
  {
    RStripIsIdentity(c.alarmCmd);
    RStripKeepsText(c.alarmCmd);
    RStripIsIdentity("true");
  }
}
