/** The file worker (fs.c): commands and inotify events update the configs, the watch
    table, the event ring and the config directory in place. `CommandStep` and
    `EventStep` say what each does to the whole state; the class does it on arrays. */
module FsWorker {
  import opened CStrings
  import opened Decimals
  import opened FsConfigFile
  import opened FsEvents
  import opened FsLineBuffer
  import opened FsStore
  import opened FsWatch
  import opened MachineWords

  /** What the output file last received. */
  datatype FsListing = Nothing | ConfigRows(configs: seq<FsConfig>) | EventRows(rows: seq<EventRow>)

  /** The whole state: `cells` is the config array, `log` the rows in the ring, oldest
      first, and the alarms run, `removed` the descriptors whose watches were removed. */
  datatype FsState = FsState(
    dir: seq<DirEntry>, cells: seq<FsConfig>, count: nat, ready: bool, watches: seq<int>,
    removed: seq<int>, log: EventLog, out: FsListing, responses: seq<int>)

  const FREE_CELL := FsConfig(0, false, "", "", "", "")

  // ----- loading in place

  /** The config array and how many of its cells are in use. */
  datatype Cells = Cells(cells: seq<FsConfig>, count: nat)

  /** `parse_config_file`: the next cell is overwritten, and kept when it is usable. */
  function ParseInto(t: Cells, content: string, id: i32): (t': Cells)
    ensures |t'.cells| == |t.cells|
    ensures t.count <= |t.cells| ==> t'.count <= |t.cells|
  {
    if t.count >= |t.cells| then t
    else
      var c := ParseLines(Default(id), Chunks(content));
      Cells(t.cells[t.count := c], if Usable(c) then t.count + 1 else t.count)
  }

  function LoadInto(cells: seq<FsConfig>, dir: seq<DirEntry>): (t: Cells)
    ensures |t.cells| == |cells| && t.count <= |cells|
  {
    if dir == [] then Cells(cells, 0)
    else
      var e := dir[|dir| - 1];
      var before := LoadInto(cells, dir[..|dir| - 1]);
      if IsConfigFile(e) then ParseInto(before, e.content, e.id) else before
  }

  /** Whatever the array held, the cells in use are the loaded configs. */
  lemma {:induction false} LoadIntoIsLoad(cells: seq<FsConfig>, dir: seq<DirEntry>)
    requires |cells| == MAX_CONFIGS
    ensures LoadInto(cells, dir).cells[..LoadInto(cells, dir).count] == Load(dir)
  {
    if dir != [] {
      LoadIntoIsLoad(cells, dir[..|dir| - 1]);
    }
  }

  // ----- commands

  function Configs(st: FsState): seq<FsConfig>
    requires st.count <= |st.cells|
  {
    st.cells[..st.count]
  }

  ghost predicate Sized(st: FsState) { |st.cells| == MAX_CONFIGS && st.count <= MAX_CONFIGS }

  function Reload(st: FsState): FsState {
    var t := LoadInto(st.cells, st.dir);
    st.(cells := t.cells, count := t.count)
  }

  /** How inotify will answer: whether it can be initialised, and the descriptor (or a
      negative number) it gives for the path of each config. */
  datatype Inotify = Inotify(initOk: bool, wds: seq<int>)

  function Descriptors(watches: seq<int>): seq<int> {
    seq(|watches|, i requires 0 <= i < |watches| => WdOf(watches[i]))
  }

  function Rewatch(st: FsState, env: Inotify): (st': FsState)
    requires Sized(st) && |env.wds| == MAX_CONFIGS
    ensures Sized(st')
  {
    if !st.ready && !env.initOk then st
    else st.(ready := true, removed := st.removed + Descriptors(st.watches), watches := Rebuilt(Configs(st), env.wds))
  }

  function Respond(st: FsState, code: int): FsState { st.(responses := st.responses + [code]) }

  function SwitchTo(st: FsState, k: nat, on: bool, env: Inotify): (st': FsState)
    requires Sized(st) && |env.wds| == MAX_CONFIGS && k < st.count
    ensures Sized(st')
  {
    var c := st.cells[k].(monitorSwitch := on);
    Rewatch(Reload(st.(cells := st.cells[k := c], dir := Write(st.dir, c))), env)
  }

  /** A start or stop, after the configs were loaded. */
  function SwitchStep(st: FsState, id: int, on: bool, env: Inotify): (st': FsState)
    requires Sized(st) && |env.wds| == MAX_CONFIGS
    ensures Sized(st')
  {
    match Find(Configs(st), id)
    case None => Respond(st, 1)
    case Some(k) => Respond(SwitchTo(st, k, on, env), 0)
  }

  function ListStep(st: FsState, parts: seq<string>): FsState
    requires Sized(st) && |parts| >= 1
  {
    if |parts| < 2 || parts[1] == "config" then Respond(st.(out := ConfigRows(Configs(st))), 0)
    else if parts[1] == "events" then Respond(st.(out := EventRows(st.log.rows)), 0)
    else Respond(st, 1)
  }

  function CommandStep(st: FsState, parts: seq<string>, env: Inotify): (st': FsState)
    requires Sized(st) && |env.wds| == MAX_CONFIGS
    ensures Sized(st')
  {
    if parts == [] then Respond(st, 1)
    else
      var loaded := Reload(st);
      if parts[0] == "start" && |parts| >= 2 then SwitchStep(loaded, Atoi(parts[1]), true, env)
      else if parts[0] == "stop" && |parts| >= 2 then SwitchStep(loaded, Atoi(parts[1]), false, env)
      else if parts[0] == "list" then ListStep(loaded, parts)
      else Respond(loaded, 1)
  }

  /** The state in which `main` enters its loop. */
  function StartState(dir: seq<DirEntry>, env: Inotify): FsState
    requires |env.wds| == MAX_CONFIGS
  {
    var empty := FsState(dir, seq(MAX_CONFIGS, _ => FREE_CELL), 0, false, [], [], EventLog([], []), Nothing, []);
    Rewatch(Reload(empty), env)
  }

  // ----- events

  /** The log after more events: all alarms, and the last rows. */
  function Logged(log: EventLog, more: EventLog): EventLog {
    EventLog(Last(log.rows + more.rows, MAX_EVENTS), log.alarms + more.alarms)
  }

  /** One round of reading: nothing before inotify is initialised. */
  function EventStep(st: FsState, visits: seq<Visit>): FsState
    requires IndicesBelow(st.watches, |st.cells|)
  {
    if !st.ready then st else st.(log := Logged(st.log, Matched(st.cells, st.watches, visits)))
  }

  lemma LoggedTwice(log: EventLog, a: EventLog, b: EventLog)
    ensures Logged(Logged(log, a), b) == Logged(log, EventLog(a.rows + b.rows, a.alarms + b.alarms))
  {
    LastBehind(log.rows, a.rows, b.rows, MAX_EVENTS);
    assert log.alarms + a.alarms + b.alarms == log.alarms + (a.alarms + b.alarms);
  }

  // ----- what the loops need

  /** One more chunk is parsed. */
  lemma ParseOneMore(c: FsConfig, c': FsConfig, content: string, pos: nat, next: nat)
    requires pos < |content| && next == pos + ChunkLen(content[pos..])
    requires c' == ApplyLine(c, content[pos..][..next - pos])
    ensures pos < next <= |content|
    ensures ParseLines(c', Chunks(content[next..])) == ParseLines(c, Chunks(content[pos..]))
  {
    assert content[pos..][next - pos..] == content[next..];
  }

  lemma NothingLeft(c: FsConfig, content: string, pos: nat)
    requires pos == |content|
    ensures ParseLines(c, Chunks(content[pos..])) == c
  {
  }

  lemma FindIs(configs: seq<FsConfig>, id: int, r: Option<nat>)
    requires IsFind(configs, id, r)
    ensures Find(configs, id) == r
  {
  }

  lemma TargetIs(dir: seq<DirEntry>, id: int, r: Option<nat>)
    requires IsTarget(dir, id, r)
    ensures Target(dir, id) == r
  {
  }

  function Visits(records: seq<Record>, times: seq<int>): (v: seq<Visit>)
    requires |times| == |records|
    ensures |v| == |records|
  {
    seq(|records|, i requires 0 <= i < |records| => Visit(records[i], times[i]))
  }

  lemma FirstOfAll(records: seq<Record>, i: nat)
    requires i <= |records| && AreRecords(records) && EncodeAll(records[i..]) != []
    ensures i < |records| && EncodeAll(records[i..]) == Encode(records[i]) + EncodeAll(records[i + 1..])
  {
    assert records[i..][1..] == records[i + 1..];
  }

  /** A buffer that inotify filled, and the time at which each of its records is handled. */
  datatype Read = Read(bytes: seq<byte>, times: seq<int>)

  /** Every buffer holds whole records. */
  ghost predicate AreReads(buffers: seq<Read>, records: seq<seq<Record>>) {
    |records| == |buffers| && forall i :: 0 <= i < |buffers| ==> IsRead(buffers[i], records[i])
  }

  ghost predicate IsRead(read: Read, records: seq<Record>) {
    AreRecords(records) && read.bytes == EncodeAll(records) && |read.times| == |records|
  }

  /** All records of all buffers, in order. */
  ghost function AllVisits(buffers: seq<Read>, records: seq<seq<Record>>): seq<Visit>
    requires AreReads(buffers, records)
  {
    if buffers == [] then []
    else
      var i := |buffers| - 1;
      AllVisits(buffers[..i], records[..i]) + Visits(records[i], buffers[i].times)
  }

  lemma OneMoreRead(st: FsState, buffers: seq<Read>, records: seq<seq<Record>>, i: nat)
    requires AreReads(buffers, records) && i < |buffers| && IndicesBelow(st.watches, |st.cells|)
    ensures AreReads(buffers[..i], records[..i]) && AreReads(buffers[..i + 1], records[..i + 1])
    ensures EventStep(EventStep(st, AllVisits(buffers[..i], records[..i])), Visits(records[i], buffers[i].times)) ==
            EventStep(st, AllVisits(buffers[..i + 1], records[..i + 1]))
  {
    assert buffers[..i + 1][..i] == buffers[..i] && records[..i + 1][..i] == records[..i];
    EventStepTwice(st, AllVisits(buffers[..i], records[..i]), Visits(records[i], buffers[i].times));
  }

  lemma MatchedOne(cells: seq<FsConfig>, watches: seq<int>, v: Visit)
    requires IndicesBelow(watches, |cells|)
    ensures Matched(cells, watches, [v]) ==
            match ConfigFor(cells, watches, v.record.wd)
            case None => EventLog([], [])
            case Some(c) => EventLog([RowOf(c, v)], AlarmOf(c))
  {
    assert [v][..0] == [];
  }

  lemma NothingLogged(log: EventLog)
    requires |log.rows| <= MAX_EVENTS
    ensures Logged(log, EventLog([], [])) == log
  {
  }

  lemma EventStepTwice(st: FsState, a: seq<Visit>, b: seq<Visit>)
    requires IndicesBelow(st.watches, |st.cells|)
    ensures EventStep(EventStep(st, a), b) == EventStep(st, a + b)
  {
    MatchedOfBoth(st.cells, st.watches, a, b);
    LoggedTwice(st.log, Matched(st.cells, st.watches, a), Matched(st.cells, st.watches, b));
  }

  lemma OneMoreVisit(st: FsState, visits: seq<Visit>, i: nat)
    requires IndicesBelow(st.watches, |st.cells|) && i < |visits|
    ensures EventStep(EventStep(st, visits[..i]), [visits[i]]) == EventStep(st, visits[..i + 1])
  {
    EventStepTwice(st, visits[..i], [visits[i]]);
    assert visits[..i] + [visits[i]] == visits[..i + 1];
  }

  // ----- the worker

  class Worker {
    const configs: array<FsConfig>
    var configCount: nat
    const events: array<EventRow>
    var eventCount: nat
    var eventCursor: nat
    const watchConfig: array<int>
    var watchCount: nat
    var inotifyReady: bool
    var dir: seq<DirEntry>
    var removed: seq<int>
    var alarms: seq<string>
    var out: FsListing
    var responses: seq<int>

    predicate Valid()
      reads this, configs, watchConfig
    {
      && configs.Length == MAX_CONFIGS && configCount <= MAX_CONFIGS
      && events.Length == MAX_EVENTS && eventCount <= MAX_EVENTS && eventCursor < MAX_EVENTS
      && watchConfig.Length == MAX_CONFIGS && watchCount <= MAX_CONFIGS
      && IndicesBelow(watchConfig[..watchCount], MAX_CONFIGS)
    }

    function Rows(): seq<EventRow>
      requires eventCursor < events.Length && eventCount <= events.Length
      reads this, events
    {
      RingRows(events[..], eventCursor, eventCount)
    }

    function State(): FsState
      requires Valid()
      reads this, configs, events, watchConfig
    {
      FsState(dir, configs[..], configCount, inotifyReady, watchConfig[..watchCount], removed,
              EventLog(Rows(), alarms), out, responses)
    }

    /** `main` before its loop: the configs are loaded and watched. */
    constructor (files: seq<DirEntry>, env: Inotify)
      requires |env.wds| == MAX_CONFIGS
      ensures Valid() && fresh(configs) && fresh(events) && fresh(watchConfig)
      ensures State() == StartState(files, env)
      ensures inotifyReady <==> env.initOk
      ensures watchConfig[..watchCount] == if env.initOk then Rebuilt(configs[..configCount], env.wds) else []
    {
      configs := new FsConfig[MAX_CONFIGS](_ => FREE_CELL);
      events := new EventRow[MAX_EVENTS](_ => EventRow(0, 0, "", "", ""));
      watchConfig := new int[MAX_CONFIGS](_ => 0);
      configCount, eventCount, eventCursor, watchCount := 0, 0, 0, 0;
      inotifyReady, dir, removed, alarms, out, responses := false, files, [], [], Nothing, [];
      new;
      assert configs[..] == seq(MAX_CONFIGS, _ => FREE_CELL);
      LoadConfigs();
      RebuildWatches(env);
    }

    function Loaded(): Cells
      reads this`configCount, configs
    {
      Cells(configs[..], configCount)
    }

    /** One line of the file is read and applied to cell `k`. */
    method ParseLine(k: nat, content: string, pos: nat, line: array<char>) returns (n: nat)
      requires k < configs.Length && pos < |content| && line.Length == LINE_SIZE
      modifies configs, line
      ensures n == ChunkLen(content[pos..])
      ensures configs[..] == old(configs[..])[k := ApplyLine(old(configs[k]), content[pos..][..n])]
    {
      var s: Option<Setting>;
      n, s := NextSetting(content, pos, line);
      match s {
        case None =>
        case Some(setting) => configs[k] := Set(configs[k], setting);
      }
    }

    /** Reading goes on behind that line. */
    method ParseNext(k: nat, content: string, pos: nat, line: array<char>) returns (next: nat)
      requires k < configs.Length && pos < |content| && line.Length == LINE_SIZE
      modifies configs, line
      ensures pos < next <= |content|
      ensures forall j :: 0 <= j < configs.Length && j != k ==> configs[j] == old(configs[j])
      ensures ParseLines(configs[k], Chunks(content[next..])) == ParseLines(old(configs[k]), Chunks(content[pos..]))
    {
      var n := ParseLine(k, content, pos, line);
      next := pos + n;
      ParseOneMore(old(configs[k]), configs[k], content, pos, next);
    }

    /** Reads the file line by line into cell `k`. */
    method ParseCell(k: nat, content: string)
      requires k < configs.Length
      modifies configs
      ensures configs[..] == old(configs[..])[k := ParseLines(old(configs[k]), Chunks(content))]
    {
      var line := new char[LINE_SIZE](_ => NUL);
      var pos := 0;
      ghost var parsed := ParseLines(configs[k], Chunks(content));
      assert content[0..] == content;
      while pos < |content|
        invariant pos <= |content|
        invariant forall j :: 0 <= j < configs.Length && j != k ==> configs[j] == old(configs[j])
        invariant ParseLines(configs[k], Chunks(content[pos..])) == parsed
      {
        pos := ParseNext(k, content, pos, line);
      }
      NothingLeft(configs[k], content, pos);
    }

    method ParseConfigFile(content: string, id: i32)
      requires configs.Length == MAX_CONFIGS && configCount <= MAX_CONFIGS
      modifies configs, this`configCount
      ensures Loaded() == ParseInto(old(Loaded()), content, id) && configCount <= MAX_CONFIGS
    {
      if configCount >= MAX_CONFIGS { return; }
      var k := configCount;
      configs[k] := Default(id);
      ParseCell(k, content);
      if configs[k].name != "" && configs[k].path != "" { configCount := configCount + 1; }
    }

    method LoadConfigs()
      requires configs.Length == MAX_CONFIGS
      modifies configs, this`configCount
      ensures Loaded() == LoadInto(old(configs[..]), dir) && configCount <= MAX_CONFIGS
    {
      configCount := 0;
      for i := 0 to |dir|
        invariant configCount <= MAX_CONFIGS && Loaded() == LoadInto(old(configs[..]), dir[..i])
      {
        assert dir[..i + 1][..i] == dir[..i];
        if Hidden(dir[i]) || !HasSuffix(dir[i].name, ".conf") { continue; }
        if dir[i].regular { ParseConfigFile(dir[i].content, dir[i].id); }
      }
      assert dir[..|dir|] == dir;
    }

    method FindConfig(id: int) returns (r: Option<nat>)
      requires configCount <= configs.Length
      ensures r == Find(configs[..configCount], id)
    {
      for i := 0 to configCount
        invariant forall j :: 0 <= j < i ==> configs[j].id != id
      {
        if configs[i].id == id {
          FindIs(configs[..configCount], id, Some(i));
          return Some(i);
        }
      }
      FindIs(configs[..configCount], id, None);
      return None;
    }

    /** The first visible file with the config's id is rewritten. */
    method WriteConfigFile(c: FsConfig)
      modifies this`dir
      ensures dir == Write(old(dir), c)
    {
      for i := 0 to |dir|
        invariant dir == old(dir) && forall j :: 0 <= j < i ==> Hidden(dir[j]) || dir[j].id != c.id
      {
        if Hidden(dir[i]) { continue; }
        if dir[i].id == c.id {
          TargetIs(dir, c.id, Some(i));
          dir := dir[i := dir[i].(content := Print(c))];
          return;
        }
      }
      TargetIs(dir, c.id, None);
    }

    method RemoveWatches()
      requires watchCount <= watchConfig.Length
      modifies this`removed, this`watchCount
      ensures removed == old(removed) + Descriptors(old(watchConfig[..watchCount])) && watchCount == 0
    {
      for i := 0 to watchCount
        invariant watchCount == old(watchCount)
        invariant removed == old(removed) + Descriptors(watchConfig[..watchCount])[..i]
      {
        removed := removed + [WdOf(watchConfig[i])];
      }
      watchCount := 0;
    }

    method AddWatches(wds: seq<int>)
      requires configCount <= configs.Length == MAX_CONFIGS == watchConfig.Length == |wds| && watchCount == 0
      modifies watchConfig, this`watchCount
      ensures watchCount <= MAX_CONFIGS
      ensures watchConfig[..watchCount] == Rebuilt(configs[..configCount], wds)
    {
      for i := 0 to configCount
        invariant watchCount <= i
        invariant watchConfig[..watchCount] == Rebuilt(configs[..i], wds)
      {
        assert configs[..i + 1][..i] == configs[..i];
        if !configs[i].monitorSwitch { continue; }
        var wd := wds[i];
        if wd >= 0 && watchCount < MAX_CONFIGS {
          watchConfig[watchCount] := Pack(wd, i);
          watchCount := watchCount + 1;
        }
      }
    }

    method RebuildWatches(env: Inotify)
      requires Valid() && |env.wds| == MAX_CONFIGS
      modifies this`inotifyReady, this`removed, this`watchCount, watchConfig
      ensures Valid() && State() == Rewatch(old(State()), env)
      ensures inotifyReady <==> old(inotifyReady) || env.initOk
      ensures inotifyReady ==>
                && watchConfig[..watchCount] == Rebuilt(configs[..configCount], env.wds)
                && removed == old(removed) + Descriptors(old(watchConfig[..watchCount]))
    {
      if !inotifyReady { inotifyReady := env.initOk; }
      if !inotifyReady { return; }
      RemoveWatches();
      AddWatches(env.wds);
      RebuiltIndices(configs[..configCount], env.wds);
    }

    /** The place for one more row: the first free one, or that of the oldest row. */
    method TakeSlot() returns (idx: nat)
      requires eventCount <= MAX_EVENTS && eventCursor < MAX_EVENTS
      modifies this`eventCount, this`eventCursor
      ensures (idx, eventCursor) == SlotFor(old(eventCursor), old(eventCount), MAX_EVENTS)
      ensures eventCount == if old(eventCount) == MAX_EVENTS then MAX_EVENTS else old(eventCount) + 1
    {
      idx := (eventCursor + eventCount) % MAX_EVENTS;
      if eventCount == MAX_EVENTS {
        idx := eventCursor;
        eventCursor := (eventCursor + 1) % MAX_EVENTS;
      } else {
        eventCount := eventCount + 1;
      }
    }

    method RecordEvent(c: FsConfig, op: string, path: string, now: int)
      requires events.Length == MAX_EVENTS && eventCount <= MAX_EVENTS && eventCursor < MAX_EVENTS
      modifies this`eventCount, this`eventCursor, this`alarms, events
      ensures eventCount <= MAX_EVENTS && eventCursor < MAX_EVENTS
      ensures var row :=
                EventRow(now, c.id, Trunc(c.name, MAX_FIELD_LEN), Trunc(op, OP_LEN), Trunc(path, MAX_FIELD_LEN));
              Rows() == Last(old(Rows()) + [row], MAX_EVENTS)
      ensures alarms == old(alarms) + AlarmOf(c)
    {
      var row := EventRow(now, c.id, Trunc(c.name, MAX_FIELD_LEN), Trunc(op, OP_LEN), Trunc(path, MAX_FIELD_LEN));
      RingKeepsTheLast(events[..], eventCursor, eventCount, row);
      var idx := TakeSlot();
      events[idx] := row;
      if c.alarmCmd != "" && c.alarmCmd != "true" { alarms := alarms + [c.alarmCmd]; }
    }

    method HandleRecord(v: Visit)
      requires Valid() && inotifyReady
      modifies this`eventCount, this`eventCursor, this`alarms, events
      ensures Valid() && State() == EventStep(old(State()), [v])
    {
      MatchedOne(configs[..], watchConfig[..watchCount], v);
      for i := 0 to watchCount
        invariant forall j :: 0 <= j < i ==> WdOf(watchConfig[j]) != v.record.wd
        invariant Valid() && State() == old(State())
      {
        if WdOf(watchConfig[i]) == v.record.wd {
          assert FirstWatch(watchConfig[..watchCount], v.record.wd) == Some(i);
          var c := configs[ConfigIndexOf(watchConfig[i])];
          RecordEvent(c, MaskToOp(v.record.mask), EventPath(c, v.record), v.now);
          return;
        }
      }
      assert FirstWatch(watchConfig[..watchCount], v.record.wd) == None;
      NothingLogged(old(State()).log);
    }

    /** The record at `ptr` is handled; the next one begins at `next`. */
    method HandleAt(buf: seq<byte>, ptr: nat, now: int, ghost r: Record, ghost rest: seq<byte>) returns (next: nat)
      requires Valid() && inotifyReady && IsRecord(r) && ptr <= |buf| && buf[ptr..] == Encode(r) + rest
      modifies this`eventCount, this`eventCursor, this`alarms, events
      ensures ptr < next <= |buf| && buf[next..] == rest
      ensures Valid() && State() == EventStep(old(State()), [Visit(r, now)])
    {
      var record := ReadRecord(buf, ptr, r, rest);
      next := ptr + HEADER_SIZE + |record.name|;
      assert next == ptr + Size(r);
      HandleRecord(Visit(record, now));
    }

    /** The next record of the walk is handled. */
    method HandleNext(buf: seq<byte>, ptr: nat, i: nat, times: seq<int>, ghost records: seq<Record>) returns (next: nat)
      requires Valid() && inotifyReady && AreRecords(records) && i <= |records| == |times|
      requires ptr < |buf| && buf[ptr..] == EncodeAll(records[i..])
      modifies this`eventCount, this`eventCursor, this`alarms, events
      ensures i < |records| && ptr < next <= |buf| && buf[next..] == EncodeAll(records[i + 1..])
      ensures Valid() && State() == EventStep(old(State()), [Visit(records[i], times[i])])
    {
      FirstOfAll(records, i);
      next := HandleAt(buf, ptr, times[i], records[i], EncodeAll(records[i + 1..]));
    }

    /** The walk over one buffer: every record is handled once, in order. `times[i]` is the
        time when the worker gets to record `i`. */
    method Walk(buf: seq<byte>, times: seq<int>, ghost records: seq<Record>)
      requires Valid() && inotifyReady && AreRecords(records) && buf == EncodeAll(records) && |times| == |records|
      modifies this`eventCount, this`eventCursor, this`alarms, events
      ensures Valid() && State() == EventStep(old(State()), Visits(records, times))
    {
      var ptr: nat, i: nat := 0, 0;
      ghost var visits := Visits(records, times);
      NothingLogged(State().log);
      while ptr < |buf|
        invariant i <= |records| && ptr <= |buf| && buf[ptr..] == EncodeAll(records[i..])
        invariant Valid() && State() == EventStep(old(State()), visits[..i])
        decreases |buf| - ptr
      {
        ptr := HandleNext(buf, ptr, i, times, records);
        OneMoreVisit(old(State()), visits, i);
        i := i + 1;
      }
      assert visits[..|records|] == visits;
    }

    method ListEvents() returns (rows: seq<EventRow>)
      requires Valid()
      ensures rows == Rows()
    {
      rows := [];
      for i := 0 to eventCount
        invariant |rows| == i && forall k :: 0 <= k < i ==> rows[k] == Rows()[k]
      {
        var idx := (eventCursor + i) % MAX_EVENTS;
        assert Behind(eventCursor, i, MAX_EVENTS) == idx;
        rows := rows + [events[idx]];
      }
    }

    method ListConfigs() returns (rows: seq<FsConfig>)
      requires configCount <= configs.Length
      ensures rows == configs[..configCount]
    {
      rows := [];
      for i := 0 to configCount
        invariant rows == configs[..i]
      {
        rows := rows + [configs[i]];
      }
    }

    /** Reads until inotify has no more: `buffers` are the ones it fills. */
    method MonitorOnce(buffers: seq<Read>, ghost records: seq<seq<Record>>)
      requires Valid() && AreReads(buffers, records)
      modifies this`eventCount, this`eventCursor, this`alarms, events
      ensures Valid() && State() == EventStep(old(State()), AllVisits(buffers, records))
    {
      NothingLogged(State().log);
      if !inotifyReady { return; }
      for i := 0 to |buffers|
        invariant Valid() && inotifyReady
        invariant State() == EventStep(old(State()), AllVisits(buffers[..i], records[..i]))
      {
        Walk(buffers[i].bytes, buffers[i].times, records[i]);
        OneMoreRead(old(State()), buffers, records, i);
      }
      assert buffers[..|buffers|] == buffers && records[..|buffers|] == records;
    }

    method SendResponse(code: int)
      modifies this`responses
      ensures responses == old(responses) + [code]
    {
      responses := responses + [code];
    }

    /** The config at `k` is switched and written, and everything is loaded and watched anew. */
    method SwitchFound(k: nat, on: bool, env: Inotify)
      requires Valid() && |env.wds| == MAX_CONFIGS && k < configCount
      modifies this`configCount, this`dir, this`inotifyReady, this`removed, this`watchCount, configs, watchConfig
      ensures Valid() && State() == SwitchTo(old(State()), k, on, env)
    {
      configs[k] := configs[k].(monitorSwitch := on);
      WriteConfigFile(configs[k]);
      LoadConfigs();
      RebuildWatches(env);
    }

    method SwitchConfig(id: int, on: bool, env: Inotify)
      requires Valid() && |env.wds| == MAX_CONFIGS
      modifies this`configCount, this`dir, this`inotifyReady, this`removed, this`watchCount, this`responses
      modifies configs, watchConfig
      ensures Valid() && State() == SwitchStep(old(State()), id, on, env)
    {
      var found := FindConfig(id);
      if found.None? {
        SendResponse(1);
        return;
      }
      SwitchFound(found.value, on, env);
      SendResponse(0);
    }

    method HandleList(parts: seq<string>)
      requires Valid() && |parts| >= 1
      modifies this`out, this`responses
      ensures Valid()
      ensures parts[0] == "list" ==> State() == ListStep(old(State()), parts)
    {
      if |parts| < 2 || parts[1] == "config" {
        var rows := ListConfigs();
        out := ConfigRows(rows);
      } else if parts[1] == "events" {
        var rows := ListEvents();
        out := EventRows(rows);
      } else {
        SendResponse(1);
        return;
      }
      SendResponse(0);
    }

    /** One command: its parts, as `strtok` cuts them. */
    method HandleCommand(parts: seq<string>, env: Inotify)
      requires Valid() && |env.wds| == MAX_CONFIGS
      modifies this`configCount, this`dir, this`inotifyReady, this`removed, this`watchCount, this`responses, this`out
      modifies configs, watchConfig
      ensures Valid() && State() == CommandStep(old(State()), parts, env)
    {
      if |parts| < 1 {
        SendResponse(1);
        return;
      }
      LoadConfigs();
      if parts[0] == "start" && |parts| >= 2 {
        SwitchConfig(Atoi(parts[1]), true, env);
      } else if parts[0] == "stop" && |parts| >= 2 {
        SwitchConfig(Atoi(parts[1]), false, env);
      } else if parts[0] == "list" {
        HandleList(parts);
      } else {
        SendResponse(1);
      }
    }
  }
}
