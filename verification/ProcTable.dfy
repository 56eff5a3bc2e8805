/** The table of tracked processes (proc.c): a fixed array of slots searched
    linearly, where a full table gives up the slot with the oldest `last_seen`.
    `Step` is one event on the slots; `MapStep` is the same event on a map without
    a bound. The lemmas relate whole runs of the two. */
module ProcTable {
  import opened CStrings
  import opened Slots

  const MAX_TRACKED_PROCS: nat := 4096
  const TASK_COMM_LEN: nat := 16
  const TASK_NAME_MAX: nat := 256
  const ARGV_MAX_LEN: nat := 256

  datatype TrackedProcess = TrackedProcess(
    pid: nat, ppid: nat, comm: string, filename: string, argv: string,
    firstSeen: int, lastSeen: int, active: bool)

  /** A slot of the zero-initialised static array. */
  const FREE_SLOT := TrackedProcess(0, 0, "", "", "", 0, 0, false)

  datatype ProcConfig = ProcConfig(id: nat, name: string, monitorSwitch: bool, lastMonitorTime: int)

  datatype ProcEvent =
    | Exec(pid: nat, ppid: nat, comm: string, filename: string, argv: seq<string>)
    | Exit(pid: nat, ppid: nat, comm: string)
    | Fork(pid: nat, ppid: nat, comm: string)

  /** One event, with the configs and the clock reading it is handled under. */
  datatype Tick = Tick(configs: seq<ProcConfig>, event: ProcEvent, now: int)

  // ----- configured targets

  /** The part of the path after its last slash. */
  function Basename(path: string): (name: string)
    ensures |name| <= |path| && path[|path| - |name|..] == name && '/' !in name
    ensures name == path || path[|path| - |name| - 1] == '/'
  {
    if path == "" || path[|path| - 1] == '/' then ""
    else
      var shorter := Basename(path[..|path| - 1]);
      assert path == path[..|path| - 1] + [path[|path| - 1]];
      shorter + [path[|path| - 1]]
  }

  /** A switched-on config of one of the two names. */
  predicate Named(c: ProcConfig, comm: string, name: string) {
    c.monitorSwitch && (c.name == comm || c.name == name)
  }

  predicate Matches(c: ProcConfig, comm: string, filename: string) { Named(c, comm, Basename(filename)) }

  /** An enabled config has the command name, or the last part of the path, as its name. */
  predicate Enabled(configs: seq<ProcConfig>, comm: string, filename: string) {
    exists i :: 0 <= i < |configs| && Matches(configs[i], comm, filename)
  }

  predicate AnyNamed(configs: seq<ProcConfig>, comm: string, name: string) {
    exists i :: 0 <= i < |configs| && Named(configs[i], comm, name)
  }

  lemma EnabledIsAnyNamed(configs: seq<ProcConfig>, comm: string, filename: string)
    ensures Enabled(configs, comm, filename) == AnyNamed(configs, comm, Basename(filename))
  {
    forall i | 0 <= i < |configs|
      ensures Matches(configs[i], comm, filename) == Named(configs[i], comm, Basename(filename))
    {
    }
  }

  /** `name` is what stands behind the last slash of `path`. */
  predicate IsLastPart(path: string, name: string) {
    && '/' !in name
    && (path == name ||
        (|path| > |name| && path[|path| - |name| - 1] == '/' && path[|path| - |name|..] == name))
  }

  lemma LastPartIsBasename(path: string, name: string)
    ensures IsLastPart(path, name) <==> Basename(path) == name
  {
    var b := Basename(path);
    NoSlashBehind(path, b);
    if IsLastPart(path, name) { NoSlashBehind(path, name); }
  }

  lemma NoSlashBehind(path: string, name: string)
    requires '/' !in name && |name| <= |path| && path[|path| - |name|..] == name
    ensures forall k :: |path| - |name| <= k < |path| ==> path[k] != '/'
  {
    forall k | |path| - |name| <= k < |path| ensures path[k] != '/' {
      assert path[k] == name[k - (|path| - |name|)];
    }
  }

  /** A switched-on config has the command name, or the part behind the last slash of the
      path, as its name. */
  predicate Configured(configs: seq<ProcConfig>, comm: string, filename: string) {
    exists i :: 0 <= i < |configs| && NamesProcess(configs[i], comm, filename)
  }

  predicate NamesProcess(c: ProcConfig, comm: string, filename: string) {
    c.monitorSwitch && (c.name == comm || IsLastPart(filename, c.name))
  }

  lemma MatchesIsNaming(c: ProcConfig, comm: string, filename: string)
    ensures Matches(c, comm, filename) <==> NamesProcess(c, comm, filename)
  {
    LastPartIsBasename(filename, c.name);
  }

  /** Exec events are looked at exactly then. */
  lemma EnabledIsConfigured(configs: seq<ProcConfig>, comm: string, filename: string)
    ensures Enabled(configs, comm, filename) <==> Configured(configs, comm, filename)
  {
    forall i | 0 <= i < |configs|
      ensures Matches(configs[i], comm, filename) <==> NamesProcess(configs[i], comm, filename)
    {
      MatchesIsNaming(configs[i], comm, filename);
    }
  }

  function ExecFilename(e: ProcEvent): string { if e.Exec? then e.filename else "" }

  // ----- slots

  predicate Holds(p: TrackedProcess, pid: nat) { p.active && p.pid == pid }

  /** The first active slot of this pid. */
  predicate IsFind(s: seq<TrackedProcess>, pid: nat, r: Option<nat>) {
    match r
    case None => forall j :: 0 <= j < |s| ==> !Holds(s[j], pid)
    case Some(k) => k < |s| && Holds(s[k], pid) && forall j :: 0 <= j < k ==> !Holds(s[j], pid)
  }

  function Find(s: seq<TrackedProcess>, pid: nat): (r: Option<nat>)
    ensures IsFind(s, pid, r)
  {
    First(s, p => Holds(p, pid))
  }

  /** The slots as the allocator sees them. */
  function Seen(s: seq<TrackedProcess>): (t: seq<Slot>)
    ensures |t| == |s| && forall i :: 0 <= i < |s| ==> t[i] == Slot(s[i].active, s[i].lastSeen)
  {
    seq(|s|, i requires 0 <= i < |s| => Slot(s[i].active, s[i].lastSeen))
  }

  /** The slot for a new pid: free, or in a full table one of those seen longest ago. */
  function Alloc(s: seq<TrackedProcess>): (k: nat)
    requires |s| >= 1
    ensures k < |s|
    ensures s[k].active ==> forall j :: 0 <= j < |s| ==> s[j].active && s[k].lastSeen <= s[j].lastSeen
  {
    Pick(Seen(s))
  }

  lemma FindIs(s: seq<TrackedProcess>, pid: nat, r: Option<nat>)
    requires IsFind(s, pid, r)
    ensures Find(s, pid) == r
  {
    var f := Find(s, pid);
  }

  /** The slot an event for `pid` writes: its own, or a freshly allocated one. */
  function Target(s: seq<TrackedProcess>, pid: nat): (k: nat)
    requires |s| >= 1
    ensures k < |s|
  {
    match Find(s, pid) case Some(k) => k case None => Alloc(s)
  }

  function ExecRecord(e: ProcEvent, now: int): TrackedProcess
    requires e.Exec?
  {
    TrackedProcess(e.pid, e.ppid, Trunc(e.comm, TASK_COMM_LEN), Trunc(e.filename, TASK_NAME_MAX),
                   Trunc(Join(NonEmpty(e.argv)), ARGV_MAX_LEN), now, now, true)
  }

  function ForkRecord(parent: TrackedProcess, e: ProcEvent, now: int): TrackedProcess {
    parent.(pid := e.pid, ppid := e.ppid, comm := Trunc(e.comm, TASK_COMM_LEN), lastSeen := now, active := true)
  }

  /** One event on the slots. An exit stamps the slot before freeing it; a fork
      whose parent is not tracked changes nothing; a fork in a full table may write
      its child over the parent it copies from. */
  function Step(s: seq<TrackedProcess>, t: Tick): (s': seq<TrackedProcess>)
    requires |s| >= 1
    ensures |s'| == |s|
  {
    var e := t.event;
    match e
    case Exec(pid, _, comm, filename, _) =>
      if Enabled(t.configs, comm, filename) then s[Target(s, pid) := ExecRecord(e, t.now)] else s
    case Exit(pid, _, _) =>
      (match Find(s, pid)
       case Some(k) => s[k := s[k].(lastSeen := t.now, active := false)]
       case None => s)
    case Fork(pid, ppid, _) =>
      (match Find(s, ppid)
       case Some(p) => s[Target(s, pid) := ForkRecord(s[p], e, t.now)]
       case None => s)
  }

  function EmptyTable(n: nat): (s: seq<TrackedProcess>)
    ensures |s| == n && forall i :: 0 <= i < n ==> !s[i].active
  {
    seq(n, _ => FREE_SLOT)
  }

  function Run(n: nat, trace: seq<Tick>): (s: seq<TrackedProcess>)
    requires n >= 1
    ensures |s| == n
  {
    if trace == [] then EmptyTable(n)
    else Step(Run(n, trace[..|trace| - 1]), trace[|trace| - 1])
  }

  // ----- the same events without a bound

  type ProcMap = map<nat, TrackedProcess>

  function MapStep(m: ProcMap, t: Tick): ProcMap {
    var e := t.event;
    match e
    case Exec(pid, _, comm, filename, _) =>
      if Enabled(t.configs, comm, filename) then m[pid := ExecRecord(e, t.now)] else m
    case Exit(pid, _, _) => m - {pid}
    case Fork(pid, ppid, _) =>
      if ppid in m then m[pid := ForkRecord(m[ppid], e, t.now)] else m
  }

  function MapRun(trace: seq<Tick>): ProcMap {
    if trace == [] then map[] else MapStep(MapRun(trace[..|trace| - 1]), trace[|trace| - 1])
  }

  // ----- slot invariant and eviction

  ghost predicate Distinct(s: seq<TrackedProcess>) {
    forall i, j :: 0 <= i < j < |s| && s[i].active && s[j].active ==> s[i].pid != s[j].pid
  }

  /** The active slots as a map from pid to record. */
  function View(s: seq<TrackedProcess>): ProcMap {
    if s == [] then map[]
    else
      var last := s[|s| - 1];
      if last.active then View(s[..|s| - 1])[last.pid := last] else View(s[..|s| - 1])
  }

  lemma ViewComesFrom(s: seq<TrackedProcess>, pid: nat) returns (k: nat)
    requires pid in View(s)
    ensures k < |s| && Holds(s[k], pid) && View(s)[pid] == s[k]
  {
    if Holds(s[|s| - 1], pid) {
      k := |s| - 1;
    } else {
      k := ViewComesFrom(s[..|s| - 1], pid);
    }
  }

  lemma {:induction false} ViewHas(s: seq<TrackedProcess>, k: nat)
    requires Distinct(s) && k < |s| && s[k].active
    ensures s[k].pid in View(s) && View(s)[s[k].pid] == s[k]
  {
    var front := s[..|s| - 1];
    if k < |s| - 1 {
      assert front[k] == s[k];
      ViewHas(front, k);
    }
  }

  lemma FindIsLookup(s: seq<TrackedProcess>, pid: nat)
    requires Distinct(s)
    ensures Find(s, pid).Some? <==> pid in View(s)
    ensures Find(s, pid).Some? ==> View(s)[pid] == s[Find(s, pid).value]
  {
    if pid in View(s) { var k := ViewComesFrom(s, pid); }
    match Find(s, pid) {
      case Some(k) => ViewHas(s, k);
      case None =>
    }
  }

  /** The map after one slot is overwritten, when no other slot holds its new pid. */
  lemma ViewOfUpdate(s: seq<TrackedProcess>, k: nat, r: TrackedProcess)
    requires Distinct(s) && k < |s|
    requires r.active ==> forall j :: 0 <= j < |s| && j != k ==> !Holds(s[j], r.pid)
    ensures Distinct(s[k := r])
    ensures var kept := if s[k].active then View(s) - {s[k].pid} else View(s);
            View(s[k := r]) == if r.active then kept[r.pid := r] else kept
  {
    var s' := s[k := r];
    var kept := if s[k].active then View(s) - {s[k].pid} else View(s);
    var m := if r.active then kept[r.pid := r] else kept;
    forall p ensures p in View(s') <==> p in m
             ensures p in m && p in View(s') ==> View(s')[p] == m[p]
    {
      if r.active && p == r.pid {
        ViewHas(s', k);
      } else {
        if p in m {
          var i := ViewComesFrom(s, p);
          assert i != k;
          ViewHas(s', i);
        }
        if p in View(s') {
          var i := ViewComesFrom(s', p);
          assert i != k;
          ViewHas(s, i);
        }
      }
    }
  }

  /** Writing the target slot of a pid keeps pids distinct. Its effect on the map is
      one update, after the loss of at most one other pid: and a pid is lost only
      from a full table that lacks the new pid, and then it is the stalest one. */
  lemma WriteTarget(s: seq<TrackedProcess>, r: TrackedProcess)
    requires |s| >= 1 && Distinct(s) && r.active
    ensures var k := Target(s, r.pid);
            Distinct(s[k := r]) &&
            if s[k].active && s[k].pid != r.pid then
              && r.pid !in View(s)
              && (forall j :: 0 <= j < |s| ==> s[j].active && s[k].lastSeen <= s[j].lastSeen)
              && View(s[k := r]) == (View(s) - {s[k].pid})[r.pid := r]
            else
              View(s[k := r]) == View(s)[r.pid := r]
  {
    var k := Target(s, r.pid);
    FindIsLookup(s, r.pid);
    ViewOfUpdate(s, k, r);
  }
}
