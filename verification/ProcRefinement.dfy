/** Whole runs of the slot table against the same run on an unbounded map. */
module ProcRefinement {
  import opened CStrings
  import opened ProcTable
  import opened Slots

  // ----- one step

  /** The event writes the slot of its pid. */
  predicate Writes(s: seq<TrackedProcess>, t: Tick) {
    match t.event
    case Exec(_, _, comm, filename, _) => Enabled(t.configs, comm, filename)
    case Exit(_, _, _) => false
    case Fork(_, ppid, _) => Find(s, ppid).Some?
  }

  /** The pid that a record's target slot holds now, if it is another one. */
  function Displaced(s: seq<TrackedProcess>, pid: nat): set<nat>
    requires |s| >= 1
  {
    var k := Target(s, pid);
    if s[k].active && s[k].pid != pid then {s[k].pid} else {}
  }

  /** The pids an event pushes out of the table to make room. */
  function Evicted(s: seq<TrackedProcess>, t: Tick): set<nat>
    requires |s| >= 1
  {
    if Writes(s, t) then Displaced(s, t.event.pid) else {}
  }

  lemma DropThenPut(m: ProcMap, drop: set<nat>, r: TrackedProcess)
    requires r.pid !in drop
    ensures (m - drop)[r.pid := r] == m[r.pid := r] - drop
  {
  }

  lemma DropNone(m: ProcMap, drop: set<nat>)
    requires drop == {}
    ensures m - drop == m
  {
  }

  lemma ExitIsRemoval(s: seq<TrackedProcess>, t: Tick)
    requires |s| >= 1 && Distinct(s) && t.event.Exit?
    ensures Distinct(Step(s, t))
    ensures View(Step(s, t)) == View(s) - {t.event.pid} - Evicted(s, t)
  {
    var pid := t.event.pid;
    FindIsLookup(s, pid);
    DropNone(View(s) - {pid}, Evicted(s, t));
    match Find(s, pid) {
      case Some(k) => ViewOfUpdate(s, k, s[k].(lastSeen := t.now, active := false));
      case None => assert View(s) - {pid} == View(s);
    }
  }

  lemma WriteIsUpdateLessDisplaced(s: seq<TrackedProcess>, r: TrackedProcess)
    requires |s| >= 1 && Distinct(s) && r.active
    ensures var s' := s[Target(s, r.pid) := r];
            Distinct(s') && View(s') == View(s)[r.pid := r] - Displaced(s, r.pid)
  {
    WriteTarget(s, r);
    DropThenPut(View(s), Displaced(s, r.pid), r);
    DropNone(View(s), {});
  }

  /** On the map of active slots every event acts as on the unbounded map, except
      that it may drop evicted pids: and the record of a fork is copied from its
      parent even when the parent is the one dropped. */
  lemma StepIsMapStepLessEvicted(s: seq<TrackedProcess>, t: Tick)
    requires |s| >= 1 && Distinct(s)
    ensures Distinct(Step(s, t))
    ensures View(Step(s, t)) == MapStep(View(s), t) - Evicted(s, t)
  {
    var e := t.event;
    match e {
      case Exec(_, _, comm, filename, _) =>
        if Enabled(t.configs, comm, filename) {
          WriteIsUpdateLessDisplaced(s, ExecRecord(e, t.now));
        } else {
          DropNone(View(s), Evicted(s, t));
        }
      case Exit(_, _, _) => ExitIsRemoval(s, t);
      case Fork(_, ppid, _) =>
        FindIsLookup(s, ppid);
        if Find(s, ppid).Some? {
          WriteIsUpdateLessDisplaced(s, ForkRecord(s[Find(s, ppid).value], e, t.now));
        } else {
          DropNone(View(s), Evicted(s, t));
        }
    }
  }

  predicate SameExcept(s: seq<TrackedProcess>, s': seq<TrackedProcess>, k: nat) {
    |s'| == |s| && forall j :: 0 <= j < |s| && j != k ==> s'[j] == s[j]
  }

  /** What it takes to give up the record of pid `v` for a new pid. */
  ghost predicate LastResort(s: seq<TrackedProcess>, pid: nat, v: nat) {
    && pid !in View(s) && |View(s)| == |s| && v in View(s)
    && forall p :: p in View(s) ==> View(s)[v].lastSeen <= View(s)[p].lastSeen
  }

  lemma DisplacedIsLastResort(s: seq<TrackedProcess>, pid: nat, v: nat)
    requires |s| >= 1 && Distinct(s) && v in Displaced(s, pid)
    ensures LastResort(s, pid, v)
  {
    var k := Target(s, pid);
    FindIsLookup(s, pid);
    FullTableCount(s);
    ViewHas(s, k);
    forall p | p in View(s) ensures s[k].lastSeen <= View(s)[p].lastSeen {
      var i := ViewComesFrom(s, p);
    }
  }

  lemma OneSlotChanges(s: seq<TrackedProcess>, t: Tick) returns (k: nat)
    requires |s| >= 1
    ensures SameExcept(s, Step(s, t), k)
  {
    match t.event {
      case Exec(pid, _, _, _, _) => k := Target(s, pid);
      case Exit(pid, _, _) => k := match Find(s, pid) case Some(i) => i case None => 0;
      case Fork(pid, _, _) => k := Target(s, pid);
    }
  }

  /** An eviction happens only in a full table that lacks the new pid; the victim
      has minimal `last_seen`; and every slot but one is untouched by any event. */
  lemma EvictionIsLastResort(s: seq<TrackedProcess>, t: Tick)
    requires |s| >= 1 && Distinct(s)
    ensures exists k :: SameExcept(s, Step(s, t), k)
    ensures |Evicted(s, t)| <= 1
    ensures forall v :: v in Evicted(s, t) ==>
              && t.event.pid !in View(s) && |View(s)| == |s|
              && v in View(s)
              && forall p :: p in View(s) ==> View(s)[v].lastSeen <= View(s)[p].lastSeen
  {
    var k := OneSlotChanges(s, t);
    forall v | v in Evicted(s, t) ensures LastResort(s, t.event.pid, v) {
      DisplacedIsLastResort(s, t.event.pid, v);
    }
  }

  lemma {:induction false} FullTableCount(s: seq<TrackedProcess>)
    requires Distinct(s) && forall i :: 0 <= i < |s| ==> s[i].active
    ensures |View(s)| == |s|
  {
    if s != [] {
      var front, last := s[..|s| - 1], s[|s| - 1];
      FullTableCount(front);
      if last.pid in View(front) {
        var k := ViewComesFrom(front, last.pid);
        assert false;
      }
    }
  }

  // ----- runs

  lemma {:induction false} RunDistinct(n: nat, trace: seq<Tick>)
    requires n >= 1
    ensures Distinct(Run(n, trace))
  {
    if trace != [] {
      RunDistinct(n, trace[..|trace| - 1]);
      StepIsMapStepLessEvicted(Run(n, trace[..|trace| - 1]), trace[|trace| - 1]);
    }
  }

  /** The tracked processes after a run: well-defined because pids stay distinct. */
  ghost function Tracked(n: nat, trace: seq<Tick>): ProcMap
    requires n >= 1
  {
    View(Run(n, trace))
  }

  lemma EmptyView(s: seq<TrackedProcess>)
    requires forall i :: 0 <= i < |s| ==> !s[i].active
    ensures View(s) == map[]
  {
  }

  lemma TrackedStep(n: nat, trace: seq<Tick>)
    requires n >= 1 && trace != []
    ensures var before, t := trace[..|trace| - 1], trace[|trace| - 1];
            Tracked(n, trace) == MapStep(Tracked(n, before), t) - Evicted(Run(n, before), t)
  {
    var before, t := trace[..|trace| - 1], trace[|trace| - 1];
    RunDistinct(n, before);
    StepIsMapStepLessEvicted(Run(n, before), t);
  }

  /** Tracked pids are always a subset of the pids of the unbounded run. */
  lemma {:induction false} TrackedPidsAreSubset(n: nat, trace: seq<Tick>)
    requires n >= 1
    ensures Tracked(n, trace).Keys <= MapRun(trace).Keys
  {
    if trace == [] {
      EmptyView(Run(n, trace));
    } else {
      TrackedPidsAreSubset(n, trace[..|trace| - 1]);
      TrackedStep(n, trace);
    }
  }

  predicate SubMap(a: ProcMap, b: ProcMap) {
    forall p :: p in a ==> p in b && a[p] == b[p]
  }

  /** A fork that only the unbounded map can follow, because its parent was evicted,
      and that names a pid the table holds under another record. */
  predicate Diverges(tracked: ProcMap, m: ProcMap, t: Tick) {
    && t.event.Fork? && t.event.ppid in m && t.event.ppid !in tracked
    && t.event.pid in tracked && tracked[t.event.pid] != ForkRecord(m[t.event.ppid], t.event, t.now)
  }

  lemma MapsAgree(v: ProcMap, m: ProcMap, t: Tick, drop: set<nat>)
    requires SubMap(v, m) && !Diverges(v, m, t)
    ensures SubMap(MapStep(v, t) - drop, MapStep(m, t))
  {
    var v', m' := MapStep(v, t), MapStep(m, t);
    forall p | p in v' ensures p in m' && v'[p] == m'[p] {}
  }

  lemma MapsDiffer(v: ProcMap, m: ProcMap, t: Tick)
    requires Diverges(v, m, t)
    ensures MapStep(v, t) == v && !SubMap(v, MapStep(m, t))
  {
    assert t.event.pid in v && v[t.event.pid] != MapStep(m, t)[t.event.pid];
  }

  /** One event keeps the records in agreement exactly when it does not diverge. */
  lemma AgreementStep(s: seq<TrackedProcess>, m: ProcMap, t: Tick)
    requires |s| >= 1 && Distinct(s) && SubMap(View(s), m)
    ensures Distinct(Step(s, t))
    ensures SubMap(View(Step(s, t)), MapStep(m, t)) <==> !Diverges(View(s), m, t)
  {
    StepIsMapStepLessEvicted(s, t);
    if Diverges(View(s), m, t) {
      FindIsLookup(s, t.event.ppid);
      MapsDiffer(View(s), m, t);
      DropNone(View(s), Evicted(s, t));
    } else {
      MapsAgree(View(s), m, t, Evicted(s, t));
    }
  }

  // ----- runs on both sides

  ghost predicate AgreesAt(n: nat, trace: seq<Tick>, k: nat)
    requires n >= 1 && k <= |trace|
  {
    SubMap(Tracked(n, trace[..k]), MapRun(trace[..k]))
  }

  ghost predicate DivergesAt(n: nat, trace: seq<Tick>, k: nat)
    requires n >= 1 && k < |trace|
  {
    Diverges(Tracked(n, trace[..k]), MapRun(trace[..k]), trace[k])
  }

  lemma AgreementNext(n: nat, trace: seq<Tick>, k: nat)
    requires n >= 1 && k < |trace| && AgreesAt(n, trace, k)
    ensures AgreesAt(n, trace, k + 1) <==> !DivergesAt(n, trace, k)
  {
    assert trace[..k + 1][..k] == trace[..k] && trace[..k + 1][k] == trace[k];
    RunDistinct(n, trace[..k]);
    AgreementStep(Run(n, trace[..k]), MapRun(trace[..k]), trace[k]);
  }

  lemma {:induction false} AgreesUpTo(n: nat, trace: seq<Tick>, k: nat)
    requires n >= 1 && k <= |trace| && forall j :: 0 <= j < k ==> !DivergesAt(n, trace, j)
    ensures AgreesAt(n, trace, k)
  {
    if k == 0 {
      EmptyView(Run(n, trace[..0]));
    } else {
      AgreesUpTo(n, trace, k - 1);
      AgreementNext(n, trace, k - 1);
    }
  }

  /** The records of table and unbounded map agree all along a run exactly when no fork of
      the run diverges. */
  lemma RunAgreesExactly(n: nat, trace: seq<Tick>)
    requires n >= 1
    ensures (forall k :: 0 <= k <= |trace| ==> AgreesAt(n, trace, k)) <==>
            (forall k :: 0 <= k < |trace| ==> !DivergesAt(n, trace, k))
  {
    if forall k :: 0 <= k < |trace| ==> !DivergesAt(n, trace, k) {
      forall k | 0 <= k <= |trace| ensures AgreesAt(n, trace, k) { AgreesUpTo(n, trace, k); }
    } else {
      var k :| 0 <= k < |trace| && DivergesAt(n, trace, k);
      if AgreesAt(n, trace, k) { AgreementNext(n, trace, k); }
      assert !AgreesAt(n, trace, k) || !AgreesAt(n, trace, k + 1);
    }
  }

  /** Every fork names a pid that the unbounded map does not hold. */
  ghost predicate ForksAreFresh(trace: seq<Tick>) {
    forall k :: 0 <= k < |trace| && trace[k].event.Fork? ==> trace[k].event.pid !in MapRun(trace[..k])
  }

  lemma TrackedIsSubMap(n: nat, trace: seq<Tick>)
    requires n >= 1 && ForksAreFresh(trace)
    ensures SubMap(Tracked(n, trace), MapRun(trace))
  {
    forall k | 0 <= k < |trace| ensures !DivergesAt(n, trace, k) {
      TrackedPidsAreSubset(n, trace[..k]);
    }
    AgreesUpTo(n, trace, |trace|);
    assert trace[..|trace|] == trace;
  }

  lemma NewPidCounts(m: ProcMap, pid: nat, r: TrackedProcess)
    requires pid !in m
    ensures |m[pid := r]| == |m| + 1
  {
    assert m[pid := r].Keys == m.Keys + {pid};
  }

  lemma WritingGrowsTheMap(s: seq<TrackedProcess>, t: Tick)
    requires |s| >= 1 && Distinct(s) && Writes(s, t) && t.event.pid !in View(s)
    ensures |MapStep(View(s), t)| == |View(s)| + 1
  {
    var e := t.event;
    match e {
      case Exec(pid, _, _, _, _) => NewPidCounts(View(s), pid, ExecRecord(e, t.now));
      case Fork(pid, ppid, _) =>
        FindIsLookup(s, ppid);
        NewPidCounts(View(s), pid, ForkRecord(View(s)[ppid], e, t.now));
      case Exit(_, _, _) =>
    }
  }

  lemma EvictionMeansOutgrown(s: seq<TrackedProcess>, t: Tick)
    requires |s| >= 1 && Distinct(s) && Evicted(s, t) != {}
    ensures |MapStep(View(s), t)| == |s| + 1
  {
    var v :| v in Evicted(s, t);
    DisplacedIsLastResort(s, t.event.pid, v);
    WritingGrowsTheMap(s, t);
  }

  /** While the unbounded map never outgrows the table, the two are equal. */
  lemma {:induction false} TrackedIsExactWhileItFits(n: nat, trace: seq<Tick>)
    requires n >= 1 && forall k :: 0 <= k <= |trace| ==> |MapRun(trace[..k])| <= n
    ensures Tracked(n, trace) == MapRun(trace)
  {
    assert trace[..|trace|] == trace;
    if trace == [] {
      EmptyView(Run(n, trace));
    } else {
      var before, t := trace[..|trace| - 1], trace[|trace| - 1];
      assert forall k :: 0 <= k <= |before| ==> before[..k] == trace[..k];
      TrackedIsExactWhileItFits(n, before);
      RunDistinct(n, before);
      TrackedStep(n, trace);
      if Evicted(Run(n, before), t) != {} { EvictionMeansOutgrown(Run(n, before), t); }
      DropNone(MapRun(trace), Evicted(Run(n, before), t));
    }
  }

  lemma {:induction false} ViewFits(s: seq<TrackedProcess>)
    ensures |View(s)| <= |s|
  {
    if s != [] { ViewFits(s[..|s| - 1]); }
  }

  ghost predicate EqualAt(n: nat, trace: seq<Tick>, k: nat)
    requires n >= 1 && k <= |trace|
  {
    Tracked(n, trace[..k]) == MapRun(trace[..k])
  }

  ghost predicate FitsAt(n: nat, trace: seq<Tick>, k: nat)
    requires k <= |trace|
  {
    |MapRun(trace[..k])| <= n
  }

  /** Table and unbounded map are equal all along a run exactly when the map never outgrows
      the table. */
  lemma TrackedIsExactlyWhatFits(n: nat, trace: seq<Tick>)
    requires n >= 1
    ensures (forall k :: 0 <= k <= |trace| ==> EqualAt(n, trace, k)) <==>
            (forall k :: 0 <= k <= |trace| ==> FitsAt(n, trace, k))
  {
    if forall k :: 0 <= k <= |trace| ==> FitsAt(n, trace, k) {
      forall k | 0 <= k <= |trace| ensures EqualAt(n, trace, k) {
        forall j | 0 <= j <= k ensures |MapRun(trace[..k][..j])| <= n {
          assert FitsAt(n, trace, j) && trace[..k][..j] == trace[..j];
        }
        TrackedIsExactWhileItFits(n, trace[..k]);
      }
    } else {
      var k :| 0 <= k <= |trace| && !FitsAt(n, trace, k);
      ViewFits(Run(n, trace[..k]));
      assert !EqualAt(n, trace, k);
    }
  }

  // ----- a run on which the records differ

  const SHELL := ProcConfig(1, "sh", true, 0)

  /** The start of a shell with pid `pid`, at the time of the same number. */
  function Start(pid: nat): Tick {
    Tick([SHELL], Exec(pid, 1, "sh", "/bin/sh", ["sh"]), pid)
  }

  function Started(pid: nat): TrackedProcess { ExecRecord(Start(pid).event, pid) }

  /** The shells 1, 2, ..., k are started one after the other. */
  function Starts(k: nat): (trace: seq<Tick>)
    ensures |trace| == k
  {
    seq(k, i requires 0 <= i < k => Start(i + 1))
  }

  /** The table after `k` starts, while they fit. */
  function Filled(n: nat, k: nat): (s: seq<TrackedProcess>)
    ensures |s| == n
  {
    seq(n, i requires 0 <= i < n => if i < k then Started(i + 1) else FREE_SLOT)
  }

  lemma ShellsAreTracked()
    ensures Enabled([SHELL], "sh", "/bin/sh")
  {
    assert Matches([SHELL][0], "sh", "/bin/sh");
  }

  lemma StartsStep(k: nat)
    ensures Starts(k + 1)[..k] == Starts(k) && Starts(k + 1)[k] == Start(k + 1)
  {
  }

  lemma ShellStarts(s: seq<TrackedProcess>, pid: nat, k: nat)
    requires |s| >= 1 && IsFind(s, pid, None) && IsPick(Seen(s), k)
    ensures Step(s, Start(pid)) == s[k := Started(pid)]
  {
    ShellsAreTracked();
    FindIs(s, pid, None);
    PickIs(Seen(s), k);
  }

  lemma NextFilled(n: nat, k: nat)
    requires 1 <= n && k <= n
    ensures IsFind(Filled(n, k), k + 1, None) && IsPick(Seen(Filled(n, k)), if k < n then k else 0)
  {
    var t := Seen(Filled(n, k));
    assert forall i :: 0 <= i < n ==> t[i] == if i < k then Slot(true, i + 1) else Slot(false, 0);
  }

  lemma FilledNext(n: nat, k: nat)
    requires k < n
    ensures Step(Filled(n, k), Start(k + 1)) == Filled(n, k + 1)
  {
    var s := Filled(n, k);
    NextFilled(n, k);
    ShellStarts(s, k + 1, k);
    assert s[k := Started(k + 1)] == Filled(n, k + 1);
  }

  lemma {:induction false} StartsFill(n: nat, k: nat)
    requires 1 <= n && k <= n
    ensures Run(n, Starts(k)) == Filled(n, k)
  {
    if k == 0 {
      assert Filled(n, 0) == EmptyTable(n);
    } else {
      StartsFill(n, k - 1);
      StartsStep(k - 1);
      FilledNext(n, k - 1);
    }
  }

  /** One start more evicts the first shell. */
  lemma OneStartTooMany(n: nat)
    requires n >= 1
    ensures Run(n, Starts(n + 1)) == Filled(n, n)[0 := Started(n + 1)]
  {
    StartsFill(n, n);
    StartsStep(n);
    NextFilled(n, n);
    ShellStarts(Filled(n, n), n + 1, 0);
  }

  lemma MapOfOneStart(m: ProcMap, pid: nat)
    ensures MapStep(m, Start(pid)) == m[pid := Started(pid)]
  {
    ShellsAreTracked();
  }

  lemma {:induction false} MapOfStarts(k: nat)
    ensures forall p :: p in MapRun(Starts(k)) <==> 1 <= p <= k
    ensures forall p :: 1 <= p <= k ==> MapRun(Starts(k))[p] == Started(p)
  {
    if k > 0 {
      MapOfStarts(k - 1);
      StartsStep(k - 1);
      MapOfOneStart(MapRun(Starts(k - 1)), k);
    }
  }

  /** Shell 1, no longer tracked, forks; the child is named as the last shell started. */
  function StaleFork(n: nat): Tick { Tick([SHELL], Fork(n + 1, 1, "sh"), n + 2) }

  lemma StaleForkDiverges(n: nat)
    requires n >= 1
    ensures Diverges(Tracked(n, Starts(n + 1)), MapRun(Starts(n + 1)), StaleFork(n))
  {
    OneStartTooMany(n);
    MapOfStarts(n + 1);
    RunDistinct(n, Starts(n + 1));
    var s := Run(n, Starts(n + 1));
    ViewHas(s, 0);
    FindIs(s, 1, None);
    FindIsLookup(s, 1);
  }

  /** Without fresh forks the records can differ, whatever the size of the table: when one
      process too many is started, the first is evicted, and a fork from it to a tracked pid
      is followed by the unbounded map alone. */
  lemma StaleForkMakesRecordsDiffer(n: nat)
    requires n >= 1
    ensures var trace := Starts(n + 1) + [StaleFork(n)]; !SubMap(Tracked(n, trace), MapRun(trace))
  {
    var before, t := Starts(n + 1), StaleFork(n);
    assert (before + [t])[..|before|] == before;
    StaleForkDiverges(n);
    MapsDiffer(Tracked(n, before), MapRun(before), t);
    RunDistinct(n, before);
    FindIsLookup(Run(n, before), 1);
    TrackedStep(n, before + [t]);
    DropNone(Tracked(n, before), Evicted(Run(n, before), t));
  }

  // ----- where a record comes from

  /** `pid` is reached from `origin` by a chain of forks among the events from `i` on. */
  predicate Descends(trace: seq<Tick>, i: nat, origin: nat, pid: nat)
    requires i <= |trace|
    decreases |trace|
  {
    if |trace| == i then pid == origin
    else
      var before, e := trace[..|trace| - 1], trace[|trace| - 1].event;
      || Descends(before, i, origin, pid)
      || (e.Fork? && e.pid == pid && Descends(before, i, origin, e.ppid))
  }

  /** The record stems from the exec event at `i`: a switched-on config had its name then,
      its file, arguments and time are the record's, and forks lead to the record's pid. */
  predicate StemsFrom(trace: seq<Tick>, i: nat, r: TrackedProcess) {
    && i < |trace| && trace[i].event.Exec?
    && var e := trace[i].event;
    && Configured(trace[i].configs, e.comm, e.filename)
    && r.filename == Trunc(e.filename, 256)
    && r.argv == Trunc(Join(NonEmpty(e.argv)), 256)
    && r.firstSeen == trace[i].now
    && Descends(trace, i + 1, e.pid, r.pid)
  }

  lemma StemsFromExtends(trace: seq<Tick>, i: nat, r: TrackedProcess)
    requires trace != [] && StemsFrom(trace[..|trace| - 1], i, r)
    ensures StemsFrom(trace, i, r)
  {
  }

  /** Every tracked process descends from a configured exec event. */
  lemma {:induction false} TrackingIsConfigScoped(n: nat, trace: seq<Tick>, k: nat) returns (i: nat)
    requires n >= 1 && k < n && Run(n, trace)[k].active
    ensures StemsFrom(trace, i, Run(n, trace)[k])
  {
    var before, t := trace[..|trace| - 1], trace[|trace| - 1];
    var s, r := Run(n, before), Run(n, trace)[k];
    if s[k] == r {
      i := TrackingIsConfigScoped(n, before, k);
      StemsFromExtends(trace, i, r);
    } else if t.event.Exec? {
      i := |trace| - 1;
      EnabledIsConfigured(t.configs, t.event.comm, t.event.filename);
      assert Descends(trace, i + 1, t.event.pid, r.pid);
    } else {
      assert t.event.Fork?;
      var p := Find(s, t.event.ppid).value;
      i := TrackingIsConfigScoped(n, before, p);
      assert r == ForkRecord(s[p], t.event, t.now);
    }
  }

  /** Event `k` neither writes nor frees the pid. */
  ghost predicate Spares(n: nat, trace: seq<Tick>, k: nat, pid: nat)
    requires n >= 1 && k < |trace|
  {
    trace[k].event.pid == pid ==> !trace[k].event.Exit? && !Writes(Run(n, trace[..k]), trace[k])
  }

  /** The event at `j` wrote the record: it names the record's pid, parent, command
      and `last_seen`, and no later event wrote or freed that pid. */
  ghost predicate LastWrite(n: nat, trace: seq<Tick>, j: nat, r: TrackedProcess)
    requires n >= 1
  {
    && j < |trace| && Writes(Run(n, trace[..j]), trace[j])
    && var e := trace[j].event;
    && r.pid == e.pid && r.ppid == e.ppid && r.comm == Trunc(e.comm, TASK_COMM_LEN)
    && r.lastSeen == trace[j].now
    && forall k :: j < k < |trace| ==> Spares(n, trace, k, r.pid)
  }

  lemma SparesExtends(n: nat, trace: seq<Tick>, k: nat, pid: nat)
    requires n >= 1 && trace != [] && k < |trace| - 1 && Spares(n, trace[..|trace| - 1], k, pid)
    ensures Spares(n, trace, k, pid)
  {
    assert trace[..|trace| - 1][..k] == trace[..k];
  }

  lemma LastWriteExtends(n: nat, trace: seq<Tick>, j: nat, r: TrackedProcess)
    requires n >= 1 && trace != [] && LastWrite(n, trace[..|trace| - 1], j, r)
    requires Spares(n, trace, |trace| - 1, r.pid)
    ensures LastWrite(n, trace, j, r)
  {
    assert trace[..|trace| - 1][..j] == trace[..j];
    forall k | j < k < |trace| ensures Spares(n, trace, k, r.pid) {
      if k < |trace| - 1 { SparesExtends(n, trace, k, r.pid); }
    }
  }

  /** The record that an event writes says what the event says. */
  lemma WrittenRecord(s: seq<TrackedProcess>, t: Tick)
    requires |s| >= 1 && Writes(s, t)
    ensures var r, e := Step(s, t)[Target(s, t.event.pid)], t.event;
            && r.active && r.pid == e.pid && r.ppid == e.ppid
            && r.comm == Trunc(e.comm, TASK_COMM_LEN) && r.lastSeen == t.now
  {
  }

  lemma SlotUnwritten(s: seq<TrackedProcess>, t: Tick, k: nat)
    requires |s| >= 1 && k < |s| && Step(s, t)[k].active && !(Writes(s, t) && k == Target(s, t.event.pid))
    ensures Step(s, t)[k] == s[k]
  {
  }

  /** A slot that stays in use and is not written has a pid the event spares. */
  lemma SlotKept(s: seq<TrackedProcess>, t: Tick, k: nat)
    requires |s| >= 1 && Distinct(s) && Distinct(Step(s, t)) && k < |s| && Step(s, t)[k].active
    requires !(Writes(s, t) && k == Target(s, t.event.pid))
    ensures Step(s, t)[k] == s[k]
    ensures t.event.pid == s[k].pid ==> !t.event.Exit? && !Writes(s, t)
  {
    SlotUnwritten(s, t, k);
    if t.event.pid == s[k].pid {
      FindIs(s, s[k].pid, Some(k));
      if Writes(s, t) { WrittenRecord(s, t); }
    }
  }

  /** A record says what the last event to write its pid said. */
  lemma {:induction false} RecordIsItsLastWrite(n: nat, trace: seq<Tick>, k: nat) returns (j: nat)
    requires n >= 1 && k < n && Run(n, trace)[k].active
    ensures LastWrite(n, trace, j, Run(n, trace)[k])
  {
    var before, t := trace[..|trace| - 1], trace[|trace| - 1];
    var s := Run(n, before);
    if Writes(s, t) && k == Target(s, t.event.pid) {
      WrittenRecord(s, t);
      j := |trace| - 1;
    } else {
      RunDistinct(n, before);
      RunDistinct(n, trace);
      SlotKept(s, t, k);
      j := RecordIsItsLastWrite(n, before, k);
      LastWriteExtends(n, trace, j, Run(n, trace)[k]);
    }
  }

  // ----- what an event does, in plain terms

  /** All records but that of `pid` stay, except that a full table without `pid` may lose one,
      and then one with the smallest `last_seen`. */
  ghost predicate OthersKept(n: nat, v: ProcMap, v': ProcMap, pid: nat) {
    && (forall p :: p in v' && p != pid ==> p in v && v'[p] == v[p])
    && (forall p :: p in v && p != pid && p !in v' ==>
          && pid !in v && |v| == n
          && forall q :: q in v ==> v[p].lastSeen <= v[q].lastSeen)
    && (forall p, q :: p in v && q in v && p != pid && q != pid && p !in v' && q !in v' ==> p == q)
  }

  lemma TrackedBehind(n: nat, trace: seq<Tick>, t: Tick)
    requires n >= 1
    ensures Distinct(Run(n, trace))
    ensures Tracked(n, trace + [t]) == MapStep(Tracked(n, trace), t) - Evicted(Run(n, trace), t)
  {
    assert (trace + [t])[..|trace|] == trace;
    RunDistinct(n, trace);
    TrackedStep(n, trace + [t]);
  }

  lemma EvictedIsOne(s: seq<TrackedProcess>, t: Tick, p: nat, q: nat)
    requires |s| >= 1 && p in Evicted(s, t) && q in Evicted(s, t)
    ensures p == q
  {
  }

  lemma PutLessDropped(n: nat, v: ProcMap, r: TrackedProcess, drop: set<nat>)
    requires forall p, q :: p in drop && q in drop ==> p == q
    requires forall p :: p in drop ==>
               p in v && r.pid !in v && |v| == n && forall q :: q in v ==> v[p].lastSeen <= v[q].lastSeen
    ensures var v' := v[r.pid := r] - drop; r.pid in v' && v'[r.pid] == r && OthersKept(n, v, v', r.pid)
  {
  }

  lemma WrittenKeepsOthers(n: nat, trace: seq<Tick>, t: Tick, r: TrackedProcess)
    requires n >= 1 && r.pid == t.event.pid
    requires MapStep(Tracked(n, trace), t) == Tracked(n, trace)[r.pid := r]
    ensures var v, v' := Tracked(n, trace), Tracked(n, trace + [t]);
            r.pid in v' && v'[r.pid] == r && OthersKept(n, v, v', r.pid)
  {
    var s := Run(n, trace);
    TrackedBehind(n, trace, t);
    EvictionIsLastResort(s, t);
    forall p, q | p in Evicted(s, t) && q in Evicted(s, t) ensures p == q { EvictedIsOne(s, t, p, q); }
    PutLessDropped(n, Tracked(n, trace), r, Evicted(s, t));
  }

  lemma ExecStep(s: seq<TrackedProcess>, m: ProcMap, t: Tick)
    requires |s| >= 1 && t.event.Exec?
    ensures if Enabled(t.configs, t.event.comm, t.event.filename)
            then MapStep(m, t) == m[t.event.pid := ExecRecord(t.event, t.now)]
            else Step(s, t) == s
  {
  }

  lemma RunBehind(n: nat, trace: seq<Tick>, t: Tick)
    requires n >= 1
    ensures Run(n, trace + [t]) == Step(Run(n, trace), t)
  {
    assert (trace + [t])[..|trace|] == trace;
  }

  lemma ConfiguredExec(n: nat, trace: seq<Tick>, t: Tick)
    requires n >= 1 && t.event.Exec? && Enabled(t.configs, t.event.comm, t.event.filename)
    ensures var v, v', e := Tracked(n, trace), Tracked(n, trace + [t]), t.event;
            e.pid in v' && v'[e.pid] == ExecRecord(e, t.now) && OthersKept(n, v, v', e.pid)
  {
    ExecStep(Run(n, trace), Tracked(n, trace), t);
    WrittenKeepsOthers(n, trace, t, ExecRecord(t.event, t.now));
  }

  /** An exec event of a configured process tracks its pid from now on, under what the event
      says; any other exec event changes nothing. */
  lemma ExecIsTracked(n: nat, trace: seq<Tick>, t: Tick)
    requires n >= 1 && t.event.Exec?
    ensures var v, v', e := Tracked(n, trace), Tracked(n, trace + [t]), t.event;
            if Configured(t.configs, e.comm, e.filename) then
              && e.pid in v' && OthersKept(n, v, v', e.pid)
              && v'[e.pid] == TrackedProcess(
                   e.pid, e.ppid, Trunc(e.comm, 16), Trunc(e.filename, 256), Trunc(Join(NonEmpty(e.argv)), 256),
                   t.now, t.now, true)
            else
              Run(n, trace + [t]) == Run(n, trace)
  {
    EnabledIsConfigured(t.configs, t.event.comm, t.event.filename);
    ExecStep(Run(n, trace), Tracked(n, trace), t);
    RunBehind(n, trace, t);
    if Enabled(t.configs, t.event.comm, t.event.filename) { ConfiguredExec(n, trace, t); }
  }

  /** A fork event of a tracked process tracks the child from now on, under its parent's
      record with the child's own ids, name and time; any other fork event changes nothing. */
  lemma ForkIsTracked(n: nat, trace: seq<Tick>, t: Tick)
    requires n >= 1 && t.event.Fork?
    ensures var v, v', e := Tracked(n, trace), Tracked(n, trace + [t]), t.event;
            if e.ppid in v then
              && e.pid in v' && OthersKept(n, v, v', e.pid)
              && v'[e.pid] == TrackedProcess(
                   e.pid, e.ppid, Trunc(e.comm, 16), v[e.ppid].filename, v[e.ppid].argv,
                   v[e.ppid].firstSeen, t.now, true)
            else
              Run(n, trace + [t]) == Run(n, trace)
  {
    var v, e := Tracked(n, trace), t.event;
    assert (trace + [t])[..|trace|] == trace;
    RunDistinct(n, trace);
    FindIsLookup(Run(n, trace), e.ppid);
    if e.ppid in v { WrittenKeepsOthers(n, trace, t, ForkRecord(v[e.ppid], e, t.now)); }
  }

  /** An exit event ends the tracking of its pid, and of no other. */
  lemma ExitEndsTracking(n: nat, trace: seq<Tick>, t: Tick)
    requires n >= 1 && t.event.Exit?
    ensures Tracked(n, trace + [t]) == Tracked(n, trace) - {t.event.pid}
  {
    TrackedBehind(n, trace, t);
    DropNone(Tracked(n, trace) - {t.event.pid}, Evicted(Run(n, trace), t));
  }
}
