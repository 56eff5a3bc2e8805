/** Short-lived exits counted per command name (proc.c): a window restarts at the
    first exit more than 10 s after its start, and a count of 5 reports a burst. */
module ShortLived {
  import opened CStrings
  import opened ProcTable
  import opened Slots

  const SHORT_LIVED_PROC_SECONDS: int := 2
  const SHORT_LIVED_BURST_WINDOW_SECONDS: int := 10
  const SHORT_LIVED_BURST_THRESHOLD: nat := 5

  datatype Counter = Counter(comm: string, windowStart: int, count: nat, active: bool)

  const FREE_COUNTER := Counter("", 0, 0, false)

  /** A short-lived exit handed to the counters. */
  datatype ShortExit = ShortExit(comm: string, now: int)

  predicate Counts(c: Counter, comm: string) { c.active && c.comm == comm }

  predicate IsFindCounter(s: seq<Counter>, comm: string, r: Option<nat>) {
    match r
    case None => forall j :: 0 <= j < |s| ==> !Counts(s[j], comm)
    case Some(k) => k < |s| && Counts(s[k], comm) && forall j :: 0 <= j < k ==> !Counts(s[j], comm)
  }

  function FindCounter(s: seq<Counter>, comm: string): (r: Option<nat>)
    ensures IsFindCounter(s, comm, r)
  {
    First(s, c => Counts(c, comm))
  }

  /** The counters as the allocator sees them. */
  function Windows(s: seq<Counter>): (t: seq<Slot>)
    ensures |t| == |s| && forall i :: 0 <= i < |s| ==> t[i] == Slot(s[i].active, s[i].windowStart)
  {
    seq(|s|, i requires 0 <= i < |s| => Slot(s[i].active, s[i].windowStart))
  }

  /** The counter for a new command: free, or in a full table one of the oldest windows. */
  function AllocCounter(s: seq<Counter>): (k: nat)
    requires |s| >= 1
    ensures k < |s|
    ensures s[k].active ==> forall j :: 0 <= j < |s| ==> s[j].active && s[k].windowStart <= s[j].windowStart
  {
    Pick(Windows(s))
  }

  lemma FindCounterIs(s: seq<Counter>, comm: string, r: Option<nat>)
    requires IsFindCounter(s, comm, r)
    ensures FindCounter(s, comm) == r
  {
    var f := FindCounter(s, comm);
  }

  // ----- one exit

  /** The counter of a command after one more exit. */
  function Bump(c: Counter, now: int): Counter {
    if now - c.windowStart > SHORT_LIVED_BURST_WINDOW_SECONDS
    then c.(windowStart := now, count := 1)
    else c.(count := c.count + 1)
  }

  function CounterIndex(s: seq<Counter>, comm: string): (k: nat)
    requires |s| >= 1
    ensures k < |s|
  {
    match FindCounter(s, comm) case Some(k) => k case None => AllocCounter(s)
  }

  function Bumped(s: seq<Counter>, x: ShortExit): Counter
    requires |s| >= 1
  {
    match FindCounter(s, x.comm)
    case Some(k) => Bump(s[k], x.now)
    case None => Bump(Counter(Trunc(x.comm, TASK_COMM_LEN), x.now, 0, true), x.now)
  }

  lemma BumpedIsOf(s: seq<Counter>, x: ShortExit)
    requires |s| >= 1 && |x.comm| < TASK_COMM_LEN
    ensures Bumped(s, x).comm == x.comm
  {
  }

  function CounterStep(s: seq<Counter>, x: ShortExit): (s': seq<Counter>)
    requires |s| >= 1
    ensures |s'| == |s|
  {
    s[CounterIndex(s, x.comm) := Bumped(s, x)]
  }

  /** The exit is reported as part of a burst. */
  predicate ReportsBurst(s: seq<Counter>, x: ShortExit)
    requires |s| >= 1
  {
    Bumped(s, x).count >= SHORT_LIVED_BURST_THRESHOLD
  }

  // ----- runs

  function EmptyCounters(n: nat): (s: seq<Counter>)
    ensures |s| == n && forall i :: 0 <= i < n ==> !s[i].active
  {
    seq(n, _ => FREE_COUNTER)
  }

  function CounterRun(n: nat, xs: seq<ShortExit>): (s: seq<Counter>)
    requires n >= 1
    ensures |s| == n
  {
    if xs == [] then EmptyCounters(n)
    else CounterStep(CounterRun(n, xs[..|xs| - 1]), xs[|xs| - 1])
  }

  predicate BurstAt(n: nat, xs: seq<ShortExit>, k: nat)
    requires n >= 1 && k < |xs|
  {
    ReportsBurst(CounterRun(n, xs[..k]), xs[k])
  }

  /** The clock never goes backwards, and names fit the kernel's 16-byte field. */
  ghost predicate WellTimed(xs: seq<ShortExit>) {
    && (forall i, j :: 0 <= i < j < |xs| ==> xs[i].now <= xs[j].now)
    && (forall i :: 0 <= i < |xs| ==> |xs[i].comm| < TASK_COMM_LEN)
  }

  /** How many of the exits are of this command and not before `lo`. */
  function CountSince(xs: seq<ShortExit>, comm: string, lo: int): nat {
    if xs == [] then 0
    else
      var x := xs[|xs| - 1];
      CountSince(xs[..|xs| - 1], comm, lo) + if x.comm == comm && x.now >= lo then 1 else 0
  }

  function Occurrences(xs: seq<ShortExit>, comm: string): nat {
    if xs == [] then 0
    else Occurrences(xs[..|xs| - 1], comm) + if xs[|xs| - 1].comm == comm then 1 else 0
  }

  // ----- invariant of the counters

  /** Active counters have distinct commands, and none outnumbers the exits of its
      command since its window began. */
  ghost predicate Sound(s: seq<Counter>, xs: seq<ShortExit>) {
    && (forall i, j :: 0 <= i < j < |s| && s[i].active && s[j].active ==> s[i].comm != s[j].comm)
    && (forall i :: 0 <= i < |s| && s[i].active ==>
          && xs != [] && s[i].windowStart <= xs[|xs| - 1].now
          && 1 <= s[i].count <= CountSince(xs, s[i].comm, s[i].windowStart))
  }

  lemma {:induction false} CountersAreSound(n: nat, xs: seq<ShortExit>)
    requires n >= 1 && WellTimed(xs)
    ensures Sound(CounterRun(n, xs), xs)
  {
    if xs != [] {
      var before, x := xs[..|xs| - 1], xs[|xs| - 1];
      var s, s' := CounterRun(n, before), CounterRun(n, xs);
      CountersAreSound(n, before);
      assert before != [] ==> before[|before| - 1] == xs[|xs| - 2];
    }
  }

  lemma {:induction false} CountSinceIsMonotone(xs: seq<ShortExit>, comm: string, lo: int, hi: int)
    requires lo <= hi
    ensures CountSince(xs, comm, hi) <= CountSince(xs, comm, lo)
  {
    if xs != [] { CountSinceIsMonotone(xs[..|xs| - 1], comm, lo, hi); }
  }

  /** Every burst line is backed by at least 5 exits of its command in the last 10 s. */
  lemma BurstIsBacked(n: nat, xs: seq<ShortExit>, k: nat)
    requires n >= 1 && WellTimed(xs) && k < |xs| && BurstAt(n, xs, k)
    ensures CountSince(xs[..k + 1], xs[k].comm, xs[k].now - 10) >= 5
  {
    var upTo := xs[..k + 1];
    assert upTo[..k] == xs[..k] && upTo[k] == xs[k];
    CountersAreSound(n, upTo);
    var i := CounterIndex(CounterRun(n, xs[..k]), xs[k].comm);
    var c := CounterRun(n, upTo)[i];
    assert c == Bumped(CounterRun(n, xs[..k]), xs[k]);
    CountSinceIsMonotone(upTo, xs[k].comm, xs[k].now - SHORT_LIVED_BURST_WINDOW_SECONDS, c.windowStart);
  }

  // ----- completeness

  /** The counter of a command, if it has one. */
  function CounterOf(s: seq<Counter>, comm: string): Option<Counter> {
    match FindCounter(s, comm) case Some(k) => Some(s[k]) case None => None
  }

  /** An exit moves its own counter only; another command's counter stays or is evicted. */
  lemma CounterOfStep(s: seq<Counter>, xs: seq<ShortExit>, x: ShortExit, comm: string)
    requires |s| >= 1 && Sound(s, xs) && |x.comm| < TASK_COMM_LEN
    ensures CounterOf(CounterStep(s, x), x.comm) == Some(Bumped(s, x))
    ensures comm != x.comm ==> CounterOf(CounterStep(s, x), comm) in {CounterOf(s, comm), None}
  {
    var s', k := CounterStep(s, x), CounterIndex(s, x.comm);
    assert Counts(s'[k], x.comm) && forall j :: 0 <= j < |s| && j != k ==> s'[j] == s[j] && !Counts(s'[j], x.comm);
    if comm != x.comm {
      var f, f' := FindCounter(s, comm), FindCounter(s', comm);
      if f'.Some? {
        assert s'[f'.value] == s[f'.value];
        assert Counts(s[f'.value], comm);
      }
    }
  }

  /** What the counter tells, while no burst is reported, about the `m` exits of its
      command since time `t0`: a window begun before `t0` counted them and one more,
      and a window begun since misses at most three of them. */
  ghost predicate Quiet(c: Option<Counter>, m: nat, t0: int) {
    && (m >= 1 ==> c.Some?)
    && (c.Some? ==>
          && c.value.count >= 1
          && (m >= 1 ==> c.value.count < SHORT_LIVED_BURST_THRESHOLD)
          && (c.value.windowStart < t0 ==> m < c.value.count)
          && (c.value.windowStart >= t0 ==> m <= c.value.count + SHORT_LIVED_BURST_THRESHOLD - 2))
  }

  lemma QuietStep(c: Option<Counter>, m: nat, t0: int, x: ShortExit)
    requires Quiet(c, m, t0) && t0 <= x.now <= t0 + SHORT_LIVED_BURST_WINDOW_SECONDS
    requires c.Some? ==> Bump(c.value, x.now).count < SHORT_LIVED_BURST_THRESHOLD
    ensures c.Some? ==> Quiet(Some(Bump(c.value, x.now)), m + 1, t0)
    ensures c.None? ==> Quiet(Some(Counter(x.comm, x.now, 1, true)), m + 1, t0)
  {
  }

  /** One exit within 10 s of `t0`, seen from the counter of `comm`. */
  lemma QuietExit(s: seq<Counter>, xs: seq<ShortExit>, x: ShortExit, comm: string, m: nat, t0: int)
    requires |s| >= 1 && Sound(s, xs) && |x.comm| < TASK_COMM_LEN
    requires Quiet(CounterOf(s, comm), m, t0) && t0 <= x.now <= t0 + SHORT_LIVED_BURST_WINDOW_SECONDS
    requires x.comm == comm ==> !ReportsBurst(s, x)
    requires m >= 1 ==> CounterOf(CounterStep(s, x), comm).Some?
    ensures Quiet(CounterOf(CounterStep(s, x), comm), if x.comm == comm then m + 1 else m, t0)
  {
    CounterOfStep(s, xs, x, comm);
    if x.comm == comm { QuietStep(CounterOf(s, comm), m, t0, x); }
  }

  /** The counter survives from its first exit in `xs[i..j]` to the end of the segment. */
  ghost predicate NotEvicted(n: nat, xs: seq<ShortExit>, i: nat, j: nat, comm: string)
    requires n >= 1 && i <= j <= |xs|
  {
    forall k :: i <= k <= j && Occurrences(xs[i..k], comm) >= 1 ==> CounterOf(CounterRun(n, xs[..k]), comm).Some?
  }

  lemma CounterRunStep(n: nat, xs: seq<ShortExit>, k: nat)
    requires n >= 1 && k < |xs|
    ensures CounterRun(n, xs[..k + 1]) == CounterStep(CounterRun(n, xs[..k]), xs[k])
  {
    assert xs[..k + 1][..k] == xs[..k];
  }

  lemma OccurrencesStep(xs: seq<ShortExit>, i: nat, k: nat, comm: string)
    requires i <= k < |xs|
    ensures Occurrences(xs[i..k + 1], comm) == Occurrences(xs[i..k], comm) + if xs[k].comm == comm then 1 else 0
  {
    assert xs[i..k + 1][..k - i] == xs[i..k];
  }

  ghost predicate QuietAt(n: nat, xs: seq<ShortExit>, i: nat, k: nat, comm: string)
    requires n >= 1 && i < |xs| && i <= k <= |xs|
  {
    Quiet(CounterOf(CounterRun(n, xs[..k]), comm), Occurrences(xs[i..k], comm), xs[i].now)
  }

  /** Exit `k` falls in the window of `i`, reports nothing, and leaves the counter in place. */
  ghost predicate QuietlyPasses(n: nat, xs: seq<ShortExit>, i: nat, k: nat, comm: string)
    requires n >= 1 && i <= k < |xs|
  {
    && |xs[k].comm| < TASK_COMM_LEN && Sound(CounterRun(n, xs[..k]), xs[..k])
    && xs[i].now <= xs[k].now <= xs[i].now + SHORT_LIVED_BURST_WINDOW_SECONDS
    && (Occurrences(xs[i..k], comm) >= 1 ==> CounterOf(CounterRun(n, xs[..k + 1]), comm).Some?)
    && (xs[k].comm == comm ==> !BurstAt(n, xs, k))
  }

  lemma QuietAtNext(n: nat, xs: seq<ShortExit>, i: nat, k: nat, comm: string)
    requires n >= 1 && i <= k < |xs| && QuietlyPasses(n, xs, i, k, comm) && QuietAt(n, xs, i, k, comm)
    ensures QuietAt(n, xs, i, k + 1, comm)
  {
    CounterRunStep(n, xs, k);
    OccurrencesStep(xs, i, k, comm);
    QuietExit(CounterRun(n, xs[..k]), xs[..k], xs[k], comm, Occurrences(xs[i..k], comm), xs[i].now);
  }

  lemma QuietAtStart(n: nat, xs: seq<ShortExit>, i: nat, comm: string)
    requires n >= 1 && i < |xs| && Sound(CounterRun(n, xs[..i]), xs[..i])
    ensures QuietAt(n, xs, i, i, comm)
  {
    assert Occurrences(xs[i..i], comm) == 0;
  }

  lemma {:induction false} QuietSegment(n: nat, xs: seq<ShortExit>, i: nat, j: nat, comm: string)
    requires n >= 1 && i < |xs| && i <= j <= |xs| && Sound(CounterRun(n, xs[..i]), xs[..i])
    requires forall k :: i <= k < j ==> QuietlyPasses(n, xs, i, k, comm)
    ensures QuietAt(n, xs, i, j, comm)
    decreases j
  {
    if i == j {
      QuietAtStart(n, xs, i, comm);
    } else {
      QuietSegment(n, xs, i, j - 1, comm);
      QuietAtNext(n, xs, i, j - 1, comm);
    }
  }

  lemma PassesQuietly(n: nat, xs: seq<ShortExit>, i: nat, j: nat, k: nat, comm: string)
    requires n >= 1 && WellTimed(xs) && i <= k < j <= |xs|
    requires xs[j - 1].now - xs[i].now <= SHORT_LIVED_BURST_WINDOW_SECONDS
    requires NotEvicted(n, xs, i, j, comm) && (xs[k].comm == comm ==> !BurstAt(n, xs, k))
    ensures QuietlyPasses(n, xs, i, k, comm)
  {
    CountersAreSound(n, xs[..k]);
    OccurrencesStep(xs, i, k, comm);
    assert xs[i].now <= xs[k].now <= xs[j - 1].now;
  }

  /** Any 8 exits of a command within 10 s are reported at least once, unless its
      counter is evicted among them. */
  lemma EightExitsAreReported(n: nat, xs: seq<ShortExit>, i: nat, j: nat, comm: string) returns (k: nat)
    requires n >= 1 && WellTimed(xs) && i < j <= |xs|
    requires xs[j - 1].now - xs[i].now <= 10
    requires Occurrences(xs[i..j], comm) >= 8
    requires NotEvicted(n, xs, i, j, comm)
    ensures i <= k < j && xs[k].comm == comm && BurstAt(n, xs, k)
  {
    if forall k :: i <= k < j && xs[k].comm == comm ==> !BurstAt(n, xs, k) {
      forall k | i <= k < j ensures QuietlyPasses(n, xs, i, k, comm) { PassesQuietly(n, xs, i, j, k, comm); }
      CountersAreSound(n, xs[..i]);
      QuietSegment(n, xs, i, j, comm);
    }
    k :| i <= k < j && xs[k].comm == comm && BurstAt(n, xs, k);
  }

  // ----- when no counter is evicted

  /** The commands that occur. */
  function Commands(xs: seq<ShortExit>): set<string> {
    if xs == [] then {} else Commands(xs[..|xs| - 1]) + {xs[|xs| - 1].comm}
  }

  /** The commands that have a counter. */
  function ActiveComms(s: seq<Counter>): set<string> {
    if s == [] then {}
    else
      var last := s[|s| - 1];
      ActiveComms(s[..|s| - 1]) + if last.active then {last.comm} else {}
  }

  lemma {:induction false} ActiveCommsAre(s: seq<Counter>, comm: string)
    ensures comm in ActiveComms(s) <==> exists i :: 0 <= i < |s| && Counts(s[i], comm)
  {
    if s != [] {
      var front := s[..|s| - 1];
      ActiveCommsAre(front, comm);
      if i :| 0 <= i < |s| && Counts(s[i], comm) { assert i == |s| - 1 || Counts(front[i], comm); }
      if i :| 0 <= i < |front| && Counts(front[i], comm) { assert Counts(s[i], comm); }
      if Counts(s[|s| - 1], comm) { assert comm in ActiveComms(s); }
    }
  }

  ghost predicate DistinctComms(s: seq<Counter>) {
    forall i, j :: 0 <= i < j < |s| && s[i].active && s[j].active ==> s[i].comm != s[j].comm
  }

  lemma {:induction false} FullCounters(s: seq<Counter>)
    requires DistinctComms(s) && forall i :: 0 <= i < |s| ==> s[i].active
    ensures |ActiveComms(s)| == |s|
  {
    if s != [] {
      var front, last := s[..|s| - 1], s[|s| - 1];
      FullCounters(front);
      ActiveCommsAre(front, last.comm);
    }
  }

  lemma FreeCounter(s: seq<Counter>, comm: string)
    requires |s| >= 1 && DistinctComms(s) && comm !in ActiveComms(s) && |ActiveComms(s) + {comm}| <= |s|
    ensures !s[AllocCounter(s)].active
  {
    assert |ActiveComms(s) + {comm}| == |ActiveComms(s)| + 1;
    if s[AllocCounter(s)].active {
      FullCounters(s);
      assert false;
    }
  }

  /** An exit changes one counter: that of its command, or a free one. */
  lemma StepChangesOne(s: seq<Counter>, x: ShortExit)
    requires |s| >= 1 && |x.comm| < TASK_COMM_LEN
    requires FindCounter(s, x.comm).None? ==> !s[AllocCounter(s)].active
    ensures var s', k := CounterStep(s, x), CounterIndex(s, x.comm);
            && Counts(s'[k], x.comm) && (s[k].active ==> s[k].comm == x.comm)
            && forall j :: 0 <= j < |s| && j != k ==> s'[j] == s[j]
  {
    BumpedIsOf(s, x);
    BumpedIsActive(s, x);
  }

  /** While a counter is free, an exit adds its command to those with a counter. */
  lemma ActiveCommsStep(s: seq<Counter>, x: ShortExit)
    requires |s| >= 1 && DistinctComms(s) && |x.comm| < TASK_COMM_LEN
    requires |ActiveComms(s) + {x.comm}| <= |s|
    ensures ActiveComms(CounterStep(s, x)) == ActiveComms(s) + {x.comm}
  {
    ActiveCommsAre(s, x.comm);
    if FindCounter(s, x.comm).None? { FreeCounter(s, x.comm); }
    StepChangesOne(s, x);
    OneMoreActive(s, CounterStep(s, x), CounterIndex(s, x.comm), x.comm);
  }

  lemma OneMoreActive(s: seq<Counter>, s': seq<Counter>, k: nat, comm: string)
    requires k < |s| == |s'| && Counts(s'[k], comm) && (s[k].active ==> s[k].comm == comm)
    requires forall j :: 0 <= j < |s| && j != k ==> s'[j] == s[j]
    ensures ActiveComms(s') == ActiveComms(s) + {comm}
  {
    forall c ensures c in ActiveComms(s') <==> c in ActiveComms(s) + {comm} {
      ActiveCommsAre(s, c);
      ActiveCommsAre(s', c);
      OnlyOneCounterChanges(s, s', k, comm, c);
    }
  }

  lemma BumpedIsActive(s: seq<Counter>, x: ShortExit)
    requires |s| >= 1
    ensures Bumped(s, x).active
  {
  }

  lemma OnlyOneCounterChanges(s: seq<Counter>, s': seq<Counter>, k: nat, comm: string, c: string)
    requires k < |s| == |s'| && Counts(s'[k], comm) && (s[k].active ==> s[k].comm == comm)
    requires forall j :: 0 <= j < |s| && j != k ==> s'[j] == s[j]
    ensures (exists i :: 0 <= i < |s'| && Counts(s'[i], c)) <==>
            c == comm || exists i :: 0 <= i < |s| && Counts(s[i], c)
  {
    if i :| 0 <= i < |s'| && Counts(s'[i], c) { assert i == k || Counts(s[i], c); }
    if i :| 0 <= i < |s| && Counts(s[i], c) { assert c == comm || Counts(s'[i], c); }
    if c == comm { assert Counts(s'[k], c); }
  }

  /** With at most as many commands as counters, exactly the commands seen have a counter. */
  lemma {:induction false} FewCommandsKeepCounters(n: nat, xs: seq<ShortExit>)
    requires n >= 1 && WellTimed(xs) && |Commands(xs)| <= n
    ensures ActiveComms(CounterRun(n, xs)) == Commands(xs)
  {
    if xs == [] {
      NoActiveComms(EmptyCounters(n));
    } else {
      var before, x := xs[..|xs| - 1], xs[|xs| - 1];
      SubsetSize(Commands(before), Commands(xs));
      FewCommandsKeepCounters(n, before);
      CountersAreSound(n, before);
      ActiveCommsStep(CounterRun(n, before), x);
    }
  }

  lemma SubsetSize(a: set<string>, b: set<string>)
    requires a <= b
    ensures |a| <= |b|
  {
    assert b == a + (b - a);
  }

  lemma {:induction false} NoActiveComms(s: seq<Counter>)
    requires forall i :: 0 <= i < |s| ==> !s[i].active
    ensures ActiveComms(s) == {}
  {
    if s != [] { NoActiveComms(s[..|s| - 1]); }
  }

  lemma {:induction false} CommandsOfPrefix(xs: seq<ShortExit>, k: nat)
    requires k <= |xs|
    ensures Commands(xs[..k]) <= Commands(xs)
    decreases |xs|
  {
    if k < |xs| {
      assert xs[..|xs| - 1][..k] == xs[..k];
      CommandsOfPrefix(xs[..|xs| - 1], k);
    } else {
      assert xs[..k] == xs;
    }
  }

  lemma {:induction false} OccurrenceIsCommand(xs: seq<ShortExit>, i: nat, comm: string)
    requires i <= |xs| && Occurrences(xs[i..], comm) >= 1
    ensures comm in Commands(xs)
    decreases |xs|
  {
    if i < |xs| && xs[|xs| - 1].comm != comm {
      assert xs[i..][..|xs| - i - 1] == xs[..|xs| - 1][i..];
      OccurrenceIsCommand(xs[..|xs| - 1], i, comm);
    }
  }

  /** With at most as many commands as counters no counter is evicted. */
  lemma FewCommandsAreNotEvicted(n: nat, xs: seq<ShortExit>, i: nat, j: nat, comm: string)
    requires n >= 1 && WellTimed(xs) && i <= j <= |xs| && |Commands(xs[..j])| <= n
    ensures NotEvicted(n, xs, i, j, comm)
  {
    forall k | i <= k <= j && Occurrences(xs[i..k], comm) >= 1
      ensures CounterOf(CounterRun(n, xs[..k]), comm).Some?
    {
      assert xs[..j][..k] == xs[..k] && xs[..k][i..] == xs[i..k];
      CommandsOfPrefix(xs[..j], k);
      SubsetSize(Commands(xs[..k]), Commands(xs[..j]));
      FewCommandsKeepCounters(n, xs[..k]);
      OccurrenceIsCommand(xs[..k], i, comm);
      ActiveCommsAre(CounterRun(n, xs[..k]), comm);
    }
  }

  /** Any 8 exits of a command within 10 s are reported at least once, if no more commands
      than counters have been seen by then. */
  lemma EightExitsOfFewCommands(n: nat, xs: seq<ShortExit>, i: nat, j: nat, comm: string) returns (k: nat)
    requires n >= 1 && WellTimed(xs) && i < j <= |xs|
    requires xs[j - 1].now - xs[i].now <= 10
    requires Occurrences(xs[i..j], comm) >= 8
    requires |Commands(xs[..j])| <= n
    ensures i <= k < j && xs[k].comm == comm && BurstAt(n, xs, k)
  {
    FewCommandsAreNotEvicted(n, xs, i, j, comm);
    k := EightExitsAreReported(n, xs, i, j, comm);
  }
}
