/** How tight the burst bounds are (proc.c): eight exits are needed, and no more commands
    than there are counters. */
module BurstLimits {
  import opened CStrings
  import opened Decimals
  import opened ProcTable
  import opened ShortLived
  import opened Slots

  /** No exit reports a burst. */
  ghost predicate Silent(n: nat, xs: seq<ShortExit>)
    requires n >= 1
  {
    forall k :: 0 <= k < |xs| ==> !BurstAt(n, xs, k)
  }

  // ----- one command too many

  /** Different names: "sh", "p1", "p2", and so on. */
  function NameAt(i: nat): string { if i == 0 then "sh" else "p" + Decimal(i) }

  lemma NamesDiffer(i: nat, j: nat)
    requires i != j
    ensures NameAt(i) != NameAt(j) && NameAt(i) != "ls"
  {
    ValueOfDecimal(i);
    ValueOfDecimal(j);
    assert NameAt(i)[0] == (if i == 0 then 's' else 'p') && NameAt(j)[0] == (if j == 0 then 's' else 'p');
    if i != 0 && j != 0 {
      assert NameAt(i)[1..] == Decimal(i) && NameAt(j)[1..] == Decimal(j);
      assert Value(Decimal(i)) != Value(Decimal(j));
    }
  }

  lemma NameFits(i: nat)
    requires i < 10_000
    ensures |NameAt(i)| < TASK_COMM_LEN
  {
    assert Pow10(4) == 10_000;
    DecimalLength(i, 4);
  }

  /** `n` commands exit once, and then "ls" and "sh" take turns. */
  function Crowding(n: nat, i: nat): string {
    if i < n then NameAt(i) else if (i - n) % 2 == 0 then "ls" else "sh"
  }

  function Crowd(n: nat, k: nat): (xs: seq<ShortExit>)
    ensures |xs| == k
  {
    seq(k, i requires 0 <= i < k => ShortExit(Crowding(n, i), 0))
  }

  lemma CrowdStep(n: nat, k: nat)
    ensures Crowd(n, k + 1)[..k] == Crowd(n, k) && Crowd(n, k + 1)[k] == ShortExit(Crowding(n, k), 0)
  {
  }

  function OneExit(comm: string): Counter { Counter(comm, 0, 1, true) }

  /** Who has counter `i` after `k` of these exits: the first one changes hands all the time. */
  function Holder(n: nat, k: nat, i: nat): string
    requires k >= 1
  {
    if i == 0 && k > n then Crowding(n, k - 1) else NameAt(i)
  }

  function CrowdedAt(n: nat, k: nat, i: nat): Counter { if i < k then OneExit(Holder(n, k, i)) else FREE_COUNTER }

  function Crowded(n: nat, k: nat): (s: seq<Counter>)
    ensures |s| == n
  {
    seq(n, i requires 0 <= i < n => CrowdedAt(n, k, i))
  }

  lemma NewCommand(s: seq<Counter>, comm: string, k: nat)
    requires |s| >= 1 && |comm| < TASK_COMM_LEN && IsFindCounter(s, comm, None) && IsPick(Windows(s), k)
    ensures CounterStep(s, ShortExit(comm, 0)) == s[k := OneExit(comm)] && !ReportsBurst(s, ShortExit(comm, 0))
  {
    FindCounterIs(s, comm, None);
    PickIs(Windows(s), k);
  }

  /** Every one of these exits finds its command without a counter. */
  lemma CommandIsNew(n: nat, k: nat)
    requires n >= 1
    ensures IsFindCounter(Crowded(n, k), Crowding(n, k), None)
  {
    forall i | 0 <= i < n && i < k ensures Crowded(n, k)[i].comm != Crowding(n, k) {
      if k < n {
        NamesDiffer(i, k);
      } else if i > 0 {
        NamesDiffer(i, 0);
      }
    }
  }

  lemma CrowdedPick(n: nat, k: nat)
    requires n >= 1
    ensures IsPick(Windows(Crowded(n, k)), if k < n then k else 0)
  {
    var t := Windows(Crowded(n, k));
    assert forall i :: 0 <= i < n ==> Crowded(n, k)[i] == CrowdedAt(n, k, i);
    assert forall i :: 0 <= i < n ==> t[i] == Slot(i < k, 0);
  }

  lemma CrowdedNext(n: nat, k: nat)
    requires 1 <= n <= MAX_TRACKED_PROCS
    ensures CounterStep(Crowded(n, k), ShortExit(Crowding(n, k), 0)) == Crowded(n, k + 1)
    ensures !ReportsBurst(Crowded(n, k), ShortExit(Crowding(n, k), 0))
  {
    if k < n { NameFits(k); }
    CommandIsNew(n, k);
    CrowdedPick(n, k);
    NewCommand(Crowded(n, k), Crowding(n, k), if k < n then k else 0);
    assert Crowded(n, k)[(if k < n then k else 0) := OneExit(Crowding(n, k))] == Crowded(n, k + 1);
  }

  lemma {:induction false} CrowdRun(n: nat, k: nat)
    requires 1 <= n <= MAX_TRACKED_PROCS
    ensures CounterRun(n, Crowd(n, k)) == Crowded(n, k)
  {
    if k == 0 {
      assert Crowded(n, 0) == EmptyCounters(n);
    } else {
      CrowdRun(n, k - 1);
      CrowdStep(n, k - 1);
      CrowdedNext(n, k - 1);
    }
  }

  lemma {:induction false} CrowdOccurrences(n: nat, k: nat)
    requires n >= 1
    ensures Occurrences(Crowd(n, k), "sh") == if k == 0 then 0 else if k <= n then 1 else 1 + (k - n) / 2
  {
    if k > 0 {
      CrowdOccurrences(n, k - 1);
      CrowdStep(n, k - 1);
      if 1 < k <= n { NamesDiffer(k - 1, 0); }
    }
  }

  lemma {:induction false} CommandOfCrowd(n: nat, k: nat, comm: string)
    ensures comm in Commands(Crowd(n, k)) <==> exists i: nat :: i < k && Crowding(n, i) == comm
  {
    if k > 0 {
      CommandOfCrowd(n, k - 1, comm);
      CrowdStep(n, k - 1);
    }
  }

  lemma CrowdingDiffers(n: nat, i: nat, k: nat)
    requires i < k <= n
    ensures Crowding(n, i) != Crowding(n, k)
  {
    NamesDiffer(i, k);
  }

  lemma CrowdIsNew(n: nat, k: nat)
    requires n >= 1 && k <= n
    ensures Crowding(n, k) !in Commands(Crowd(n, k))
  {
    CommandOfCrowd(n, k, Crowding(n, k));
    forall i: nat | i < k ensures Crowding(n, i) != Crowding(n, k) { CrowdingDiffers(n, i, k); }
  }

  lemma CrowdIsOld(n: nat, k: nat)
    requires 1 <= n < k
    ensures Crowding(n, k) in Commands(Crowd(n, k))
  {
    CommandOfCrowd(n, k, Crowding(n, k));
    var i := if (k - n) % 2 == 0 then n else 0;
    assert Crowding(n, i) == Crowding(n, k);
  }

  lemma {:induction false} CrowdCommands(n: nat, k: nat)
    requires n >= 1
    ensures |Commands(Crowd(n, k))| == if k <= n then k else n + 1
  {
    if k == 0 {
      assert Crowd(n, 0) == [];
    } else {
      CrowdCommands(n, k - 1);
      CrowdStep(n, k - 1);
      var before := Commands(Crowd(n, k - 1));
      if k - 1 <= n {
        CrowdIsNew(n, k - 1);
      } else {
        CrowdIsOld(n, k - 1);
        assert before + {Crowding(n, k - 1)} == before;
      }
    }
  }

  lemma CrowdIsSilentAt(n: nat, m: nat, k: nat)
    requires 1 <= n <= MAX_TRACKED_PROCS && k < m
    ensures !BurstAt(n, Crowd(n, m), k)
  {
    assert Crowd(n, m)[..k] == Crowd(n, k) && Crowd(n, m)[k] == ShortExit(Crowding(n, k), 0);
    CrowdRun(n, k);
    CrowdedNext(n, k);
  }

  lemma CrowdIsSilent(n: nat, m: nat)
    requires 1 <= n <= MAX_TRACKED_PROCS
    ensures Silent(n, Crowd(n, m))
  {
    var xs := Crowd(n, m);
    forall k | 0 <= k < |xs| ensures !BurstAt(n, xs, k) { CrowdIsSilentAt(n, m, k); }
  }

  lemma CrowdIsWellTimed(n: nat, m: nat)
    requires n <= MAX_TRACKED_PROCS
    ensures WellTimed(Crowd(n, m))
  {
    var xs := Crowd(n, m);
    forall k | 0 <= k < |xs| ensures |xs[k].comm| < TASK_COMM_LEN {
      if k < n { NameFits(k); }
    }
  }

  /** One command more than counters, and any number of exits within one second may go
      unreported, because their counter is evicted each time. */
  lemma EvictionHidesBursts(n: nat, m: nat)
    requires 1 <= n <= MAX_TRACKED_PROCS
    ensures WellTimed(Crowd(n, n + 2 * m)) && Silent(n, Crowd(n, n + 2 * m))
    ensures |Commands(Crowd(n, n + 2 * m))| <= n + 1 && Occurrences(Crowd(n, n + 2 * m), "sh") == m + 1
    ensures forall x :: x in Crowd(n, n + 2 * m) ==> x.now == 0
  {
    CrowdIsWellTimed(n, n + 2 * m);
    CrowdCommands(n, n + 2 * m);
    CrowdOccurrences(n, n + 2 * m);
    CrowdIsSilent(n, n + 2 * m);
  }

  // ----- seven exits

  function ExitsAt(comm: string, times: seq<int>): (xs: seq<ShortExit>)
    ensures |xs| == |times|
  {
    seq(|times|, i requires 0 <= i < |times| => ShortExit(comm, times[i]))
  }

  /** The one counter in use when only one command was ever seen. */
  function Solo(comm: string, times: seq<int>): Counter
    requires times != [] && |comm| < TASK_COMM_LEN
  {
    if |times| == 1 then Counter(comm, times[0], 1, true)
    else Bump(Solo(comm, times[..|times| - 1]), times[|times| - 1])
  }

  lemma SoloStep(s: seq<Counter>, c: Counter, x: ShortExit)
    requires |s| >= 1 && s == EmptyCounters(|s|)[0 := c] && Counts(c, x.comm)
    ensures CounterStep(s, x) == s[0 := Bump(c, x.now)] && Bumped(s, x) == Bump(c, x.now)
  {
    FindCounterIs(s, x.comm, Some(0));
  }

  lemma {:induction false} SoloRun(n: nat, comm: string, times: seq<int>)
    requires n >= 1 && times != [] && |comm| < TASK_COMM_LEN
    ensures CounterRun(n, ExitsAt(comm, times)) == EmptyCounters(n)[0 := Solo(comm, times)]
    ensures Counts(Solo(comm, times), comm)
  {
    var xs, earlier := ExitsAt(comm, times), times[..|times| - 1];
    assert xs[..|xs| - 1] == ExitsAt(comm, earlier);
    if |times| == 1 {
      FindCounterIs(EmptyCounters(n), comm, None);
      PickIs(Windows(EmptyCounters(n)), 0);
      assert CounterRun(n, xs[..0]) == EmptyCounters(n);
    } else {
      SoloRun(n, comm, earlier);
      SoloStep(CounterRun(n, ExitsAt(comm, earlier)), Solo(comm, earlier), ShortExit(comm, times[|times| - 1]));
    }
  }

  const UNREPORTED := [0, 8, 8, 8, 11, 11, 11, 11]

  /** Seven exits do not suffice, with any number of counters: the last seven of these fall
      within 3 s, and their counter stays. */
  lemma SevenExitsMayGoUnreported(n: nat)
    requires n >= 1
    ensures WellTimed(ExitsAt("sh", UNREPORTED))
    ensures Occurrences(ExitsAt("sh", UNREPORTED)[1..8], "sh") == 7
    ensures NotEvicted(n, ExitsAt("sh", UNREPORTED), 1, 8, "sh")
    ensures Silent(n, ExitsAt("sh", UNREPORTED))
  {
    var xs := ExitsAt("sh", UNREPORTED);
    SoloCounts();
    forall k | 0 <= k < 8 ensures !BurstAt(n, xs, k) {
      SoloReports(n, k);
    }
    OccurrencesOfOne(xs[1..8], "sh");
    forall k | 1 <= k <= 8 ensures CounterOf(CounterRun(n, xs[..k]), "sh").Some? {
      assert xs[..k] == ExitsAt("sh", UNREPORTED[..k]);
      SoloRun(n, "sh", UNREPORTED[..k]);
      assert Counts(CounterRun(n, xs[..k])[0], "sh");
    }
  }

  lemma SoloReports(n: nat, k: nat)
    requires n >= 1 && k < 8
    ensures Bumped(CounterRun(n, ExitsAt("sh", UNREPORTED)[..k]), ExitsAt("sh", UNREPORTED)[k]) ==
            Solo("sh", UNREPORTED[..k + 1])
  {
    var xs := ExitsAt("sh", UNREPORTED);
    assert xs[..k + 1] == ExitsAt("sh", UNREPORTED[..k + 1]);
    SoloRun(n, "sh", UNREPORTED[..k + 1]);
    CounterRunStep(n, xs, k);
    var s := CounterRun(n, xs[..k]);
    assert CounterStep(s, xs[k])[0] == Solo("sh", UNREPORTED[..k + 1]);
    if k > 0 {
      assert xs[..k] == ExitsAt("sh", UNREPORTED[..k]);
      SoloRun(n, "sh", UNREPORTED[..k]);
      SoloStep(s, Solo("sh", UNREPORTED[..k]), xs[k]);
    } else {
      FindCounterIs(s, "sh", None);
    }
  }

  lemma {:induction false} OccurrencesOfOne(xs: seq<ShortExit>, comm: string)
    requires forall i :: 0 <= i < |xs| ==> xs[i].comm == comm
    ensures Occurrences(xs, comm) == |xs|
  {
    if xs != [] { OccurrencesOfOne(xs[..|xs| - 1], comm); }
  }

  lemma SoloCounts()
    ensures forall k :: 1 <= k <= 8 ==> Solo("sh", UNREPORTED[..k]).count < SHORT_LIVED_BURST_THRESHOLD
  {
    var c := seq(8, k requires 0 <= k < 8 => Solo("sh", UNREPORTED[..k + 1]));
    forall k | 1 <= k < 8 ensures c[k] == Bump(c[k - 1], UNREPORTED[k]) {
      assert UNREPORTED[..k + 1][..k] == UNREPORTED[..k];
    }
    assert c[0] == Counter("sh", 0, 1, true);
    assert c[1] == Counter("sh", 0, 2, true);
    assert c[2] == Counter("sh", 0, 3, true);
    assert c[3] == Counter("sh", 0, 4, true);
    assert c[4] == Counter("sh", 11, 1, true);
    assert c[5] == Counter("sh", 11, 2, true);
    assert c[6] == Counter("sh", 11, 3, true);
    assert c[7] == Counter("sh", 11, 4, true);
    assert forall k :: 1 <= k <= 8 ==> Solo("sh", UNREPORTED[..k]) == c[k - 1];
  }

  // ----- exactly which bursts are reported

  /** The exits `xs[i..j]` span at most 10 s, at least `m` of them are of this command, and at
      most `c` commands have been seen by their end. */
  ghost predicate Burst(xs: seq<ShortExit>, i: nat, j: nat, comm: string, m: nat, c: nat) {
    && WellTimed(xs) && i < j <= |xs| && xs[j - 1].now - xs[i].now <= 10
    && Occurrences(xs[i..j], comm) >= m && |Commands(xs[..j])| <= c
  }

  ghost predicate Reported(n: nat, xs: seq<ShortExit>, i: nat, j: nat, comm: string)
    requires n >= 1 && j <= |xs|
  {
    exists k: nat :: i <= k < j && xs[k].comm == comm && BurstAt(n, xs, k)
  }

  /** With `n` counters every such burst is reported within it. */
  ghost predicate AlwaysReported(n: nat, m: nat, c: nat)
    requires n >= 1
  {
    forall xs: seq<ShortExit>, i: nat, j: nat, comm: string ::
      Burst(xs, i, j, comm, m, c) ==> Reported(n, xs, i, j, comm)
  }

  lemma SilentIsUnreported(n: nat, xs: seq<ShortExit>, i: nat, j: nat, comm: string)
    requires n >= 1 && j <= |xs| && Silent(n, xs)
    ensures !Reported(n, xs, i, j, comm)
  {
  }

  lemma {:induction false} CommandsOfOne(xs: seq<ShortExit>, comm: string)
    requires forall i :: 0 <= i < |xs| ==> xs[i].comm == comm
    ensures Commands(xs) <= {comm} && |Commands(xs)| <= 1
  {
    if xs != [] { CommandsOfOne(xs[..|xs| - 1], comm); }
    SubsetSize(Commands(xs), {comm});
  }

  lemma FewExitsAreMissed(n: nat, m: nat, c: nat)
    requires n >= 1 && m < 8 && c >= 1
    ensures !AlwaysReported(n, m, c)
  {
    var xs := ExitsAt("sh", UNREPORTED);
    SevenExitsMayGoUnreported(n);
    CommandsOfOne(xs[..8], "sh");
    assert Burst(xs, 1, 8, "sh", m, c);
    SilentIsUnreported(n, xs, 1, 8, "sh");
  }

  lemma ManyCommandsHide(n: nat, m: nat, c: nat)
    requires 1 <= n <= MAX_TRACKED_PROCS && c > n
    ensures !AlwaysReported(n, m, c)
  {
    var xs := Crowd(n, n + 2 * m);
    EvictionHidesBursts(n, m);
    assert xs[..|xs|] == xs && xs[0..|xs|] == xs;
    assert xs[0] in xs && xs[|xs| - 1] in xs;
    assert Burst(xs, 0, |xs|, "sh", m, c);
    SilentIsUnreported(n, xs, 0, |xs|, "sh");
  }

  /** Bursts of `m` exits within 10 s, among at most `c` commands, are always reported
      exactly when there are at least 8 exits and no more commands than counters. */
  lemma ReportingIsExact(n: nat, m: nat, c: nat)
    requires 1 <= n <= MAX_TRACKED_PROCS && c >= 1
    ensures AlwaysReported(n, m, c) <==> m >= 8 && c <= n
  {
    if m < 8 {
      FewExitsAreMissed(n, m, c);
    } else if c > n {
      ManyCommandsHide(n, m, c);
    } else {
      forall xs: seq<ShortExit>, i: nat, j: nat, comm: string | Burst(xs, i, j, comm, m, c)
        ensures Reported(n, xs, i, j, comm)
      {
        var k := EightExitsOfFewCommands(n, xs, i, j, comm);
      }
    }
  }
}
