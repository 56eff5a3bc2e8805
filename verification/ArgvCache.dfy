/** The kernel-side cache (proc.bpf.c) that carries the arguments of an `execve` call to
    the exec event of the same process: a hash map of bounded size, keyed by tgid. */
module ArgvCache {
  import opened CStrings

  const CACHE_ENTRIES: nat := 4096
  const ARGV_MAX_ARGS: nat := 6
  const ARGV_ARG_LEN: nat := 64

  /** Six argument strings; unused ones are empty. */
  type ExecArgs = a: seq<string> | |a| == ARGV_MAX_ARGS witness ["", "", "", "", "", ""]

  const NO_ARGS: ExecArgs := ["", "", "", "", "", ""]

  type Cache = map<nat, ExecArgs>

  /** The six pointers found at the caller's argv: the strings they point to, or `None`
      for a null pointer. */
  type UserArgv = u: seq<Option<string>> | |u| == ARGV_MAX_ARGS witness [None, None, None, None, None, None]

  datatype Call =
    | Execve(tgid: nat, argv: UserArgv)
    | Exec(tgid: nat, reserved: bool)

  datatype ExecEvent = ExecEvent(tgid: nat, argv: ExecArgs)

  /** What is kept of the caller's strings: each cut to its 64-byte row. */
  function Captured(argv: UserArgv): (args: ExecArgs) {
    seq(ARGV_MAX_ARGS, i requires 0 <= i < ARGV_MAX_ARGS =>
      match argv[i] case Some(text) => Trunc(text, ARGV_ARG_LEN) case None => "")
  }

  /** The hash map refuses a new key when it is full; an old key is always overwritten. */
  predicate Accepts(n: nat, cache: Cache, tgid: nat) { tgid in cache || |cache| < n }

  function Step(n: nat, cache: Cache, call: Call): Cache {
    match call
    case Execve(tgid, argv) => if Accepts(n, cache, tgid) then cache[tgid := Captured(argv)] else cache
    case Exec(tgid, reserved) => if reserved then cache - {tgid} else cache
  }

  /** The event a call submits: none when the ring has no room. */
  function Submitted(cache: Cache, call: Call): seq<ExecEvent> {
    match call
    case Execve(_, _) => []
    case Exec(tgid, reserved) =>
      if !reserved then [] else [ExecEvent(tgid, if tgid in cache then cache[tgid] else NO_ARGS)]
  }

  function Run(n: nat, trace: seq<Call>): Cache {
    if trace == [] then map[] else Step(n, Run(n, trace[..|trace| - 1]), trace[|trace| - 1])
  }

  function Events(n: nat, trace: seq<Call>): seq<ExecEvent> {
    if trace == [] then []
    else
      var before := trace[..|trace| - 1];
      Events(n, before) + Submitted(Run(n, before), trace[|trace| - 1])
  }

  class Programs {
    var cache: Cache
    var events: seq<ExecEvent>

    constructor ()
      ensures cache == map[] && events == []
    {
      cache, events := map[], [];
    }

    method HandleExecve(tgid: nat, argv: UserArgv)
      modifies this`cache
      ensures cache == Step(4096, old(cache), Execve(tgid, argv))
    {
      var args: seq<string> := NO_ARGS;
      for i := 0 to ARGV_MAX_ARGS
        invariant |args| == ARGV_MAX_ARGS
        invariant forall k :: 0 <= k < ARGV_MAX_ARGS ==> args[k] == if k < i then Captured(argv)[k] else ""
      {
        match argv[i] {
          case Some(text) => args := args[i := Trunc(text, ARGV_ARG_LEN)];
          case None =>
        }
      }
      assert args == Captured(argv);
      if tgid in cache || |cache| < CACHE_ENTRIES { cache := cache[tgid := args]; }
    }

    method HandleExec(tgid: nat, reserved: bool)
      modifies this
      ensures cache == Step(4096, old(cache), Exec(tgid, reserved))
      ensures events == old(events) + Submitted(old(cache), Exec(tgid, reserved))
    {
      if !reserved { return; }
      var argv := NO_ARGS;
      if tgid in cache {
        argv := cache[tgid];
        cache := cache - {tgid};
      }
      events := events + [ExecEvent(tgid, argv)];
    }
  }

  // ----- the trace specification

  /** The arguments of the latest `execve` of a tgid since its last submitted event. */
  function Latest(trace: seq<Call>, tgid: nat): Option<ExecArgs> {
    if trace == [] then None
    else
      var last := trace[|trace| - 1];
      if last.tgid != tgid then Latest(trace[..|trace| - 1], tgid)
      else match last
        case Execve(_, argv) => Some(Captured(argv))
        case Exec(_, reserved) => if reserved then None else Latest(trace[..|trace| - 1], tgid)
  }

  /** The call neither replaces nor takes the arguments of the tgid. */
  predicate Spares(call: Call, tgid: nat) { call.tgid == tgid ==> call.Exec? && !call.reserved }

  /** An `execve` of the tgid was refused, and no event of it was submitted since. */
  ghost predicate RefusedSince(n: nat, trace: seq<Call>, tgid: nat, k: nat) {
    && k < |trace| && trace[k].Execve? && trace[k].tgid == tgid
    && tgid !in Run(n, trace[..k]) && |Run(n, trace[..k])| >= n
    && forall j :: k < j < |trace| ==> Spares(trace[j], tgid)
  }

  lemma RefusedStays(n: nat, trace: seq<Call>, call: Call, tgid: nat, k: nat)
    requires RefusedSince(n, trace, tgid, k)
    requires Spares(call, tgid)
    ensures RefusedSince(n, trace + [call], tgid, k)
  {
    assert (trace + [call])[..k] == trace[..k];
  }

  lemma RefusedNow(n: nat, trace: seq<Call>, call: Call)
    requires call.Execve? && !Accepts(n, Run(n, trace), call.tgid)
    ensures RefusedSince(n, trace + [call], call.tgid, |trace|)
  {
    assert (trace + [call])[..|trace|] == trace;
  }

  /** What the cache holds for a tgid is what its latest call passed; and it holds nothing
      only if there was no call to remember, or if the latest one met a full map. */
  lemma {:induction false} CacheHoldsLatest(n: nat, trace: seq<Call>, tgid: nat)
    ensures var cache := Run(n, trace);
            if tgid in cache then Latest(trace, tgid) == Some(cache[tgid])
            else Latest(trace, tgid) == None || exists k: nat :: RefusedSince(n, trace, tgid, k)
  {
    if trace != [] {
      var before, last := trace[..|trace| - 1], trace[|trace| - 1];
      CacheHoldsLatest(n, before, tgid);
      if tgid !in Run(n, trace) && Latest(trace, tgid).Some? {
        assert trace == before + [last];
        if last.tgid == tgid && last.Execve? {
          RefusedNow(n, before, last);
        } else {
          var k: nat :| RefusedSince(n, before, tgid, k);
          RefusedStays(n, before, last, tgid, k);
        }
      }
    }
  }

  /** A refused call stays unknown until an event of its tgid is submitted. */
  lemma {:induction false} RefusedIsUnknown(n: nat, trace: seq<Call>, tgid: nat, k: nat)
    requires RefusedSince(n, trace, tgid, k)
    ensures tgid !in Run(n, trace)
    decreases |trace|
  {
    var before := trace[..|trace| - 1];
    assert before + [trace[|trace| - 1]] == trace;
    if k == |before| {
      assert trace[..k] == before;
    } else {
      assert before[..k] == trace[..k];
      RefusedIsUnknown(n, before, tgid, k);
    }
  }

  /** The map holds a tgid exactly when it has a call to remember that was not refused. */
  lemma CacheHoldsExactly(n: nat, trace: seq<Call>, tgid: nat)
    ensures tgid in Run(n, trace) <==> Latest(trace, tgid).Some? && !exists k: nat :: RefusedSince(n, trace, tgid, k)
  {
    CacheHoldsLatest(n, trace, tgid);
    if k: nat :| RefusedSince(n, trace, tgid, k) { RefusedIsUnknown(n, trace, tgid, k); }
  }

  /** Every submitted event carries the arguments of the latest `execve` of its own tgid
      since that tgid's previous event, exactly unless that call was refused; and none when
      it was refused or there was no call. */
  lemma EventCarriesLatestArgs(n: nat, trace: seq<Call>, call: Call)
    requires call.Exec? && call.reserved
    ensures |Submitted(Run(n, trace), call)| == 1
    ensures var e := Submitted(Run(n, trace), call)[0];
            && e.tgid == call.tgid
            && e.argv == match Latest(trace, call.tgid)
               case None => ["", "", "", "", "", ""]
               case Some(args) =>
                 if exists k: nat :: RefusedSince(n, trace, call.tgid, k) then ["", "", "", "", "", ""] else args
  {
    CacheHoldsLatest(n, trace, call.tgid);
    CacheHoldsExactly(n, trace, call.tgid);
  }

  lemma {:induction false} ArgsStay(n: nat, trace: seq<Call>, suffix: seq<Call>, tgid: nat)
    requires tgid in Run(n, trace) && forall j :: 0 <= j < |suffix| ==> Spares(suffix[j], tgid)
    ensures tgid in Run(n, trace + suffix) && Run(n, trace + suffix)[tgid] == Run(n, trace)[tgid]
  {
    if suffix == [] {
      assert trace + suffix == trace;
    } else {
      var front, last := suffix[..|suffix| - 1], suffix[|suffix| - 1];
      ArgsStay(n, trace, front, tgid);
      assert (trace + suffix)[..|trace + suffix| - 1] == trace + front;
    }
  }

  /** The arguments an event has from a call: the first 63 characters of each of the six
      strings, in order, and nothing for a null pointer. */
  predicate Carries(e: ExecEvent, tgid: nat, argv: UserArgv) {
    && e.tgid == tgid
    && forall i :: 0 <= i < 6 ==>
         e.argv[i] == match argv[i] case None => "" case Some(text) => if |text| <= 63 then text else text[..63]
  }

  /** The arguments of an accepted call wait for the next event of its tgid: whatever other
      processes do, and however many of its own events find no room before. */
  lemma ArgsWaitForTheirEvent(n: nat, trace: seq<Call>, tgid: nat, argv: UserArgv, suffix: seq<Call>)
    requires Accepts(n, Run(n, trace), tgid) && forall j :: 0 <= j < |suffix| ==> Spares(suffix[j], tgid)
    ensures var events := Submitted(Run(n, trace + [Execve(tgid, argv)] + suffix), Exec(tgid, true));
            |events| == 1 && Carries(events[0], tgid, argv)
  {
    var stored := trace + [Execve(tgid, argv)];
    assert stored[..|trace|] == trace;
    ArgsStay(n, stored, suffix, tgid);
  }

  // ----- when nothing is refused

  /** The tgids with a call to remember. */
  function Pending(trace: seq<Call>): set<nat> {
    if trace == [] then {}
    else
      var before, last := Pending(trace[..|trace| - 1]), trace[|trace| - 1];
      match last
      case Execve(tgid, _) => before + {tgid}
      case Exec(tgid, reserved) => if reserved then before - {tgid} else before
  }

  lemma {:induction false} PendingIsLatest(trace: seq<Call>, tgid: nat)
    ensures tgid in Pending(trace) <==> Latest(trace, tgid).Some?
  {
    if trace != [] { PendingIsLatest(trace[..|trace| - 1], tgid); }
  }

  /** While no more tgids are pending than the map has room for, nothing is refused: the
      cache holds exactly the latest call of every tgid. */
  lemma {:induction false} CacheIsExactWhileItFits(n: nat, trace: seq<Call>)
    requires forall k :: 0 <= k <= |trace| ==> |Pending(trace[..k])| <= n
    ensures Run(n, trace).Keys == Pending(trace)
    ensures forall tgid :: Latest(trace, tgid) == if tgid in Run(n, trace) then Some(Run(n, trace)[tgid]) else None
  {
    if trace != [] {
      var before, last := trace[..|trace| - 1], trace[|trace| - 1];
      assert forall k :: 0 <= k <= |before| ==> before[..k] == trace[..k];
      assert trace[..|trace|] == trace;
      CacheIsExactWhileItFits(n, before);
      var cache := Run(n, before);
      if last.Execve? && last.tgid !in cache {
        assert |Pending(trace)| == |cache.Keys + {last.tgid}| == |cache| + 1;
      }
    }
    forall tgid ensures Latest(trace, tgid) == if tgid in Run(n, trace) then Some(Run(n, trace)[tgid]) else None {
      CacheHoldsLatest(n, trace, tgid);
      PendingIsLatest(trace, tgid);
    }
  }
}
