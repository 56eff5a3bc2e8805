/** Fixed tables of slots that never grow: which slot is given up for a new entry. */
module Slots {

  /** Whether a slot is in use, and the time it was last used. */
  datatype Slot = Slot(active: bool, time: int)

  /** The first free slot, and in a full table the first of those used longest ago. */
  predicate IsPick(s: seq<Slot>, k: nat) {
    && k < |s|
    && (forall j :: 0 <= j < k ==> s[j].active)
    && (s[k].active ==>
          && (forall j :: 0 <= j < |s| ==> s[j].active && s[k].time <= s[j].time)
          && (forall j :: 0 <= j < k ==> s[k].time < s[j].time))
  }

  /** What the allocation loops know before slot `i`. */
  predicate OldestBefore(s: seq<Slot>, i: nat, oldest: nat) {
    && i <= |s| && oldest < |s| && (oldest < i || oldest == i == 0)
    && (forall j :: 0 <= j < i ==> s[j].active && s[oldest].time <= s[j].time)
    && (forall j :: 0 <= j < oldest ==> s[oldest].time < s[j].time)
  }

  function PickFrom(s: seq<Slot>, i: nat, oldest: nat): (k: nat)
    requires OldestBefore(s, i, oldest)
    ensures IsPick(s, k)
    decreases |s| - i
  {
    if i == |s| then oldest
    else if !s[i].active then i
    else PickFrom(s, i + 1, if s[i].time < s[oldest].time then i else oldest)
  }

  function Pick(s: seq<Slot>): (k: nat)
    requires |s| >= 1
    ensures IsPick(s, k)
  {
    PickFrom(s, 0, 0)
  }

  lemma PickIs(s: seq<Slot>, k: nat)
    requires IsPick(s, k)
    ensures Pick(s) == k
  {
    var a := Pick(s);
    assert a <= k <= a;
  }
}
