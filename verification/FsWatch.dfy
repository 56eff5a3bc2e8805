/** The watch table of the file worker (fs.c): each entry packs a watch descriptor and the
    index of its config into one 32-bit number. */
module FsWatch {
  import opened CStrings
  import opened FsConfigFile
  import opened FsStore
  import opened MachineWords

  /** `(wd << 16) | i`: the low half of the shifted number is zero, so that the index is
      added to it. */
  function Pack(wd: int, i: nat): int { Wrap32(wd * 0x1_0000) + i }

  /** `w >> 16`, which keeps the sign, and `w & 0xffff`. */
  function WdOf(w: int): int { w / 0x1_0000 }

  function ConfigIndexOf(w: int): (i: nat)
    ensures i < 0x1_0000
  {
    w % 0x1_0000
  }

  /** What the packing keeps of a descriptor: its low half, read as a signed 16-bit number. */
  function Kept(wd: int): (low: int)
    ensures -0x8000 <= low < 0x8000
  {
    (wd + 0x8000) % 0x1_0000 - 0x8000
  }

  lemma WrapOfShift(wd: int)
    ensures Wrap32(wd * 0x1_0000) == Kept(wd) * 0x1_0000
  {
    var x := wd + 0x8000;
    ShiftedRemainder(x / 0x1_0000, x % 0x1_0000);
    assert wd * 0x1_0000 + 0x8000_0000 == x * 0x1_0000;
  }

  lemma ShiftedRemainder(q: int, m: nat)
    requires m < 0x1_0000
    ensures (q * 0x1_0000 + m) * 0x1_0000 % TWO_32 == m * 0x1_0000
  {
    assert (q * 0x1_0000 + m) * 0x1_0000 == q * TWO_32 + m * 0x1_0000;
  }

  /** The index always decodes; and of the descriptor what the packing keeps. */
  lemma PackKeeps(wd: int, i: nat)
    requires i < MAX_CONFIGS
    ensures ConfigIndexOf(Pack(wd, i)) == i && WdOf(Pack(wd, i)) == Kept(wd)
  {
    WrapOfShift(wd);
  }

  /** The descriptor decodes exactly up to 32767. */
  lemma PackIsExactUpTo32767(wd: nat, i: nat)
    requires i < MAX_CONFIGS
    ensures ConfigIndexOf(Pack(wd, i)) == i
    ensures WdOf(Pack(wd, i)) == wd <==> wd <= 32767
  {
    PackKeeps(wd, i);
  }

  /** The table after a rebuild, when adding a watch for config `i` gives `wds[i]`, and a
      negative number when it fails. */
  function Rebuilt(configs: seq<FsConfig>, wds: seq<int>): (watches: seq<int>)
    requires |wds| >= |configs|
    ensures |watches| <= |configs|
  {
    if configs == [] then []
    else
      var i := |configs| - 1;
      var before := Rebuilt(configs[..i], wds);
      if configs[i].monitorSwitch && wds[i] >= 0 then before + [Pack(wds[i], i)] else before
  }

  predicate Watched(configs: seq<FsConfig>, wds: seq<int>, i: nat)
    requires |wds| >= |configs|
  {
    i < |configs| && configs[i].monitorSwitch && wds[i] >= 0
  }

  /** The entry of a watched config. */
  ghost predicate Entry(configs: seq<FsConfig>, wds: seq<int>, w: int)
    requires |wds| >= |configs|
  {
    Watched(configs, wds, ConfigIndexOf(w)) && w == Pack(wds[ConfigIndexOf(w)], ConfigIndexOf(w))
  }

  lemma {:induction false} RebuiltEntries(configs: seq<FsConfig>, wds: seq<int>)
    requires |wds| >= |configs| && |configs| <= MAX_CONFIGS
    ensures forall j :: 0 <= j < |Rebuilt(configs, wds)| ==> Entry(configs, wds, Rebuilt(configs, wds)[j])
    ensures forall j, k :: 0 <= j < k < |Rebuilt(configs, wds)| ==>
              ConfigIndexOf(Rebuilt(configs, wds)[j]) < ConfigIndexOf(Rebuilt(configs, wds)[k])
  {
    if configs != [] {
      var i := |configs| - 1;
      RebuiltEntries(configs[..i], wds);
      var before := Rebuilt(configs[..i], wds);
      forall j | 0 <= j < |before| ensures Entry(configs, wds, before[j]) && ConfigIndexOf(before[j]) < i {
        assert Entry(configs[..i], wds, before[j]);
      }
      if wds[i] >= 0 { PackIsExactUpTo32767(wds[i], i); }
    }
  }

  lemma {:induction false} RebuiltHas(configs: seq<FsConfig>, wds: seq<int>, i: nat) returns (j: nat)
    requires |wds| >= |configs| && |configs| <= MAX_CONFIGS && Watched(configs, wds, i)
    ensures j < |Rebuilt(configs, wds)| && Rebuilt(configs, wds)[j] == Pack(wds[i], i)
  {
    var last := |configs| - 1;
    if i == last {
      j := |Rebuilt(configs[..last], wds)|;
    } else {
      j := RebuiltHas(configs[..last], wds, i);
    }
  }

  /** The rebuilt table lists, in config order, exactly the enabled configs whose watch was
      added: one entry for each of them, none for any other, and none is dropped. */
  lemma RebuiltListsTheEnabled(configs: seq<FsConfig>, wds: seq<int>)
    requires |wds| >= |configs| && |configs| <= MAX_CONFIGS
    ensures var w := Rebuilt(configs, wds);
            && (forall j :: 0 <= j < |w| ==> Entry(configs, wds, w[j]))
            && (forall j, k :: 0 <= j < k < |w| ==> ConfigIndexOf(w[j]) < ConfigIndexOf(w[k]))
            && (forall i: nat :: Watched(configs, wds, i) ==> Pack(wds[i], i) in w)
  {
    RebuiltEntries(configs, wds);
    forall i: nat | Watched(configs, wds, i) ensures Pack(wds[i], i) in Rebuilt(configs, wds) {
      var j := RebuiltHas(configs, wds, i);
    }
  }
}
