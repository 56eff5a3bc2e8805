/** The inotify events of the file worker (fs.c): the records in a read buffer, the row an
    event becomes, and the ring that keeps the last rows. */
module FsEvents {
  import opened CStrings
  import opened FsConfigFile
  import opened FsStore
  import opened FsWatch
  import opened MachineWords

  const MAX_EVENTS: nat := 128
  const HEADER_SIZE: nat := 16
  const OP_LEN: nat := 64
  const PATH_LEN: nat := 512

  // ----- records in a buffer

  /** `struct inotify_event`; a name, when there is one, is padded with NULs. */
  datatype Record = Record(wd: int, mask: nat, cookie: nat, name: seq<byte>)

  predicate IsRecord(r: Record) {
    IsI32(r.wd) && r.mask < TWO_32 && r.cookie < TWO_32 && |r.name| < TWO_32 && (r.name != [] ==> 0 in r.name)
  }

  function Size(r: Record): nat { HEADER_SIZE + |r.name| }

  /** A record as it lies in memory: four little-endian words and the name. */
  function Encode(r: Record): (b: seq<byte>)
    requires IsRecord(r)
    ensures |b| == Size(r)
  {
    Le32(ToU32(r.wd)) + Le32(r.mask) + Le32(r.cookie) + Le32(|r.name|) + r.name
  }

  ghost predicate AreRecords(rs: seq<Record>) { forall i :: 0 <= i < |rs| ==> IsRecord(rs[i]) }

  ghost function EncodeAll(rs: seq<Record>): seq<byte>
    requires AreRecords(rs)
  {
    if rs == [] then [] else Encode(rs[0]) + EncodeAll(rs[1..])
  }

  function WordAt(b: seq<byte>, p: nat): nat
    requires p + 4 <= |b|
  {
    FromLe32(b[p..p + 4])
  }

  /** A stretch of `e` lies at `p` in a buffer that goes on with it. */
  lemma Stretch(b: seq<byte>, p: nat, e: seq<byte>, rest: seq<byte>, i: nat, j: nat)
    requires p <= |b| && b[p..] == e + rest && i <= j <= |e|
    ensures p + j <= |b| && b[p + i..p + j] == e[i..j]
  {
    assert |b| - p == |e| + |rest|;
    forall k | i <= k < j ensures b[p + k] == e[k] { assert b[p + k] == b[p..][k]; }
  }

  lemma Pieces(a: seq<byte>, b: seq<byte>, c: seq<byte>, d: seq<byte>, name: seq<byte>)
    requires |a| == |b| == |c| == |d| == 4
    ensures var e := a + b + c + d + name;
            e[0..4] == a && e[4..8] == b && e[8..12] == c && e[12..16] == d && e[16..|e|] == name
  {
  }

  lemma WordsOfRecord(b: seq<byte>, p: nat, r: Record, rest: seq<byte>)
    requires IsRecord(r) && p <= |b| && b[p..] == Encode(r) + rest
    ensures p + Size(r) <= |b| && b[p + Size(r)..] == rest
    ensures ToI32(WordAt(b, p)) == r.wd && WordAt(b, p + 4) == r.mask && WordAt(b, p + 8) == r.cookie
    ensures WordAt(b, p + 12) == |r.name| && b[p + 16..p + Size(r)] == r.name
  {
    var e := Encode(r);
    Pieces(Le32(ToU32(r.wd)), Le32(r.mask), Le32(r.cookie), Le32(|r.name|), r.name);
    Stretch(b, p, e, rest, 0, 4);
    Stretch(b, p, e, rest, 4, 8);
    Stretch(b, p, e, rest, 8, 12);
    Stretch(b, p, e, rest, 12, 16);
    Stretch(b, p, e, rest, 16, |e|);
    assert b[p + |e|..] == b[p..][|e|..] == rest;
    Le32IsReadBack(ToU32(r.wd));
    Le32IsReadBack(r.mask);
    Le32IsReadBack(r.cookie);
    Le32IsReadBack(|r.name|);
  }

  /** The record at `p` of a buffer that goes on with it. */
  method ReadRecord(b: seq<byte>, p: nat, ghost r: Record, ghost rest: seq<byte>) returns (read: Record)
    requires IsRecord(r) && p <= |b| && b[p..] == Encode(r) + rest
    ensures read == r && p + Size(r) <= |b| && b[p + Size(r)..] == rest
  {
    WordsOfRecord(b, p, r, rest);
    var length := WordAt(b, p + 12);
    read := Record(ToI32(WordAt(b, p)), WordAt(b, p + 4), WordAt(b, p + 8), b[p + 16..p + 16 + length]);
  }

  // ----- rows

  /** A row of `list events`. */
  datatype EventRow = EventRow(time: int, configId: int, name: string, op: string, path: string)

  /** A record and the time at which the worker gets to it. */
  datatype Visit = Visit(record: Record, now: int)

  predicate Has(mask: nat, bit: nat)
    requires bit > 0
  {
    mask / bit % 2 == 1
  }

  function MaskToOp(mask: nat): string {
    if Has(mask, 0x100) || Has(mask, 0x8) || Has(mask, 0x2) then "write"
    else if Has(mask, 0x200) || Has(mask, 0x400) then "delete"
    else if Has(mask, 0x40) || Has(mask, 0x80) || Has(mask, 0x800) then "rename"
    else if Has(mask, 0x4) then "chmod"
    else "event"
  }

  /** The bit of value `bit`, between the bits above it and those below. */
  lemma HasIs(above: nat, on: bool, below: nat, bit: nat)
    requires bit > 0 && below < bit
    ensures Has(above * (2 * bit) + (if on then bit else 0) + below, bit) <==> on
  {
    var mask := above * (2 * bit) + (if on then bit else 0) + below;
    var q := 2 * above + if on then 1 else 0;
    assert mask == q * bit + below;
    QuotientIs(mask, bit, q, below);
  }

  lemma QuotientIs(x: nat, d: nat, q: nat, r: nat)
    requires d > 0 && r < d && x == q * d + r
    ensures x / d == q
  {
    var q', r' := x / d, x % d;
    assert x == q' * d + r';
    if q' < q { ProductGrows(q', q, d); }
    if q' > q { ProductGrows(q, q', d); }
  }

  lemma ProductGrows(q: nat, p: nat, d: nat)
    requires q < p
    ensures p * d >= q * d + d
  {
    var more: nat := p - q - 1;
    assert more * d >= 0;
    assert p * d == (q + 1 + more) * d == q * d + d + more * d;
  }

  /** What each bit is shown as, and which of two bits comes first. */
  lemma OpsOfBits()
    ensures MaskToOp(0x100) == MaskToOp(0x8) == MaskToOp(0x2) == "write"
    ensures MaskToOp(0x200) == MaskToOp(0x400) == "delete"
    ensures MaskToOp(0x40) == MaskToOp(0x80) == MaskToOp(0x800) == "rename"
    ensures MaskToOp(0x4) == "chmod" && MaskToOp(0x20) == MaskToOp(0x8000) == MaskToOp(0) == "event"
    ensures MaskToOp(0x2 + 0x200) == "write" && MaskToOp(0x40 + 0x400) == "delete" && MaskToOp(0x4 + 0x80) == "rename"
  {
  }

  lemma OpsAreShort(mask: nat)
    ensures Trunc(MaskToOp(mask), OP_LEN) == MaskToOp(mask)
  {
  }

  /** A name as inotify gives it: its characters, and NULs up to the end. */
  predicate PaddedName(bytes: seq<byte>, nm: string) {
    && |nm| < |bytes| && bytes[|nm|] == 0
    && forall j :: 0 <= j < |nm| ==> nm[j] != NUL && bytes[j] as int == nm[j] as int
  }

  function Chars(b: seq<byte>): string { seq(|b|, i requires 0 <= i < |b| => (b[i] as int) as char) }

  /** The path of an event: that of the config, and the name in the record if any. */
  function EventPath(c: FsConfig, r: Record): string {
    Trunc(if r.name == [] then c.path else c.path + "/" + CStr(Chars(r.name)), PATH_LEN)
  }

  function RowOf(c: FsConfig, v: Visit): EventRow {
    EventRow(v.now, c.id, Trunc(c.name, MAX_FIELD_LEN), Trunc(MaskToOp(v.record.mask), OP_LEN),
             Trunc(EventPath(c, v.record), MAX_FIELD_LEN))
  }

  /** The alarm a matched event runs. */
  function AlarmOf(c: FsConfig): seq<string> { if c.alarmCmd != "" && c.alarmCmd != "true" then [c.alarmCmd] else [] }

  // ----- attribution

  predicate IsFirstWatch(watches: seq<int>, wd: int, r: Option<nat>) {
    match r
    case None => forall j :: 0 <= j < |watches| ==> WdOf(watches[j]) != wd
    case Some(k) => k < |watches| && WdOf(watches[k]) == wd && forall j :: 0 <= j < k ==> WdOf(watches[j]) != wd
  }

  function FirstWatch(watches: seq<int>, wd: int): (r: Option<nat>)
    ensures IsFirstWatch(watches, wd, r)
  {
    First(watches, w => WdOf(w) == wd)
  }

  predicate IndicesBelow(watches: seq<int>, n: nat) {
    forall j :: 0 <= j < |watches| ==> ConfigIndexOf(watches[j]) < n
  }

  /** The config that an event of descriptor `wd` belongs to. */
  function ConfigFor(cells: seq<FsConfig>, watches: seq<int>, wd: int): Option<FsConfig>
    requires IndicesBelow(watches, |cells|)
  {
    match FirstWatch(watches, wd) case None => None case Some(j) => Some(cells[ConfigIndexOf(watches[j])])
  }

  /** The rows and alarms recorded so far. */
  datatype EventLog = EventLog(rows: seq<EventRow>, alarms: seq<string>)

  /** The matched events of the visits, in order. */
  function Matched(cells: seq<FsConfig>, watches: seq<int>, visits: seq<Visit>): EventLog
    requires IndicesBelow(watches, |cells|)
  {
    if visits == [] then EventLog([], [])
    else
      var v := visits[|visits| - 1];
      var before := Matched(cells, watches, visits[..|visits| - 1]);
      match ConfigFor(cells, watches, v.record.wd)
      case None => before
      case Some(c) => EventLog(before.rows + [RowOf(c, v)], before.alarms + AlarmOf(c))
  }

  lemma {:induction false} MatchedOfBoth(cells: seq<FsConfig>, watches: seq<int>, a: seq<Visit>, b: seq<Visit>)
    requires IndicesBelow(watches, |cells|)
    ensures var (ma, mb, m) := (Matched(cells, watches, a), Matched(cells, watches, b), Matched(cells, watches, a + b));
            m == EventLog(ma.rows + mb.rows, ma.alarms + mb.alarms)
  {
    if b == [] {
      assert a + b == a;
    } else {
      assert (a + b)[..|a + b| - 1] == a + b[..|b| - 1];
      MatchedOfBoth(cells, watches, a, b[..|b| - 1]);
    }
  }

  /** The first enabled config whose watch was added, and of which `got` is `wd`. */
  ghost predicate IsFirstConfig(configs: seq<FsConfig>, wds: seq<int>, got: seq<int>, wd: int, r: Option<nat>)
    requires |wds| == |got| >= |configs|
  {
    match r
    case None => forall k: nat :: Watched(configs, wds, k) ==> got[k] != wd
    case Some(i) =>
      && Watched(configs, wds, i) && got[i] == wd
      && forall k: nat :: k < i && Watched(configs, wds, k) ==> got[k] != wd
  }

  /** What the watch table keeps of each descriptor. */
  function AllKept(wds: seq<int>): (got: seq<int>)
    ensures |got| == |wds| && forall i :: 0 <= i < |wds| ==> got[i] == Kept(wds[i])
  {
    seq(|wds|, i requires 0 <= i < |wds| => Kept(wds[i]))
  }

  /** The table holds watches of enabled configs, in config order, each decoding to what is
      kept of its descriptor. */
  ghost predicate Describes(configs: seq<FsConfig>, wds: seq<int>, watches: seq<int>)
    requires |wds| >= |configs|
  {
    && (forall j :: 0 <= j < |watches| ==>
          && Watched(configs, wds, ConfigIndexOf(watches[j]))
          && WdOf(watches[j]) == Kept(wds[ConfigIndexOf(watches[j])]))
    && forall j, k :: 0 <= j < k < |watches| ==> ConfigIndexOf(watches[j]) < ConfigIndexOf(watches[k])
  }

  lemma RebuiltDescribes(configs: seq<FsConfig>, wds: seq<int>)
    requires |configs| <= MAX_CONFIGS && |wds| >= |configs|
    ensures Describes(configs, wds, Rebuilt(configs, wds))
  {
    var w := Rebuilt(configs, wds);
    RebuiltEntries(configs, wds);
    forall j | 0 <= j < |w|
      ensures Watched(configs, wds, ConfigIndexOf(w[j])) && WdOf(w[j]) == Kept(wds[ConfigIndexOf(w[j])])
    {
      assert Entry(configs, wds, w[j]);
      PackKeeps(wds[ConfigIndexOf(w[j])], ConfigIndexOf(w[j]));
    }
  }

  lemma RebuiltIndices(configs: seq<FsConfig>, wds: seq<int>)
    requires |wds| >= |configs| && |configs| <= MAX_CONFIGS
    ensures IndicesBelow(Rebuilt(configs, wds), |configs|)
  {
    RebuiltEntries(configs, wds);
  }

  lemma FirstWatchIs(watches: seq<int>, wd: int, r: Option<nat>)
    requires IsFirstWatch(watches, wd, r)
    ensures FirstWatch(watches, wd) == r
  {
  }

  lemma BelongsToFirst(configs: seq<FsConfig>, wds: seq<int>, watches: seq<int>, wd: int, i: nat, j: nat)
    requires |wds| >= |configs| && Describes(configs, wds, watches)
    requires IsFirstConfig(configs, wds, AllKept(wds), wd, Some(i))
    requires j < |watches| && ConfigIndexOf(watches[j]) == i && IndicesBelow(watches, |configs|)
    ensures ConfigFor(configs, watches, wd) == Some(configs[i])
  {
    forall m | 0 <= m < j ensures WdOf(watches[m]) != wd {
      assert ConfigIndexOf(watches[m]) < i;
    }
    FirstWatchIs(watches, wd, Some(j));
  }

  lemma BelongsToNone(configs: seq<FsConfig>, wds: seq<int>, watches: seq<int>, wd: int)
    requires |wds| >= |configs| && Describes(configs, wds, watches)
    requires IsFirstConfig(configs, wds, AllKept(wds), wd, None)
    requires IndicesBelow(watches, |configs|)
    ensures ConfigFor(configs, watches, wd) == None
  {
    forall m | 0 <= m < |watches| ensures WdOf(watches[m]) != wd {
      assert Watched(configs, wds, ConfigIndexOf(watches[m]));
    }
    FirstWatchIs(watches, wd, None);
  }

  function ConfigAt(configs: seq<FsConfig>, r: Option<nat>): Option<FsConfig>
    requires r.Some? ==> r.value < |configs|
  {
    match r case None => None case Some(i) => Some(configs[i])
  }

  /** Right after a rebuild an event belongs to the first enabled config of whose descriptor
      the table keeps that of the event, and to none when there is none. */
  lemma EventGoesToFirstConfig(configs: seq<FsConfig>, wds: seq<int>, wd: int, r: Option<nat>)
    requires |configs| <= MAX_CONFIGS && |wds| >= |configs| && IsFirstConfig(configs, wds, AllKept(wds), wd, r)
    ensures IndicesBelow(Rebuilt(configs, wds), |configs|)
    ensures ConfigFor(configs, Rebuilt(configs, wds), wd) == ConfigAt(configs, r)
  {
    RebuiltIndices(configs, wds);
    RebuiltDescribes(configs, wds);
    match r {
      case None => BelongsToNone(configs, wds, Rebuilt(configs, wds), wd);
      case Some(i) =>
        var j := RebuiltHas(configs, wds, i);
        PackKeeps(wds[i], i);
        BelongsToFirst(configs, wds, Rebuilt(configs, wds), wd, i, j);
    }
  }

  /** Every event belongs to the first enabled config whose watch has its very descriptor. */
  ghost predicate AttributesRightly(configs: seq<FsConfig>, wds: seq<int>)
    requires |configs| <= MAX_CONFIGS && |wds| >= |configs| && IndicesBelow(Rebuilt(configs, wds), |configs|)
  {
    forall wd: nat, r: Option<nat> :: IsFirstConfig(configs, wds, wds, wd, r) ==>
      ConfigFor(configs, Rebuilt(configs, wds), wd) == ConfigAt(configs, r)
  }

  ghost predicate DescriptorsFit(configs: seq<FsConfig>, wds: seq<int>)
    requires |wds| >= |configs|
  {
    forall k: nat :: Watched(configs, wds, k) ==> wds[k] <= 32767
  }

  lemma KeptWhenFit(configs: seq<FsConfig>, wds: seq<int>, wd: int, r: Option<nat>)
    requires |wds| >= |configs| && DescriptorsFit(configs, wds) && IsFirstConfig(configs, wds, wds, wd, r)
    ensures IsFirstConfig(configs, wds, AllKept(wds), wd, r)
  {
    forall k: nat | Watched(configs, wds, k) ensures AllKept(wds)[k] == wds[k] {}
  }

  /** No event has a config when its descriptor is above 32767. */
  lemma LargeDescriptorsAreLost(configs: seq<FsConfig>, wds: seq<int>, wd: nat)
    requires |configs| <= MAX_CONFIGS && |wds| >= |configs| && wd > 32767
    ensures IndicesBelow(Rebuilt(configs, wds), |configs|)
    ensures ConfigFor(configs, Rebuilt(configs, wds), wd) == None
  {
    EventGoesToFirstConfig(configs, wds, wd, None);
  }

  lemma {:induction false} FirstConfigExists(configs: seq<FsConfig>, wds: seq<int>, wd: int, i: nat) returns (r: nat)
    requires |wds| >= |configs| && Watched(configs, wds, i) && wds[i] == wd
    ensures IsFirstConfig(configs, wds, wds, wd, Some(r))
    decreases i
  {
    if k: nat :| k < i && Watched(configs, wds, k) && wds[k] == wd {
      r := FirstConfigExists(configs, wds, wd, k);
    } else {
      r := i;
    }
  }

  /** Attribution is right for every event exactly when no watch has a descriptor above 32767. */
  lemma AttributionIsExact(configs: seq<FsConfig>, wds: seq<int>)
    requires |configs| <= MAX_CONFIGS && |wds| >= |configs|
    ensures IndicesBelow(Rebuilt(configs, wds), |configs|)
    ensures AttributesRightly(configs, wds) <==> DescriptorsFit(configs, wds)
  {
    RebuiltIndices(configs, wds);
    if DescriptorsFit(configs, wds) {
      forall wd: nat, r: Option<nat> | IsFirstConfig(configs, wds, wds, wd, r)
        ensures ConfigFor(configs, Rebuilt(configs, wds), wd) == ConfigAt(configs, r)
      {
        KeptWhenFit(configs, wds, wd, r);
        EventGoesToFirstConfig(configs, wds, wd, r);
      }
    } else {
      var k: nat :| Watched(configs, wds, k) && wds[k] > 32767;
      var r := FirstConfigExists(configs, wds, wds[k], k);
      LargeDescriptorsAreLost(configs, wds, wds[k]);
    }
  }

  // ----- the ring

  /** The last `n` of a sequence. */
  function Last<T>(s: seq<T>, n: nat): (t: seq<T>)
    ensures |t| <= n
  {
    if |s| <= n then s else s[|s| - n..]
  }

  lemma LastOfLast<T>(a: seq<T>, b: seq<T>, n: nat)
    ensures Last(Last(a, n) + b, n) == Last(a + b, n)
  {
  }

  lemma LastBehind<T>(s: seq<T>, a: seq<T>, b: seq<T>, n: nat)
    ensures Last(Last(s + a, n) + b, n) == Last(s + (a + b), n)
  {
    LastOfLast(s + a, b, n);
    assert s + a + b == s + (a + b);
  }

  lemma LastGrows<T>(a: seq<T>, x: T, n: nat)
    requires n >= 1 && |a| <= n
    ensures Last(a + [x], n) == if |a| < n then a + [x] else a[1..] + [x]
  {
  }

  /** The position `i` places behind `cursor` in a ring of `n`. */
  function Behind(cursor: nat, i: nat, n: nat): (p: nat)
    requires cursor < n && i <= n
    ensures p < n && p == (cursor + i) % n
  {
    RemainderOnce(cursor + i, n);
    if cursor + i < n then cursor + i else cursor + i - n
  }

  lemma RemainderOnce(x: nat, n: nat)
    requires n > 0 && x < 2 * n
    ensures x % n == if x < n then x else x - n
  {
    if x >= n { assert x == 1 * n + (x - n); }
  }

  /** The rows in the ring, oldest first. */
  function RingRows<T>(ring: seq<T>, cursor: nat, count: nat): (rows: seq<T>)
    requires cursor < |ring| && count <= |ring|
    ensures |rows| == count
  {
    seq(count, i requires 0 <= i < count => ring[Behind(cursor, i, |ring|)])
  }

  /** Where one more row goes, and where the oldest row is afterwards. */
  function SlotFor(cursor: nat, count: nat, n: nat): (r: (nat, nat))
    requires cursor < n && count <= n
    ensures r.0 < n && r.1 < n
  {
    if count == n then (cursor, Behind(cursor, 1, n)) else (Behind(cursor, count, n), cursor)
  }

  /** A ring of any size keeps the last rows put into it: a new row takes the first free
      place, or that of the oldest. */
  lemma RingKeepsTheLast<T>(ring: seq<T>, cursor: nat, count: nat, row: T)
    requires cursor < |ring| && count <= |ring|
    ensures var n, (p, next) := |ring|, SlotFor(cursor, count, |ring|);
            RingRows(ring[p := row], next, if count == n then n else count + 1) ==
            Last(RingRows(ring, cursor, count) + [row], n)
  {
    LastGrows(RingRows(ring, cursor, count), row, |ring|);
  }
}
