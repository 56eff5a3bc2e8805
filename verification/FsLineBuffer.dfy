/** Reading one line of a config file in the worker's line buffer (fs.c): the line is
    trimmed in place, cut in two at `=`, and both halves are trimmed in place. */
module FsLineBuffer {
  import opened CStrings
  import opened FsConfigFile

  /** `memmove(buf + dst, buf + src, count)` to lower addresses. */
  method MoveDown(buf: array<char>, dst: nat, src: nat, count: nat)
    requires dst <= src && src + count <= buf.Length
    modifies buf
    ensures forall k :: dst <= k < dst + count ==> buf[k] == old(buf[k + (src - dst)])
    ensures forall k :: 0 <= k < buf.Length && !(dst <= k < dst + count) ==> buf[k] == old(buf[k])
  {
    for i := dst to dst + count
      invariant forall k :: dst <= k < i ==> buf[k] == old(buf[k + (src - dst)])
      invariant forall k :: 0 <= k < buf.Length && !(dst <= k < i) ==> buf[k] == old(buf[k])
    {
      buf[i] := buf[i + (src - dst)];
    }
  }

  /** The string at `at` is replaced by a string that is no longer, and nothing else changes. */
  ghost predicate Shrinks(before: seq<char>, after: seq<char>, at: nat, n: nat, m: nat) {
    && |after| == |before| && at + n < |before| && m <= n
    && (forall k :: 0 <= k < at ==> after[k] == before[k])
    && (forall k :: at + n < k < |before| ==> after[k] == before[k])
    && StringAt(after, at, m)
  }

  lemma ShrinksTwice(s0: seq<char>, s1: seq<char>, s2: seq<char>, at: nat, n: nat, m: nat, l: nat)
    requires Shrinks(s0, s1, at, n, m) && Shrinks(s1, s2, at, m, l)
    ensures Shrinks(s0, s2, at, n, l)
  {
  }

  /** Where the leading spaces of the string at `at` end. */
  method SkipLeading(buf: array<char>, at: nat, ghost n: nat) returns (i: nat)
    requires StringAt(buf[..], at, n)
    ensures at <= i <= at + n && LStrip(buf[..][at..at + n]) == buf[..][i..at + n]
  {
    i := at;
    assert !IsSpace(NUL);
    while IsSpace(buf[i])
      invariant at <= i <= at + n && forall k :: at <= k < i ==> IsSpace(buf[k])
      decreases at + n - i
    {
      i := i + 1;
    }
    LeadingCut(buf[..], at, at + n, i);
  }

  lemma LeadingCut(s: seq<char>, at: nat, end: nat, i: nat)
    requires at <= i <= end <= |s| && (forall k :: at <= k < i ==> IsSpace(s[k])) && (i < end ==> !IsSpace(s[i]))
    ensures LStrip(s[at..end]) == s[i..end]
  {
    LStripIs(s[at..end], i - at);
    assert s[at..end][i - at..] == s[i..end];
  }

  lemma TrailingCut(s: seq<char>, at: nat, end: nat, i: nat)
    requires at <= i <= end <= |s| && (forall k :: i <= k < end ==> IsSpace(s[k])) && (i > at ==> !IsSpace(s[i - 1]))
    ensures RStrip(s[at..end]) == s[at..i]
  {
    RStripIs(s[at..end], i - at);
    assert s[at..end][..i - at] == s[at..i];
  }

  /** The leading spaces go: the rest of the string and its NUL move down. */
  method TrimFront(buf: array<char>, at: nat, ghost n: nat) returns (ghost m: nat)
    requires StringAt(buf[..], at, n)
    modifies buf
    ensures Shrinks(old(buf[..]), buf[..], at, n, m)
    ensures buf[..][at..at + m] == LStrip(old(buf[..])[at..at + n])
  {
    var i := SkipLeading(buf, at, n);
    m := at + n - i;
    if i == at { return; }
    TextOfString(buf[..], i, m);
    var length := StrLen(buf[..][i..]);
    MoveDown(buf, at, i, length + 1);
    MovedString(old(buf[..]), buf[..], at, n, i);
  }

  lemma MovedString(before: seq<char>, after: seq<char>, at: nat, n: nat, i: nat)
    requires |after| == |before| && StringAt(before, at, n) && at <= i <= at + n
    requires forall k :: at <= k < at + (at + n - i + 1) ==> after[k] == before[k + (i - at)]
    requires forall k :: 0 <= k < |before| && !(at <= k < at + (at + n - i + 1)) ==> after[k] == before[k]
    ensures Shrinks(before, after, at, n, at + n - i)
    ensures after[at..at + (at + n - i)] == before[i..at + n]
  {
  }

  /** The trailing spaces go: a NUL is put behind the last other character. */
  method TrimBack(buf: array<char>, at: nat, ghost n: nat) returns (ghost m: nat)
    requires StringAt(buf[..], at, n)
    modifies buf
    ensures Shrinks(old(buf[..]), buf[..], at, n, m)
    ensures buf[..][at..at + m] == RStrip(old(buf[..])[at..at + n])
  {
    TextOfString(buf[..], at, n);
    var end := at + StrLen(buf[..][at..]);
    while end > at && IsSpace(buf[end - 1])
      invariant at <= end <= at + n && forall k :: end <= k < at + n ==> IsSpace(buf[k])
    {
      end := end - 1;
    }
    m := end - at;
    TrailingCut(buf[..], at, at + n, end);
    PutNul(buf, end);
    EndedString(old(buf[..]), at, n, end);
  }

  lemma EndedString(s: seq<char>, at: nat, n: nat, end: nat)
    requires StringAt(s, at, n) && at <= end <= at + n
    ensures Shrinks(s, s[end := NUL], at, n, end - at)
    ensures s[end := NUL][at..end] == s[at..end]
  {
  }

  /** `trim` of the string at `at`. */
  method Trim(buf: array<char>, at: nat, ghost n: nat) returns (ghost m: nat)
    requires StringAt(buf[..], at, n)
    modifies buf
    ensures Shrinks(old(buf[..]), buf[..], at, n, m)
    ensures buf[..][at..at + m] == Strip(old(buf[..])[at..at + n])
  {
    ghost var n1 := TrimFront(buf, at, n);
    ghost var s1 := buf[..];
    m := TrimBack(buf, at, n1);
    ShrinksTwice(old(buf[..]), s1, buf[..], at, n, n1, m);
  }

  /** `strchr` of the string at `at`. */
  method Strchr(buf: array<char>, at: nat, c: char, ghost n: nat) returns (r: Option<nat>)
    requires StringAt(buf[..], at, n) && c != NUL
    ensures r == match IndexOf(buf[..][at..at + n], c) case Some(k) => Some(at + k) case None => None
  {
    ghost var s := buf[..][at..at + n];
    IndexOfIs(s, c);
    var i := at;
    while buf[i] != NUL
      invariant at <= i <= at + n && forall k :: 0 <= k < i - at ==> s[k] != c
      decreases at + n - i
    {
      if buf[i] == c {
        assert FirstAt(s, c, i - at);
        return Some(i);
      }
      i := i + 1;
    }
    assert c !in s;
    return None;
  }

  /** `fgets` from position `pos`: the next chunk and a NUL. */
  method Fgets(content: string, pos: nat, line: array<char>) returns (n: nat)
    requires pos < |content| && line.Length == LINE_SIZE
    modifies line
    ensures n == ChunkLen(content[pos..])
    ensures line[..][..n] == content[pos..][..n] && line[n] == NUL
  {
    ghost var rest := content[pos..];
    IndexOfIs(rest, '\n');
    n := 0;
    while n < LINE_SIZE - 1 && pos + n < |content|
      invariant n <= LINE_SIZE - 1 && pos + n <= |content|
      invariant forall k :: 0 <= k < n ==> line[k] == rest[k]
      invariant forall k :: 0 <= k < n ==> rest[k] != '\n'
    {
      line[n] := content[pos + n];
      n := n + 1;
      if line[n - 1] == '\n' {
        assert FirstAt(rest, '\n', n - 1);
        break;
      }
    }
    line[n] := NUL;
  }

  /** Cuts the string in the buffer in two at position `e`, trims both halves in place and
      reads them. */
  method CutAt(line: array<char>, e: nat, ghost n: nat) returns (s: Setting)
    requires StringAt(line[..], 0, n) && e < n
    modifies line
    ensures s == Setting(Strip(old(line[..])[..e]), Strip(old(line[..])[e + 1..n]))
  {
    ghost var before := line[..];
    PutNul(line, e);
    HalvesOf(before, e, n);
    ghost var keyLen := Trim(line, 0, e);
    ghost var keyed := line[..];
    SecondHalf(before[e := NUL], keyed, e, n, keyLen);
    ghost var valueLen := Trim(line, e + 1, n - (e + 1));
    s := ReadHalves(line, e, keyLen, valueLen, keyed);
  }

  lemma HalvesOf(s: seq<char>, e: nat, n: nat)
    requires StringAt(s, 0, n) && e < n
    ensures StringAt(s[e := NUL], 0, e) && StringAt(s[e := NUL], e + 1, n - (e + 1))
    ensures s[e := NUL][0..e] == s[..e] && s[e := NUL][e + 1..n] == s[e + 1..n]
  {
  }

  lemma SecondHalf(before: seq<char>, after: seq<char>, e: nat, n: nat, m: nat)
    requires Shrinks(before, after, 0, e, m) && e < n && StringAt(before, e + 1, n - (e + 1))
    ensures StringAt(after, e + 1, n - (e + 1)) && after[e + 1..n] == before[e + 1..n]
  {
  }

  method ReadHalves(line: array<char>, e: nat, ghost keyLen: nat, ghost valueLen: nat, ghost keyed: seq<char>)
    returns (s: Setting)
    requires keyLen <= e && StringAt(keyed, 0, keyLen) && |keyed| == line.Length
    requires forall k :: 0 <= k < e + 1 && k < line.Length ==> line[..][k] == keyed[k]
    requires StringAt(line[..], e + 1, valueLen)
    ensures s == Setting(keyed[0..keyLen], line[..][e + 1..e + 1 + valueLen])
  {
    assert StringAt(line[..], 0, keyLen) && line[..][0..keyLen] == keyed[0..keyLen];
    TextOfString(line[..], 0, keyLen);
    TextOfString(line[..], e + 1, valueLen);
    s := Setting(TextAt(line[..], 0), TextAt(line[..], e + 1));
  }

  /** The trimmed line in the buffer, unless it is blank or a comment, is cut at its `=`. */
  method ReadTrimmed(line: array<char>, ghost m: nat) returns (s: Option<Setting>)
    requires StringAt(line[..], 0, m)
    modifies line
    ensures s == SettingIn(old(line[..])[0..m])
  {
    ghost var all := line[..];
    ghost var text := all[0..m];
    assert m > 0 ==> text[0] == line[0];
    if line[0] == NUL || line[0] == '#' { return None; }
    IndexOfIs(text, '=');
    var eq := Strchr(line, 0, '=', m);
    if eq.None? { return None; }
    assert all[..eq.value] == text[..eq.value] && all[eq.value + 1..m] == text[eq.value + 1..];
    var setting := CutAt(line, eq.value, m);
    return Some(setting);
  }

  /** One round of the parsing loop: how far it read, and the setting it found. */
  method NextSetting(content: string, pos: nat, line: array<char>) returns (n: nat, s: Option<Setting>)
    requires pos < |content| && line.Length == LINE_SIZE
    modifies line
    ensures n == ChunkLen(content[pos..])
    ensures s == SettingOf(content[pos..][..n])
  {
    n := Fgets(content, pos, line);
    ghost var chunk := content[pos..][..n];
    ChunkText(line[..], chunk);
    ghost var m := Trim(line, 0, StrLen(chunk));
    s := ReadTrimmed(line, m);
  }

  lemma ChunkText(s: seq<char>, chunk: string)
    requires |chunk| < |s| && s[..|chunk|] == chunk && s[|chunk|] == NUL
    ensures StringAt(s, 0, StrLen(chunk)) && s[0..StrLen(chunk)] == CStr(chunk)
  {
    var n := StrLen(chunk);
    assert forall k :: 0 <= k < n ==> s[k] == chunk[k] == chunk[..n][k];
    if n < |chunk| { assert s[n] == chunk[n]; }
  }
}
