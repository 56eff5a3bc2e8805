/** Text as the C workers see it: a string ends before its first NUL, and every
    `snprintf` into a field of `size` bytes keeps at most `size - 1` of them. */
module CStrings {

  datatype Option<+T> = None | Some(value: T)

  /** The first index whose element has a property: what every linear search here returns. */
  function First<T>(s: seq<T>, has: T -> bool): (r: Option<nat>)
    ensures r.None? ==> forall j :: 0 <= j < |s| ==> !has(s[j])
    ensures r.Some? ==> r.value < |s| && has(s[r.value]) && forall j :: 0 <= j < r.value ==> !has(s[j])
  {
    FirstFrom(s, has, 0)
  }

  function FirstFrom<T>(s: seq<T>, has: T -> bool, i: nat): (r: Option<nat>)
    requires i <= |s| && forall j :: 0 <= j < i ==> !has(s[j])
    ensures r.None? ==> forall j :: 0 <= j < |s| ==> !has(s[j])
    ensures r.Some? ==> r.value < |s| && has(s[r.value]) && forall j :: 0 <= j < r.value ==> !has(s[j])
    decreases |s| - i
  {
    if i == |s| then None else if has(s[i]) then Some(i) else FirstFrom(s, has, i + 1)
  }

  const NUL: char := '\0'

  predicate NoNul(s: string) { NUL !in s }

  /** Index of the first NUL, or the length when there is none. */
  function StrLen(s: seq<char>): (n: nat)
    ensures n <= |s|
    ensures NoNul(s[..n])
    ensures n < |s| ==> s[n] == NUL
  {
    if s == [] || s[0] == NUL then 0
    else
      assert s[..1 + StrLen(s[1..])] == [s[0]] + s[1..][..StrLen(s[1..])];
      1 + StrLen(s[1..])
  }

  function CStr(s: seq<char>): string { s[..StrLen(s)] }

  lemma StrLenIs(s: seq<char>, n: nat)
    requires n <= |s| && NoNul(s[..n]) && (n < |s| ==> s[n] == NUL)
    ensures StrLen(s) == n && CStr(s) == s[..n]
  {
    var m := StrLen(s);
    assert forall j :: 0 <= j < n ==> s[..n][j] == s[j] && s[j] != NUL;
    assert forall j :: 0 <= j < m ==> s[..m][j] == s[j] && s[j] != NUL;
  }

  /** The C string that starts at `i`. */
  function TextAt(s: seq<char>, i: nat): string
    requires i <= |s|
  {
    CStr(s[i..])
  }

  /** A C string of `n` characters starts at `i`. */
  predicate StringAt(s: seq<char>, i: nat, n: nat) {
    i + n < |s| && s[i + n] == NUL && forall k :: i <= k < i + n ==> s[k] != NUL
  }

  lemma TextOfString(s: seq<char>, i: nat, n: nat)
    requires StringAt(s, i, n)
    ensures TextAt(s, i) == s[i..i + n] && |TextAt(s, i)| == n
  {
    assert s[i..][..n] == s[i..i + n];
    StrLenIs(s[i..], n);
  }

  /** `buf[j] = '\0'`. */
  method PutNul(buf: array<char>, j: nat)
    requires j < buf.Length
    modifies buf
    ensures buf[..] == old(buf[..])[j := NUL]
  {
    buf[j] := NUL;
  }

  /** What `snprintf(dst, size, "%s", s)` leaves in `dst`. */
  function Trunc(s: string, size: nat): (t: string)
    requires size >= 1
    ensures |t| < size && t <= s
    ensures |s| < size ==> t == s
  {
    if |s| < size then s else s[..size - 1]
  }

  /** `isspace` in the C locale. */
  predicate IsSpace(c: char) { c == ' ' || '\t' <= c <= '\r' }

  lemma SpaceCodes(c: char)
    ensures IsSpace(c) <==> c as int in [9, 10, 11, 12, 13, 32]
  {
  }

  function LStrip(s: string): string { if s != "" && IsSpace(s[0]) then LStrip(s[1..]) else s }

  function RStrip(s: string): string {
    if s != "" && IsSpace(s[|s| - 1]) then RStrip(s[..|s| - 1]) else s
  }

  /** `trim`: whitespace removed at both ends. */
  function Strip(s: string): string { RStrip(LStrip(s)) }

  predicate IsDigit(c: char) { '0' <= c <= '9' }

  /** The parts with one space between neighbours. */
  function Join(parts: seq<string>): string {
    if parts == [] then ""
    else if |parts| == 1 then parts[0]
    else Join(parts[..|parts| - 1]) + " " + parts[|parts| - 1]
  }

  function NonEmpty(parts: seq<string>): seq<string> {
    if parts == [] then []
    else
      var last := parts[|parts| - 1];
      NonEmpty(parts[..|parts| - 1]) + if last == "" then [] else [last]
  }
}
