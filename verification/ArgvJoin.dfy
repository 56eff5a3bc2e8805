/** The argument line of an exec event, built in place in a bounded buffer (proc.c). */
module ArgvJoin {
  import opened CStrings

  // ----- the line of the first arguments

  lemma JoinOneMore(parts: seq<string>, last: string)
    ensures Join(parts + [last]) == if parts == [] then last else Join(parts) + " " + last
  {
    assert (parts + [last])[..|parts|] == parts;
  }

  lemma {:induction false} NonEmptyParts(args: seq<string>)
    ensures forall i :: 0 <= i < |NonEmpty(args)| ==> NonEmpty(args)[i] != ""
    ensures NonEmpty(args) != [] ==> Join(NonEmpty(args)) != ""
  {
    if args != [] {
      var front := args[..|args| - 1];
      NonEmptyParts(front);
      JoinOneMore(NonEmpty(front), args[|args| - 1]);
    }
  }

  lemma {:induction false} JoinHasNoNul(parts: seq<string>)
    requires forall i :: 0 <= i < |parts| ==> NoNul(parts[i])
    ensures NoNul(Join(parts))
  {
    if |parts| > 1 { JoinHasNoNul(parts[..|parts| - 1]); }
  }

  lemma {:induction false} NonEmptyHasNoNul(args: seq<string>)
    requires forall i :: 0 <= i < |args| ==> NoNul(args[i])
    ensures forall i :: 0 <= i < |NonEmpty(args)| ==> NoNul(NonEmpty(args)[i])
  {
    if args != [] { NonEmptyHasNoNul(args[..|args| - 1]); }
  }

  /** The line of the first `i` arguments, and what one more argument adds to a line. */
  function Line(args: seq<string>, i: nat): string
    requires i <= |args|
  {
    Join(NonEmpty(args[..i]))
  }

  function Piece(offset: nat, arg: string): string {
    if arg == "" then "" else if offset > 0 then " " + arg else arg
  }

  lemma LineStep(args: seq<string>, i: nat)
    requires i < |args|
    ensures Line(args, i + 1) == Line(args, i) + Piece(|Line(args, i)|, args[i])
  {
    assert args[..i + 1][..i] == args[..i];
    NonEmptyParts(args[..i]);
    if args[i] != "" { JoinOneMore(NonEmpty(args[..i]), args[i]); }
    assert NonEmpty(args[..i]) + [] == NonEmpty(args[..i]);
  }

  lemma {:induction false} LineGrows(args: seq<string>, i: nat)
    requires i <= |args|
    ensures Line(args, i) <= Join(NonEmpty(args))
    decreases |args| - i
  {
    if i < |args| {
      LineStep(args, i);
      LineGrows(args, i + 1);
    } else {
      assert args[..i] == args;
    }
  }

  /** `piece` stands in `line` at `at`. */
  ghost predicate StandsAt(line: string, at: nat, piece: string) {
    at + |piece| <= |line| && forall j :: 0 <= j < |piece| ==> line[at + j] == piece[j]
  }

  /** The pieces of the arguments tile the line: piece `i` stands between `stops[i]` and
      `stops[i + 1]`. */
  ghost predicate Tiles(args: seq<string>, line: string, stops: seq<nat>) {
    && |stops| == |args| + 1 && stops[0] == 0 && stops[|args|] == |line|
    && forall i :: 0 <= i < |args| ==>
         StandsAt(line, stops[i], Piece(stops[i], args[i])) &&
         stops[i + 1] == stops[i] + |Piece(stops[i], args[i])|
  }

  lemma SuffixStands(before: string, piece: string, line: string)
    requires before + piece <= line
    ensures StandsAt(line, |before|, piece)
  {
    forall j | 0 <= j < |piece| ensures line[|before| + j] == piece[j] {
      assert (before + piece)[|before| + j] == piece[j];
    }
  }

  lemma PieceStands(args: seq<string>, i: nat)
    requires i < |args|
    ensures var at, piece := |Line(args, i)|, Piece(|Line(args, i)|, args[i]);
            StandsAt(Join(NonEmpty(args)), at, piece) && |Line(args, i + 1)| == at + |piece|
  {
    LineStep(args, i);
    LineGrows(args, i + 1);
    SuffixStands(Line(args, i), Piece(|Line(args, i)|, args[i]), Join(NonEmpty(args)));
  }

  lemma PiecesTileTheLine(args: seq<string>) returns (stops: seq<nat>)
    ensures Tiles(args, Join(NonEmpty(args)), stops)
  {
    stops := seq(|args| + 1, i requires 0 <= i <= |args| => |Line(args, i)|);
    forall i | 0 <= i < |args|
      ensures StandsAt(Join(NonEmpty(args)), stops[i], Piece(stops[i], args[i]))
      ensures stops[i + 1] == stops[i] + |Piece(stops[i], args[i])|
    {
      PieceStands(args, i);
    }
    assert args[..|args|] == args;
  }

  /** An argument is kept exactly when it is not empty, and the others keep their order. */
  lemma {:induction false} KeepsTheNonEmpty(a: seq<string>, x: string, b: seq<string>)
    ensures NonEmpty(a + [x] + b) == NonEmpty(a) + (if x == "" then [] else [x]) + NonEmpty(b)
  {
    if b == [] {
      assert a + [x] + b == a + [x] && (a + [x])[..|a|] == a;
      assert NonEmpty(a) + (if x == "" then [] else [x]) + [] == NonEmpty(a) + if x == "" then [] else [x];
    } else {
      var front, last := b[..|b| - 1], b[|b| - 1];
      var all := a + [x] + b;
      assert all[..|all| - 1] == a + [x] + front && all[|all| - 1] == last;
      KeepsTheNonEmpty(a, x, front);
      var kept := if x == "" then [] else [x];
      var more := if last == "" then [] else [last];
      assert NonEmpty(a) + kept + NonEmpty(front) + more == NonEmpty(a) + kept + (NonEmpty(front) + more);
    }
  }

  // ----- the buffer

  /** The buffer holds the first `n` characters of the line, and a NUL behind them. */
  ghost predicate HoldsStart(s: seq<char>, line: string, n: nat) {
    n < |s| && n <= |line| && s[n] == NUL && forall j :: 0 <= j < n ==> s[j] == line[j]
  }

  /** `after` is `before` with what fits of the text, and a NUL, put at `offset`. */
  ghost predicate Printed(before: seq<char>, after: seq<char>, offset: nat, text: string) {
    && offset < |before| == |after|
    && var t := Trunc(text, |before| - offset);
    && (forall j :: 0 <= j < offset ==> after[j] == before[j])
    && (forall j :: 0 <= j < |t| ==> after[offset + j] == t[j])
    && after[offset + |t|] == NUL
  }

  lemma PrintedPiece(before: seq<char>, after: seq<char>, offset: nat, piece: string, line: string)
    requires HoldsStart(before, line, offset) && Printed(before, after, offset, piece)
    requires StandsAt(line, offset, piece)
    ensures |piece| < |before| - offset ==> HoldsStart(after, line, offset + |piece|)
    ensures |piece| >= |before| - offset ==> HoldsStart(after, line, |after| - 1) && after[|after| - 1] == NUL
  {
    var t := Trunc(piece, |before| - offset);
    forall j | 0 <= j < offset + |t| ensures after[j] == line[j] {
      if j >= offset { assert after[offset + (j - offset)] == t[j - offset]; }
    }
  }

  /** A line held up to its end or up to the last byte is its cut to the buffer. */
  lemma HeldCut(s: seq<char>, line: string, n: nat)
    requires HoldsStart(s, line, n) && NoNul(line) && (n == |line| || n == |s| - 1)
    ensures CStr(s) == Trunc(line, |s|) && StrLen(s) == n
  {
    assert s[..n] == line[..n];
    StrLenIs(s, n);
  }

  /** `snprintf(buf + offset, size - offset, "%s", text)`: returns the length of the
      whole text, also when only a part of it fits. */
  method Snprintf(buf: array<char>, offset: nat, text: string) returns (written: nat)
    requires offset < buf.Length
    modifies buf
    ensures written == |text|
    ensures Printed(old(buf[..]), buf[..], offset, text)
  {
    var t := Trunc(text, buf.Length - offset);
    for k := 0 to |t|
      invariant forall j :: 0 <= j < buf.Length && !(offset <= j < offset + k) ==> buf[j] == old(buf[j])
      invariant forall j :: 0 <= j < k ==> buf[offset + j] == t[j]
    {
      buf[offset + k] := t[k];
    }
    buf[offset + |t|] := NUL;
    written := |text|;
  }

  /** The last byte is set to NUL, which a full buffer already ends with. */
  method Terminate(buf: array<char>)
    requires buf.Length >= 1 && buf[buf.Length - 1] == NUL
    modifies buf
    ensures buf[..] == old(buf[..])
  {
    buf[buf.Length - 1] := NUL;
  }

  /** One round of the loop: appends an argument, or fills the buffer up. */
  method AppendArg(arg: string, buf: array<char>, offset: nat, ghost line: string) returns (next: nat, full: bool)
    requires HoldsStart(buf[..], line, offset) && StandsAt(line, offset, Piece(offset, arg))
    modifies buf
    ensures !full ==> next == offset + |Piece(offset, arg)| && HoldsStart(buf[..], line, next)
    ensures full ==> HoldsStart(buf[..], line, buf.Length - 1)
  {
    if arg == "" { return offset, false; }
    var piece := if offset > 0 then " " + arg else arg;
    var written := Snprintf(buf, offset, piece);
    PrintedPiece(old(buf[..]), buf[..], offset, piece, line);
    if written >= buf.Length - offset {
      Terminate(buf);
      return offset, true;
    }
    return offset + written, false;
  }

  /** The buffer ends up as a C string: the space-separated line of the non-empty
      arguments, cut to the buffer. An empty buffer is left alone. */
  method JoinEventArgv(args: seq<string>, buf: array<char>)
    requires forall i :: 0 <= i < |args| ==> NoNul(args[i])
    modifies buf
    ensures buf.Length >= 1 ==> CStr(buf[..]) == Trunc(Join(NonEmpty(args)), buf.Length)
    ensures buf.Length >= 1 ==> StrLen(buf[..]) < buf.Length
  {
    var offset: nat := 0;
    if buf.Length == 0 { return; }
    buf[0] := NUL;
    ghost var line := Join(NonEmpty(args));
    NonEmptyHasNoNul(args);
    JoinHasNoNul(NonEmpty(args));
    ghost var stops := PiecesTileTheLine(args);
    for i := 0 to |args|
      invariant offset == stops[i] && HoldsStart(buf[..], line, offset)
    {
      assert StandsAt(line, offset, Piece(offset, args[i]));
      var full: bool;
      offset, full := AppendArg(args[i], buf, offset, line);
      if full {
        HeldCut(buf[..], line, buf.Length - 1);
        return;
      }
    }
    HeldCut(buf[..], line, offset);
  }
}
