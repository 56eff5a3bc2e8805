/** Decimal text of numbers, as `%d` and `%lu` print it. */
module Decimals {
  import opened CStrings
  import opened MachineWords

  function Digit(d: nat): (c: char)
    requires d < 10
    ensures IsDigit(c)
  {
    ('0' as int + d) as char
  }

  function DigitValue(c: char): (d: nat)
    requires IsDigit(c)
    ensures d < 10
  {
    c as int - '0' as int
  }

  predicate AllDigits(s: string) { forall i :: 0 <= i < |s| ==> IsDigit(s[i]) }

  function Decimal(n: nat): string {
    if n < 10 then [Digit(n)] else Decimal(n / 10) + [Digit(n % 10)]
  }

  function Value(s: string): nat
    requires AllDigits(s)
  {
    if s == "" then 0 else 10 * Value(s[..|s| - 1]) + DigitValue(s[|s| - 1])
  }

  lemma {:induction false} ValueOfDecimal(n: nat)
    ensures Decimal(n) != "" && AllDigits(Decimal(n)) && Value(Decimal(n)) == n
  {
    if n >= 10 {
      ValueOfDecimal(n / 10);
      var s := Decimal(n);
      assert s[..|s| - 1] == Decimal(n / 10);
    }
  }

  /** The digits, and which of two comes first. */
  lemma DigitsAre(d: nat, e: nat)
    requires d < 10 && 0 < e < 10
    ensures Decimal(10 * e + d) == [Digit(e), Digit(d)]
    ensures [Digit(0), Digit(1), Digit(2), Digit(3), Digit(4)] == ['0', '1', '2', '3', '4']
    ensures [Digit(5), Digit(6), Digit(7), Digit(8), Digit(9)] == ['5', '6', '7', '8', '9']
  {
    assert (10 * e + d) / 10 == e && (10 * e + d) % 10 == d;
    assert Decimal(e) == [Digit(e)];
  }

  function Pow10(k: nat): nat { if k == 0 then 1 else 10 * Pow10(k - 1) }

  lemma {:induction false} DecimalLength(n: nat, k: nat)
    requires k >= 1 && n < Pow10(k)
    ensures |Decimal(n)| <= k
  {
    if n >= 10 { DecimalLength(n / 10, k - 1); }
  }

  /** `%d`. */
  function PrintInt(n: int): string { if n < 0 then "-" + Decimal(-n) else Decimal(n) }

  /** How many digits a text begins with. */
  function DigitsLen(s: string): (n: nat)
    ensures n <= |s| && AllDigits(s[..n]) && (n < |s| ==> !IsDigit(s[n]))
  {
    if s == "" || !IsDigit(s[0]) then 0
    else
      var n := DigitsLen(s[1..]);
      assert forall k :: 0 < k < n + 1 ==> s[k] == s[1..][..n][k - 1];
      n + 1
  }

  /** The text is a number: a sign or none, and digits. */
  predicate IsNumber(s: string, sign: string, digits: string) {
    s == sign + digits && sign in ["", "+", "-"] && digits != "" && AllDigits(digits)
  }

  function Signed(sign: string, v: nat): int { if sign == "-" then -(v as int) else v }

  const LONG_MAX: int := 0x7FFF_FFFF_FFFF_FFFF

  /** What `strtol` makes of a number: it stops at the limits of a 64-bit `long`. */
  function Clamped(v: int): int { if v > LONG_MAX then LONG_MAX else if v < -LONG_MAX - 1 then -LONG_MAX - 1 else v }

  /** `atoi`: `strtol`, cast to `int`. */
  function Atoi(s: string): (n: int)
    ensures IsI32(n)
  {
    var t := LStrip(s);
    var signed := t != "" && (t[0] == '-' || t[0] == '+');
    var digits := if signed then t[1..] else t;
    var v: int := Value(digits[..DigitsLen(digits)]);
    Wrap32(Clamped(if signed && t[0] == '-' then -v else v))
  }

  lemma WrapOfI32(n: int)
    requires IsI32(n)
    ensures Wrap32(n) == n
  {
  }

  /** A printed number is read back. */
  lemma AtoiOfPrinted(n: int)
    requires IsI32(n)
    ensures Atoi(PrintInt(n)) == n
  {
    var v: nat := if n < 0 then -n else n;
    var d := Decimal(v);
    ValueOfDecimal(v);
    assert IsDigit(d[0]) && DigitsLen(d) == |d| && d[..|d|] == d;
    var s := PrintInt(n);
    assert LStrip(s) == s;
    if n < 0 { assert s[1..] == d; }
    WrapOfI32(n);
  }

  lemma AtoiBehindSign(s: string, sign: string, u: string)
    requires LStrip(s) == sign + u && sign in ["", "+", "-"]
    requires sign == "" && u != "" ==> u[0] != '+' && u[0] != '-'
    ensures Atoi(s) == Wrap32(Clamped(Signed(sign, Value(u[..DigitsLen(u)]))))
  {
    var t := LStrip(s);
    if sign == "" {
      assert t == u;
    } else {
      assert t[0] == sign[0] && t[1..] == u;
    }
  }

  lemma {:induction false} DigitsLenIs(digits: string, rest: string)
    requires AllDigits(digits) && (rest != "" ==> !IsDigit(rest[0]))
    ensures DigitsLen(digits + rest) == |digits| && (digits + rest)[..|digits|] == digits
  {
    if digits == "" {
      assert digits + rest == rest;
    } else {
      assert (digits + rest)[1..] == digits[1..] + rest;
      DigitsLenIs(digits[1..], rest);
    }
  }

  /** `atoi` reads a sign or none and the digits behind it, whatever follows: the number as
      a 64-bit `long` holds it, cut to 32 bits; without digits it is 0. */
  lemma AtoiReads(s: string, sign: string, digits: string, rest: string)
    requires LStrip(s) == sign + (digits + rest) && sign in ["", "+", "-"] && AllDigits(digits)
    requires rest != "" ==> !IsDigit(rest[0])
    requires sign == "" && digits == "" && rest != "" ==> rest[0] != '+' && rest[0] != '-'
    ensures var v := Signed(sign, Value(digits));
            Atoi(s) == Wrap32(if v > 0x7FFF_FFFF_FFFF_FFFF then 0x7FFF_FFFF_FFFF_FFFF
                              else if v < -0x8000_0000_0000_0000 then -0x8000_0000_0000_0000
                              else v)
  {
    var u := digits + rest;
    if digits != "" { assert u[0] == digits[0]; } else { assert u == rest; }
    DigitsLenIs(digits, rest);
    AtoiBehindSign(s, sign, u);
  }
}
