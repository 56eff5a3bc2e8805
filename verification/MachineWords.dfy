/** Machine words: bytes, 32-bit numbers in two's complement, and their byte orders. */
module MachineWords {

  type byte = x: int | 0 <= x < 256

  const TWO_32: nat := 0x1_0000_0000

  type i32 = n: int | IsI32(n)

  predicate IsI32(n: int) { -0x8000_0000 <= n < 0x8000_0000 }

  /** Wrap-around of a 32-bit `int`. */
  function Wrap32(x: int): (y: int)
    ensures IsI32(y)
  {
    (x + 0x8000_0000) % TWO_32 - 0x8000_0000
  }

  /** Two's complement of a 32-bit number, and back. */
  function ToU32(n: int): (u: nat)
    requires IsI32(n)
    ensures u < TWO_32
  {
    if n < 0 then n + TWO_32 else n
  }

  function ToI32(u: nat): (n: int)
    requires u < TWO_32
    ensures IsI32(n)
  {
    if u >= 0x8000_0000 then u - TWO_32 else u
  }

  /** Big-endian bytes of a word. */
  function Be32(n: nat): (b: seq<byte>)
    requires n < TWO_32
    ensures |b| == 4
  {
    var (high, mid) := (n / 0x100 / 0x100, n / 0x100);
    [high / 0x100, high % 0x100, mid % 0x100, n % 0x100]
  }

  function FromBe32(b: seq<byte>): (n: nat)
    requires |b| == 4
    ensures n < TWO_32
  {
    (((b[0] as int) * 0x100 + b[1]) * 0x100 + b[2]) * 0x100 + b[3]
  }

  lemma Be32IsReadBack(n: nat)
    requires n < TWO_32
    ensures FromBe32(Be32(n)) == n
  {
  }

  lemma Be32OfWord(b: seq<byte>)
    requires |b| == 4
    ensures Be32(FromBe32(b)) == b
  {
    var n := FromBe32(b);
    assert n % 0x100 == b[3] && n / 0x100 == ((b[0] as int) * 0x100 + b[1]) * 0x100 + b[2];
    assert n / 0x100 % 0x100 == b[2] && n / 0x100 / 0x100 == (b[0] as int) * 0x100 + b[1];
  }

  /** Little-endian bytes of a word. */
  function Le32(n: nat): (b: seq<byte>)
    requires n < TWO_32
    ensures |b| == 4
  {
    var b := Be32(n);
    [b[3], b[2], b[1], b[0]]
  }

  function FromLe32(b: seq<byte>): (n: nat)
    requires |b| == 4
    ensures n < TWO_32
  {
    FromBe32([b[3], b[2], b[1], b[0]])
  }

  /** The most significant byte comes first, or last. */
  lemma ByteOrder(a: byte, b: byte, c: byte, d: byte)
    ensures var n := ((a as int * 256 + b) * 256 + c) * 256 + d;
            0 <= n < 0x1_0000_0000 && Be32(n) == [a, b, c, d] && Le32(n) == [d, c, b, a]
  {
    Be32OfWord([a, b, c, d]);
  }

  /** The unsigned number is the signed one modulo 2^32. */
  lemma ModuloTwo32(n: int)
    requires IsI32(n)
    ensures ToU32(n) == n % 0x1_0000_0000 && ToI32(ToU32(n)) == n
  {
  }

  /** Wrapping keeps numbers modulo 2^32. */
  lemma WrapKeepsModulo(n: int)
    ensures (Wrap32(n) - n) % 0x1_0000_0000 == 0
  {
    var q := (n + 0x8000_0000) / 0x1_0000_0000;
    assert Wrap32(n) == n - q * 0x1_0000_0000;
    assert (-q * 0x1_0000_0000) % 0x1_0000_0000 == 0;
  }

  lemma Le32IsReadBack(n: nat)
    requires n < TWO_32
    ensures FromLe32(Le32(n)) == n
  {
    var (b, l) := (Be32(n), Le32(n));
    assert [l[3], l[2], l[1], l[0]] == b;
    Be32IsReadBack(n);
  }
}
