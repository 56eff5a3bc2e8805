/** Response codes and bodies on their way from a worker to the CLI: decimal text on the
    queue, then big-endian frames on the server's socket. */
module ResponseCodec {
  import opened CStrings
  import opened Decimals
  import opened MachineWords

  const RESPONSE_SIZE: nat := 16

  // ----- decimal text

  /** The text a worker puts on its response queue. */
  function ResponseText(code: int): string { Trunc(PrintInt(code), RESPONSE_SIZE) }

  /** Rust's `str::parse::<i32>`: an optional sign, at least one digit, nothing else, and
      a value that fits. */
  function ParseI32(s: string): Option<int> {
    if s == "" then None
    else
      var digits := if s[0] == '-' || s[0] == '+' then s[1..] else s;
      if digits == "" || !AllDigits(digits) then None
      else
        var n := if s[0] == '-' then -(Value(digits) as int) else Value(digits);
        if IsI32(n) then Some(n) else None
  }

  /** The code the server takes from a response: 1 when it is no number. */
  function ServerCode(text: string): (code: int)
    ensures IsI32(code)
  {
    match ParseI32(Strip(text)) case Some(n) => n case None => 1
  }

  lemma NumberIsParsed(s: string, sign: string, digits: string)
    requires IsNumber(s, sign, digits)
    ensures var v := Signed(sign, Value(digits));
            ParseI32(s) == if -0x8000_0000 <= v <= 0x7FFF_FFFF then Some(v) else None
  {
    assert IsDigit(digits[0]);
    if sign == "" {
      assert s == digits;
    } else {
      assert s[0] == sign[0] && s[1..] == digits;
    }
  }

  lemma OtherIsNotParsed(s: string)
    requires forall sign, digits :: !IsNumber(s, sign, digits)
    ensures ParseI32(s).None?
  {
    if s != "" {
      assert "" + s == s && !IsNumber(s, "", s);
      assert s == [s[0]] + s[1..] && !IsNumber(s, [s[0]], s[1..]);
    }
  }

  /** The server takes 1 for the code of a response that is no number between space, or none
      of 32 bits, and the number otherwise. */
  lemma ServerCodeExactly(text: string)
    ensures forall sign, digits :: IsNumber(Strip(text), sign, digits) ==>
              var v := Signed(sign, Value(digits));
              ServerCode(text) == if -0x8000_0000 <= v <= 0x7FFF_FFFF then v else 1
    ensures (forall sign, digits :: !IsNumber(Strip(text), sign, digits)) ==> ServerCode(text) == 1
  {
    forall sign, digits | IsNumber(Strip(text), sign, digits)
      ensures var v := Signed(sign, Value(digits));
              ServerCode(text) == if -0x8000_0000 <= v <= 0x7FFF_FFFF then v else 1
    {
      NumberIsParsed(Strip(text), sign, digits);
    }
    if forall sign, digits :: !IsNumber(Strip(text), sign, digits) { OtherIsNotParsed(Strip(text)); }
  }

  lemma CodeTextIsReadBack(code: int)
    requires IsI32(code)
    ensures |PrintInt(code)| < RESPONSE_SIZE
    ensures ServerCode(ResponseText(code)) == code
  {
    var n: nat := if code < 0 then -code else code;
    ValueOfDecimal(n);
    assert Pow10(10) == 10_000_000_000 by {
      assert Pow10(5) == 100_000;
      assert Pow10(10) == 10 * 10 * 10 * 10 * 10 * Pow10(5);
    }
    DecimalLength(n, 10);
    var text := PrintInt(code);
    assert IsDigit(Decimal(n)[0]) && IsDigit(Decimal(n)[|Decimal(n)| - 1]);
    assert text[|text| - 1] == Decimal(n)[|Decimal(n)| - 1];
    assert LStrip(text) == text && RStrip(text) == text;
    if code < 0 { assert text[1..] == Decimal(n); }
  }

  // ----- frames

  /** One direction of a connection: bytes written and not yet read. */
  class Stream {
    var bytes: seq<byte>

    constructor ()
      ensures bytes == []
    {
      bytes := [];
    }

    method WriteAll(b: seq<byte>)
      modifies this
      ensures bytes == old(bytes) + b
    {
      bytes := bytes + b;
    }

    /** `read_exact` for `n` bytes: fails when the stream ends before. */
    method ReadExact(n: nat) returns (r: Option<seq<byte>>)
      modifies this
      ensures match r
              case Some(b) => |b| == n && old(bytes) == b + bytes
              case None => |old(bytes)| < n && bytes == []
    {
      if |bytes| < n {
        bytes := [];
        return None;
      }
      r := Some(bytes[..n]);
      bytes := bytes[n..];
    }
  }

  /** A request: length and body. The length is the 32-bit cast of the real one. */
  function RequestFrame(body: seq<byte>): seq<byte> { Be32(|body| % TWO_32) + body }

  /** A response: code, length and body. */
  function ResponseFrame(code: int, body: seq<byte>): seq<byte>
    requires IsI32(code)
  {
    Be32(ToU32(code)) + RequestFrame(body)
  }

  lemma RequestBytes(body: seq<byte>)
    requires |body| < TWO_32
    ensures RequestFrame(body) == Be32(|body|) + body
  {
  }

  lemma BytesInOrder(c: seq<byte>, n: seq<byte>, body: seq<byte>)
    ensures c + (n + body) == c + n + body
  {
  }

  /** On the wire: the code modulo 2^32, the length of the body, and the body. */
  lemma FrameBytes(code: int, body: seq<byte>)
    requires IsI32(code) && |body| < 0x1_0000_0000
    ensures ResponseFrame(code, body) == Be32(code % 0x1_0000_0000) + Be32(|body|) + body
  {
    ModuloTwo32(code);
    RequestBytes(body);
    BytesInOrder(Be32(ToU32(code)), Be32(|body|), body);
  }

  /** What a reader takes from a frame: the counted bytes, and what it leaves. */
  function ReadCounted(bytes: seq<byte>): Option<(seq<byte>, seq<byte>)> {
    if |bytes| < 4 then None
    else
      var n := FromBe32(bytes[..4]);
      if |bytes| - 4 < n then None else Some((bytes[4..][..n], bytes[4..][n..]))
  }

  function ReadResponse(bytes: seq<byte>): Option<(int, seq<byte>, seq<byte>)> {
    if |bytes| < 4 then None
    else match ReadCounted(bytes[4..])
      case None => None
      case Some((body, rest)) => Some((ToI32(FromBe32(bytes[..4])), body, rest))
  }

  /** Server and CLI write a counted body alike. */
  method WriteCounted(stream: Stream, body: seq<byte>)
    modifies stream
    ensures stream.bytes == old(stream.bytes) + RequestFrame(body)
  {
    stream.WriteAll(Be32(|body| % TWO_32));
    stream.WriteAll(body);
  }

  method ServerReply(stream: Stream, code: int, body: seq<byte>)
    requires IsI32(code)
    modifies stream
    ensures stream.bytes == old(stream.bytes) + ResponseFrame(code, body)
  {
    stream.WriteAll(Be32(ToU32(code)));
    WriteCounted(stream, body);
  }

  method ServerReadRequest(stream: Stream) returns (body: Option<seq<byte>>)
    modifies stream
    ensures body == match ReadCounted(old(stream.bytes)) case Some((b, _)) => Some(b) case None => None
    ensures body.Some? ==> old(stream.bytes) == Be32(|body.value|) + body.value + stream.bytes
  {
    var word := stream.ReadExact(4);
    if word.None? { return None; }
    ghost var all, rest := old(stream.bytes), stream.bytes;
    assert all[..4] == word.value && all[4..] == rest;
    Be32OfWord(word.value);
    body := stream.ReadExact(FromBe32(word.value));
    if body.Some? { assert rest[..|body.value|] == body.value; }
  }

  method CliReadResponse(stream: Stream) returns (r: Option<(int, seq<byte>)>)
    modifies stream
    ensures r == match ReadResponse(old(stream.bytes))
            case Some((code, body, _)) => Some((code, body))
            case None => None
  {
    var word := stream.ReadExact(4);
    if word.None? { return None; }
    ghost var all, afterCode := old(stream.bytes), stream.bytes;
    assert all[..4] == word.value && all[4..] == afterCode;
    var code := ToI32(FromBe32(word.value));
    var length := stream.ReadExact(4);
    if length.None? { return None; }
    ghost var afterLength := stream.bytes;
    assert afterCode[..4] == length.value && afterCode[4..] == afterLength;
    var n := FromBe32(length.value);
    var body: seq<byte> := [];
    if n > 0 {
      var read := stream.ReadExact(n);
      if read.None? { return None; }
      body := read.value;
      assert afterLength[..n] == body;
    }
    return Some((code, body));
  }

  // ----- the whole path

  /** A counted body is read back, with everything behind it left in place, exactly when
      its length fits 32 bits. */
  lemma CountedIsReadBack(body: seq<byte>, rest: seq<byte>)
    ensures ReadCounted(RequestFrame(body) + rest) == Some((body, rest)) <==> |body| < TWO_32
  {
    var n := |body| % TWO_32;
    var bytes := RequestFrame(body) + rest;
    Be32IsReadBack(n);
    assert bytes[..4] == Be32(n);
    assert bytes[4..] == body + rest;
    if |body| < TWO_32 {
      assert (body + rest)[..n] == body && (body + rest)[n..] == rest;
    } else {
      assert |(body + rest)[..n]| == n < |body|;
    }
  }

  /** Whatever text a worker's response holds, the client gets the code the server took from
      it, and every body whose length fits 32 bits, and no other. */
  lemma ServerCodeSurvives(text: string, body: seq<byte>)
    ensures ReadResponse(ResponseFrame(ServerCode(text), body)) == Some((ServerCode(text), body, []))
            <==> |body| < TWO_32
  {
    var code := ServerCode(text);
    Be32IsReadBack(ToU32(code));
    var bytes := ResponseFrame(code, body);
    assert bytes[..4] == Be32(ToU32(code));
    assert bytes[4..] == RequestFrame(body) && RequestFrame(body) + [] == RequestFrame(body);
    CountedIsReadBack(body, []);
  }

  /** Every 32-bit code a worker sends reaches the CLI unchanged, and with it every body
      whose length fits 32 bits, and no other. */
  lemma ResponseSurvives(code: int, body: seq<byte>)
    requires IsI32(code)
    ensures ReadResponse(ResponseFrame(ServerCode(ResponseText(code)), body)) == Some((code, body, []))
            <==> |body| < TWO_32
  {
    CodeTextIsReadBack(code);
    ServerCodeSurvives(ResponseText(code), body);
  }
}
