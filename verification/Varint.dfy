/** Unsigned varints as multiaddrs use them: seven bits to a byte, low bits first, in their shortest form. */
module Varint {
  import opened Basics

  type Byte = b: int | 0 <= b < 256

  const MAX_CODE := 0x7fff_ffff

  /** A number read off the front of a byte string and how many bytes it took. */
  datatype Read = Read(value: nat, length: nat)

  function Encode(n: nat): (b: seq<Byte>)
    ensures b != []
  {
    if n < 128 then [n] else [n % 128 + 128] + Encode(n / 128)
  }

  /** FromUvarint with `i` bytes read already: at most nine bytes, and no zero byte at the end of a longer form. */
  function DecodeFrom(b: seq<Byte>, i: nat): (r: Option<Read>)
    ensures r.Some? ==> 0 < r.value.length <= |b|
  {
    if b == [] || i >= 9 || (i == 8 && b[0] >= 128) then None
    else if b[0] < 128 then
      if b[0] == 0 && i > 0 then None else Some(Read(b[0], 1))
    else
      match DecodeFrom(b[1..], i + 1)
      case None => None
      case Some(r) => Some(Read(b[0] - 128 + 128 * r.value, r.length + 1))
  }

  /** ReadVarintCode: numbers beyond 31 bits are refused. */
  function ReadCode(b: seq<Byte>): (r: Option<Read>)
    ensures r.Some? ==> 0 < r.value.length <= |b| && r.value.value <= MAX_CODE
  {
    match DecodeFrom(b, 0)
    case None => None
    case Some(r) => if r.value > MAX_CODE then None else Some(r)
  }

  /** What was read is the shortest encoding of the number read. */
  lemma {:induction false} DecodedIsEncoding(b: seq<Byte>, i: nat)
    requires DecodeFrom(b, i).Some?
    ensures var r := DecodeFrom(b, i).value; b[..r.length] == Encode(r.value) && (i > 0 ==> r.value > 0)
  {
    if b[0] >= 128 {
      var r := DecodeFrom(b[1..], i + 1).value;
      DecodedIsEncoding(b[1..], i + 1);
      var v := b[0] - 128 + 128 * r.value;
      assert v / 128 == r.value && v % 128 == b[0] - 128;
      assert b[..r.length + 1] == [b[0]] + b[1..][..r.length];
    }
  }

  /** Reading an encoding gives the number back, whatever follows, if there is room for it in nine bytes. */
  lemma {:induction false} EncodingDecodes(n: nat, i: nat, rest: seq<Byte>)
    requires i + |Encode(n)| <= 9 && (i > 0 ==> n > 0)
    ensures DecodeFrom(Encode(n) + rest, i) == Some(Read(n, |Encode(n)|))
  {
    var b := Encode(n) + rest;
    if n >= 128 {
      assert b[1..] == Encode(n / 128) + rest;
      EncodingDecodes(n / 128, i + 1, rest);
    }
  }

  lemma {:induction false} EncodingLength(n: nat, m: nat)
    requires n <= m
    ensures |Encode(n)| <= |Encode(m)|
  {
    if n >= 128 { EncodingLength(n / 128, m / 128); }
  }

  lemma CodeLength(n: nat)
    requires n <= MAX_CODE
    ensures |Encode(n)| <= 5
  {
    EncodingLength(n, MAX_CODE);
    assert Encode(MAX_CODE) == [255] + Encode(0xff_ffff);
    assert Encode(0xff_ffff) == [255] + Encode(0x1_ffff);
    assert Encode(0x1_ffff) == [255] + Encode(0x3ff);
    assert Encode(0x3ff) == [255] + Encode(7);
  }

  /** Whatever is read off the front of an encoding is the number encoded. */
  lemma {:induction false} DecodedIsEncoded(n: nat, i: nat, rest: seq<Byte>)
    requires DecodeFrom(Encode(n) + rest, i).Some?
    ensures DecodeFrom(Encode(n) + rest, i).value.value == n
  {
    if n >= 128 {
      assert (Encode(n) + rest)[1..] == Encode(n / 128) + rest;
      DecodedIsEncoded(n / 128, i + 1, rest);
    }
  }

  /** Codes read back from their encoding, whatever follows, if they fit 31 bits; and are refused if they do not. */
  lemma CodeRoundTrip(n: nat, rest: seq<Byte>)
    ensures ReadCode(Encode(n) + rest) == if n <= MAX_CODE then Some(Read(n, |Encode(n)|)) else None
  {
    if n <= MAX_CODE {
      CodeLength(n);
      EncodingDecodes(n, 0, rest);
    } else if DecodeFrom(Encode(n) + rest, 0).Some? {
      DecodedIsEncoded(n, 0, rest);
    }
  }

  lemma CodeReadIsEncoding(b: seq<Byte>)
    ensures ReadCode(b).Some? ==> b[..ReadCode(b).value.length] == Encode(ReadCode(b).value.value)
  {
    if ReadCode(b).Some? { DecodedIsEncoding(b, 0); }
  }

  /** CodeToVarint: encodes a code of at most 31 bits. */
  function CodeToVarint(n: int): (r: Option<seq<Byte>>)
    ensures r.Some? <==> 0 <= n <= MAX_CODE
    ensures r.Some? ==> ReadCode(r.value) == Some(Read(n, |r.value|))
  {
    if n < 0 || n > MAX_CODE then None else
      CodeRoundTrip(n, []);
      assert Encode(n) + [] == Encode(n);
      Some(Encode(n))
  }
}
