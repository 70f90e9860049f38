/** UTF-8 as `TextEncoder` writes it (RFC 3629, section 3). */
module Utf8 {
  import opened Bytes

  /** A Unicode scalar value: a code point that is no surrogate. */
  type Scalar = c: int | 0 <= c < 0x11_0000 && !(0xd800 <= c < 0xe000)

  function EncodeScalar(c: Scalar): Bytes {
    if c < 0x80 then [c]
    else if c < 0x800 then [0xc0 + c / 0x40, 0x80 + c % 0x40]
    else if c < 0x1_0000 then [0xe0 + c / 0x1000, 0x80 + c / 0x40 % 0x40, 0x80 + c % 0x40]
    else [0xf0 + c / 0x4_0000, 0x80 + c / 0x1000 % 0x40, 0x80 + c / 0x40 % 0x40, 0x80 + c % 0x40]
  }

  function Encode(text: seq<Scalar>): Bytes {
    if text == [] then [] else EncodeScalar(text[0]) + Encode(text[1..])
  }

  /** How many bytes the first byte announces. */
  function Announced(b: Byte): nat {
    if b < 0x80 then 1 else if b < 0xe0 then 2 else if b < 0xf0 then 3 else 4
  }

  /** The value that bytes of the announced number stand for. */
  function ValueOf(bytes: Bytes): int
    requires bytes != [] && |bytes| == Announced(bytes[0])
  {
    var first: int := bytes[0];
    if |bytes| == 1 then first
    else if |bytes| == 2 then (first - 0xc0) * 0x40 + Low(bytes[1])
    else if |bytes| == 3 then (first - 0xe0) * 0x1000 + Low(bytes[1]) * 0x40 + Low(bytes[2])
    else (first - 0xf0) * 0x4_0000 + Low(bytes[1]) * 0x1000 + Low(bytes[2]) * 0x40 + Low(bytes[3])
  }

  /** What a byte after the first contributes. */
  function Low(b: int): int {
    b - 0x80
  }

  /** The first byte tells how many bytes a scalar takes, and these bytes tell the scalar. */
  lemma ScalarReadsBack(c: Scalar)
    ensures var bytes := EncodeScalar(c);
            bytes != [] && |bytes| == Announced(bytes[0]) && ValueOf(bytes) == c
  {
    assert c == c / 0x40 * 0x40 + c % 0x40;
    assert c / 0x40 == c / 0x1000 * 0x40 + c / 0x40 % 0x40;
    assert c / 0x1000 == c / 0x4_0000 * 0x40 + c / 0x1000 % 0x40;
  }

  /** Different texts are different bytes. */
  lemma {:induction false} EncodeIsInjective(a: seq<Scalar>, b: seq<Scalar>)
    requires Encode(a) == Encode(b)
    ensures a == b
  {
    if a == [] || b == [] {
      if a != [] {
        ScalarReadsBack(a[0]);
      }
      if b != [] {
        ScalarReadsBack(b[0]);
      }
    } else {
      ScalarReadsBack(a[0]);
      ScalarReadsBack(b[0]);
      var bytes := Encode(a);
      assert bytes[0] == EncodeScalar(a[0])[0] == EncodeScalar(b[0])[0];
      var n := Announced(bytes[0]);
      assert bytes[..n] == EncodeScalar(a[0]) == EncodeScalar(b[0]);
      assert bytes[n..] == Encode(a[1..]) == Encode(b[1..]);
      EncodeIsInjective(a[1..], b[1..]);
      assert a == [a[0]] + a[1..];
      assert b == [b[0]] + b[1..];
    }
  }
}
