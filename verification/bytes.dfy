/** Fixed-width integers and the big-endian 32-bit encoding that PNG uses for
    chunk lengths and CRCs (`u32::to_be_bytes` / `u32::from_be_bytes`). */
module Bytes {

  type u8 = x: int | 0 <= x < 0x100

  const U32_LIMIT: int := 0x1_0000_0000

  type u32 = x: int | 0 <= x < U32_LIMIT

  /** Four bytes, most significant first. */
  function ToBE32(x: u32): (b: seq<u8>)
    ensures |b| == 4
  {
    [x / 0x100_0000, (x / 0x1_0000) % 0x100, (x / 0x100) % 0x100, x % 0x100]
  }

  /** The number whose big-endian bytes are `b`. */
  function FromBE32(b: seq<u8>): (x: u32)
    requires |b| == 4
  {
    (b[0] as int) * 0x100_0000 + (b[1] as int) * 0x1_0000 + (b[2] as int) * 0x100 + b[3]
  }

  /** Decoding undoes encoding. */
  lemma FromToBE32(x: u32)
    ensures FromBE32(ToBE32(x)) == x
  {
    var b := ToBE32(x);
    var q := x / 0x100;
    assert x == q * 0x100 + b[3];
    var q2 := q / 0x100;
    assert q == q2 * 0x100 + b[2];
    assert q2 == x / 0x1_0000;
    var q3 := q2 / 0x100;
    assert q2 == q3 * 0x100 + b[1];
    assert q3 == x / 0x100_0000;
  }

  /** Four bytes are determined by the number they decode to. */
  lemma FromBE32Injective(b: seq<u8>, c: seq<u8>)
    requires |b| == 4 && |c| == 4 && FromBE32(b) == FromBE32(c)
    ensures b == c
  {
    assert b[0] == c[0];
    assert b[1] == c[1];
    assert b[2] == c[2];
  }

  /** Encoding undoes decoding: every four bytes are the encoding of exactly one u32. */
  lemma ToFromBE32(b: seq<u8>)
    requires |b| == 4
    ensures ToBE32(FromBE32(b)) == b
  {
    FromToBE32(FromBE32(b));
    FromBE32Injective(ToBE32(FromBE32(b)), b);
  }
}
