/** The CRC-32 of ISO 3309 as PNG uses it (section 3.4 of the PNG Specification,
    version 1.2): reflected polynomial 0xEDB88320, register preset to all ones,
    bytes fed least significant bit first, final complement.

    `Checksum` is the specification over a whole message.  `Hasher` models the
    incremental `crc32fast::Hasher` interface the crate drives (`new`, `update`,
    `finalize`); its table-driven internals are not modelled, only the result
    they compute. */
module Crc32 {
  import opened Bytes

  const POLYNOMIAL: bv32 := 0xEDB8_8320
  const ALL_ONES: bv32 := 0xFFFF_FFFF

  /** Bit `i` (0 = least significant) of a byte. */
  function BitOf(b: u8, i: nat): bool
    decreases i
  {
    if i == 0 then b % 2 == 1 else BitOf(b / 2, i - 1)
  }

  /** The shift register after feeding `bytes`, each byte least significant
      bit first, starting at bit `bit` of the first byte: the register shifts
      right and the polynomial is folded in whenever the bit falling out
      differs from the message bit. */
  function Register(reg: bv32, bytes: seq<u8>, bit: nat): bv32
    requires bit <= 8
    decreases |bytes|, 8 - bit
  {
    if bytes == [] then reg
    else if bit == 8 then Register(reg, bytes[1..], 0)
    else
      var feedback := (reg & 1 == 1) != BitOf(bytes[0], bit);
      var shifted := reg >> 1;
      Register(if feedback then shifted ^ POLYNOMIAL else shifted, bytes, bit + 1)
  }

  /** The unsigned value of a register. */
  function ToU32(x: bv32): u32 {
    x as int
  }

  /** Only the zero register has the value 0. */
  lemma ToU32Zero(x: bv32)
    ensures ToU32(x) == 0 <==> x == 0
  {
    if x != 0 {
      assert x as int > 0;
    }
  }

  /** CRC-32 of a whole message. */
  function Checksum(message: seq<u8>): (c: u32)
  {
    ToU32(Register(ALL_ONES, message, 0) ^ ALL_ONES)
  }

  /** Feeding a message in two pieces leaves the register where feeding it at once would. */
  lemma {:induction false} RegisterConcat(reg: bv32, a: seq<u8>, b: seq<u8>, bit: nat)
    requires bit <= 8 && (a != [] || bit == 0)
    ensures Register(Register(reg, a, bit), b, 0) == Register(reg, a + b, bit)
    decreases |a|, 8 - bit
  {
    if a == [] {
      assert a + b == b;
    } else if bit == 8 {
      if a[1..] != [] {
        RegisterConcat(reg, a[1..], b, 0);
      } else {
        assert a[1..] + b == b;
      }
      assert (a + b)[1..] == a[1..] + b;
    } else {
      var feedback := (reg & 1 == 1) != BitOf(a[0], bit);
      var shifted := reg >> 1;
      RegisterConcat(if feedback then shifted ^ POLYNOMIAL else shifted, a, b, bit + 1);
      assert (a + b)[0] == a[0];
    }
  }

  /** The incremental hasher: its state is the shift register. */
  datatype Hasher = Hasher(state: bv32) {
    /** A fresh hasher: finalizing it at once gives the CRC of no bytes, 0. */
    static function New(): (h: Hasher)
      ensures h.Finalize() == 0
    {
      Hasher(ALL_ONES)
    }

    /** Feeding bytes; a fresh hasher fed `bytes` finalizes to their CRC. */
    function Update(bytes: seq<u8>): (h: Hasher)
      ensures this == New() ==> h.Finalize() == Checksum(bytes)
      ensures bytes == [] ==> h == this
    {
      Hasher(Register(state, bytes, 0))
    }

    /** The final complement: the result is 0 exactly when the register holds all ones. */
    function Finalize(): (r: u32)
      ensures r == 0 <==> state == ALL_ONES
    {
      var x := state ^ ALL_ONES;
      assert x == 0 <==> state == ALL_ONES;
      ToU32Zero(x);
      ToU32(x)
    }
  }

  /** Two `update` calls followed by `finalize` give the CRC of the concatenation:
      this is how a chunk's CRC over type code and data is computed. */
  lemma HasherChecksum(a: seq<u8>, b: seq<u8>)
    ensures Hasher.New().Update(a).Update(b).Finalize() == Checksum(a + b)
  {
    if a != [] {
      RegisterConcat(ALL_ONES, a, b, 0);
    } else {
      assert a + b == b;
    }
  }
}
