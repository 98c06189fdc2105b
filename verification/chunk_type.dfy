/** The four-byte chunk type code (section 3.3 of the PNG Specification,
    version 1.2) and its two constructors of different strength: from four
    bytes (full validity) and from a string (alphabetic only). */
module ChunkTypes {
  import opened Bytes
  import opened Errors

  type Bytes4 = s: seq<u8> | |s| == 4 witness [0, 0, 0, 0]

  predicate IsAsciiUppercase(b: u8) { 65 <= b <= 90 }

  predicate IsAsciiLowercase(b: u8) { 97 <= b <= 122 }

  predicate IsAsciiAlphabetic(b: u8) { IsAsciiUppercase(b) || IsAsciiLowercase(b) }

  /** Bit 5 (value 32) of a byte: the property bit of each type-code byte. */
  predicate Bit5(b: u8) {
    (b / 32) % 2 == 1
  }

  /** Bytes in the order critical, public/private, reserved, safe-to-copy.
      For a letter, upper case means bit 5 clear, so each flag below is the
      property bit of its byte (`PropertyBits`). */
  datatype ChunkType = ChunkType(inner: Bytes4) {

    /** The stored bytes, by value: a type rebuilt from them equals this one. */
    function Bytes(): (b: Bytes4)
      ensures ChunkType(b) == this
    {
      inner
    }

    /** All four bytes are letters and the reserved bit is clear. */
    predicate IsValid() {
      (forall i :: 0 <= i < 4 ==> IsAsciiAlphabetic(inner[i])) && IsReservedBitValid()
    }

    /** Critical: the ancillary bit (bit 5 of byte 0) is clear. */
    predicate IsCritical() {
      IsAsciiUppercase(inner[0])
    }

    /** Public: the private bit (bit 5 of byte 1) is clear. */
    predicate IsPublic() {
      IsAsciiUppercase(inner[1])
    }

    /** The reserved bit (bit 5 of byte 2) is clear, as it must be. */
    predicate IsReservedBitValid() {
      IsAsciiUppercase(inner[2])
    }

    /** Safe to copy: the safe-to-copy bit (bit 5 of byte 3) is set. */
    predicate IsSafeToCopy() {
      IsAsciiLowercase(inner[3])
    }
  }

  /** `TryFrom<[u8; 4]>`: accepts exactly the valid codes and keeps the bytes. */
  function TryFrom(b: Bytes4): (r: Result<ChunkType>)
    ensures r.Ok? <==> ChunkType(b).IsValid()
    ensures r.Ok? ==> r.value.Bytes() == b
    ensures r.Err? ==> r.error == InvalidType
  {
    var t := ChunkType(b);
    if t.IsValid() then Ok(t) else Err(InvalidType)
  }

  /** Index of the first non-alphabetic byte of `s`, or `|s|` if there is none. */
  function FirstNonAlphabetic(s: seq<u8>): (k: nat)
    ensures k <= |s|
    ensures forall j :: 0 <= j < k ==> IsAsciiAlphabetic(s[j])
    ensures k < |s| ==> !IsAsciiAlphabetic(s[k])
  {
    if s == [] || !IsAsciiAlphabetic(s[0]) then 0 else 1 + FirstNonAlphabetic(s[1..])
  }

  /** What `FromStr` computes from the UTF-8 bytes of its argument: four
      letters are stored verbatim, whatever the case of the third. */
  function ParseName(s: seq<u8>): (r: Result<ChunkType>)
    ensures r.Ok? <==> |s| == 4 && forall j :: 0 <= j < |s| ==> IsAsciiAlphabetic(s[j])
    ensures r.Ok? ==> r.value.inner == s
    ensures |s| != 4 ==> r == Err(WrongLength)
    ensures r.Err? && |s| == 4 ==>
              exists k :: 0 <= k < 4 && r.error == InvalidChar(s[k]) && !IsAsciiAlphabetic(s[k])
                && forall j :: 0 <= j < k ==> IsAsciiAlphabetic(s[j])
  {
    if |s| != 4 then Err(WrongLength)
    else
      var k := FirstNonAlphabetic(s);
      if k < 4 then Err(InvalidChar(s[k])) else Ok(ChunkType(s))
  }

  /** `FromStr`: checks the byte length, then copies the bytes one by one into
      a fresh four-byte buffer, stopping at the first non-letter. */
  method FromStr(s: seq<u8>) returns (r: Result<ChunkType>)
    ensures r == ParseName(s)
  {
    if |s| != 4 {
      return Err(WrongLength);
    }
    var chunkBytes := new u8[4](_ => 0);
    var index := 0;
    while index < 4
      invariant 0 <= index <= 4
      invariant chunkBytes[..index] == s[..index]
      invariant index <= FirstNonAlphabetic(s)
    {
      if !IsAsciiAlphabetic(s[index]) {
        return Err(InvalidChar(s[index]));
      }
      chunkBytes[index] := s[index];
      index := index + 1;
    }
    assert chunkBytes[..] == chunkBytes[..4] && s == s[..4];
    return Ok(ChunkType(chunkBytes[..]));
  }

  /** Every code `TryFrom` accepts, `FromStr` accepts too, with the same bytes. */
  lemma TryFromImpliesParseName(b: Bytes4)
    requires TryFrom(b).Ok?
    ensures ParseName(b) == TryFrom(b)
  {
  }

  /** "Rust" (52 75 73 74): `FromStr` accepts it although its lower-case third
      letter makes it invalid, and `TryFrom` rejects the same bytes. */
  lemma RustExample()
    ensures ParseName([82, 117, 115, 116]).Ok?
    ensures !ParseName([82, 117, 115, 116]).value.IsValid()
    ensures TryFrom([82, 117, 115, 116]) == Err(InvalidType)
  {
  }

  /** "RuSt" (52 75 53 74): critical, private, reserved bit clear, safe to copy. */
  lemma RuStExample()
    ensures var t := ChunkType([82, 117, 83, 116]);
            t.IsCritical() && !t.IsPublic() && t.IsReservedBitValid() && t.IsSafeToCopy() && t.IsValid()
  {
  }

  /** For a letter, upper case means bit 5 is clear. */
  lemma CaseIsBit5(b: u8)
    requires IsAsciiAlphabetic(b)
    ensures IsAsciiUppercase(b) <==> !Bit5(b)
    ensures IsAsciiLowercase(b) <==> Bit5(b)
  {
  }

  /** For a code of four letters the flag predicates are exactly the property
      bits: ancillary bit, private bit, reserved bit (must be 0) and
      safe-to-copy bit, each bit 5 of its byte. */
  lemma PropertyBits(t: ChunkType)
    requires forall i :: 0 <= i < 4 ==> IsAsciiAlphabetic(t.inner[i])
    ensures t.IsCritical() <==> !Bit5(t.inner[0])
    ensures t.IsPublic() <==> !Bit5(t.inner[1])
    ensures t.IsReservedBitValid() <==> !Bit5(t.inner[2])
    ensures t.IsSafeToCopy() <==> Bit5(t.inner[3])
    ensures t.IsValid() <==> !Bit5(t.inner[2])
  {
    CaseIsBit5(t.inner[0]);
    CaseIsBit5(t.inner[1]);
    CaseIsBit5(t.inner[2]);
    CaseIsBit5(t.inner[3]);
  }

  /** Equality of chunk types is equality of their four bytes. */
  lemma EqualityIsBytewise(a: ChunkType, b: ChunkType)
    ensures a == b <==> forall i :: 0 <= i < 4 ==> a.inner[i] == b.inner[i]
  {
  }
}
