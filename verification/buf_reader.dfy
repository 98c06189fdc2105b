/** `std::io::BufReader` over an in-memory byte slice, reduced to what the PNG
    parsers use: `read_exact` and the "is anything left" test made with
    `fill_buf`.  Reading from a slice cannot fail except by running out of
    input. */
module BufReaders {
  import opened Bytes
  import opened Errors

  class BufReader {
    const input: seq<u8>
    var pos: nat

    ghost predicate Valid()
      reads this
    {
      pos <= |input|
    }

    constructor (input: seq<u8>)
      ensures Valid() && this.input == input && pos == 0
    {
      this.input := input;
      pos := 0;
    }

    /** The bytes not read yet. */
    function Remaining(): seq<u8>
      reads this
      requires Valid()
    {
      input[pos..]
    }

    /** `fill_buf` hands back a non-empty buffer. */
    predicate HasData()
      reads this
      requires Valid()
      ensures HasData() <==> Remaining() != []
    {
      pos < |input|
    }

    /** `read_exact`: the next `n` bytes, or `Eof` (having consumed what was
        left) when fewer than `n` remain. */
    method ReadExact(n: nat) returns (r: Result<seq<u8>>)
      requires Valid()
      modifies this
      ensures Valid()
      ensures n <= |old(Remaining())| ==> r == Ok(old(Remaining())[..n]) && Remaining() == old(Remaining())[n..]
      ensures n > |old(Remaining())| ==> r == Err(Eof) && Remaining() == []
    {
      if n <= |input| - pos {
        r := Ok(input[pos..pos + n]);
        assert input[pos..pos + n] == input[pos..][..n];
        assert input[pos + n..] == input[pos..][n..];
        pos := pos + n;
      } else {
        r := Err(Eof);
        pos := |input|;
      }
    }
  }
}
