/**
 * `OffsetedReader`: a reader that counts the bytes read through it, starting from a
 * given offset, so that diagnostics can name a position in the whole stream.
 */
module Offseted {
  import opened Io

  /**
   * `Read::read` of an in-memory reader into a buffer of `n` bytes: as many bytes as
   * it still holds, at most `n`. It never fails; at the end of the input it reads none.
   */
  function ReadSome(r: Reader, n: nat): (c: Consumed<seq<byte>>)
    requires r.Valid()
    ensures Advanced(r, c.reader) && c.result.Ok?
    ensures c.reader.pos == r.pos + |c.result.value| && c.result.value == r.data[r.pos..c.reader.pos]
    ensures |c.result.value| == if n < r.Remaining() then n else r.Remaining()
  {
    var k := if n < r.Remaining() then n else r.Remaining();
    Consumed(Ok(r.data[r.pos..r.pos + k]), r.(pos := r.pos + k))
  }

  /** The offset of the wrapped reader, and what was read through it. */
  class OffsetedReader {
    var reader: Reader
    var offset: nat
    /** The offset it started from, and where the wrapped reader stood then. */
    ghost const start: nat
    ghost const origin: nat

    /** The offset is the starting offset plus every byte read since. */
    ghost predicate Valid()
      reads this
    {
      reader.Valid() && origin <= reader.pos && offset == start + (reader.pos - origin)
    }

    /** `OffsetedReader::new`: counting from 0. */
    constructor New(reader: Reader)
      requires reader.Valid()
      ensures Valid() && this.reader == reader && offset == 0
    {
      this.reader := reader;
      offset := 0;
      start := 0;
      origin := reader.pos;
    }

    /** `OffsetedReader::after`: counting from `offset`, for a reader that starts there. */
    constructor After(offset: nat, reader: Reader)
      requires reader.Valid()
      ensures Valid() && this.reader == reader && this.offset == offset
    {
      this.reader := reader;
      this.offset := offset;
      start := offset;
      origin := reader.pos;
    }

    /** `get_offset`: the starting offset plus the bytes read so far. */
    function GetOffset(): (o: nat)
      reads this
      ensures Valid() ==> o == start + (reader.pos - origin)
    {
      offset
    }

    /**
     * `read`: read from the wrapped reader into a buffer of `n` bytes and count what
     * it returned.
     */
    method Read(n: nat) returns (res: IoResult<nat>, buf: seq<byte>)
      requires Valid()
      modifies this
      ensures Valid()
      ensures var c := ReadSome(old(reader), n);
        buf == c.result.value && reader == c.reader && res == Ok(|buf|)
      ensures offset == old(offset) + |buf|
    {
      var c := ReadSome(reader, n);
      buf := c.result.value;
      reader := c.reader;
      offset := offset + |buf|;
      res := Ok(|buf|);
    }
  }

  /** Two reads through an `OffsetedReader` count the bytes of both. */
  method ReadTwice(data: seq<byte>, m: nat, n: nat) returns (offset: nat)
    ensures offset == (if m + n < |data| then m + n else |data|)
  {
    var o := new OffsetedReader.New(Open(data));
    var first, a := o.Read(m);
    var second, b := o.Read(n);
    offset := o.GetOffset();
  }
}
