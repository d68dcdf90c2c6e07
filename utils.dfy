/**
 * The reading helpers the decoder builds its attribute converters from: `try_read`,
 * the timespec, byte and mixed-string readers, and the `Debuggable` wrapper.
 */
module Utils {
  import opened Io
  import opened Utf8
  import opened Mixed
  import opened Model

  /**
   * `try_read`: a read that hit the end of the input is an absent value, any other
   * error stays an error.
   */
  function TryRead<T>(res: IoResult<T>): (r: IoResult<Option<T>>)
    ensures res.Ok? ==> r == Ok(Some(res.value))
    ensures res.Err? && res.error == UnexpectedEof ==> r == Ok(None)
    ensures res.Err? && res.error != UnexpectedEof ==> r == Err(res.error)
  {
    match res
    case Err(e) => if e.UnexpectedEof? then Ok(None) else Err(e)
    case Ok(v) => Ok(Some(v))
  }

  /** `try_read` loses nothing but the kind of a failure that was an end of input. */
  lemma TryReadInverse<T>(res: IoResult<T>)
    ensures TryRead(res) == Ok(None) <==> res == Err(UnexpectedEof)
    ensures TryRead(res).Ok? && TryRead(res).value.Some? ==> res == Ok(TryRead(res).value.value)
  {
  }

  /** `u64 as i64`: the same 64 bits read as a two's-complement number. */
  function AsI64(x: u64): (s: i64)
    ensures (s as int - x as int) % 0x1_0000_0000_0000_0000 == 0
    ensures x < 0x8000_0000_0000_0000 ==> s == x
    ensures x >= 0x8000_0000_0000_0000 ==> s < 0
  {
    if x < 0x8000_0000_0000_0000 then x else x - 0x1_0000_0000_0000_0000
  }

  /** `i64 as u64`, the inverse reinterpretation. */
  function AsU64(s: i64): u64 {
    if s >= 0 then s else s + 0x1_0000_0000_0000_0000
  }

  lemma AsI64RoundTrip(x: u64, s: i64)
    ensures AsU64(AsI64(x)) == x
    ensures AsI64(AsU64(s)) == s
  {
  }

  /**
   * `read_timespec`: eight bytes of seconds, then four bytes of nanoseconds, both little
   * endian; the seconds are reinterpreted as signed and the pair must be a timestamp
   * chrono accepts.
   */
  function ReadTimespec(r: Reader, valid: TimestampCheck): (c: Consumed<DateTime>)
    requires r.Valid()
    ensures Advanced(r, c.reader)
    ensures c.result.Ok? <==>
              12 <= r.Remaining()
              && valid(AsI64(LittleEndian(r.data[r.pos..r.pos + 8])), LittleEndian(r.data[r.pos + 8..r.pos + 12]))
    ensures c.result.Ok? ==>
              c.reader.pos == r.pos + 12
              && c.result.value == DateTime(AsI64(LittleEndian(r.data[r.pos..r.pos + 8])),
                                            LittleEndian(r.data[r.pos + 8..r.pos + 12]))
    ensures c.result.Err? && 12 <= r.Remaining() ==>
              c.reader.pos == r.pos + 12
              && c.result.error == InvalidData(InvalidTimestamp(AsI64(LittleEndian(r.data[r.pos..r.pos + 8])),
                                                                LittleEndian(r.data[r.pos + 8..r.pos + 12])))
    ensures 12 > r.Remaining() ==> c.result == Err(UnexpectedEof) && c.reader.pos == r.limit
  {
    var secs := ReadU64(r);
    match secs.result
    case Err(e) => Consumed(Err(e), secs.reader)
    case Ok(raw) =>
      var s := AsI64(raw);
      var nanos := ReadU32(secs.reader);
      match nanos.result
      case Err(e) => Consumed(Err(e), nanos.reader)
      case Ok(ns) =>
        if valid(s, ns) then Consumed(Ok(DateTime(s, ns)), nanos.reader)
        else Consumed(Err(InvalidData(InvalidTimestamp(s, ns))), nanos.reader)
  }

  /** `read_bytes`: everything the reader still holds. */
  function ReadBytes(r: Reader): (c: Consumed<seq<byte>>)
    requires r.Valid()
    ensures Advanced(r, c.reader) && c.reader.pos == r.limit
    ensures c.result == Ok(r.data[r.pos..r.limit])
  {
    ReadToEnd(r)
  }

  /** `read_mixed`: everything the reader still holds, as a mixed string. */
  function ReadMixed(r: Reader): (c: Consumed<MixedString>)
    requires r.Valid()
    ensures Advanced(r, c.reader) && c.reader.pos == r.limit
    ensures c.result == Ok(Decode(r.data[r.pos..r.limit]))
  {
    var bytes := ReadBytes(r);
    Consumed(Ok(Decode(bytes.result.value)), bytes.reader)
  }

  /** `read_mixed` loses nothing: the string it returns flattens back to the bytes read. */
  lemma ReadMixedLossless(r: Reader)
    requires r.Valid()
    ensures Flatten(ReadMixed(r).result.value) == r.data[r.pos..r.limit]
    ensures TextValid(ReadMixed(r).result.value)
  {
    DecodeRoundTrip(r.data[r.pos..r.limit]);
    DecodeTextValid(r.data[r.pos..r.limit]);
  }

  /** A value with the text of the expression it came from, for error messages. */
  datatype Debuggable<T> = Debuggable(text: string, value: T)

  /** `Deref for Debuggable`: the wrapped value; the text plays no part. */
  function Deref<T>(d: Debuggable<T>): T {
    d.value
  }

  /** Two wrappers of one value dereference alike, whatever their texts. */
  lemma DerefIgnoresText<T>(a: Debuggable<T>, b: Debuggable<T>)
    requires a.value == b.value
    ensures Deref(a) == Deref(b) == a.value
  {
  }
}
