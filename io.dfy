/**
 * The byte-level input model shared by every decoder in this project: fixed-width
 * unsigned integers, the `std::io` error kinds the decoder distinguishes, and an
 * in-memory reader with a cursor.
 *
 * A `Reader` is a byte sequence, a cursor `pos` and a `limit`. The limit models a
 * chain of `Read::take` adaptors: reading stops at the limit exactly as it stops at
 * the end of the underlying stream. Reading through a `take` advances the cursor of
 * the reader underneath, so leaving an adaptor keeps the inner cursor and restores
 * the outer limit (`Release`).
 *
 * `read_exact` (and with it every `byteorder` `read_uN`) loops over `read` until the
 * buffer is full or the stream is exhausted; on a short stream it therefore consumes
 * every remaining byte before reporting `UnexpectedEof`. `ReadExact` models that.
 */
module Io {

  type byte = x: int | 0 <= x < 0x100
  type u16 = x: int | 0 <= x < 0x1_0000
  type u32 = x: int | 0 <= x < 0x1_0000_0000
  type u64 = x: int | 0 <= x < 0x1_0000_0000_0000_0000
  type u128 = x: int | 0 <= x < 0x1_0000_0000_0000_0000_0000_0000_0000_0000
  type i64 = x: int | -0x8000_0000_0000_0000 <= x < 0x8000_0000_0000_0000

  const U64_MAX: u64 := 0xFFFF_FFFF_FFFF_FFFF
  const U128_MAX: u128 := 0xFFFF_FFFF_FFFF_FFFF_FFFF_FFFF_FFFF_FFFF

  datatype Option<+T> = None | Some(value: T)

  /** Why a piece of input was rejected with `ErrorKind::InvalidData`. */
  datatype Reason =
    | InvalidMagic(found: seq<byte>)
    | InvalidVersion(version: u32)
    | InvalidTimestamp(secs: int, nanos: u32)
    | MissingTlv(attr: u16)
    | NewSubvolumeWhileParsing
    | NewSnapshotWhileParsing
    | NoSubvolume
    | EndWithoutSubvolume
    | DeleteNotFound
    | DeleteAlreadyDeleted
    | AccessNotFound
    | RenameNotFound
    | ModifyDeleted
    | ModifyNotFound
    | UnlinkNotFound

  /** The error kinds of `std::io::Error` that the decoder produces or inspects. */
  datatype IoError = UnexpectedEof | InvalidData(reason: Reason)

  /** `std::io::Result<T>`; its members let `:-` play the part of Rust's `?`. */
  datatype IoResult<+T> = Ok(value: T) | Err(error: IoError) {
    predicate IsFailure() {
      Err?
    }

    function PropagateFailure<U>(): IoResult<U>
      requires Err?
    {
      Err(error)
    }

    function Extract(): T
      requires Ok?
    {
      value
    }
  }

  function Pow256(k: nat): (p: nat)
    ensures p >= 1
  {
    if k == 0 then 1 else 256 * Pow256(k - 1)
  }

  lemma {:induction false} Pow256Add(j: nat, k: nat)
    ensures Pow256(j + k) == Pow256(j) * Pow256(k)
  {
    if j > 0 {
      Pow256Add(j - 1, k);
      assert Pow256(j + k) == 256 * Pow256((j - 1) + k);
      assert Pow256(j) == 256 * Pow256(j - 1);
    }
  }

  /** The unsigned value of `s` read least significant byte first. */
  function LittleEndian(s: seq<byte>): (n: nat)
    ensures n < Pow256(|s|)
  {
    if s == [] then 0
    else
      var rest := LittleEndian(s[1..]);
      assert s[0] + 256 * rest <= 255 + 256 * (Pow256(|s| - 1) - 1);
      s[0] + 256 * rest
  }

  /** An in-memory stream: `data[pos..limit]` is what can still be read. */
  datatype Reader = Reader(data: seq<byte>, pos: nat, limit: nat) {
    ghost predicate Valid() {
      pos <= limit <= |data|
    }

    function Remaining(): nat
      requires Valid()
    {
      limit - pos
    }
  }

  /** `r` has kept its bytes and its limit and has only moved forward. */
  ghost predicate Advanced(r: Reader, r': Reader) {
    r'.Valid() && r'.data == r.data && r'.limit == r.limit && r.pos <= r'.pos
  }

  /** What a read produced, and the reader after it. */
  datatype Consumed<+T> = Consumed(result: IoResult<T>, reader: Reader)

  /** Opens the start of a stream: cursor 0, no limit but the end of the bytes. */
  function Open(data: seq<byte>): (r: Reader)
    ensures r.Valid() && r.pos == 0 && r.Remaining() == |data|
  {
    Reader(data, 0, |data|)
  }

  /** `Read::take(n)`: at most `n` more bytes can be read through the adaptor. */
  function Take(r: Reader, n: nat): (t: Reader)
    requires r.Valid()
    ensures t.Valid() && t.data == r.data && t.pos == r.pos && t.limit <= r.limit
    ensures t.Remaining() == if n < r.Remaining() then n else r.Remaining()
  {
    Reader(r.data, r.pos, if r.pos + n < r.limit then r.pos + n else r.limit)
  }

  /** Leaves an adaptor built on `outer`: the cursor stays where the adaptor left it. */
  function Release(outer: Reader, inner: Reader): (r: Reader)
    requires outer.Valid() && inner.Valid()
    requires inner.data == outer.data && outer.pos <= inner.pos && inner.limit <= outer.limit
    ensures Advanced(outer, r) && r.pos == inner.pos
  {
    outer.(pos := inner.pos)
  }

  /** `Read::read_exact` of `n` bytes. */
  function ReadExact(r: Reader, n: nat): (c: Consumed<seq<byte>>)
    requires r.Valid()
    ensures Advanced(r, c.reader)
    ensures c.result.Ok? <==> n <= r.Remaining()
    ensures c.result.Ok? ==> c.result.value == r.data[r.pos..r.pos + n] && c.reader.pos == r.pos + n
    ensures c.result.Err? ==> c.result.error == UnexpectedEof && c.reader.pos == r.limit
  {
    if r.pos + n <= r.limit then Consumed(Ok(r.data[r.pos..r.pos + n]), r.(pos := r.pos + n))
    else Consumed(Err(UnexpectedEof), r.(pos := r.limit))
  }

  /** `Read::read_to_end`: everything up to the limit. */
  function ReadToEnd(r: Reader): (c: Consumed<seq<byte>>)
    requires r.Valid()
    ensures Advanced(r, c.reader) && c.reader.pos == r.limit
    ensures c.result == Ok(r.data[r.pos..r.limit])
  {
    Consumed(Ok(r.data[r.pos..r.limit]), r.(pos := r.limit))
  }

  /** `ReadBytesExt::read_uN::<LittleEndian>` for an `n`-byte integer. */
  function ReadUint(r: Reader, n: nat): (c: Consumed<nat>)
    requires r.Valid()
    ensures Advanced(r, c.reader)
    ensures c.result.Ok? <==> n <= r.Remaining()
    ensures c.result.Ok? ==>
              c.result.value == LittleEndian(r.data[r.pos..r.pos + n]) && c.result.value < Pow256(n)
              && c.reader.pos == r.pos + n
    ensures c.result.Err? ==> c.result.error == UnexpectedEof && c.reader.pos == r.limit
  {
    var bytes := ReadExact(r, n);
    match bytes.result
    case Ok(b) => Consumed(Ok(LittleEndian(b)), bytes.reader)
    case Err(e) => Consumed(Err(e), bytes.reader)
  }

  function ReadU16(r: Reader): (c: Consumed<u16>)
    requires r.Valid()
    ensures Advanced(r, c.reader)
    ensures c.result.Ok? <==> 2 <= r.Remaining()
    ensures c.result.Ok? ==>
              c.result.value == LittleEndian(r.data[r.pos..r.pos + 2]) && c.reader.pos == r.pos + 2
    ensures c.result.Err? ==> c.result.error == UnexpectedEof && c.reader.pos == r.limit
  {
    var v := ReadUint(r, 2);
    match v.result
    case Ok(n) => assert Pow256(2) == 0x1_0000; Consumed(Ok(n as u16), v.reader)
    case Err(e) => Consumed(Err(e), v.reader)
  }

  function ReadU32(r: Reader): (c: Consumed<u32>)
    requires r.Valid()
    ensures Advanced(r, c.reader)
    ensures c.result.Ok? <==> 4 <= r.Remaining()
    ensures c.result.Ok? ==>
              c.result.value == LittleEndian(r.data[r.pos..r.pos + 4]) && c.reader.pos == r.pos + 4
    ensures c.result.Err? ==> c.result.error == UnexpectedEof && c.reader.pos == r.limit
  {
    var v := ReadUint(r, 4);
    match v.result
    case Ok(n) => assert Pow256(4) == 0x1_0000_0000; Consumed(Ok(n as u32), v.reader)
    case Err(e) => Consumed(Err(e), v.reader)
  }

  function ReadU64(r: Reader): (c: Consumed<u64>)
    requires r.Valid()
    ensures Advanced(r, c.reader)
    ensures c.result.Ok? <==> 8 <= r.Remaining()
    ensures c.result.Ok? ==>
              c.result.value == LittleEndian(r.data[r.pos..r.pos + 8]) && c.reader.pos == r.pos + 8
    ensures c.result.Err? ==> c.result.error == UnexpectedEof && c.reader.pos == r.limit
  {
    var v := ReadUint(r, 8);
    match v.result
    case Ok(n) => assert Pow256(8) == 0x1_0000_0000_0000_0000; Consumed(Ok(n as u64), v.reader)
    case Err(e) => Consumed(Err(e), v.reader)
  }

  function ReadU128(r: Reader): (c: Consumed<u128>)
    requires r.Valid()
    ensures Advanced(r, c.reader)
    ensures c.result.Ok? <==> 16 <= r.Remaining()
    ensures c.result.Ok? ==>
              c.result.value == LittleEndian(r.data[r.pos..r.pos + 16]) && c.reader.pos == r.pos + 16
    ensures c.result.Err? ==> c.result.error == UnexpectedEof && c.reader.pos == r.limit
  {
    var v := ReadUint(r, 16);
    match v.result
    case Ok(n) =>
      assert Pow256(8) == 0x1_0000_0000_0000_0000;
      Pow256Add(8, 8);
      Consumed(Ok(n as u128), v.reader)
    case Err(e) => Consumed(Err(e), v.reader)
  }

  /** The bytes `01 02 .. 08` decode to `0x0807060504030201`. */
  lemma LittleEndianExample()
    ensures LittleEndian([1, 2, 3, 4, 5, 6, 7, 8]) == 0x0807_0605_0403_0201
  {
    var s: seq<byte> := [1, 2, 3, 4, 5, 6, 7, 8];
    assert LittleEndian(s[7..]) == 0x08 by { assert s[7..][1..] == []; }
    assert LittleEndian(s[6..]) == 0x0807 by { assert s[6..][1..] == s[7..]; }
    assert LittleEndian(s[5..]) == 0x08_0706 by { assert s[5..][1..] == s[6..]; }
    assert LittleEndian(s[4..]) == 0x0807_0605 by { assert s[4..][1..] == s[5..]; }
    assert LittleEndian(s[3..]) == 0x08_0706_0504 by { assert s[3..][1..] == s[4..]; }
    assert LittleEndian(s[2..]) == 0x0807_0605_0403 by { assert s[2..][1..] == s[3..]; }
    assert LittleEndian(s[1..]) == 0x08_0706_0504_0302 by { assert s[1..][1..] == s[2..]; }
  }

  lemma LittleEndianTwo(s: seq<byte>)
    requires |s| == 2
    ensures LittleEndian(s) == s[0] as int + 256 * (s[1] as int)
  {
    assert s[1..][1..] == [];
  }

  /** Little-endian decoding is injective on sequences of one length. */
  lemma {:induction false} LittleEndianInjective(a: seq<byte>, b: seq<byte>)
    requires |a| == |b| && LittleEndian(a) == LittleEndian(b)
    ensures a == b
  {
    if a != [] {
      var ra, rb := LittleEndian(a[1..]), LittleEndian(b[1..]);
      assert a[0] + 256 * ra == b[0] + 256 * rb;
      var d := ra - rb;
      assert 256 * d == b[0] - a[0];
      assert d == 0;
      LittleEndianInjective(a[1..], b[1..]);
      assert a == [a[0]] + a[1..] && b == [b[0]] + b[1..];
    }
  }
}
