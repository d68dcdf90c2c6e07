/**
 * Type-length-value attributes of a send-stream command (`btrfs_tlv_header` of the
 * kernel's `fs/btrfs/send.h`: a little-endian `u16` type, a `u16` length, then the
 * payload).
 *
 * The decoder reads each payload through `take(len)` and consumes only what the
 * attribute's converter reads: a `u64` converter reads eight bytes of a longer
 * payload and leaves the rest for the next type field, and an unknown type reads
 * nothing at all. A payload that fails to decode ends the attribute list, which is
 * still returned as a success.
 */
module Tlv {
  import opened Io
  import opened Mixed
  import opened Model
  import opened Utils

  datatype Attr =
    | UUID | Size | Mode | Uid | Gid | Rdev | Ctime | Mtime | Atime
    | XattrName | XattrData | Path | PathTo | PathLink | ClonePath

  /** The type ids of the attributes this decoder knows. */
  const KnownIds: set<u16> := {1, 4, 5, 6, 7, 8, 9, 10, 11, 13, 14, 15, 16, 17, 22}

  /** The type id of an attribute. */
  function AttrId(a: Attr): (id: u16)
    ensures id in KnownIds
  {
    match a
    case UUID => 1
    case Size => 4
    case Mode => 5
    case Uid => 6
    case Gid => 7
    case Rdev => 8
    case Ctime => 9
    case Mtime => 10
    case Atime => 11
    case XattrName => 13
    case XattrData => 14
    case Path => 15
    case PathTo => 16
    case PathLink => 17
    case ClonePath => 22
  }

  /** `TLVs::new`: the attribute with type id `id`, if it is a known one. */
  function AttrOf(id: u16): (r: Option<Attr>)
    ensures r.Some? <==> id in KnownIds
    ensures r.Some? ==> AttrId(r.value) == id
  {
    if id == 1 then Some(UUID)
    else if id == 4 then Some(Size)
    else if id == 5 then Some(Mode)
    else if id == 6 then Some(Uid)
    else if id == 7 then Some(Gid)
    else if id == 8 then Some(Rdev)
    else if id == 9 then Some(Ctime)
    else if id == 10 then Some(Mtime)
    else if id == 11 then Some(Atime)
    else if id == 13 then Some(XattrName)
    else if id == 14 then Some(XattrData)
    else if id == 15 then Some(Path)
    else if id == 16 then Some(PathTo)
    else if id == 17 then Some(PathLink)
    else if id == 22 then Some(ClonePath)
    else None
  }

  /** Every attribute is found again by its id: the id table has no collision. */
  lemma AttrOfId(a: Attr)
    ensures AttrOf(AttrId(a)) == Some(a)
  {
  }

  /** `TLVValue`: an attribute's value, or the attribute it would be when absent. */
  datatype Value<T> = WNone(attr: Attr) | WSome(value: T)

  /** `TLVValue::into_option` (and `Into<Option<T>>`). */
  function IntoOption<T>(v: Value<T>): (r: Option<T>)
    ensures r.None? <==> v.WNone?
    ensures v.WSome? ==> r == Some(v.value)
  {
    match v
    case WNone(_) => None
    case WSome(x) => Some(x)
  }

  /** A decoded payload, of the type its attribute calls for. */
  datatype Payload =
    | U128(u128: u128)
    | U64(u64: u64)
    | Time(time: DateTime)
    | Text(text: MixedString)

  predicate Fits(a: Attr, p: Payload) {
    match a
    case UUID => p.U128?
    case Size | Mode | Uid | Gid | Rdev => p.U64?
    case Ctime | Mtime | Atime => p.Time?
    case XattrName | XattrData | Path | PathTo | PathLink | ClonePath => p.Text?
  }

  /**
   * The attributes of `TLV`, as a value: the struct's fields, one per attribute, each
   * either absent or holding its payload, are the keys of a map.
   */
  type Attrs = map<Attr, Payload>

  /** Every stored payload has its attribute's type. */
  ghost predicate WellTyped(t: Attrs) {
    forall a :: a in t ==> Fits(a, t[a])
  }

  /** `TLV::new`: every attribute absent. */
  const Empty: Attrs := map[]

  predicate IsU64(a: Attr) {
    a in {Size, Mode, Uid, Gid, Rdev}
  }

  predicate IsTime(a: Attr) {
    a in {Ctime, Mtime, Atime}
  }

  predicate IsText(a: Attr) {
    a in {XattrName, XattrData, Path, PathTo, PathLink, ClonePath}
  }

  /** The `u128` field `UUID`. */
  function U128Field(t: Attrs): (v: Value<u128>)
    requires WellTyped(t)
    ensures v.WNone? <==> UUID !in t
    ensures v.WNone? ==> v.attr == UUID
    ensures v.WSome? ==> t[UUID] == U128(v.value)
  {
    if UUID in t then WSome(t[UUID].u128) else WNone(UUID)
  }

  /** A `u64` field. */
  function U64Field(t: Attrs, a: Attr): (v: Value<u64>)
    requires WellTyped(t) && IsU64(a)
    ensures v.WNone? <==> a !in t
    ensures v.WNone? ==> v.attr == a
    ensures v.WSome? ==> t[a] == U64(v.value)
  {
    if a in t then WSome(t[a].u64) else WNone(a)
  }

  /** A timestamp field. */
  function TimeField(t: Attrs, a: Attr): (v: Value<DateTime>)
    requires WellTyped(t) && IsTime(a)
    ensures v.WNone? <==> a !in t
    ensures v.WNone? ==> v.attr == a
    ensures v.WSome? ==> t[a] == Time(v.value)
  {
    if a in t then WSome(t[a].time) else WNone(a)
  }

  /** A mixed-string field. */
  function TextField(t: Attrs, a: Attr): (v: Value<MixedString>)
    requires WellTyped(t) && IsText(a)
    ensures v.WNone? <==> a !in t
    ensures v.WNone? ==> v.attr == a
    ensures v.WSome? ==> t[a] == Text(v.value)
  {
    if a in t then WSome(t[a].text) else WNone(a)
  }

  /** The converter of attribute `a` applied to the payload reader `d`. */
  function Convert(a: Attr, d: Reader, valid: TimestampCheck): (c: Consumed<Payload>)
    requires d.Valid()
    ensures Advanced(d, c.reader)
    ensures c.result.Ok? ==> Fits(a, c.result.value)
  {
    match a
    case UUID =>
      var v := ReadU128(d);
      Consumed(if v.result.Ok? then Ok(U128(v.result.value)) else Err(v.result.error), v.reader)
    case Size | Mode | Uid | Gid | Rdev =>
      var v := ReadU64(d);
      Consumed(if v.result.Ok? then Ok(U64(v.result.value)) else Err(v.result.error), v.reader)
    case Ctime | Mtime | Atime =>
      var v := ReadTimespec(d, valid);
      Consumed(if v.result.Ok? then Ok(Time(v.result.value)) else Err(v.result.error), v.reader)
    case XattrName | XattrData | Path | PathTo | PathLink | ClonePath =>
      var v := ReadMixed(d);
      Consumed(Ok(Text(v.result.value)), v.reader)
  }

  /** A `u64` attribute decodes the first eight payload bytes, little endian. */
  lemma ConvertU64(a: Attr, d: Reader, valid: TimestampCheck)
    requires d.Valid() && a in {Size, Mode, Uid, Gid, Rdev}
    ensures Convert(a, d, valid).result.Ok? <==> 8 <= d.Remaining()
    ensures 8 <= d.Remaining() ==>
              Convert(a, d, valid) == Consumed(Ok(U64(LittleEndian(d.data[d.pos..d.pos + 8]))), d.(pos := d.pos + 8))
  {
  }

  /** A text attribute takes the whole payload. */
  lemma ConvertText(a: Attr, d: Reader, valid: TimestampCheck)
    requires d.Valid() && a in {XattrName, XattrData, Path, PathTo, PathLink, ClonePath}
    ensures Convert(a, d, valid).result == Ok(Text(Decode(d.data[d.pos..d.limit])))
    ensures Convert(a, d, valid).reader.pos == d.limit
  {
  }

  /** `TLV::add`: a known id sets its attribute from the reader; an unknown id reads nothing. */
  function AddTo(t: Attrs, id: u16, d: Reader, valid: TimestampCheck): (c: Consumed<Attrs>)
    requires d.Valid()
    ensures Advanced(d, c.reader)
    ensures AttrOf(id).None? ==> c == Consumed(Ok(t), d)
    ensures AttrOf(id).Some? ==>
              var v := Convert(AttrOf(id).value, d, valid);
              c.reader == v.reader && c.result.Ok? == v.result.Ok?
              && (v.result.Ok? ==> c.result.value == t[AttrOf(id).value := v.result.value])
              && (v.result.Err? ==> c.result.error == v.result.error)
    ensures WellTyped(t) && c.result.Ok? ==> WellTyped(c.result.value)
  {
    match AttrOf(id)
    case None => Consumed(Ok(t), d)
    case Some(a) =>
      var v := Convert(a, d, valid);
      match v.result
      case Ok(p) => Consumed(Ok(t[a := p]), v.reader)
      case Err(e) => Consumed(Err(e), v.reader)
  }

  /**
   * A successful `add` stores the decoded payload under its attribute, overwriting an
   * earlier one, and changes no other attribute.
   */
  lemma AddToOthers(t: Attrs, id: u16, d: Reader, valid: TimestampCheck, b: Attr)
    requires d.Valid() && AddTo(t, id, d, valid).result.Ok?
    ensures var u := AddTo(t, id, d, valid).result.value;
      if AttrOf(id) == Some(b) then b in u && Convert(b, d, valid).result == Ok(u[b])
      else (b in u <==> b in t) && (b in t ==> u[b] == t[b])
  {
  }

  /** `TLV`: the attribute set a command's TLVs fill in. */
  class TLV {
    var values: Attrs

    /** `TLV::new` */
    constructor ()
      ensures values == Empty
    {
      values := map[];
    }

    /** `TLV::add`: on success one attribute is set; on failure nothing changes. */
    method Add(id: u16, d: Reader, valid: TimestampCheck) returns (c: Consumed<()>)
      requires d.Valid()
      modifies this
      ensures var s := AddTo(old(values), id, d, valid);
        c.reader == s.reader && c.result.Ok? == s.result.Ok?
        && (s.result.Ok? ==> values == s.result.value)
        && (s.result.Err? ==> c.result.error == s.result.error && values == old(values))
    {
      var attr := AttrOf(id);
      if attr.None? {
        return Consumed(Ok(()), d);
      }
      var v := Convert(attr.value, d, valid);
      if v.result.Err? {
        return Consumed(Err(v.result.error), v.reader);
      }
      values := values[attr.value := v.result.value];
      c := Consumed(Ok(()), v.reader);
    }
  }

  // ---------------------------------------------------------------------------
  // read_tlvs

  /**
   * `Parser::read_tlvs` from reader `r` with the attributes `acc` decoded so far: stop
   * with success when no type field is left, fail when the length field is cut short,
   * otherwise add the payload through `take(len)` and go on after what it consumed,
   * unless the payload failed to decode, which also ends the list with success.
   */
  function ReadTlvsFrom(r: Reader, acc: Attrs, valid: TimestampCheck): (c: Consumed<Attrs>)
    requires r.Valid()
    ensures Advanced(r, c.reader)
    decreases r.Remaining()
  {
    var ty := ReadU16(r);
    match TryRead(ty.result)
    case Err(e) => Consumed(Err(e), ty.reader)
    case Ok(None) => Consumed(Ok(acc), ty.reader)
    case Ok(Some(id)) =>
      var len := ReadU16(ty.reader);
      match len.result
      case Err(e) => Consumed(Err(e), len.reader)
      case Ok(n) =>
        var payload := Take(len.reader, n);
        var added := AddTo(acc, id, payload, valid);
        var after := Release(len.reader, added.reader);
        match added.result
        case Err(_) => Consumed(Ok(acc), after)
        case Ok(next) => ReadTlvsFrom(after, next, valid)
  }

  /** The attribute list of a command read from `r`. */
  function ReadTlvsSpec(r: Reader, valid: TimestampCheck): Consumed<Attrs>
    requires r.Valid()
  {
    ReadTlvsFrom(r, Empty, valid)
  }

  method ReadTlvs(r: Reader, valid: TimestampCheck) returns (res: IoResult<TLV>, rd: Reader)
    requires r.Valid()
    ensures var s := ReadTlvsSpec(r, valid);
      rd == s.reader && res.Ok? == s.result.Ok?
      && (res.Ok? ==> fresh(res.value) && res.value.values == s.result.value)
      && (res.Err? ==> res.error == s.result.error)
  {
    var tlv := new TLV();
    rd := r;
    while true
      invariant rd.Valid() && rd.data == r.data
      invariant ReadTlvsFrom(rd, tlv.values, valid) == ReadTlvsSpec(r, valid)
      decreases rd.Remaining()
    {
      var ty := ReadU16(rd);
      var id := TryRead(ty.result);
      if id.Err? {
        return Err(id.error), ty.reader;
      }
      if id.value.None? {
        rd := ty.reader;
        break;
      }
      var len := ReadU16(ty.reader);
      if len.result.Err? {
        return Err(len.result.error), len.reader;
      }
      var payload := Take(len.reader, len.result.value);
      var added := tlv.Add(id.value.value, payload, valid);
      rd := Release(len.reader, added.reader);
      if added.result.Err? {
        break;
      }
    }
    res := Ok(tlv);
  }

  /**
   * The list ends with success where no type field is left, fails only where a length
   * field is cut short, and fails with `UnexpectedEof` then.
   */
  lemma {:induction false} ReadTlvsErrors(r: Reader, acc: Attrs, valid: TimestampCheck)
    requires r.Valid()
    ensures ReadTlvsFrom(r, acc, valid).result.Err? ==> ReadTlvsFrom(r, acc, valid).result.error == UnexpectedEof
    ensures r.Remaining() < 2 ==> ReadTlvsFrom(r, acc, valid) == Consumed(Ok(acc), r.(pos := r.limit))
    ensures 2 <= r.Remaining() < 4 ==> ReadTlvsFrom(r, acc, valid) == Consumed(Err(UnexpectedEof), r.(pos := r.limit))
    decreases r.Remaining()
  {
    var ty := ReadU16(r);
    if ty.result.Ok? {
      var len := ReadU16(ty.reader);
      if len.result.Ok? {
        var added := AddTo(acc, ty.result.value, Take(len.reader, len.result.value), valid);
        if added.result.Ok? {
          ReadTlvsErrors(Release(len.reader, added.reader), added.result.value, valid);
        }
      }
    }
  }

  /** A decoded attribute is never lost: later TLVs only overwrite it. */
  lemma {:induction false} ReadTlvsKeeps(r: Reader, acc: Attrs, valid: TimestampCheck, a: Attr)
    requires r.Valid() && a in acc
    requires ReadTlvsFrom(r, acc, valid).result.Ok?
    ensures a in ReadTlvsFrom(r, acc, valid).result.value
    decreases r.Remaining()
  {
    var ty := ReadU16(r);
    if ty.result.Ok? {
      var len := ReadU16(ty.reader);
      var added := AddTo(acc, ty.result.value, Take(len.reader, len.result.value), valid);
      if added.result.Ok? {
        ReadTlvsKeeps(Release(len.reader, added.reader), added.result.value, valid, a);
      }
    }
  }

  /** Every decoded payload has its attribute's type. */
  lemma {:induction false} ReadTlvsWellTyped(r: Reader, acc: Attrs, valid: TimestampCheck)
    requires r.Valid() && WellTyped(acc)
    requires ReadTlvsFrom(r, acc, valid).result.Ok?
    ensures WellTyped(ReadTlvsFrom(r, acc, valid).result.value)
    decreases r.Remaining()
  {
    var ty := ReadU16(r);
    if ty.result.Ok? {
      var len := ReadU16(ty.reader);
      var added := AddTo(acc, ty.result.value, Take(len.reader, len.result.value), valid);
      if added.result.Ok? {
        ReadTlvsWellTyped(Release(len.reader, added.reader), added.result.value, valid);
      }
    }
  }

  // ---------------------------------------------------------------------------
  // Getters

  /** `Command::_tlv_get`: the value if present, else the default if there is one. */
  function TlvGetWith<T>(v: Value<T>, def: Option<T>): (r: IoResult<T>)
    ensures v.WSome? ==> r == Ok(v.value)
    ensures v.WNone? && def.Some? ==> r == Ok(def.value)
    ensures v.WNone? && def.None? ==> r == Err(InvalidData(MissingTlv(AttrId(v.attr))))
  {
    match v
    case WNone(a) => if def.Some? then Ok(def.value) else Err(InvalidData(MissingTlv(AttrId(a))))
    case WSome(x) => Ok(x)
  }

  /** `tlv_get`: a required attribute. */
  function TlvGet<T>(v: Value<T>): (r: IoResult<T>)
    ensures r.Ok? <==> v.WSome?
    ensures r.Ok? ==> r.value == v.value
    ensures r.Err? ==> r.error == InvalidData(MissingTlv(AttrId(v.attr)))
  {
    TlvGetWith(v, None)
  }

  /** `tlv_get_def`: an attribute with a default. */
  function TlvGetDef<T>(v: Value<T>, def: T): (r: IoResult<T>)
    ensures r == Ok(if v.WSome? then v.value else def)
  {
    TlvGetWith(v, Some(def))
  }

  /** `tlv_get_auto` at `u64`: an absent value is `u64::MAX`. */
  function TlvGetAuto64(v: Value<u64>): (r: IoResult<u64>)
    ensures r == Ok(if v.WSome? then v.value else U64_MAX)
  {
    TlvGetWith(v, Some(U64_MAX))
  }

  /** `tlv_get_auto` at `u128`: an absent value is `u128::MAX`. */
  function TlvGetAuto128(v: Value<u128>): (r: IoResult<u128>)
    ensures r == Ok(if v.WSome? then v.value else U128_MAX)
  {
    TlvGetWith(v, Some(U128_MAX))
  }

  // ---------------------------------------------------------------------------
  // The unit tests of tlv.rs, for every payload of the tested shape

  /** `fill_tlv`: two `add`s set their two attributes. */
  lemma FillTlv(one: seq<byte>, two: seq<byte>, valid: TimestampCheck)
    requires |one| == 8 && |two| == 8
    ensures var t1 := AddTo(Empty, 5, Open(one), valid);
      t1.result.Ok?
      && var t2 := AddTo(t1.result.value, 7, Open(two), valid);
      t2.result.Ok? && WellTyped(t2.result.value)
      && IntoOption(U64Field(t2.result.value, Mode)) == Some(LittleEndian(one))
      && IntoOption(U64Field(t2.result.value, Gid)) == Some(LittleEndian(two))
  {
    hide Decode;
    ConvertU64(Mode, Open(one), valid);
    ConvertU64(Gid, Open(two), valid);
    assert one[0..8] == one && two[0..8] == two;
  }

  /** The eight bytes `01 00 .. 00` are the number one. */
  lemma LittleEndianOne()
    ensures LittleEndian([1, 0, 0, 0, 0, 0, 0, 0]) == 1
  {
    var s: seq<byte> := [1, 0, 0, 0, 0, 0, 0, 0];
    assert LittleEndian(s[7..]) == 0 by { assert s[7..][1..] == []; }
    assert LittleEndian(s[6..]) == 0 by { assert s[6..][1..] == s[7..]; }
    assert LittleEndian(s[5..]) == 0 by { assert s[5..][1..] == s[6..]; }
    assert LittleEndian(s[4..]) == 0 by { assert s[4..][1..] == s[5..]; }
    assert LittleEndian(s[3..]) == 0 by { assert s[3..][1..] == s[4..]; }
    assert LittleEndian(s[2..]) == 0 by { assert s[2..][1..] == s[3..]; }
    assert LittleEndian(s[1..]) == 0 by { assert s[1..][1..] == s[2..]; }
  }

  /** One step of `ReadTlvsFrom` once the type and length fields have been read. */
  lemma ReadTlvsStep(r: Reader, acc: Attrs, valid: TimestampCheck, id: u16, n: u16)
    requires r.Valid() && 4 <= r.Remaining()
    requires r.data[r.pos] as int + 256 * r.data[r.pos + 1] as int == id
    requires r.data[r.pos + 2] as int + 256 * r.data[r.pos + 3] as int == n
    ensures var at := r.(pos := r.pos + 4);
      var added := AddTo(acc, id, Take(at, n), valid);
      var after := Release(at, added.reader);
      ReadTlvsFrom(r, acc, valid) ==
        if added.result.Err? then Consumed(Ok(acc), after) else ReadTlvsFrom(after, added.result.value, valid)
  {
    hide AddTo;
    hide Convert;
    hide ReadU16;
    hide Decode;
    hide TryRead;
    hide Release;
    hide Take;
    LittleEndianTwo(r.data[r.pos..r.pos + 2]);
    LittleEndianTwo(r.data[r.pos + 2..r.pos + 4]);
    var ty := ReadU16(r);
    assert ty.result == Ok(id) && ty.reader == r.(pos := r.pos + 2);
    assert TryRead(ty.result) == Ok(Some(id));
    var len := ReadU16(ty.reader);
    assert len.result == Ok(n) && len.reader == r.(pos := r.pos + 4);
  }

  /** The four header bytes of a `Mode` attribute with an eight-byte payload. */
  const ModeHeader: seq<byte> := [5, 0, 8, 0]

  /** A `Mode` attribute with an eight-byte payload sets `mode` and consumes twelve bytes. */
  lemma ReadModeFrom(r: Reader, acc: Attrs, valid: TimestampCheck)
    requires r.Valid() && 12 <= r.Remaining() && r.data[r.pos..r.pos + 4] == ModeHeader
    ensures ReadTlvsFrom(r, acc, valid) ==
              ReadTlvsFrom(r.(pos := r.pos + 12), acc[Mode := U64(LittleEndian(r.data[r.pos + 4..r.pos + 12]))], valid)
  {
    hide Decode;
    hide AddTo;
    assert r.data[r.pos] == 5 && r.data[r.pos + 1] == 0 && r.data[r.pos + 2] == 8 && r.data[r.pos + 3] == 0 by {
      assert r.data[r.pos..r.pos + 4][0] == r.data[r.pos];
      assert r.data[r.pos..r.pos + 4][1] == r.data[r.pos + 1];
      assert r.data[r.pos..r.pos + 4][2] == r.data[r.pos + 2];
      assert r.data[r.pos..r.pos + 4][3] == r.data[r.pos + 3];
    }
    ReadTlvsStep(r, acc, valid, 5, 8);
    var at := r.(pos := r.pos + 4);
    var payload := Take(at, 8);
    assert payload == at.(limit := r.pos + 12);
    ConvertU64(Mode, payload, valid);
  }

  /** `read_data`: one `Mode` TLV decodes its payload little endian. */
  lemma ReadData(m: seq<byte>, valid: TimestampCheck)
    requires |m| == 8
    ensures var s := ReadTlvsSpec(Open(ModeHeader + m), valid);
      s.result == Ok(map[Mode := U64(LittleEndian(m))])
      && TlvGet(U64Field(s.result.value, Mode)) == Ok(LittleEndian(m))
  {
    hide Decode, AddTo, ReadTlvsFrom, ReadTlvsSpec, LittleEndian, Convert, AttrOf;
    var d := ModeHeader + m;
    assert d[..4] == ModeHeader by {
      assert d[0] == 5 && d[1] == 0 && d[2] == 8 && d[3] == 0;
    }
    assert d[4..] == m;
    var r := Open(d);
    assert r.data[r.pos..r.pos + 4] == d[..4] && r.data[r.pos + 4..r.pos + 12] == d[4..];
    ReadModeOnly(r, valid);
    var t := map[Mode := U64(LittleEndian(m))];
    assert ReadTlvsSpec(r, valid).result == Ok(t);
    assert WellTyped(t) && IsU64(Mode);
    assert U64Field(t, Mode) == WSome(LittleEndian(m));
  }

  /** A reader holding exactly one `Mode` TLV reads the map of that one attribute. */
  lemma ReadModeOnly(r: Reader, valid: TimestampCheck)
    requires r.Valid() && r.Remaining() == 12 && r.data[r.pos..r.pos + 4] == ModeHeader
    ensures ReadTlvsSpec(r, valid).result == Ok(map[Mode := U64(LittleEndian(r.data[r.pos + 4..r.pos + 12]))])
  {
    hide Decode;
    hide AddTo;
    hide ReadTlvsFrom;
    var acc := map[Mode := U64(LittleEndian(r.data[r.pos + 4..r.pos + 12]))];
    assert Empty[Mode := U64(LittleEndian(r.data[r.pos + 4..r.pos + 12]))] == acc;
    ReadModeFrom(r, Empty, valid);
    ReadTlvsErrors(r.(pos := r.pos + 12), acc, valid);
  }

  /** `read_error`: a `Mode` TLV whose payload is missing leaves `mode` absent, with success. */
  lemma ReadError(valid: TimestampCheck)
    ensures var s := ReadTlvsSpec(Open(ModeHeader), valid);
      s.result == Ok(Empty) && TlvGet(U64Field(s.result.value, Mode)).Err?
  {
    hide Decode;
    hide AddTo;
    var r := Open(ModeHeader);
    ReadTlvsStep(r, Empty, valid, 5, 8);
    var payload := Take(r.(pos := 4), 8);
    ConvertU64(Mode, payload, valid);
  }

  /** `read_mixed`: a `Mode` TLV, then a `Gid` TLV with a two-byte payload that fails. */
  lemma ReadMixedTlvs(m: seq<byte>, x: byte, y: byte, valid: TimestampCheck)
    requires |m| == 8
    ensures var s := ReadTlvsSpec(Open(ModeHeader + m + [7, 0, 2, 0, x, y]), valid);
      s.result == Ok(map[Mode := U64(LittleEndian(m))])
      && TlvGet(U64Field(s.result.value, Mode)) == Ok(LittleEndian(m))
      && TlvGet(U64Field(s.result.value, Gid)).Err?
  {
    hide Decode;
    hide AddTo;
    hide ReadTlvsFrom;
    hide LittleEndian;
    var d := ModeHeader + m + [7, 0, 2, 0, x, y];
    var r := Open(d);
    assert d[..4] == ModeHeader by {
      assert d[0] == 5 && d[1] == 0 && d[2] == 8 && d[3] == 0;
    }
    assert d[4..12] == m;
    assert r.data[r.pos..r.pos + 4] == d[..4] && r.data[r.pos + 4..r.pos + 12] == d[4..12];
    ReadModeFrom(r, Empty, valid);
    var acc := map[Mode := U64(LittleEndian(m))];
    assert Empty[Mode := U64(LittleEndian(m))] == acc;
    var r2 := r.(pos := 12);
    assert ReadTlvsSpec(r, valid) == ReadTlvsFrom(r2, acc, valid);
    assert d[12] == 7 && d[13] == 0 && d[14] == 2 && d[15] == 0;
    ReadTlvsStep(r2, acc, valid, 7, 2);
    var payload := Take(r2.(pos := 16), 2);
    ConvertU64(Gid, payload, valid);
    assert AddTo(acc, 7, payload, valid).result.Err?;
    assert ReadTlvsFrom(r2, acc, valid).result == Ok(acc);
    assert WellTyped(acc) && IsU64(Mode) && IsU64(Gid);
    assert U64Field(acc, Mode) == WSome(LittleEndian(m)) && U64Field(acc, Gid).WNone?;
  }
}
