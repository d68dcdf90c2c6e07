/**
 * The send-stream parser: the stream header (`btrfs_stream_header` of the kernel's
 * `fs/btrfs/send.h`: the magic `btrfs-stream` with its terminating zero, then a
 * little-endian `u32` version, which must be 1), the loop that replays commands
 * until the input ends, and the `Parser` object the loop updates.
 */
module BtrfsParser {
  import opened Io
  import opened Mixed
  import opened Model
  import opened Utils
  import opened Tlv
  import opened Subvolumes
  import opened Commands

  /** `Settings`; nothing in the parser reads `bypass_errors`. */
  datatype Settings = Settings(bypassErrors: bool)

  /** `Settings::default` */
  function DefaultSettings(): (s: Settings)
    ensures !s.bypassErrors
  {
    Settings(false)
  }

  /** `btrfs-stream` and a zero byte. */
  const Magic: seq<byte> := [0x62, 0x74, 0x72, 0x66, 0x73, 0x2d, 0x73, 0x74, 0x72, 0x65, 0x61, 0x6d, 0x00]

  /** The length of the stream header: the magic and the version. */
  const StreamHeaderLength: nat := 17

  /** The stream header is accepted at `r`: the magic, then version 1. */
  ghost predicate HeaderOk(r: Reader)
    requires r.Valid()
  {
    StreamHeaderLength <= r.Remaining()
    && r.data[r.pos..r.pos + 13] == Magic
    && LittleEndian(r.data[r.pos + 13..r.pos + StreamHeaderLength]) == 1
  }

  /**
   * `Parser::read_header`: succeeds exactly on the magic followed by version 1, and
   * reports a short input, a wrong magic (with the bytes found) and a wrong version
   * (with its number), in that order.
   */
  function ReadHeader(r: Reader): (c: Consumed<()>)
    requires r.Valid()
    ensures Advanced(r, c.reader)
    ensures c.result.Ok? <==> HeaderOk(r)
    ensures c.result.Ok? ==> c.reader.pos == r.pos + StreamHeaderLength
    ensures r.Remaining() < 13 ==> c.result == Err(UnexpectedEof)
    ensures 13 <= r.Remaining() && r.data[r.pos..r.pos + 13] != Magic ==>
              c.result == Err(InvalidData(InvalidMagic(r.data[r.pos..r.pos + 13])))
    ensures 13 <= r.Remaining() < StreamHeaderLength && r.data[r.pos..r.pos + 13] == Magic ==>
              c.result == Err(UnexpectedEof)
    ensures StreamHeaderLength <= r.Remaining() && r.data[r.pos..r.pos + 13] == Magic
            && LittleEndian(r.data[r.pos + 13..r.pos + StreamHeaderLength]) != 1 ==>
              c.result == Err(InvalidData(InvalidVersion(LittleEndian(r.data[r.pos + 13..r.pos + StreamHeaderLength]))))
  {
    var magic := ReadExact(r, 13);
    match magic.result
    case Err(e) => Consumed(Err(e), magic.reader)
    case Ok(found) =>
      if found != Magic then Consumed(Err(InvalidData(InvalidMagic(found))), magic.reader)
      else
        var version := ReadU32(magic.reader);
        match version.result
        case Err(e) => Consumed(Err(e), version.reader)
        case Ok(v) =>
          if v != 1 then Consumed(Err(InvalidData(InvalidVersion(v))), version.reader)
          else Consumed(Ok(()), version.reader)
  }

  /**
   * The loop of `Parser::parse` from state `s` at reader `r`: replay commands until
   * `read_command` returns `Ok(false)`, skipping every command that fails. The result
   * only grows, and only by closed subvolumes.
   */
  function RunCommands(s: Replay, r: Reader, valid: TimestampCheck, defaultDt: DateTime): (f: Replay)
    requires r.Valid()
    ensures s.result <= f.result
    ensures s.commandNo <= f.commandNo
    ensures r.Remaining() < 4 ==> f == s
    decreases r.Remaining()
  {
    var o := ReadCommandSpec(s, r, valid, defaultDt);
    if o.result == Ok(false) then o.state
    else RunCommands(o.state, o.reader, valid, defaultDt)
  }

  /**
   * `Parser::parse` from state `s`: a bad header is the only error; after it every
   * command is replayed and the closed subvolumes are returned. A subvolume still
   * open at the end of the input is not returned.
   */
  function ParseFrom(s: Replay, data: seq<byte>, valid: TimestampCheck, defaultDt: DateTime): (r: IoResult<seq<Model.Subvolume>>)
    ensures r.Err? <==> !HeaderOk(Open(data))
    ensures r.Err? ==> r.error == ReadHeader(Open(data)).result.error
    ensures r.Ok? ==> s.result <= r.value
  {
    var header := ReadHeader(Open(data));
    match header.result
    case Err(e) => Err(e)
    case Ok(_) => Ok(RunCommands(s, header.reader, valid, defaultDt).result)
  }

  /** The state `Parser::new` starts from. */
  const Initial: Replay := Replay(None, [], 0)

  /** `Parser::new(settings).parse(data)` */
  function Parse(data: seq<byte>, valid: TimestampCheck): (r: IoResult<seq<Model.Subvolume>>)
    ensures r.Err? <==> !HeaderOk(Open(data))
  {
    ParseFrom(Initial, data, valid, DefaultDt)
  }

  /** The version field of a stream header: 1, little endian. */
  const Version1: seq<byte> := [1, 0, 0, 0]

  /** A stream that starts with the magic and version 1 passes the header check. */
  lemma HeaderAccepts(rest: seq<byte>)
    ensures var data := Magic + Version1 + rest;
      HeaderOk(Open(data))
      && ReadHeader(Open(data)) == Consumed(Ok(()), Reader(data, StreamHeaderLength, |data|))
  {
    var data := Magic + Version1 + rest;
    assert data[0..13] == Magic;
    assert data[13..17] == Version1;
    assert LittleEndian(Version1) == 1 by {
      assert Version1[1..][1..][1..][1..] == [];
    }
  }

  /** A command frame without attributes: size 0, then the id, then any checksum. */
  lemma EmptyFrame(r: Reader, valid: TimestampCheck)
    requires r.Valid() && HeaderLength <= r.Remaining()
    requires LittleEndian(r.data[r.pos..r.pos + 4]) == 0
    ensures ReadFrame(r, valid) ==
              Consumed(Ok(Some(Frame(LittleEndian(r.data[r.pos + 4..r.pos + 6]), 0, Empty))),
                       r.(pos := r.pos + HeaderLength))
  {
    ReadTlvsErrors(Take(r.(pos := r.pos + HeaderLength), 0), Empty, valid);
  }

  /** The bytes of a frame without attributes for the command `id` (below 256), with checksum `crc`. */
  function EmptyFrameBytes(id: byte, crc: seq<byte>): (b: seq<byte>)
    requires |crc| == 4
    ensures |b| == HeaderLength
  {
    [0, 0, 0, 0, id, 0] + crc
  }

  /** The bytes `EmptyFrameBytes(id, crc)` at `r` are read as a frame of command `id` without attributes. */
  lemma EmptyFrameAt(r: Reader, valid: TimestampCheck, id: byte, crc: seq<byte>)
    requires r.Valid() && |crc| == 4 && HeaderLength <= r.Remaining()
    requires r.data[r.pos..r.pos + HeaderLength] == EmptyFrameBytes(id, crc)
    ensures ReadFrame(r, valid) == Consumed(Ok(Some(Frame(id, 0, Empty))), r.(pos := r.pos + HeaderLength))
  {
    hide ReadFrame;
    var b := r.data[r.pos..r.pos + HeaderLength];
    assert b[0] == 0 && b[1] == 0 && b[2] == 0 && b[3] == 0 && b[4] == id && b[5] == 0;
    assert r.data[r.pos..r.pos + 4] == b[0..4];
    assert b[0..4] == [0, 0, 0, 0];
    assert LittleEndian([0, 0, 0, 0]) == 0 by {
      assert [0, 0, 0, 0][1..][1..][1..][1..] == [];
    }
    assert r.data[r.pos + 4..r.pos + 6] == b[4..6];
    assert b[4..6] == [id, 0];
    assert LittleEndian([id, 0]) == id by {
      assert [id, 0][1..][1..] == [];
    }
    EmptyFrame(r, valid);
  }

  /** Replaying the frame without attributes at `r`: what the command `id` does to `s`, counted. */
  lemma ReplayEmptyFrame(s: Replay, r: Reader, valid: TimestampCheck, defaultDt: DateTime, id: byte, crc: seq<byte>)
    requires r.Valid() && |crc| == 4 && HeaderLength <= r.Remaining()
    requires r.data[r.pos..r.pos + HeaderLength] == EmptyFrameBytes(id, crc)
    ensures var counted := s.(commandNo := s.commandNo + 1);
      var e := Effect(CommandOf(id), Empty, counted, defaultDt);
      RunCommands(s, r, valid, defaultDt) ==
        RunCommands(if e.Ok? then e.value else counted, r.(pos := r.pos + HeaderLength), valid, defaultDt)
  {
    hide Effect, ReadFrame, LittleEndian, EmptyFrameBytes;
    EmptyFrameAt(r, valid, id, crc);
    var counted := s.(commandNo := s.commandNo + 1);
    var e := Effect(CommandOf(id), Empty, counted, defaultDt);
    var o := ReadCommandSpec(s, r, valid, defaultDt);
    assert o == Outcome(if e.Ok? then Ok(true) else Err(e.error), if e.Ok? then e.value else counted,
                        r.(pos := r.pos + HeaderLength));
  }

  /** A Subvolume command without attributes opens an empty full send with the `u128::MAX` UUID. */
  lemma SubvolumeWithoutAttrs(s: Replay, defaultDt: DateTime)
    requires s.current.None?
    ensures Effect(Command.Subvolume, Empty, s, defaultDt) == Ok(s.(current := Some(Model.Subvolume(Btrfs(U128_MAX), true, map[]))))
  {
    assert Effect(Command.Subvolume, Empty, s, defaultDt) == OpenEffect(Empty, s, true);
  }

  /** End closes the open subvolume into the result, and fails when none is open. */
  lemma EndCloses(s: Replay, defaultDt: DateTime)
    ensures s.current.Some? ==> Effect(End, Empty, s, defaultDt) == Ok(s.(current := None, result := s.result + [s.current.value]))
    ensures s.current.None? ==> Effect(End, Empty, s, defaultDt).Err?
  {
    assert Effect(End, Empty, s, defaultDt) == EndEffect(s);
  }

  /** A stream holding nothing but the header parses to no subvolumes. */
  lemma ParseHeaderOnly(valid: TimestampCheck)
    ensures Parse(Magic + Version1, valid) == Ok([])
  {
    HeaderAccepts([]);
    assert Magic + Version1 + [] == Magic + Version1;
  }

  /**
   * A stream that opens a subvolume and ends it parses to that one subvolume: empty,
   * in `overwrite` mode and with the `u128::MAX` UUID of a Subvolume command without
   * attributes. The checksums play no part.
   */
  lemma ParseOpenEnd(valid: TimestampCheck, crc1: seq<byte>, crc2: seq<byte>)
    requires |crc1| == 4 && |crc2| == 4
    ensures Parse(Magic + Version1 + EmptyFrameBytes(1, crc1) + EmptyFrameBytes(21, crc2), valid)
            == Ok([Model.Subvolume(Btrfs(U128_MAX), true, map[])])
  {
    hide Effect, ReadFrame, ReadCommandSpec, RunCommands;
    var frames := EmptyFrameBytes(1, crc1) + EmptyFrameBytes(21, crc2);
    var data := Magic + Version1 + frames;
    assert data == Magic + Version1 + EmptyFrameBytes(1, crc1) + EmptyFrameBytes(21, crc2);
    HeaderAccepts(frames);
    var r := Reader(data, StreamHeaderLength, |data|);
    assert data[17..27] == EmptyFrameBytes(1, crc1);
    assert data[27..37] == EmptyFrameBytes(21, crc2);
    var sv := Model.Subvolume(Btrfs(U128_MAX), true, map[]);
    var started := Replay(Some(sv), [], 1);
    assert CommandOf(1) == Command.Subvolume && CommandOf(21) == End;
    SubvolumeWithoutAttrs(Initial.(commandNo := 1), DefaultDt);
    ReplayEmptyFrame(Initial, r, valid, DefaultDt, 1, crc1);
    assert RunCommands(Initial, r, valid, DefaultDt) == RunCommands(started, r.(pos := 27), valid, DefaultDt);
    EndCloses(started.(commandNo := 2), DefaultDt);
    ReplayEmptyFrame(started, r.(pos := 27), valid, DefaultDt, 21, crc2);
    assert RunCommands(started, r.(pos := 27), valid, DefaultDt) == Replay(None, [sv], 2);
    assert ReadHeader(Open(data)) == Consumed(Ok(()), r);
  }

  /** A subvolume the stream never ends is not returned. */
  lemma ParseOpenOnly(valid: TimestampCheck, crc: seq<byte>)
    requires |crc| == 4
    ensures Parse(Magic + Version1 + EmptyFrameBytes(2, crc), valid) == Ok([])
  {
    hide Effect, ReadFrame, ReadCommandSpec, RunCommands;
    var data := Magic + Version1 + EmptyFrameBytes(2, crc);
    HeaderAccepts(EmptyFrameBytes(2, crc));
    var r := Reader(data, StreamHeaderLength, |data|);
    assert data[17..27] == EmptyFrameBytes(2, crc);
    assert CommandOf(2) == Snapshot;
    ReplayEmptyFrame(Initial, r, valid, DefaultDt, 2, crc);
  }

  /** An End with no subvolume open fails, is skipped, and the parse goes on. */
  lemma ParseStrayEnd(valid: TimestampCheck, crc1: seq<byte>, crc2: seq<byte>, crc3: seq<byte>)
    requires |crc1| == 4 && |crc2| == 4 && |crc3| == 4
    ensures Parse(Magic + Version1 + EmptyFrameBytes(21, crc1) + EmptyFrameBytes(1, crc2) + EmptyFrameBytes(21, crc3), valid)
            == Ok([Model.Subvolume(Btrfs(U128_MAX), true, map[])])
  {
    hide Effect, ReadFrame, ReadCommandSpec, RunCommands;
    var frames := EmptyFrameBytes(21, crc1) + EmptyFrameBytes(1, crc2) + EmptyFrameBytes(21, crc3);
    var data := Magic + Version1 + frames;
    assert data == Magic + Version1 + EmptyFrameBytes(21, crc1) + EmptyFrameBytes(1, crc2) + EmptyFrameBytes(21, crc3);
    HeaderAccepts(frames);
    var r := Reader(data, StreamHeaderLength, |data|);
    assert data[17..27] == EmptyFrameBytes(21, crc1);
    assert data[27..37] == EmptyFrameBytes(1, crc2);
    assert data[37..47] == EmptyFrameBytes(21, crc3);
    var sv := Model.Subvolume(Btrfs(U128_MAX), true, map[]);
    var started := Replay(Some(sv), [], 2);
    assert CommandOf(1) == Command.Subvolume && CommandOf(21) == End;
    EndCloses(Initial.(commandNo := 1), DefaultDt);
    ReplayEmptyFrame(Initial, r, valid, DefaultDt, 21, crc1);
    assert RunCommands(Initial, r, valid, DefaultDt) == RunCommands(Initial.(commandNo := 1), r.(pos := 27), valid, DefaultDt);
    SubvolumeWithoutAttrs(Initial.(commandNo := 2), DefaultDt);
    ReplayEmptyFrame(Initial.(commandNo := 1), r.(pos := 27), valid, DefaultDt, 1, crc2);
    assert RunCommands(Initial.(commandNo := 1), r.(pos := 27), valid, DefaultDt) == RunCommands(started, r.(pos := 37), valid, DefaultDt);
    EndCloses(started.(commandNo := 3), DefaultDt);
    ReplayEmptyFrame(started, r.(pos := 37), valid, DefaultDt, 21, crc3);
    assert RunCommands(started, r.(pos := 37), valid, DefaultDt) == Replay(None, [sv], 3);
    assert ReadHeader(Open(data)) == Consumed(Ok(()), r);
  }

  /**
   * The framing half of `Parser::read_command`: the `u32` size (the end of the input
   * here is the end of the stream), the `u16` command, the `u32` checksum, which is
   * never checked, and the attributes read from exactly `size` bytes.
   */
  method ReadCommandFrame(r: Reader, valid: TimestampCheck) returns (frame: IoResult<Option<Frame>>, tlv: TLV?, rd: Reader)
    requires r.Valid()
    ensures frame == ReadFrame(r, valid).result && rd == ReadFrame(r, valid).reader
    ensures frame.Ok? && frame.value.Some? ==> tlv != null && fresh(tlv) && tlv.values == frame.value.value.attrs
  {
    hide ReadU16, ReadU32, TryRead, ReadTlvsFrom, Take, Release;
    tlv := null;
    var size := ReadU32(r);
    var n := TryRead(size.result);
    if n.Err? {
      return Err(n.error), tlv, size.reader;
    }
    if n.value.None? {
      return Ok(None), tlv, size.reader;
    }
    var id := ReadU16(size.reader);
    if id.result.Err? {
      return Err(id.result.error), tlv, id.reader;
    }
    var checksum := ReadU32(id.reader);
    if checksum.result.Err? {
      return Err(checksum.result.error), tlv, checksum.reader;
    }
    var body := Take(checksum.reader, n.value.value);
    var attrs, inner := ReadTlvs(body, valid);
    rd := Release(checksum.reader, inner);
    if attrs.Err? {
      return Err(attrs.error), tlv, rd;
    }
    tlv := attrs.value;
    frame := Ok(Some(Frame(id.result.value, n.value.value, tlv.values)));
  }

  /** `Parser`: the open subvolume, the closed ones and the command count. */
  class Parser {
    var currentSubvol: SubvolumeInfo?
    var result: seq<Model.Subvolume>
    var commandNo: nat
    const defaultDt: DateTime
    const settings: Settings

    /** The parser's state as a value. */
    function State(): Replay
      reads this, currentSubvol
    {
      Replay(if currentSubvol == null then None else Some(currentSubvol.Value()), result, commandNo)
    }

    /** `Parser::new`: no open subvolume, no result, no command yet. */
    constructor (settings: Settings)
      ensures State() == Initial && defaultDt == DefaultDt && this.settings == settings
    {
      currentSubvol := null;
      result := [];
      commandNo := 0;
      defaultDt := DefaultDt;
      this.settings := settings;
    }

    /** `Parser::subvol`: the open subvolume, an error exactly when there is none. */
    function Subvol(): (r: IoResult<SubvolumeInfo>)
      reads this
      ensures r.Ok? <==> currentSubvol != null
      ensures r.Ok? ==> r.value == currentSubvol
      ensures r.Err? ==> r.error == InvalidData(NoSubvolume)
    {
      if currentSubvol != null then Ok(currentSubvol) else Err(InvalidData(NoSubvolume))
    }

    /** Replay `r` for a command that only fails: the new state, or no change on an error. */
    twostate predicate Did(new res: IoResult<()>, new e: IoResult<Replay>)
      reads this, currentSubvol
    {
      (if e.Ok? then res == Ok(()) && State() == e.value else res == Err(e.error) && State() == old(State()))
      && (currentSubvol == null || currentSubvol == old(currentSubvol) || fresh(currentSubvol))
    }

    /** Subvolume and Snapshot. */
    method OpenSubvolume(t: Attrs, overwrite: bool) returns (res: IoResult<()>)
      requires WellTyped(t)
      modifies this
      ensures Did(res, OpenEffect(t, old(State()), overwrite))
    {
      if currentSubvol != null {
        return Err(InvalidData(if overwrite then NewSubvolumeWhileParsing else NewSnapshotWhileParsing));
      }
      var uuid := TlvGetAuto128(U128Field(t)).value;
      currentSubvol := new SubvolumeInfo(Btrfs(uuid), overwrite);
      res := Ok(());
    }

    /** MkFile, MkDir, MkNod, MkFIFO, MkSock and Symlink. */
    method MakeFile(cmd: Command, t: Attrs) returns (res: IoResult<()>)
      requires WellTyped(t) && cmd in MakeCommands
      modifies this, currentSubvol
      ensures Did(res, MakeEffect(cmd, t, old(State())))
    {
      var path :- TlvGet(TextField(t, Path));
      if cmd in {MkNod, MkFIFO, MkSock} {
        var mode := TlvGetAuto64(U64Field(t, Mode)).value;
        var rdev := TlvGetAuto64(U64Field(t, Rdev)).value;
        var sv :- Subvol();
        res := sv.AddFile(path, Directory, mode);
      } else if cmd == Command.Symlink {
        var from :- TlvGet(TextField(t, PathLink));
        var sv :- Subvol();
        res := sv.AddFile(path, FileType.Symlink, 0);
      } else {
        var sv :- Subvol();
        res := sv.AddFile(path, Directory, 0);
      }
    }

    method RenameFile(t: Attrs) returns (res: IoResult<()>)
      requires WellTyped(t)
      modifies this, currentSubvol
      ensures Did(res, RenameEffect(t, old(State())))
    {
      var from :- TlvGet(TextField(t, Path));
      var to :- TlvGet(TextField(t, PathTo));
      var sv :- Subvol();
      sv.LoadFile(from);
      var entry :- sv.PopFile(from);
      sv.files := sv.files[to := entry];
      res := Ok(());
    }

    /** Link and Clone. */
    method CopyEntry(t: Attrs, target: Attr) returns (res: IoResult<()>)
      requires WellTyped(t) && target in {PathLink, ClonePath}
      modifies this, currentSubvol
      ensures Did(res, CopyEffect(t, old(State()), target))
    {
      var sv :- Subvol();
      var from :- TlvGet(TextField(t, Path));
      var to :- TlvGet(TextField(t, target));
      res := sv.CopyFile(from, to);
    }

    /** Unlink and Rmdir. */
    method UnlinkFile(t: Attrs) returns (res: IoResult<()>)
      requires WellTyped(t)
      modifies this, currentSubvol
      ensures Did(res, UnlinkEffect(t, old(State())))
    {
      var path :- TlvGet(TextField(t, Path));
      var sv :- Subvol();
      sv.LoadFile(path);
      if path !in sv.files {
        return Err(InvalidData(UnlinkNotFound));
      }
      sv.files := sv.files - {path};
      res := Ok(());
    }

    method ChangeMode(t: Attrs) returns (res: IoResult<()>)
      requires WellTyped(t)
      modifies this, currentSubvol
      ensures Did(res, ChmodEffect(t, old(State())))
    {
      var path :- TlvGet(TextField(t, Path));
      var mode := TlvGetAuto64(U64Field(t, Mode)).value;
      var sv :- Subvol();
      var done :- sv.Modify(path, (info: FileInfo) => (info.(permissions := mode), ()));
      res := Ok(());
    }

    method ChangeOwner(t: Attrs) returns (res: IoResult<()>)
      requires WellTyped(t)
      modifies this, currentSubvol
      ensures Did(res, ChownEffect(t, old(State())))
    {
      var path :- TlvGet(TextField(t, Path));
      var user := TlvGetAuto64(U64Field(t, Uid)).value;
      var group := TlvGetAuto64(U64Field(t, Gid)).value;
      var sv :- Subvol();
      var done :- sv.Modify(path, (info: FileInfo) => (info.(userId := user, groupId := group), ()));
      res := Ok(());
    }

    method ChangeTimes(t: Attrs) returns (res: IoResult<()>)
      requires WellTyped(t)
      modifies this, currentSubvol
      ensures Did(res, UtimesEffect(t, old(State()), defaultDt))
    {
      var path :- TlvGet(TextField(t, Path));
      var accessed := TlvGetDef(TimeField(t, Atime), defaultDt).value;
      var created := TlvGetDef(TimeField(t, Ctime), defaultDt).value;
      var modified := TlvGetDef(TimeField(t, Mtime), defaultDt).value;
      var sv :- Subvol();
      var done :- sv.Modify(path, (info: FileInfo) => (info.(accessed := accessed, created := created, modified := modified), ()));
      res := Ok(());
    }

    method CloseSubvolume() returns (res: IoResult<()>)
      modifies this
      ensures Did(res, EndEffect(old(State())))
    {
      var sv := currentSubvol;
      currentSubvol := null;
      if sv == null {
        return Err(InvalidData(EndWithoutSubvolume));
      }
      result := result + [sv.Value()];
      res := Ok(());
    }

    /** The dispatch of `read_command` on the attributes `tlv`, proved to do what `Effect` says. */
    method Dispatch(cmd: Command, tlv: TLV) returns (res: IoResult<()>)
      requires WellTyped(tlv.values)
      modifies this, currentSubvol
      ensures Did(res, Effect(cmd, tlv.values, old(State()), defaultDt))
    {
      hide OpenEffect, MakeEffect, RenameEffect, CopyEffect, UnlinkEffect;
      hide ChmodEffect, ChownEffect, UtimesEffect, EndEffect;
      var t := tlv.values;
      match cmd {
        case Unknown => res := Ok(());
        case Subvolume => res := OpenSubvolume(t, true);
        case Snapshot => res := OpenSubvolume(t, false);
        case MkFile | MkDir | MkNod | MkFIFO | MkSock | Symlink => res := MakeFile(cmd, t);
        case Rename => res := RenameFile(t);
        case Link => res := CopyEntry(t, PathLink);
        case Unlink | Rmdir => res := UnlinkFile(t);
        case SetXattr | RemoveXattr => res := Ok(());
        case Clone => res := CopyEntry(t, ClonePath);
        case Chmod => res := ChangeMode(t);
        case Chown => res := ChangeOwner(t);
        case Utimes => res := ChangeTimes(t);
        case End => res := CloseSubvolume();
      }
    }

    /** `Parser::read_command`, proved to do what `ReadCommandSpec` says. */
    method ReadCommand(r: Reader, valid: TimestampCheck) returns (res: IoResult<bool>, rd: Reader)
      requires r.Valid()
      modifies this, currentSubvol
      ensures var o := ReadCommandSpec(old(State()), r, valid, defaultDt);
        res == o.result && rd == o.reader && State() == o.state
      ensures currentSubvol == null || currentSubvol == old(currentSubvol) || fresh(currentSubvol)
    {
      hide ReadFrame, Effect, LittleEndian;
      ghost var s0 := State();
      var frame, tlv, after := ReadCommandFrame(r, valid);
      rd := after;
      if frame.Err? {
        return Err(frame.error), rd;
      }
      if frame.value.None? {
        return Ok(false), rd;
      }
      commandNo := commandNo + 1;
      assert State() == s0.(commandNo := s0.commandNo + 1);
      var done := Dispatch(CommandOf(frame.value.value.id), tlv);
      if done.Err? {
        return Err(done.error), rd;
      }
      res := Ok(true);
    }

    /** `Parser::parse`, proved to do what `ParseFrom` says; the settings play no part. */
    method Parse(data: seq<byte>, valid: TimestampCheck) returns (res: IoResult<seq<Model.Subvolume>>)
      modifies this, currentSubvol
      ensures res == ParseFrom(old(State()), data, valid, defaultDt)
    {
      var header := ReadHeader(Open(data));
      if header.result.Err? {
        return Err(header.result.error);
      }
      var rd := header.reader;
      while true
        invariant rd.Valid() && rd.data == data
        invariant RunCommands(State(), rd, valid, defaultDt) == RunCommands(old(State()), header.reader, valid, defaultDt)
        invariant currentSubvol == null || currentSubvol == old(currentSubvol) || fresh(currentSubvol)
        decreases rd.Remaining()
      {
        var more, next := ReadCommand(rd, valid);
        if more == Ok(false) {
          break;
        }
        rd := next;
      }
      res := Ok(result);
    }
  }
}
