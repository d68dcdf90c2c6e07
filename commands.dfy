/**
 * Send-stream commands (`btrfs_cmd_header` of the kernel's `fs/btrfs/send.h`: a
 * little-endian `u32` payload size, a `u16` command id and a `u32` checksum, then
 * `size` bytes of TLV attributes) and what replaying each one does to the parser's
 * state.
 *
 * The state is specified as a value, `Replay`; the class `Parser` in parser.dfy
 * updates its fields in place and is proved to agree with the functions here.
 */
module Commands {
  import opened Io
  import opened Mixed
  import opened Model
  import opened Tlv
  import opened Subvolumes
  import opened Utils

  datatype Command =
    | Subvolume | Snapshot | MkFile | MkDir | MkNod | MkFIFO | MkSock | Symlink
    | Rename | Link | Unlink | Rmdir | SetXattr | RemoveXattr | Clone
    | Chmod | Chown | Utimes | End | Unknown

  /** The command ids this decoder knows. */
  const KnownCommands: set<u16> := {1, 2, 3, 4, 5, 6, 7, 8, 9, 10, 11, 12, 13, 14, 16, 18, 19, 20, 21}

  /** The id of a known command. */
  function CommandId(c: Command): (id: u16)
    requires c != Command.Unknown
    ensures id in KnownCommands
  {
    match c
    case Subvolume => 1
    case Snapshot => 2
    case MkFile => 3
    case MkDir => 4
    case MkNod => 5
    case MkFIFO => 6
    case MkSock => 7
    case Symlink => 8
    case Rename => 9
    case Link => 10
    case Unlink => 11
    case Rmdir => 12
    case SetXattr => 13
    case RemoveXattr => 14
    case Clone => 16
    case Chmod => 18
    case Chown => 19
    case Utimes => 20
    case End => 21
  }

  /** `Command::new`: the command with id `id`, and `Unknown` for every other id. */
  function CommandOf(id: u16): (c: Command)
    ensures c == Command.Unknown <==> id !in KnownCommands
    ensures c != Command.Unknown ==> CommandId(c) == id
  {
    if id == 1 then Command.Subvolume
    else if id == 2 then Snapshot
    else if id == 3 then MkFile
    else if id == 4 then MkDir
    else if id == 5 then MkNod
    else if id == 6 then MkFIFO
    else if id == 7 then MkSock
    else if id == 8 then Command.Symlink
    else if id == 9 then Rename
    else if id == 10 then Link
    else if id == 11 then Unlink
    else if id == 12 then Rmdir
    else if id == 13 then SetXattr
    else if id == 14 then RemoveXattr
    else if id == 16 then Clone
    else if id == 18 then Chmod
    else if id == 19 then Chown
    else if id == 20 then Utimes
    else if id == 21 then End
    else Command.Unknown
  }

  /** Every known command is found again by its id: the table has no collision. */
  lemma CommandOfId(c: Command)
    requires c != Command.Unknown
    ensures CommandOf(CommandId(c)) == c
  {
  }

  /**
   * The parser's state: the subvolume being replayed, if any, the subvolumes closed so
   * far, and the number of commands whose attributes were read.
   */
  datatype Replay = Replay(current: Option<Model.Subvolume>, result: seq<Model.Subvolume>, commandNo: nat)

  /** `Parser::subvol`: the open subvolume, an error when there is none. */
  function Subvol(s: Replay): (r: IoResult<Model.Subvolume>)
    ensures r.Ok? <==> s.current.Some?
    ensures r.Ok? ==> r.value == s.current.value
    ensures r.Err? ==> r.error == InvalidData(NoSubvolume)
  {
    if s.current.Some? then Ok(s.current.value) else Err(InvalidData(NoSubvolume))
  }

  /** The state with `sv` as the open subvolume. */
  function Edit(s: Replay, sv: Model.Subvolume): Replay {
    s.(current := Some(sv))
  }

  /** A `u64` attribute, `u64::MAX` when absent, as `tlv_get_auto` fetches it. */
  function U64Or(t: Attrs, a: Attr): u64
    requires WellTyped(t) && IsU64(a)
  {
    if a in t then t[a].u64 else U64_MAX
  }

  /** A timestamp attribute, `def` when absent, as `tlv_get_def` fetches it. */
  function TimeOr(t: Attrs, a: Attr, def: DateTime): DateTime
    requires WellTyped(t) && IsTime(a)
  {
    if a in t then t[a].time else def
  }

  /** The error `tlv_get` reports for a missing attribute. */
  function Missing(a: Attr): IoError {
    InvalidData(MissingTlv(AttrId(a)))
  }

  /**
   * Subvolume (with `overwrite`) and Snapshot (without): open an empty subvolume
   * named by its UUID, `u128::MAX` when absent, exactly when none is open.
   */
  function OpenEffect(t: Attrs, s: Replay, overwrite: bool): (r: IoResult<Replay>)
    requires WellTyped(t)
    ensures r.Ok? <==> s.current.None?
    ensures r.Err? ==> r.error == InvalidData(if overwrite then NewSubvolumeWhileParsing else NewSnapshotWhileParsing)
    ensures r.Ok? ==>
              var uuid := if UUID in t then t[UUID].u128 else U128_MAX;
              r.value == s.(current := Some(Model.Subvolume(Btrfs(uuid), overwrite, map[])))
  {
    if s.current.Some? then
      Err(InvalidData(if overwrite then NewSubvolumeWhileParsing else NewSnapshotWhileParsing))
    else
      // `tlv_get_auto` never fails
      var uuid := TlvGetAuto128(U128Field(t)).value;
      Ok(s.(current := Some(Model.Subvolume(Btrfs(uuid), overwrite, map[]))))
  }

  /** The commands that create a file. */
  const MakeCommands: set<Command> := {MkFile, MkDir, MkNod, MkFIFO, MkSock, Command.Symlink}

  /** The file type a creating command records: every one but Symlink records a directory. */
  function MadeType(cmd: Command): FileType {
    if cmd == Command.Symlink then FileType.Symlink else Directory
  }

  /** The attributes a creating command requires: Path, and PathLink for Symlink. */
  predicate MakeAttrs(cmd: Command, t: Attrs) {
    Path in t && (cmd == Command.Symlink ==> PathLink in t)
  }

  /**
   * MkFile, MkDir, MkNod, MkFIFO, MkSock and Symlink add a fresh record at Path. The
   * nodes take their mode from Mode, `u64::MAX` when absent, the others mode 0; the
   * nodes also fetch Rdev with a default and Symlink requires PathLink, and neither
   * is used further.
   */
  function MakeEffect(cmd: Command, t: Attrs, s: Replay): (r: IoResult<Replay>)
    requires WellTyped(t) && cmd in MakeCommands
    ensures Path !in t ==> r == Err(Missing(Path))
    ensures Path in t && !MakeAttrs(cmd, t) ==> r == Err(Missing(PathLink))
    ensures MakeAttrs(cmd, t) && s.current.None? ==> r == Err(InvalidData(NoSubvolume))
    ensures r.Ok? <==> MakeAttrs(cmd, t) && s.current.Some?
    ensures r.Ok? ==>
              var mode := if cmd in {MkNod, MkFIFO, MkSock} then U64Or(t, Mode) else 0;
              r.value == Edit(s, AddFileSpec(s.current.value, t[Path].text, MadeType(cmd), mode))
  {
    var path :- TlvGet(TextField(t, Path));
    if cmd in {MkNod, MkFIFO, MkSock} then
      var mode := TlvGetAuto64(U64Field(t, Mode)).value;
      var sv :- Subvol(s);
      Ok(Edit(s, AddFileSpec(sv, path, Directory, mode)))
    else if cmd == Command.Symlink then
      var _ :- TlvGet(TextField(t, PathLink));
      var sv :- Subvol(s);
      Ok(Edit(s, AddFileSpec(sv, path, FileType.Symlink, 0)))
    else
      var sv :- Subvol(s);
      Ok(Edit(s, AddFileSpec(sv, path, Directory, 0)))
  }

  /**
   * Rename moves the entry at Path, tombstone or not, to PathTo and removes the Path
   * key; it fails when Path has no key.
   */
  function RenameEffect(t: Attrs, s: Replay): (r: IoResult<Replay>)
    requires WellTyped(t)
    ensures Path !in t ==> r == Err(Missing(Path))
    ensures Path in t && PathTo !in t ==> r == Err(Missing(PathTo))
    ensures Path in t && PathTo in t && s.current.None? ==> r == Err(InvalidData(NoSubvolume))
    ensures Path in t && PathTo in t && s.current.Some? ==>
              var files := s.current.value.files;
              var from := t[Path].text;
              var to := t[PathTo].text;
              (r.Ok? <==> from in files)
              && (r.Err? ==> r.error == InvalidData(RenameNotFound))
              && (r.Ok? ==> r.value == Edit(s, s.current.value.(files := (files - {from})[to := files[from]])))
  {
    var from :- TlvGet(TextField(t, Path));
    var to :- TlvGet(TextField(t, PathTo));
    var sv :- Subvol(s);
    var popped :- PopFileSpec(sv, from);
    Ok(Edit(s, popped.1.(files := popped.1.files[to := popped.0])))
  }

  /**
   * Link (to PathLink) and Clone (to ClonePath) copy the entry at Path with
   * `copy_file`. The open subvolume is looked up before the attributes are fetched.
   */
  function CopyEffect(t: Attrs, s: Replay, target: Attr): (r: IoResult<Replay>)
    requires WellTyped(t) && target in {PathLink, ClonePath}
    ensures s.current.None? ==> r == Err(InvalidData(NoSubvolume))
    ensures s.current.Some? && Path !in t ==> r == Err(Missing(Path))
    ensures s.current.Some? && Path in t && target !in t ==> r == Err(Missing(target))
    ensures s.current.Some? && Path in t && target in t ==>
              var c := CopyFileSpec(s.current.value, t[Path].text, t[target].text);
              r == if c.Ok? then Ok(Edit(s, c.value)) else Err(c.error)
  {
    var sv :- Subvol(s);
    var from :- TlvGet(TextField(t, Path));
    var to :- TlvGet(TextField(t, target));
    var copied :- CopyFileSpec(sv, from, to);
    Ok(Edit(s, copied))
  }

  /**
   * Unlink and Rmdir remove the Path key outright, whether it holds a file or a
   * tombstone and in either mode; they fail when Path has no key.
   */
  function UnlinkEffect(t: Attrs, s: Replay): (r: IoResult<Replay>)
    requires WellTyped(t)
    ensures Path !in t ==> r == Err(Missing(Path))
    ensures Path in t && s.current.None? ==> r == Err(InvalidData(NoSubvolume))
    ensures Path in t && s.current.Some? ==>
              var files := s.current.value.files;
              var path := t[Path].text;
              (r.Ok? <==> path in files)
              && (r.Err? ==> r.error == InvalidData(UnlinkNotFound))
              && (r.Ok? ==> r.value == Edit(s, s.current.value.(files := files - {path})))
  {
    var path :- TlvGet(TextField(t, Path));
    var sv :- Subvol(s);
    if path !in sv.files then Err(InvalidData(UnlinkNotFound))
    else Ok(Edit(s, sv.(files := sv.files - {path})))
  }

  /** The errors of `modify` on the open subvolume, when `path` holds no live file. */
  predicate ModifyFails(r: IoResult<Replay>, s: Replay, path: MixedString)
    requires s.current.Some?
  {
    var files := s.current.value.files;
    (path !in files ==> r == Err(InvalidData(ModifyNotFound)))
    && (path in files && files[path].None? ==> r == Err(InvalidData(ModifyDeleted)))
    && (r.Ok? <==> path in files && files[path].Some?)
  }

  /** Chmod sets the permissions of the live file at Path to Mode, `u64::MAX` when absent. */
  function ChmodEffect(t: Attrs, s: Replay): (r: IoResult<Replay>)
    requires WellTyped(t)
    ensures Path !in t ==> r == Err(Missing(Path))
    ensures Path in t && s.current.None? ==> r == Err(InvalidData(NoSubvolume))
    ensures Path in t && s.current.Some? ==>
              var files := s.current.value.files;
              var path := t[Path].text;
              ModifyFails(r, s, path)
              && (r.Ok? ==>
                    var info := files[path].value.(permissions := U64Or(t, Mode));
                    r.value == Edit(s, s.current.value.(files := files[path := Some(info)])))
  {
    var path :- TlvGet(TextField(t, Path));
    var mode := TlvGetAuto64(U64Field(t, Mode)).value;
    var sv :- Subvol(s);
    var m :- ModifySpec(sv, path, (info: FileInfo) => (info.(permissions := mode), ()));
    Ok(Edit(s, m.0))
  }

  /** Chown sets the owner and group of the live file at Path, each `u64::MAX` when absent. */
  function ChownEffect(t: Attrs, s: Replay): (r: IoResult<Replay>)
    requires WellTyped(t)
    ensures Path !in t ==> r == Err(Missing(Path))
    ensures Path in t && s.current.None? ==> r == Err(InvalidData(NoSubvolume))
    ensures Path in t && s.current.Some? ==>
              var files := s.current.value.files;
              var path := t[Path].text;
              ModifyFails(r, s, path)
              && (r.Ok? ==>
                    var info := files[path].value.(userId := U64Or(t, Uid), groupId := U64Or(t, Gid));
                    r.value == Edit(s, s.current.value.(files := files[path := Some(info)])))
  {
    var path :- TlvGet(TextField(t, Path));
    var user := TlvGetAuto64(U64Field(t, Uid)).value;
    var group := TlvGetAuto64(U64Field(t, Gid)).value;
    var sv :- Subvol(s);
    var m :- ModifySpec(sv, path, (info: FileInfo) => (info.(userId := user, groupId := group), ()));
    Ok(Edit(s, m.0))
  }

  /**
   * Utimes sets the access, creation and modification times of the live file at
   * Path from Atime, Ctime and Mtime, each `default_dt` when absent.
   */
  function UtimesEffect(t: Attrs, s: Replay, defaultDt: DateTime): (r: IoResult<Replay>)
    requires WellTyped(t)
    ensures Path !in t ==> r == Err(Missing(Path))
    ensures Path in t && s.current.None? ==> r == Err(InvalidData(NoSubvolume))
    ensures Path in t && s.current.Some? ==>
              var files := s.current.value.files;
              var path := t[Path].text;
              ModifyFails(r, s, path)
              && (r.Ok? ==>
                    var info := files[path].value.(accessed := TimeOr(t, Atime, defaultDt),
                                                   created := TimeOr(t, Ctime, defaultDt),
                                                   modified := TimeOr(t, Mtime, defaultDt));
                    r.value == Edit(s, s.current.value.(files := files[path := Some(info)])))
  {
    var path :- TlvGet(TextField(t, Path));
    // `tlv_get_def` never fails
    var accessed := TlvGetDef(TimeField(t, Atime), defaultDt).value;
    var created := TlvGetDef(TimeField(t, Ctime), defaultDt).value;
    var modified := TlvGetDef(TimeField(t, Mtime), defaultDt).value;
    var sv :- Subvol(s);
    var m :- ModifySpec(sv, path, (info: FileInfo) => (info.(accessed := accessed, created := created, modified := modified), ()));
    Ok(Edit(s, m.0))
  }

  /** End closes the open subvolume and appends it to the result; without one it fails. */
  function EndEffect(s: Replay): (r: IoResult<Replay>)
    ensures r.Ok? <==> s.current.Some?
    ensures r.Err? ==> r.error == InvalidData(EndWithoutSubvolume)
    ensures r.Ok? ==> r.value.current.None? && r.value.result == s.result + [s.current.value]
    ensures r.Ok? ==> r.value.commandNo == s.commandNo
  {
    if s.current.None? then Err(InvalidData(EndWithoutSubvolume))
    else Ok(s.(current := None, result := s.result + [s.current.value]))
  }

  /** The commands that edit the open subvolume's files. */
  const FileCommands: set<Command> :=
    {MkFile, MkDir, MkNod, MkFIFO, MkSock, Command.Symlink, Rename, Link, Unlink, Rmdir, Clone, Chmod, Chown, Utimes}

  /**
   * The dispatch of `read_command` once the attributes `t` are read: what command `cmd`
   * does to the state `s`. Every error leaves the state as it was; only End changes
   * the result, and the file commands keep the open subvolume's source and mode.
   */
  function Effect(cmd: Command, t: Attrs, s: Replay, defaultDt: DateTime): (r: IoResult<Replay>)
    requires WellTyped(t)
    ensures r.Ok? ==> r.value.commandNo == s.commandNo
    ensures r.Ok? && cmd != End ==> r.value.result == s.result
    ensures r.Ok? && cmd == End ==> s.current.Some? && r.value.result == s.result + [s.current.value]
    ensures r.Ok? && cmd in FileCommands ==>
              s.current.Some? && r.value.current.Some?
              && r.value.current.value.source == s.current.value.source
              && r.value.current.value.overwrite == s.current.value.overwrite
    ensures cmd in FileCommands && s.current.None? ==> r.Err?
    ensures cmd in {Command.Unknown, SetXattr, RemoveXattr} ==> r == Ok(s)
  {
    match cmd
    case Unknown => Ok(s)
    case Subvolume => OpenEffect(t, s, true)
    case Snapshot => OpenEffect(t, s, false)
    case MkFile | MkDir | MkNod | MkFIFO | MkSock | Symlink => MakeEffect(cmd, t, s)
    case Rename => RenameEffect(t, s)
    case Link => CopyEffect(t, s, PathLink)
    case Unlink | Rmdir => UnlinkEffect(t, s)
    case SetXattr | RemoveXattr => Ok(s)
    case Clone => CopyEffect(t, s, ClonePath)
    case Chmod => ChmodEffect(t, s)
    case Chown => ChownEffect(t, s)
    case Utimes => UtimesEffect(t, s, defaultDt)
    case End => EndEffect(s)
  }

  // ---------------------------------------------------------------------------
  // Framing

  /** A command frame: its id, its declared size and the attributes read from it. */
  datatype Frame = Frame(id: u16, size: u32, attrs: Attrs)

  /** The length of a command header: size, command id and checksum. */
  const HeaderLength: nat := 10

  /**
   * The framing part of `read_command`: no frame when the size field hits the end of
   * the input, an error when the id or the checksum is cut short, else the attributes
   * read from the next `size` bytes. The checksum is read and never checked. The
   * reader is left where the attribute list stopped, which can be before the end of
   * the `size` bytes.
   */
  function ReadFrame(r: Reader, valid: TimestampCheck): (c: Consumed<Option<Frame>>)
    requires r.Valid()
    ensures Advanced(r, c.reader)
    ensures c.result == Ok(None) <==> r.Remaining() < 4
    ensures c.result == Ok(None) ==> c.reader.pos == r.limit
    ensures c.result != Ok(None) ==> r.pos + 4 <= c.reader.pos
    ensures c.result.Err? ==> c.result.error == UnexpectedEof
    ensures 4 <= r.Remaining() < HeaderLength ==> c == Consumed(Err(UnexpectedEof), r.(pos := r.limit))
    ensures c.result.Ok? && c.result.value.Some? ==>
              var f := c.result.value.value;
              HeaderLength <= r.Remaining() && WellTyped(f.attrs)
              && f.size == LittleEndian(r.data[r.pos..r.pos + 4])
              && f.id == LittleEndian(r.data[r.pos + 4..r.pos + 6])
              && c.reader.pos <= r.pos + HeaderLength + f.size
  {
    var size := ReadU32(r);
    match TryRead(size.result)
    case Err(e) => Consumed(Err(e), size.reader)
    case Ok(None) => Consumed(Ok(None), size.reader)
    case Ok(Some(n)) =>
      var id := ReadU16(size.reader);
      match id.result
      case Err(e) => Consumed(Err(e), id.reader)
      case Ok(cmd) =>
        var checksum := ReadU32(id.reader);
        match checksum.result
        case Err(e) => Consumed(Err(e), checksum.reader)
        case Ok(_) =>
          var body := Take(checksum.reader, n);
          var tlvs := ReadTlvsSpec(body, valid);
          ReadTlvsErrors(body, Empty, valid);
          var after := Release(checksum.reader, tlvs.reader);
          match tlvs.result
          case Err(e) => Consumed(Err(e), after)
          case Ok(attrs) =>
            ReadTlvsWellTyped(body, Empty, valid);
            Consumed(Ok(Some(Frame(cmd, n, attrs))), after)
  }

  /** What `read_command` returned, the state after it and where the reader stands. */
  datatype Outcome = Outcome(result: IoResult<bool>, state: Replay, reader: Reader)

  /**
   * `Parser::read_command`: `Ok(false)` with nothing changed at the end of the input;
   * otherwise a frame is read, `command_no` counts it once its attributes are read,
   * and its command is applied. A failed command changes nothing but the count.
   */
  function ReadCommandSpec(s: Replay, r: Reader, valid: TimestampCheck, defaultDt: DateTime): (o: Outcome)
    requires r.Valid()
    ensures Advanced(r, o.reader) && o.reader == ReadFrame(r, valid).reader
    ensures o.result == Ok(false) <==> r.Remaining() < 4
    ensures o.result == Ok(false) ==> o.state == s && o.reader.pos == r.limit
    ensures o.result != Ok(false) ==> r.pos + 4 <= o.reader.pos
    ensures var f := ReadFrame(r, valid).result;
      o.state.commandNo == s.commandNo + (if f.Ok? && f.value.Some? then 1 else 0)
    ensures o.result.Err? ==> o.state == s.(commandNo := o.state.commandNo)
    ensures o.state.result == s.result || (s.current.Some? && o.state.result == s.result + [s.current.value])
  {
    var f := ReadFrame(r, valid);
    match f.result
    case Err(e) => Outcome(Err(e), s, f.reader)
    case Ok(None) => Outcome(Ok(false), s, f.reader)
    case Ok(Some(frame)) =>
      var counted := s.(commandNo := s.commandNo + 1);
      match Effect(CommandOf(frame.id), frame.attrs, counted, defaultDt)
      case Err(e) => Outcome(Err(e), counted, f.reader)
      case Ok(next) => Outcome(Ok(true), next, f.reader)
  }
}
