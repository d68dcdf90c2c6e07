/**
 * The older, monolithic parser in parser.rs, which the command-line program uses.
 *
 * Its tables, attribute decoding, `read_tlvs`, header check and `parse` loop are the
 * same as those of the split parser, and are shared with it here. It differs in its
 * `SubvolumeExt` implementation:
 *   - `load_file` aborts the program (`unimplemented!()`) when a snapshot does not hold
 *     the path yet, which makes Rename, Link, Clone, Unlink and Rmdir abort there;
 *   - `get_file` does not call `load_file`, and reports a missing path as a rename
 *     would;
 *   - `copy_file` stores the copy without renaming it.
 * `add_file`, `pop_file` and `modify` behave as the split versions do (the split
 * `load_file` changes nothing), so the methods of `SubvolumeInfo` stand for them.
 */
module Legacy {
  import opened Io
  import opened Mixed
  import opened Model
  import opened Tlv
  import opened Subvolumes
  import opened Commands
  import BtrfsParser

  /** How a call ends: it returns a value, or the program aborts in `unimplemented!()`. */
  datatype Exit<T> = Returned(value: T) | Aborted

  // ---------------------------------------------------------------------------
  // SubvolumeExt

  /** `load_file` returns (rather than aborting) exactly in this case. */
  predicate Loads(s: Model.Subvolume, path: MixedString) {
    s.overwrite || path in s.files
  }

  /**
   * The legacy `get_file`: the entry at `path`, a tombstone included; a missing path
   * is reported with the message of a failed rename.
   */
  function GetEntry(s: Model.Subvolume, path: MixedString): (r: IoResult<Option<FileInfo>>)
    ensures r.Ok? <==> path in s.files
    ensures r.Ok? ==> r.value == s.files[path]
    ensures r.Err? ==> r.error == InvalidData(RenameNotFound)
  {
    if path in s.files then Ok(s.files[path]) else Err(InvalidData(RenameNotFound))
  }

  /**
   * The legacy `copy_file`: abort unless `from` can be loaded, then copy the entry at
   * `from` to `to` as it is, its `filename` included.
   */
  function CopyAsIs(s: Model.Subvolume, from: MixedString, to: MixedString): (r: Exit<IoResult<Model.Subvolume>>)
    ensures r == Aborted <==> !s.overwrite && from !in s.files
    ensures r.Returned? ==> (r.value.Ok? <==> from in s.files)
    ensures r.Returned? && r.value.Err? ==> r.value.error == InvalidData(RenameNotFound)
    ensures r.Returned? && r.value.Ok? ==>
              r.value.value.source == s.source && r.value.value.overwrite == s.overwrite
              && r.value.value.files - {to} == s.files - {to}
              && to in r.value.value.files && r.value.value.files[to] == s.files[from]
  {
    if !Loads(s, from) then Aborted
    else match GetEntry(s, from)
      case Err(e) => Returned(Err(e))
      case Ok(entry) => Returned(Ok(s.(files := s.files[to := entry])))
  }

  /**
   * The two `copy_file`s agree on when they succeed, and on the map they leave
   * except at `to`, where the split one renames the copy.
   */
  lemma CopyAsIsAgrees(s: Model.Subvolume, from: MixedString, to: MixedString)
    requires Loads(s, from)
    ensures var legacy := CopyAsIs(s, from, to).value;
      var split := CopyFileSpec(s, from, to);
      (legacy.Ok? <==> split.Ok?)
      && (split.Ok? ==>
            split.value.files - {to} == legacy.value.files - {to}
            && (split.value.files[to].Some? <==> legacy.value.files[to].Some?)
            && (split.value.files[to].Some? ==> split.value.files[to] == Some(legacy.value.files[to].value.(filename := to))))
  {
  }

  /**
   * A record copied by the legacy `copy_file` keeps the name of its original, so a
   * link reads back under a path its record does not name.
   */
  lemma CopyAsIsKeepsName(s: Model.Subvolume, from: MixedString, to: MixedString)
    requires from in s.files && s.files[from].Some? && s.files[from].value.filename == from && from != to
    ensures var c := CopyAsIs(s, from, to).value.value;
      c.files[to].value.filename == from != to
      && CopyFileSpec(s, from, to).value.files[to].value.filename == to
  {
  }

  /** The legacy `load_file`: `true` when it returns, `false` when it aborts. */
  method LoadFile(sv: SubvolumeInfo, path: MixedString) returns (loaded: bool)
    ensures loaded <==> Loads(sv.Value(), path)
  {
    if sv.overwrite {
      return true;
    }
    if path in sv.files {
      return true;
    }
    // the program aborts here
    return false;
  }

  method GetFile(sv: SubvolumeInfo, path: MixedString) returns (r: IoResult<Option<FileInfo>>)
    ensures r == GetEntry(sv.Value(), path)
  {
    if path in sv.files {
      r := Ok(sv.files[path]);
    } else {
      r := Err(InvalidData(RenameNotFound));
    }
  }

  method CopyFile(sv: SubvolumeInfo, from: MixedString, to: MixedString) returns (r: Exit<IoResult<()>>)
    modifies sv
    ensures match CopyAsIs(old(sv.Value()), from, to)
      case Aborted => r == Aborted
      case Returned(c) => r == Returned(if c.Ok? then Ok(()) else Err(c.error))
                          && sv.Value() == (if c.Ok? then c.value else old(sv.Value()))
  {
    var loaded := LoadFile(sv, from);
    if !loaded {
      return Aborted;
    }
    var entry := GetFile(sv, from);
    if entry.Err? {
      return Returned(Err(entry.error));
    }
    sv.files := sv.files[to := entry.value];
    r := Returned(Ok(()));
  }

  // ---------------------------------------------------------------------------
  // The commands that differ

  /**
   * Rename: as in the split parser, except that it aborts when the open subvolume is
   * a snapshot that does not hold Path.
   */
  function RenameStep(t: Attrs, s: Replay): (r: Exit<IoResult<Replay>>)
    requires WellTyped(t)
    ensures r == Aborted <==>
              Path in t && PathTo in t && s.current.Some? && !Loads(s.current.value, t[Path].text)
    ensures r.Returned? ==> r.value == RenameEffect(t, s)
  {
    match TlvGet(TextField(t, Path))
    case Err(e) => Returned(Err(e))
    case Ok(from) =>
      match TlvGet(TextField(t, PathTo))
      case Err(e) => Returned(Err(e))
      case Ok(to) =>
        match Subvol(s)
        case Err(e) => Returned(Err(e))
        case Ok(sv) =>
          if !Loads(sv, from) then Aborted
          else
            match PopFileSpec(sv, from)
            case Err(e) => Returned(Err(e))
            case Ok(popped) => Returned(Ok(Edit(s, popped.1.(files := popped.1.files[to := popped.0]))))
  }

  /**
   * Link and Clone with the legacy `copy_file`: they abort when the open subvolume is
   * a snapshot that does not hold Path, and otherwise succeed exactly when the split
   * versions do.
   */
  function CopyStep(t: Attrs, s: Replay, target: Attr): (r: Exit<IoResult<Replay>>)
    requires WellTyped(t) && target in {PathLink, ClonePath}
    ensures r == Aborted <==>
              s.current.Some? && Path in t && target in t && !Loads(s.current.value, t[Path].text)
    ensures r.Returned? ==> (r.value.Ok? <==> CopyEffect(t, s, target).Ok?)
    ensures r.Returned? && r.value.Err? && CopyEffect(t, s, target).error != InvalidData(AccessNotFound) ==>
              r.value.error == CopyEffect(t, s, target).error
    ensures r.Returned? && r.value.Ok? ==>
              var sv := s.current.value;
              r.value.value == Edit(s, sv.(files := sv.files[t[target].text := sv.files[t[Path].text]]))
  {
    match Subvol(s)
    case Err(e) => Returned(Err(e))
    case Ok(sv) =>
      match TlvGet(TextField(t, Path))
      case Err(e) => Returned(Err(e))
      case Ok(from) =>
        match TlvGet(TextField(t, target))
        case Err(e) => Returned(Err(e))
        case Ok(to) =>
          match CopyAsIs(sv, from, to)
          case Aborted => Aborted
          case Returned(Err(e)) => Returned(Err(e))
          case Returned(Ok(copied)) => Returned(Ok(Edit(s, copied)))
  }

  /**
   * Unlink and Rmdir: as in the split parser, except that they abort when the open
   * subvolume is a snapshot that does not hold Path.
   */
  function UnlinkStep(t: Attrs, s: Replay): (r: Exit<IoResult<Replay>>)
    requires WellTyped(t)
    ensures r == Aborted <==> Path in t && s.current.Some? && !Loads(s.current.value, t[Path].text)
    ensures r.Returned? ==> r.value == UnlinkEffect(t, s)
  {
    match TlvGet(TextField(t, Path))
    case Err(e) => Returned(Err(e))
    case Ok(path) =>
      match Subvol(s)
      case Err(e) => Returned(Err(e))
      case Ok(sv) =>
        if !Loads(sv, path) then Aborted
        else if path !in sv.files then Returned(Err(InvalidData(UnlinkNotFound)))
        else Returned(Ok(Edit(s, sv.(files := sv.files - {path}))))
  }

  /** The commands whose legacy replay can abort. */
  const LoadingCommands: set<Command> := {Rename, Link, Unlink, Rmdir, Clone}

  /** The state is one the legacy parser never aborts in: no subvolume, or one in `overwrite` mode. */
  predicate FullSend(s: Replay) {
    s.current.None? || s.current.value.overwrite
  }

  /**
   * The dispatch of the legacy `read_command`. Only the commands that load a file can
   * abort, and only on a snapshot; every other command does what it does in the split
   * parser, and a Link or Clone that returns succeeds exactly when the split one does.
   */
  function Step(cmd: Command, t: Attrs, s: Replay, defaultDt: DateTime): (r: Exit<IoResult<Replay>>)
    requires WellTyped(t)
    ensures r == Aborted ==> cmd in LoadingCommands && !FullSend(s)
    ensures r.Returned? && cmd !in {Link, Clone} ==> r.value == Effect(cmd, t, s, defaultDt)
    ensures r.Returned? ==> (r.value.Ok? <==> Effect(cmd, t, s, defaultDt).Ok?)
    ensures r.Returned? && r.value.Ok? ==> r.value.value.commandNo == s.commandNo
    ensures FullSend(s) && cmd != Snapshot && r.Returned? && r.value.Ok? ==> FullSend(r.value.value)
  {
    match cmd
    case Rename => RenameStep(t, s)
    case Link => CopyStep(t, s, PathLink)
    case Unlink | Rmdir => UnlinkStep(t, s)
    case Clone => CopyStep(t, s, ClonePath)
    case _ => Returned(Effect(cmd, t, s, defaultDt))
  }

  /** Only the Snapshot command leaves a state the legacy parser can abort in. */
  lemma StepKeepsFullSend(cmd: Command, t: Attrs, s: Replay, defaultDt: DateTime)
    requires WellTyped(t) && FullSend(s) && cmd != Snapshot
    ensures Step(cmd, t, s, defaultDt).Returned?
    ensures Effect(cmd, t, s, defaultDt).Ok? ==> FullSend(Effect(cmd, t, s, defaultDt).value)
  {
    if cmd == Command.Subvolume {
      assert Effect(cmd, t, s, defaultDt) == OpenEffect(t, s, true);
    } else if cmd == End {
      assert Effect(cmd, t, s, defaultDt) == EndEffect(s);
    }
  }

  /** In a snapshot, an Unlink of a path the map does not hold aborts where the split parser reports an error. */
  lemma SnapshotUnlinkAborts(t: Attrs, s: Replay, defaultDt: DateTime)
    requires WellTyped(t) && Path in t && s.current.Some?
    requires !s.current.value.overwrite && t[Path].text !in s.current.value.files
    ensures Step(Unlink, t, s, defaultDt) == Aborted
    ensures Effect(Unlink, t, s, defaultDt) == Err(InvalidData(UnlinkNotFound))
  {
    assert Effect(Unlink, t, s, defaultDt) == UnlinkEffect(t, s);
  }

  // ---------------------------------------------------------------------------
  // read_command and parse

  /** The frame at `r` is a Link or a Clone, the commands the legacy parser replays differently. */
  predicate CopyFrame(r: Reader, valid: TimestampCheck)
    requires r.Valid()
  {
    var f := ReadFrame(r, valid).result;
    f.Ok? && f.value.Some? && CommandOf(f.value.value.id) in {Link, Clone}
  }

  /**
   * The legacy `read_command`: the framing and the count of the split one, with the
   * legacy dispatch. When it returns, it reads as much, counts as the split one and
   * succeeds when it does; apart from a Link or a Clone it is the split one.
   */
  function ReadCommandStep(s: Replay, r: Reader, valid: TimestampCheck, defaultDt: DateTime): (o: Exit<Outcome>)
    requires r.Valid()
    ensures o == Aborted ==> !FullSend(s)
    ensures o.Returned? ==>
              var split := ReadCommandSpec(s, r, valid, defaultDt);
              o.value.reader == split.reader && o.value.state.commandNo == split.state.commandNo
              && (o.value.result.Ok? <==> split.result.Ok?)
              && (o.value.result == Ok(false) <==> split.result == Ok(false))
    ensures o.Returned? && !CopyFrame(r, valid) ==> o.value == ReadCommandSpec(s, r, valid, defaultDt)
  {
    var f := ReadFrame(r, valid);
    match f.result
    case Err(e) => Returned(Outcome(Err(e), s, f.reader))
    case Ok(None) => Returned(Outcome(Ok(false), s, f.reader))
    case Ok(Some(frame)) =>
      var counted := s.(commandNo := s.commandNo + 1);
      match Step(CommandOf(frame.id), frame.attrs, counted, defaultDt)
      case Aborted => Aborted
      case Returned(Err(e)) => Returned(Outcome(Err(e), counted, f.reader))
      case Returned(Ok(next)) => Returned(Outcome(Ok(true), next, f.reader))
  }

  /** The loop of the legacy `parse`: as in the split parser, until the end of the input or an abort. */
  function RunSteps(s: Replay, r: Reader, valid: TimestampCheck, defaultDt: DateTime): (f: Exit<Replay>)
    requires r.Valid()
    ensures r.Remaining() < 4 ==> f == Returned(s)
    decreases r.Remaining()
  {
    match ReadCommandStep(s, r, valid, defaultDt)
    case Aborted => Aborted
    case Returned(o) =>
      if o.result == Ok(false) then Returned(o.state)
      else RunSteps(o.state, o.reader, valid, defaultDt)
  }

  /** The legacy `parse` from state `s`: the header check of the split one, then the legacy loop. */
  function ParseFrom(s: Replay, data: seq<byte>, valid: TimestampCheck, defaultDt: DateTime): (r: Exit<IoResult<seq<Model.Subvolume>>>)
    ensures r.Returned? && r.value.Err? <==> !BtrfsParser.HeaderOk(Open(data))
    ensures r.Returned? && r.value.Err? ==> r.value.error == BtrfsParser.ReadHeader(Open(data)).result.error
  {
    var header := BtrfsParser.ReadHeader(Open(data));
    match header.result
    case Err(e) => Returned(Err(e))
    case Ok(_) =>
      match RunSteps(s, header.reader, valid, defaultDt)
      case Aborted => Aborted
      case Returned(f) => Returned(Ok(f.result))
  }

  /** `Parser::new(settings).parse(data)` of the legacy parser. */
  function Parse(data: seq<byte>, valid: TimestampCheck): (r: Exit<IoResult<seq<Model.Subvolume>>>)
    ensures r.Returned? && r.value.Err? <==> !BtrfsParser.HeaderOk(Open(data))
  {
    ParseFrom(BtrfsParser.Initial, data, valid, DefaultDt)
  }

  /**
   * Every frame from `r` on, as the parse loop reads them, has a framing error or a
   * command outside `avoid`.
   */
  ghost predicate FramesAvoid(r: Reader, valid: TimestampCheck, avoid: set<Command>)
    requires r.Valid()
    decreases r.Remaining()
  {
    var f := ReadFrame(r, valid);
    f.result != Ok(None) ==>
      (f.result.Ok? ==> CommandOf(f.result.value.value.id) !in avoid)
      && FramesAvoid(f.reader, valid, avoid)
  }

  /** The frame at `r` is a Snapshot, the one command after which the legacy parser can abort. */
  predicate SnapshotFrame(r: Reader, valid: TimestampCheck)
    requires r.Valid()
  {
    var f := ReadFrame(r, valid).result;
    f.Ok? && f.value.Some? && CommandOf(f.value.value.id) == Snapshot
  }

  /** One command that is not a Snapshot, replayed in a full send, returns and keeps it one. */
  lemma ReadCommandKeepsFullSend(s: Replay, r: Reader, valid: TimestampCheck, defaultDt: DateTime)
    requires r.Valid() && FullSend(s) && !SnapshotFrame(r, valid)
    ensures ReadCommandStep(s, r, valid, defaultDt).Returned?
    ensures FullSend(ReadCommandStep(s, r, valid, defaultDt).value.state)
  {
    var f := ReadFrame(r, valid);
    if f.result.Ok? && f.result.value.Some? {
      var frame := f.result.value.value;
      StepKeepsFullSend(CommandOf(frame.id), frame.attrs, s.(commandNo := s.commandNo + 1), defaultDt);
    }
  }

  /** A stream without Snapshot commands never makes the legacy parser abort. */
  lemma {:induction false} NoSnapshotNoAbort(s: Replay, r: Reader, valid: TimestampCheck, defaultDt: DateTime)
    requires r.Valid() && FullSend(s) && FramesAvoid(r, valid, {Snapshot})
    ensures RunSteps(s, r, valid, defaultDt).Returned?
    ensures FullSend(RunSteps(s, r, valid, defaultDt).value)
    decreases r.Remaining()
  {
    hide ReadCommandStep, ReadCommandSpec, Step, Effect;
    ReadCommandKeepsFullSend(s, r, valid, defaultDt);
    var o := ReadCommandStep(s, r, valid, defaultDt).value;
    if o.result != Ok(false) {
      NoSnapshotNoAbort(o.state, o.reader, valid, defaultDt);
    }
  }

  /**
   * On a stream without Snapshot, Link and Clone commands the legacy loop replays
   * exactly what the split one does.
   */
  lemma {:induction false} LegacyAgrees(s: Replay, r: Reader, valid: TimestampCheck, defaultDt: DateTime)
    requires r.Valid() && FullSend(s) && FramesAvoid(r, valid, {Snapshot, Link, Clone})
    ensures RunSteps(s, r, valid, defaultDt) == Returned(BtrfsParser.RunCommands(s, r, valid, defaultDt))
    decreases r.Remaining()
  {
    hide ReadCommandStep, ReadCommandSpec, Step, Effect;
    ReadCommandKeepsFullSend(s, r, valid, defaultDt);
    var o := ReadCommandStep(s, r, valid, defaultDt).value;
    assert o == ReadCommandSpec(s, r, valid, defaultDt);
    if o.result != Ok(false) {
      LegacyAgrees(o.state, o.reader, valid, defaultDt);
    }
  }

  /** The legacy parser returns what the split one does on a stream without snapshots and copies. */
  lemma ParseAgrees(data: seq<byte>, valid: TimestampCheck)
    requires BtrfsParser.HeaderOk(Open(data))
    requires FramesAvoid(BtrfsParser.ReadHeader(Open(data)).reader, valid, {Snapshot, Link, Clone})
    ensures Parse(data, valid) == Returned(BtrfsParser.Parse(data, valid))
  {
    LegacyAgrees(BtrfsParser.Initial, BtrfsParser.ReadHeader(Open(data)).reader, valid, DefaultDt);
  }

  // ---------------------------------------------------------------------------
  // The legacy parser object

  /** The legacy `Parser`: the open subvolume, the closed ones and the command count. */
  class Parser {
    var currentSubvol: SubvolumeInfo?
    var result: seq<Model.Subvolume>
    var commandNo: nat
    const defaultDt: DateTime
    const settings: BtrfsParser.Settings

    /** The parser's state as a value. */
    function State(): Replay
      reads this, currentSubvol
    {
      Replay(if currentSubvol == null then None else Some(currentSubvol.Value()), result, commandNo)
    }

    /** `Parser::new`: no open subvolume, no result, no command yet. */
    constructor (settings: BtrfsParser.Settings)
      ensures State() == BtrfsParser.Initial && defaultDt == DefaultDt && this.settings == settings
    {
      currentSubvol := null;
      result := [];
      commandNo := 0;
      defaultDt := DefaultDt;
      this.settings := settings;
    }

    /** `Parser::subvol`: the open subvolume, an error exactly when there is none. */
    function Subvol(): (r: IoResult<SubvolumeInfo>)
      reads this
      ensures r.Ok? <==> currentSubvol != null
      ensures r.Ok? ==> r.value == currentSubvol
      ensures r.Err? ==> r.error == InvalidData(NoSubvolume)
    {
      if currentSubvol != null then Ok(currentSubvol) else Err(InvalidData(NoSubvolume))
    }

    /**
     * Replay `e` for a command: an abort where `e` aborts, else the new state, or no
     * change on an error.
     */
    twostate predicate Did(new res: Exit<IoResult<()>>, new e: Exit<IoResult<Replay>>)
      reads this, currentSubvol
    {
      (match e
       case Aborted => res == Aborted
       case Returned(v) =>
         if v.Ok? then res == Returned(Ok(())) && State() == v.value
         else res == Returned(Err(v.error)) && State() == old(State()))
      && (currentSubvol == null || currentSubvol == old(currentSubvol) || fresh(currentSubvol))
    }

    /** Subvolume and Snapshot. */
    method OpenSubvolume(t: Attrs, overwrite: bool) returns (res: IoResult<()>)
      requires WellTyped(t)
      modifies this
      ensures Did(Returned(res), Returned(OpenEffect(t, old(State()), overwrite)))
    {
      if currentSubvol != null {
        return Err(InvalidData(if overwrite then NewSubvolumeWhileParsing else NewSnapshotWhileParsing));
      }
      var uuid := TlvGetAuto128(U128Field(t)).value;
      currentSubvol := new SubvolumeInfo(Btrfs(uuid), overwrite);
      res := Ok(());
    }

    /** MkFile, MkDir, MkNod, MkFIFO, MkSock and Symlink. */
    method MakeFile(cmd: Command, t: Attrs) returns (res: IoResult<()>)
      requires WellTyped(t) && cmd in MakeCommands
      modifies this, currentSubvol
      ensures Did(Returned(res), Returned(MakeEffect(cmd, t, old(State()))))
    {
      var path :- TlvGet(TextField(t, Path));
      if cmd in {MkNod, MkFIFO, MkSock} {
        var mode := TlvGetAuto64(U64Field(t, Mode)).value;
        var rdev := TlvGetAuto64(U64Field(t, Rdev)).value;
        var sv :- Subvol();
        res := sv.AddFile(path, Directory, mode);
      } else if cmd == Command.Symlink {
        var from :- TlvGet(TextField(t, PathLink));
        var sv :- Subvol();
        res := sv.AddFile(path, FileType.Symlink, 0);
      } else {
        var sv :- Subvol();
        res := sv.AddFile(path, Directory, 0);
      }
    }

    method RenameFile(t: Attrs) returns (res: Exit<IoResult<()>>)
      requires WellTyped(t)
      modifies this, currentSubvol
      ensures Did(res, RenameStep(t, old(State())))
    {
      var from := TlvGet(TextField(t, Path));
      if from.Err? {
        return Returned(Err(from.error));
      }
      var to := TlvGet(TextField(t, PathTo));
      if to.Err? {
        return Returned(Err(to.error));
      }
      var sv := Subvol();
      if sv.Err? {
        return Returned(Err(sv.error));
      }
      var loaded := LoadFile(sv.value, from.value);
      if !loaded {
        return Aborted;
      }
      var entry := sv.value.PopFile(from.value);
      if entry.Err? {
        return Returned(Err(entry.error));
      }
      sv.value.files := sv.value.files[to.value := entry.value];
      res := Returned(Ok(()));
    }

    /** Link and Clone. */
    method CopyEntry(t: Attrs, target: Attr) returns (res: Exit<IoResult<()>>)
      requires WellTyped(t) && target in {PathLink, ClonePath}
      modifies this, currentSubvol
      ensures Did(res, CopyStep(t, old(State()), target))
    {
      var sv := Subvol();
      if sv.Err? {
        return Returned(Err(sv.error));
      }
      var from := TlvGet(TextField(t, Path));
      if from.Err? {
        return Returned(Err(from.error));
      }
      var to := TlvGet(TextField(t, target));
      if to.Err? {
        return Returned(Err(to.error));
      }
      res := CopyFile(sv.value, from.value, to.value);
    }

    /** Unlink and Rmdir. */
    method UnlinkFile(t: Attrs) returns (res: Exit<IoResult<()>>)
      requires WellTyped(t)
      modifies this, currentSubvol
      ensures Did(res, UnlinkStep(t, old(State())))
    {
      var path := TlvGet(TextField(t, Path));
      if path.Err? {
        return Returned(Err(path.error));
      }
      var sv := Subvol();
      if sv.Err? {
        return Returned(Err(sv.error));
      }
      var loaded := LoadFile(sv.value, path.value);
      if !loaded {
        return Aborted;
      }
      if path.value !in sv.value.files {
        return Returned(Err(InvalidData(UnlinkNotFound)));
      }
      sv.value.files := sv.value.files - {path.value};
      res := Returned(Ok(()));
    }

    method ChangeMode(t: Attrs) returns (res: IoResult<()>)
      requires WellTyped(t)
      modifies this, currentSubvol
      ensures Did(Returned(res), Returned(ChmodEffect(t, old(State()))))
    {
      var path :- TlvGet(TextField(t, Path));
      var mode := TlvGetAuto64(U64Field(t, Mode)).value;
      var sv :- Subvol();
      var done :- sv.Modify(path, (info: FileInfo) => (info.(permissions := mode), ()));
      res := Ok(());
    }

    method ChangeOwner(t: Attrs) returns (res: IoResult<()>)
      requires WellTyped(t)
      modifies this, currentSubvol
      ensures Did(Returned(res), Returned(ChownEffect(t, old(State()))))
    {
      var path :- TlvGet(TextField(t, Path));
      var user := TlvGetAuto64(U64Field(t, Uid)).value;
      var group := TlvGetAuto64(U64Field(t, Gid)).value;
      var sv :- Subvol();
      var done :- sv.Modify(path, (info: FileInfo) => (info.(userId := user, groupId := group), ()));
      res := Ok(());
    }

    method ChangeTimes(t: Attrs) returns (res: IoResult<()>)
      requires WellTyped(t)
      modifies this, currentSubvol
      ensures Did(Returned(res), Returned(UtimesEffect(t, old(State()), defaultDt)))
    {
      var path :- TlvGet(TextField(t, Path));
      var accessed := TlvGetDef(TimeField(t, Atime), defaultDt).value;
      var created := TlvGetDef(TimeField(t, Ctime), defaultDt).value;
      var modified := TlvGetDef(TimeField(t, Mtime), defaultDt).value;
      var sv :- Subvol();
      var done :- sv.Modify(path, (info: FileInfo) => (info.(accessed := accessed, created := created, modified := modified), ()));
      res := Ok(());
    }

    method CloseSubvolume() returns (res: IoResult<()>)
      modifies this
      ensures Did(Returned(res), Returned(EndEffect(old(State()))))
    {
      var sv := currentSubvol;
      currentSubvol := null;
      if sv == null {
        return Err(InvalidData(EndWithoutSubvolume));
      }
      result := result + [sv.Value()];
      res := Ok(());
    }

    /** The dispatch of the legacy `read_command`, proved to do what `Step` says. */
    /** The commands the legacy dispatch shares with the split parser. */
    method DispatchShared(cmd: Command, tlv: TLV) returns (done: IoResult<()>)
      requires WellTyped(tlv.values) && cmd !in {Rename, Link, Unlink, Rmdir, Clone}
      modifies this, currentSubvol
      ensures Did(Returned(done), Returned(Effect(cmd, tlv.values, old(State()), defaultDt)))
    {
      hide OpenEffect, MakeEffect, ChmodEffect, ChownEffect, UtimesEffect, EndEffect;
      var t := tlv.values;
      match cmd {
        case Unknown => done := Ok(());
        case Subvolume => done := OpenSubvolume(t, true);
        case Snapshot => done := OpenSubvolume(t, false);
        case MkFile | MkDir | MkNod | MkFIFO | MkSock | Symlink => done := MakeFile(cmd, t);
        case SetXattr | RemoveXattr => done := Ok(());
        case Chmod => done := ChangeMode(t);
        case Chown => done := ChangeOwner(t);
        case Utimes => done := ChangeTimes(t);
        case End => done := CloseSubvolume();
      }
    }

    method Dispatch(cmd: Command, tlv: TLV) returns (res: Exit<IoResult<()>>)
      requires WellTyped(tlv.values)
      modifies this, currentSubvol
      ensures Did(res, Step(cmd, tlv.values, old(State()), defaultDt))
    {
      hide Effect, RenameStep, CopyStep, UnlinkStep;
      var t := tlv.values;
      ghost var s0 := State();
      match cmd {
        case Rename =>
          assert Step(cmd, t, s0, defaultDt) == RenameStep(t, s0);
          res := RenameFile(t);
        case Link =>
          assert Step(cmd, t, s0, defaultDt) == CopyStep(t, s0, PathLink);
          res := CopyEntry(t, PathLink);
        case Unlink | Rmdir =>
          assert Step(cmd, t, s0, defaultDt) == UnlinkStep(t, s0);
          res := UnlinkFile(t);
        case Clone =>
          assert Step(cmd, t, s0, defaultDt) == CopyStep(t, s0, ClonePath);
          res := CopyEntry(t, ClonePath);
        case _ =>
          assert Step(cmd, t, s0, defaultDt) == Returned(Effect(cmd, t, s0, defaultDt));
          var done := DispatchShared(cmd, tlv);
          res := Returned(done);
      }
    }

    /** The legacy `read_command`, proved to do what `ReadCommandStep` says. */
    method ReadCommand(r: Reader, valid: TimestampCheck) returns (res: Exit<IoResult<bool>>, rd: Reader)
      requires r.Valid()
      modifies this, currentSubvol
      ensures match ReadCommandStep(old(State()), r, valid, defaultDt)
        case Aborted => res == Aborted
        case Returned(o) => res == Returned(o.result) && rd == o.reader && State() == o.state
      ensures currentSubvol == null || currentSubvol == old(currentSubvol) || fresh(currentSubvol)
    {
      hide ReadFrame, Step, LittleEndian, Effect, ReadCommandSpec;
      ghost var s0 := State();
      var frame, tlv, after := BtrfsParser.ReadCommandFrame(r, valid);
      rd := after;
      if frame.Err? {
        return Returned(Err(frame.error)), rd;
      }
      if frame.value.None? {
        return Returned(Ok(false)), rd;
      }
      ghost var counted := s0.(commandNo := s0.commandNo + 1);
      ghost var step := Step(CommandOf(frame.value.value.id), frame.value.value.attrs, counted, defaultDt);
      assert ReadCommandStep(s0, r, valid, defaultDt) ==
        match step
        case Aborted => Aborted
        case Returned(Err(e)) => Returned(Outcome(Err(e), counted, rd))
        case Returned(Ok(next)) => Returned(Outcome(Ok(true), next, rd));
      commandNo := commandNo + 1;
      assert State() == counted;
      var done := Dispatch(CommandOf(frame.value.value.id), tlv);
      if done.Aborted? {
        return Aborted, rd;
      }
      if done.value.Err? {
        return Returned(Err(done.value.error)), rd;
      }
      res := Returned(Ok(true));
    }

    /** The legacy `Parser::parse`, proved to do what `ParseFrom` says. */
    method Parse(data: seq<byte>, valid: TimestampCheck) returns (res: Exit<IoResult<seq<Model.Subvolume>>>)
      modifies this, currentSubvol
      ensures res == ParseFrom(old(State()), data, valid, defaultDt)
    {
      var header := BtrfsParser.ReadHeader(Open(data));
      if header.result.Err? {
        return Returned(Err(header.result.error));
      }
      var rd := header.reader;
      while true
        invariant rd.Valid() && rd.data == data
        invariant RunSteps(State(), rd, valid, defaultDt) == RunSteps(old(State()), header.reader, valid, defaultDt)
        invariant currentSubvol == null || currentSubvol == old(currentSubvol) || fresh(currentSubvol)
        decreases rd.Remaining()
      {
        var more, next := ReadCommand(rd, valid);
        if more == Aborted {
          return Aborted;
        }
        if more == Returned(Ok(false)) {
          break;
        }
        rd := next;
      }
      res := Returned(Ok(result));
    }
  }
}
