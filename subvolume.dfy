/**
 * The file map of a subvolume being replayed, with its tombstones.
 *
 * A subvolume received in `overwrite` mode (a full send) starts empty, and removing a
 * file removes its key. A snapshot (an incremental send) only records changes, so
 * removing a file leaves a `None` tombstone that says the path was deleted.
 *
 * Each operation is specified twice over: by a function on `Subvolume` values, whose
 * contract states the error conditions and what changes; and by a method of the class
 * `SubvolumeInfo`, which updates its `files` in place and is proved to agree with
 * that function.
 */
module Subvolumes {
  import opened Io
  import opened Mixed
  import opened Model

  /** The record `add_file` stores: all times at the epoch, length and owners zero. */
  function NewFile(path: MixedString, filetype: FileType, mode: u64): FileInfo {
    FileInfo(path, mode, Epoch, Epoch, Epoch, 0, 0, 0, filetype)
  }

  /**
   * `add_file`: `path` now holds a fresh record, whatever it held before, including a
   * tombstone; no other path changes.
   */
  function AddFileSpec(s: Subvolume, path: MixedString, filetype: FileType, mode: u64): (r: Subvolume)
    ensures r.source == s.source && r.overwrite == s.overwrite
    ensures path in r.files && r.files[path].Some?
    ensures var info := r.files[path].value;
      info.filename == path && info.permissions == mode && info.filetype == filetype
      && info.length == 0 && info.userId == 0 && info.groupId == 0
      && info.modified == Epoch && info.accessed == Epoch && info.created == Epoch
    ensures r.files - {path} == s.files - {path}
  {
    s.(files := s.files[path := Some(NewFile(path, filetype, mode))])
  }

  /**
   * `del_file`: an absent path and a tombstone are errors; a live file is removed in
   * `overwrite` mode and replaced by a tombstone otherwise; no other path changes.
   */
  function DelFileSpec(s: Subvolume, path: MixedString): (r: IoResult<Subvolume>)
    ensures path !in s.files ==> r == Err(InvalidData(DeleteNotFound))
    ensures path in s.files && s.files[path].None? ==> r == Err(InvalidData(DeleteAlreadyDeleted))
    ensures r.Ok? <==> path in s.files && s.files[path].Some?
    ensures r.Ok? ==>
              r.value.source == s.source && r.value.overwrite == s.overwrite
              && r.value.files - {path} == s.files - {path}
              && (s.overwrite ==> path !in r.value.files)
              && (!s.overwrite ==> path in r.value.files && r.value.files[path].None?)
  {
    if path !in s.files then Err(InvalidData(DeleteNotFound))
    else if s.files[path].None? then Err(InvalidData(DeleteAlreadyDeleted))
    else if s.overwrite then Ok(s.(files := s.files - {path}))
    else Ok(s.(files := s.files[path := None]))
  }

  /** `get_file`: the entry at `path`, a tombstone included; an error exactly when there is none. */
  function GetFileSpec(s: Subvolume, path: MixedString): (r: IoResult<Option<FileInfo>>)
    ensures r.Ok? <==> path in s.files
    ensures r.Ok? ==> r.value == s.files[path]
    ensures r.Err? ==> r.error == InvalidData(AccessNotFound)
  {
    if path in s.files then Ok(s.files[path]) else Err(InvalidData(AccessNotFound))
  }

  /**
   * `pop_file`: the entry at `path`, a tombstone included, and the subvolume without
   * that key; an error exactly when there is none.
   */
  function PopFileSpec(s: Subvolume, path: MixedString): (r: IoResult<(Option<FileInfo>, Subvolume)>)
    ensures r.Ok? <==> path in s.files
    ensures r.Ok? ==>
              r.value.0 == s.files[path]
              && r.value.1.source == s.source && r.value.1.overwrite == s.overwrite
              && path !in r.value.1.files && r.value.1.files == s.files - {path}
    ensures r.Err? ==> r.error == InvalidData(RenameNotFound)
  {
    if path in s.files then Ok((s.files[path], s.(files := s.files - {path})))
    else Err(InvalidData(RenameNotFound))
  }

  /**
   * `copy_file`: `to` receives a copy of the entry at `from` renamed to `to`, a
   * tombstone copying as a tombstone; `from` and every other path keep their entries.
   * It fails, as `get_file` does, when `from` holds nothing.
   */
  function CopyFileSpec(s: Subvolume, from: MixedString, to: MixedString): (r: IoResult<Subvolume>)
    ensures r.Ok? <==> from in s.files
    ensures r.Err? ==> r.error == InvalidData(AccessNotFound)
    ensures r.Ok? ==>
              r.value.source == s.source && r.value.overwrite == s.overwrite
              && r.value.files - {to} == s.files - {to}
              && to in r.value.files
              && (s.files[from].None? ==> r.value.files[to].None?)
              && (s.files[from].Some? ==> r.value.files[to] == Some(s.files[from].value.(filename := to)))
  {
    match GetFileSpec(s, from)
    case Err(e) => Err(e)
    case Ok(entry) =>
      var renamed := if entry.Some? then Some(entry.value.(filename := to)) else None;
      Ok(s.(files := s.files[to := renamed]))
  }

  /**
   * `modify`: `f` updates the live file at `path` and its second component is the
   * result; an absent path and a tombstone are errors. Nothing but that one record
   * changes.
   */
  function ModifySpec<T>(s: Subvolume, path: MixedString, f: FileInfo -> (FileInfo, T)): (r: IoResult<(Subvolume, T)>)
    ensures path !in s.files ==> r == Err(InvalidData(ModifyNotFound))
    ensures path in s.files && s.files[path].None? ==> r == Err(InvalidData(ModifyDeleted))
    ensures r.Ok? <==> path in s.files && s.files[path].Some?
    ensures r.Ok? ==>
              var (info, t) := f(s.files[path].value);
              r.value.1 == t
              && r.value.0.source == s.source && r.value.0.overwrite == s.overwrite
              && r.value.0.files == s.files[path := Some(info)]
  {
    if path !in s.files then Err(InvalidData(ModifyNotFound))
    else match s.files[path]
      case None => Err(InvalidData(ModifyDeleted))
      case Some(info) =>
        var (info', t) := f(info);
        Ok((s.(files := s.files[path := Some(info')]), t))
  }

  // ---------------------------------------------------------------------------
  // How the operations combine

  /** Taking an entry out and putting it back where it was restores the map. */
  lemma PopRestore(s: Subvolume, path: MixedString)
    requires path in s.files
    ensures var p := PopFileSpec(s, path).value;
      p.1.(files := p.1.files[path := p.0]) == s
  {
    var p := PopFileSpec(s, path).value;
    assert p.1.files[path := p.0] == s.files;
  }

  /** A file just added can be read back, popped, copied and modified, and deleted. */
  lemma AddThenUse(s: Subvolume, path: MixedString, other: MixedString, filetype: FileType, mode: u64)
    ensures var a := AddFileSpec(s, path, filetype, mode);
      GetFileSpec(a, path) == Ok(Some(NewFile(path, filetype, mode)))
      && PopFileSpec(a, path) == Ok((Some(NewFile(path, filetype, mode)), s.(files := s.files - {path})))
      && CopyFileSpec(a, path, other).Ok?
      && DelFileSpec(a, path).Ok?
  {
    var a := AddFileSpec(s, path, filetype, mode);
    assert a.files - {path} == s.files - {path};
  }

  /**
   * In snapshot mode a deleted file stays deleted: a second delete, a modification
   * and a lookup all see the tombstone.
   */
  lemma SnapshotTombstone<T>(s: Subvolume, path: MixedString, f: FileInfo -> (FileInfo, T))
    requires !s.overwrite && path in s.files && s.files[path].Some?
    ensures var d := DelFileSpec(s, path).value;
      DelFileSpec(d, path) == Err(InvalidData(DeleteAlreadyDeleted))
      && ModifySpec(d, path, f) == Err(InvalidData(ModifyDeleted))
      && GetFileSpec(d, path) == Ok(None)
  {
  }

  /** In `overwrite` mode a deleted file is gone: a second delete finds nothing. */
  lemma OverwriteForgets<T>(s: Subvolume, path: MixedString, f: FileInfo -> (FileInfo, T))
    requires s.overwrite && path in s.files && s.files[path].Some?
    ensures var d := DelFileSpec(s, path).value;
      DelFileSpec(d, path) == Err(InvalidData(DeleteNotFound))
      && ModifySpec(d, path, f) == Err(InvalidData(ModifyNotFound))
      && GetFileSpec(d, path).Err?
      && d.files == s.files - {path}
  {
  }

  /** An update that returns its argument changes nothing. */
  lemma ModifyIdentity(s: Subvolume, path: MixedString)
    requires path in s.files && s.files[path].Some?
    ensures ModifySpec(s, path, (info: FileInfo) => (info, ())) == Ok((s, ()))
  {
    assert s.files[path := Some(s.files[path].value)] == s.files;
  }

  /** Copying a file onto another path leaves the original in place. */
  lemma CopyKeepsSource(s: Subvolume, from: MixedString, to: MixedString)
    requires from in s.files && from != to
    ensures var c := CopyFileSpec(s, from, to).value;
      from in c.files && c.files[from] == s.files[from]
  {
    var c := CopyFileSpec(s, from, to).value;
    assert from in s.files - {to};
    assert (c.files - {to})[from] == c.files[from];
  }

  // ---------------------------------------------------------------------------
  // The subvolume as the replay updates it

  /** What an operation that returns `()` did: the new state on success, no change on error. */
  predicate Applied(r: IoResult<()>, spec: IoResult<Subvolume>, before: Subvolume, after: Subvolume) {
    if spec.Ok? then r == Ok(()) && after == spec.value else r == Err(spec.error) && after == before
  }

  /** `SubvolumeInfo` with the operations of its `impl` in subvolume.rs. */
  class SubvolumeInfo {
    var source: SubvolumeSource
    var overwrite: bool
    var files: Files

    /** The subvolume as a value. */
    function Value(): Subvolume
      reads this
    {
      Subvolume(source, overwrite, files)
    }

    /** A subvolume with no files yet, as the Subvolume and Snapshot commands open one. */
    constructor (source: SubvolumeSource, overwrite: bool)
      ensures Value() == Subvolume(source, overwrite, map[])
    {
      this.source := source;
      this.overwrite := overwrite;
      this.files := map[];
    }

    method AddFile(path: MixedString, filetype: FileType, mode: u64) returns (r: IoResult<()>)
      modifies this
      ensures r == Ok(()) && Value() == AddFileSpec(old(Value()), path, filetype, mode)
    {
      files := files[path := Some(NewFile(path, filetype, mode))];
      r := Ok(());
    }

    method DelFile(path: MixedString) returns (r: IoResult<()>)
      modifies this
      ensures Applied(r, DelFileSpec(old(Value()), path), old(Value()), Value())
    {
      if path !in files {
        return Err(InvalidData(DeleteNotFound));
      }
      if files[path].None? {
        return Err(InvalidData(DeleteAlreadyDeleted));
      }
      if overwrite {
        files := files - {path};
      } else {
        files := files[path := None];
      }
      r := Ok(());
    }

    /**
     * `get_file`; the source hands out a mutable reference to the entry, and its one
     * caller clones it, so the model returns the entry itself.
     */
    method GetFile(path: MixedString) returns (r: IoResult<Option<FileInfo>>)
      modifies this
      ensures r == GetFileSpec(old(Value()), path) && Value() == old(Value())
    {
      LoadFile(path);
      if path in files {
        r := Ok(files[path]);
      } else {
        r := Err(InvalidData(AccessNotFound));
      }
    }

    method PopFile(path: MixedString) returns (r: IoResult<Option<FileInfo>>)
      modifies this
      ensures var p := PopFileSpec(old(Value()), path);
        if p.Ok? then r == Ok(p.value.0) && Value() == p.value.1
        else r == Err(p.error) && Value() == old(Value())
    {
      LoadFile(path);
      if path !in files {
        return Err(InvalidData(RenameNotFound));
      }
      r := Ok(files[path]);
      files := files - {path};
    }

    /**
     * `load_file` would fetch an older version of `path` from the database; that part
     * is not written, so in every mode it leaves the subvolume as it is.
     */
    method LoadFile(path: MixedString)
      modifies this
      ensures Value() == old(Value())
    {
      if overwrite {
        return;
      }
      if path in files {
        return;
      }
    }

    method CopyFile(from: MixedString, to: MixedString) returns (r: IoResult<()>)
      modifies this
      ensures Applied(r, CopyFileSpec(old(Value()), from, to), old(Value()), Value())
    {
      LoadFile(from);
      var got := GetFile(from);
      if got.Err? {
        return Err(got.error);
      }
      var entry := got.value;
      if entry.Some? {
        entry := Some(entry.value.(filename := to));
      }
      files := files[to := entry];
      r := Ok(());
    }

    method Modify<T>(path: MixedString, f: FileInfo -> (FileInfo, T)) returns (r: IoResult<T>)
      modifies this
      ensures var m := ModifySpec(old(Value()), path, f);
        if m.Ok? then r == Ok(m.value.1) && Value() == m.value.0
        else r == Err(m.error) && Value() == old(Value())
    {
      LoadFile(path);
      if path !in files {
        return Err(InvalidData(ModifyNotFound));
      }
      if files[path].None? {
        return Err(InvalidData(ModifyDeleted));
      }
      var (info, t) := f(files[path].value);
      files := files[path := Some(info)];
      r := Ok(t);
    }
  }
}
