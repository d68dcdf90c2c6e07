/**
 * The records the decoders produce: file types, timestamps, per-file metadata and
 * the source of a subvolume.
 *
 * A `chrono::NaiveDateTime` is modelled by the Unix timestamp it was built from,
 * seconds and nanoseconds. Whether `NaiveDateTime::from_timestamp_opt` accepts a pair
 * is chrono's calendar arithmetic; it enters the model as a `TimestampCheck`, a
 * predicate the caller supplies.
 */
module Model {
  import opened Io
  import opened Mixed

  datatype FileType =
    | File
    | Directory
    | Symlink
    | BlockDevice
    | CharDevice
    | Fifo
    | Socket
    | Unknown

  /** `FileType::to_num`: the enum discriminant, `Unknown` taking the next one. */
  function ToNum(t: FileType): (n: nat)
    ensures n < 8
    ensures n == 7 <==> t == Unknown
  {
    match t
    case File => 0
    case Directory => 1
    case Symlink => 2
    case BlockDevice => 3
    case CharDevice => 4
    case Fifo => 5
    case Socket => 6
    case Unknown => 7
  }

  /** The file type with discriminant `n`. */
  function FromNum(n: nat): (t: Option<FileType>)
    ensures t.Some? <==> n < 8
  {
    if n == 0 then Some(File)
    else if n == 1 then Some(Directory)
    else if n == 2 then Some(Symlink)
    else if n == 3 then Some(BlockDevice)
    else if n == 4 then Some(CharDevice)
    else if n == 5 then Some(Fifo)
    else if n == 6 then Some(Socket)
    else if n == 7 then Some(Unknown)
    else None
  }

  /** Discriminants identify the type: `to_num` is injective and `FromNum` undoes it. */
  lemma ToNumInjective(a: FileType, b: FileType)
    ensures FromNum(ToNum(a)) == Some(a)
    ensures ToNum(a) == ToNum(b) ==> a == b
  {
    assert FromNum(ToNum(b)) == Some(b);
  }

  /** Every discriminant below 8 is used. */
  lemma ToNumOnto(n: nat)
    requires n < 8
    ensures ToNum(FromNum(n).value) == n
  {
  }

  /** The answers of the `std::fs::FileType` queries. */
  datatype FsFileType = FsFileType(
    isDir: bool, isFile: bool, isSymlink: bool,
    isBlockDevice: bool, isCharDevice: bool, isFifo: bool, isSocket: bool)

  /**
   * `From<fs::FileType>`: the first query that answers yes, in the order directory,
   * file, symlink, block device, character device, FIFO, socket.
   */
  function FromFs(t: FsFileType): (r: FileType)
    ensures r == Directory <==> t.isDir
    ensures r == File <==> !t.isDir && t.isFile
    ensures r == Symlink <==> !t.isDir && !t.isFile && t.isSymlink
    ensures r == BlockDevice <==> !t.isDir && !t.isFile && !t.isSymlink && t.isBlockDevice
    ensures r == CharDevice <==>
              !t.isDir && !t.isFile && !t.isSymlink && !t.isBlockDevice && t.isCharDevice
    ensures r == Fifo <==>
              !t.isDir && !t.isFile && !t.isSymlink && !t.isBlockDevice && !t.isCharDevice && t.isFifo
    ensures r == Socket <==>
              !t.isDir && !t.isFile && !t.isSymlink && !t.isBlockDevice && !t.isCharDevice
              && !t.isFifo && t.isSocket
  {
    if t.isDir then Directory
    else if t.isFile then File
    else if t.isSymlink then Symlink
    else if t.isBlockDevice then BlockDevice
    else if t.isCharDevice then CharDevice
    else if t.isFifo then Fifo
    else if t.isSocket then Socket
    else Unknown
  }

  /** `FromFs` says `Unknown` exactly when every query answers no. */
  lemma FromFsUnknown(t: FsFileType)
    ensures FromFs(t) == Unknown <==>
              !(t.isDir || t.isFile || t.isSymlink || t.isBlockDevice || t.isCharDevice || t.isFifo || t.isSocket)
  {
  }

  /** A `NaiveDateTime`, by its Unix timestamp. */
  datatype DateTime = DateTime(secs: int, nanos: int)

  /** `NaiveDateTime::from_timestamp_opt` accepts the pair (seconds, nanoseconds). */
  type TimestampCheck = (i64, u32) -> bool

  /** `NaiveDateTime::from_timestamp(0, 0)`, the times of a newly created file. */
  const Epoch: DateTime := DateTime(0, 0)

  /**
   * The parser's `default_dt`, 99999-12-31 23:58:59: 35804721 days after the epoch,
   * plus 23 hours, 58 minutes and 59 seconds.
   */
  const DefaultDt: DateTime := DateTime(35804721 * 86400 + 23 * 3600 + 58 * 60 + 59, 0)

  datatype FileInfo = FileInfo(
    filename: MixedString,
    permissions: u64,
    modified: DateTime,
    accessed: DateTime,
    created: DateTime,
    length: u64,
    userId: u64,
    groupId: u64,
    filetype: FileType)

  datatype SubvolumeSource =
    | Btrfs(uuid: u128)
    | Find(path: MixedString)

  /** A subvolume's files: `None` marks a path deleted in a snapshot, `Some` its metadata. */
  type Files = map<MixedString, Option<FileInfo>>

  /** A finished `SubvolumeInfo`, as the parser returns it. */
  datatype Subvolume = Subvolume(source: SubvolumeSource, overwrite: bool, files: Files)
}
