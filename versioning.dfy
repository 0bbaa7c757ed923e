/** What each versioning handler does to the backing store, as a function of
    the store before the call. Paths here are storage paths (already
    resolved against the storage root). A handler's result is `0` (or, for a
    write, the number of bytes written) on success and a negated error
    number otherwise; `cp` and `vers_backup` return `-1` on failure. */
module Versioning {
  import opened Naming
  import opened Backing

  datatype Outcome = Outcome(res: int, files: Files)

  /** The kind of node `vers_mknod` is asked for (`S_ISREG`, `S_ISFIFO`, other). */
  datatype NodeKind = RegularFile | Fifo | Device

  function Min(a: int, b: int): int {
    if a <= b then a else b
  }

  /** The store after a call, whether or not the call succeeded. */
  function After(s: Sys, fs: Files): Files {
    if s.Done? then s.files else fs
  }

  /** What `cp` leaves at the destination: a byte-for-byte copy. A counter
      record is copied as a unit; a FIFO or device node delivers no bytes. */
  function CopyOf(n: Node): Node {
    if n.Special? then Regular([]) else n
  }

  /** `cp(to, from)`: opens `from`, creates `to` exclusively, copies. */
  function Copy(fs: Files, broken: set<Path>, to: Path, from: Path): Outcome {
    if !Openable(fs, broken, from) then Outcome(-1, fs)
    else if to in broken || to in fs then Outcome(-1, fs)
    else Outcome(0, fs[to := CopyOf(fs[from])])
  }

  /** The index `vers_backup` copies to: one more than the stored counter,
      or -999 when the counter record cannot be opened. */
  function BackupIndex(fs: Files, broken: set<Path>, p: Path): int {
    var record := CounterName(p);
    if Openable(fs, broken, record) then CounterIn(fs[record], -999) + 1 else -999
  }

  /** `vers_backup(p)`: read-increment-write of the counter record, then a
      copy of `p` to the snapshot with the new index. */
  function BackupFile(fs: Files, broken: set<Path>, p: Path): Outcome {
    var record := CounterName(p);
    var start := BackupIndex(fs, broken, p);
    var fs1 := if Openable(fs, broken, record) then fs[record := Counter(start)] else fs;
    Copy(fs1, broken, SnapshotName(p, start), p)
  }

  /** `vers_mknod(p, mode)`. */
  function MknodFile(fs: Files, broken: set<Path>, p: Path, kind: NodeKind): Outcome {
    match kind
    case RegularFile =>
      // the exclusive create's result is overwritten by the counter-record step
      var fs1 := After(CreateExclusive(fs, broken, p), fs);
      var record := CounterName(p);
      if record in broken then Outcome(-Code(EIO), fs1)
      else Outcome(0, fs1[record := Counter(-1)])
    case _ =>
      match MakeNode(fs, broken, p)
      case Failed(e) => Outcome(-Code(e), fs)
      case Done(fs1) => Outcome(0, fs1)
  }

  /** `vers_write(p, buf, |buf|, off)`: back up (result ignored), then open
      and `pwrite`, which accepts at most `maxWrite` bytes per call. */
  function WriteFile(fs: Files, broken: set<Path>, p: Path, buf: seq<byte>, off: int, maxWrite: nat): Outcome {
    var fs1 := BackupFile(fs, broken, p).files;
    if !Openable(fs1, broken, p) then Outcome(-Code(OpenError(broken, p)), fs1)
    else if off < 0 then Outcome(-Code(EINVAL), fs1)
    else
      var n := Min(|buf|, maxWrite);
      Outcome(n, fs1[p := PWrite(fs1[p], off, buf[..n])])
  }

  /** `vers_truncate(p, size)`: back up (result ignored), then truncate. */
  function TruncateFile(fs: Files, broken: set<Path>, p: Path, size: int): Outcome {
    var fs1 := BackupFile(fs, broken, p).files;
    match SysTruncate(fs1, broken, p, size)
    case Failed(e) => Outcome(-Code(e), fs1)
    case Done(fs2) => Outcome(0, fs2)
  }

  /** `vers_unlink(p)`: unlink the file, read the counter, unlink the counter
      record, then the snapshots from the counter down to 0. */
  function UnlinkFile(fs: Files, broken: set<Path>, p: Path): Outcome {
    match SysUnlink(fs, broken, p)
    case Failed(e) => Outcome(-Code(e), fs)
    case Done(fs1) =>
      var record := CounterName(p);
      var start := if Openable(fs1, broken, record) then CounterIn(fs1[record], 0) else 0;
      match SysUnlink(fs1, broken, record)
      case Failed(e) => Outcome(-Code(e), fs1)
      case Done(fs2) => UnlinkSnapshots(fs2, broken, p, start)
  }

  /** The countdown `for (i = start; i > -1; i--) unlink(p,i)`, returning at
      the first failure. */
  function UnlinkSnapshots(fs: Files, broken: set<Path>, p: Path, i: int): Outcome
    decreases if i < 0 then 0 else i + 1
  {
    if i < 0 then Outcome(0, fs)
    else
      match SysUnlink(fs, broken, SnapshotName(p, i))
      case Failed(e) => Outcome(-Code(e), fs)
      case Done(fs1) => UnlinkSnapshots(fs1, broken, p, i - 1)
  }

  /** `vers_rename(from, to)`: rename the file, then the counter record, read
      the counter from its new place, then rename the snapshots from the
      counter down to 0. `uninit` is what the uninitialised counter variable
      holds when no counter can be read. */
  function RenameFile(fs: Files, broken: set<Path>, from: Path, to: Path, uninit: int): Outcome {
    match SysRename(fs, broken, from, to)
    case Failed(e) => Outcome(-Code(e), fs)
    case Done(fs1) =>
      match SysRename(fs1, broken, CounterName(from), CounterName(to))
      case Failed(e) => Outcome(-Code(e), fs1)
      case Done(fs2) =>
        var record := CounterName(to);
        var start := if Openable(fs2, broken, record) then CounterIn(fs2[record], uninit) else uninit;
        RenameSnapshots(fs2, broken, from, to, start)
  }

  /** The countdown `for (i = start; i > -1; i--) rename(from,i, to,i)`,
      returning at the first failure. */
  function RenameSnapshots(fs: Files, broken: set<Path>, from: Path, to: Path, i: int): Outcome
    decreases if i < 0 then 0 else i + 1
  {
    if i < 0 then Outcome(0, fs)
    else
      match SysRename(fs, broken, SnapshotName(from, i), SnapshotName(to, i))
      case Failed(e) => Outcome(-Code(e), fs)
      case Done(fs1) => RenameSnapshots(fs1, broken, from, to, i - 1)
  }
}
