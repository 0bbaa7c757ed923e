/** The versioning handlers as the file system runs them: one object holds
    the backing store and the shared `storage_path` buffer, and each handler
    follows the calls, loops and early returns of its C counterpart. Every
    handler's contract ties its result and the new store to the effect
    function for it in `Versioning`, about which the chain lemmas
    in `Lifecycle` are proved. */
module Handlers {
  import opened Naming
  import opened Backing
  import opened Versioning
  import opened Listing

  /** How many bytes a single partial `write` or `pwrite` accepts at most. */
  type Positive = n: nat | n > 0 witness 1

  /** What `opendir` and `readdir` deliver for a storage directory: the
      entry names in the order the directory yields them, or the error of a
      failed `opendir`. */
  datatype DirListing = Entries(names: seq<string>) | OpenFailed(err: Errno)

  /** The size of the stack buffer `cp` reads into. */
  const ChunkSize: nat := 4096

  class VersFS {
    /** `storage_dir`, fixed at start-up. */
    const root: Path
    /** The paths at which every system call fails with an I/O error. */
    const broken: set<Path>
    const maxWrite: Positive
    /** The backing storage directory. */
    var files: Files
    /** The shared `storage_path` buffer that `prepend_storage_dir` fills. */
    var storagePath: Path

    constructor (root: Path, broken: set<Path>, maxWrite: Positive, files: Files)
      requires IsAbsolute(root)
      ensures this.root == root && this.broken == broken && this.maxWrite == maxWrite
      ensures this.files == files && storagePath == []
    {
      this.root := root;
      this.broken := broken;
      this.maxWrite := maxWrite;
      this.files := files;
      storagePath := [];
    }

    /** `prepend_storage_dir(storage_path, path)`: fills the shared buffer
        with the storage path of `path` and returns it. */
    method PrependStorageDir(path: Path) returns (r: Path)
      modifies this`storagePath
      ensures r == Resolve(root, path) && storagePath == r
      ensures |r| >= |root| && r[..|root|] == root && (IsAbsolute(root) ==> IsAbsolute(r))
    {
      ResolveFaithful(root, path, path);
      storagePath := root + path;
      r := storagePath;
    }

    /** `cp(to, from)`: opens `from`, creates `to` exclusively, then copies
        in chunks of at most 4096 bytes, each chunk through as many partial
        writes as it takes. */
    method Cp(to: Path, from: Path) returns (res: int)
      modifies this`files
      ensures res == Copy(old(files), broken, to, from).res
      ensures files == Copy(old(files), broken, to, from).files
    {
      if !Openable(files, broken, from) {
        return -1;
      }
      if to in broken || to in files {
        return -1;
      }
      var src := files[from];
      if src.Counter? {
        // the record's raw bytes are not modelled: it is copied as a whole
        files := files[to := src];
        return 0;
      }
      var data := Bytes(src);
      files := files[to := Regular([])];
      var pos := 0;
      while pos < |data|
        invariant 0 <= pos <= |data|
        invariant files == old(files)[to := Regular(data[..pos])]
        decreases |data| - pos
      {
        var nread := Min(ChunkSize, |data| - pos);
        var chunk := data[pos..pos + nread];
        var written := 0;
        while written < nread
          invariant 0 <= written <= nread
          invariant files == old(files)[to := Regular(data[..pos + written])]
          decreases nread - written
        {
          var n := Min(nread - written, maxWrite);
          assert chunk[written..written + n] == data[pos + written..pos + written + n];
          assert data[..pos + written] + data[pos + written..pos + written + n] == data[..pos + written + n];
          files := files[to := Regular(Bytes(files[to]) + chunk[written..written + n])];
          written := written + n;
        }
        pos := pos + nread;
      }
      assert data[..pos] == data;
      res := 0;
    }

    /** `vers_backup(path)`: read-increment-write of the counter record, then
        a copy of the file to the snapshot named by the new counter. */
    method Backup(path: Path) returns (res: int)
      modifies this
      ensures storagePath == Resolve(root, path)
      ensures res == BackupFile(old(files), broken, Resolve(root, path)).res
      ensures files == BackupFile(old(files), broken, Resolve(root, path)).files
    {
      var p := PrependStorageDir(path);
      var start := -999;
      var record := CounterName(p);
      if Openable(files, broken, record) {
        start := CounterIn(files[record], start);
        start := start + 1;
        files := files[record := Counter(start)];
      }
      var snapshot := SnapshotName(p, start);
      res := Cp(snapshot, p);
      if res >= 0 {
        return res;
      }
      return -1;
    }

    /** `vers_mknod(path, mode)`. */
    method Mknod(path: Path, kind: NodeKind) returns (res: int)
      modifies this
      ensures storagePath == Resolve(root, path)
      ensures res == MknodFile(old(files), broken, Resolve(root, path), kind).res
      ensures files == MknodFile(old(files), broken, Resolve(root, path), kind).files
    {
      var p := PrependStorageDir(path);
      if kind == RegularFile {
        var created := CreateExclusive(files, broken, p);
        if created.Done? {
          files := created.files;
        }
        // `res` is overwritten: only the counter-record step is reported
        var record := CounterName(p);
        if record in broken {
          res := -Code(EIO);
        } else {
          files := files[record := Counter(-1)];
          res := 0;
        }
      } else {
        var made := MakeNode(files, broken, p);
        if made.Failed? {
          return -Code(made.err);
        }
        files := made.files;
        res := 0;
      }
    }

    /** `vers_write(path, buf, |buf|, off)`: back up, ignoring the result,
        then open the file, stage the bytes in a local buffer and `pwrite`
        them. */
    method Write(path: Path, buf: seq<byte>, off: int) returns (res: int)
      modifies this
      ensures storagePath == Resolve(root, path)
      ensures res == WriteFile(old(files), broken, Resolve(root, path), buf, off, maxWrite).res
      ensures files == WriteFile(old(files), broken, Resolve(root, path), buf, off, maxWrite).files
    {
      var _ := Backup(path);
      var p := PrependStorageDir(path);
      if !Openable(files, broken, p) {
        return -Code(OpenError(broken, p));
      }
      var staged: seq<byte> := [];
      var i := 0;
      while i < |buf|
        invariant 0 <= i <= |buf| && staged == buf[..i]
      {
        staged := staged + [buf[i]];
        i := i + 1;
      }
      assert staged == buf;
      if off < 0 {
        return -Code(EINVAL);
      }
      var n := Min(|staged|, maxWrite);
      files := files[p := PWrite(files[p], off, staged[..n])];
      res := n;
    }

    /** `vers_truncate(path, size)`: back up, ignoring the result, then
        truncate. */
    method Truncate(path: Path, size: int) returns (res: int)
      modifies this
      ensures storagePath == Resolve(root, path)
      ensures res == TruncateFile(old(files), broken, Resolve(root, path), size).res
      ensures files == TruncateFile(old(files), broken, Resolve(root, path), size).files
    {
      var _ := Backup(path);
      var p := PrependStorageDir(path);
      var cut := SysTruncate(files, broken, p, size);
      if cut.Failed? {
        return -Code(cut.err);
      }
      files := cut.files;
      res := 0;
    }

    /** `vers_unlink(path)`: unlink the file, read the counter, unlink the
        counter record, then count down through the snapshots. */
    method Unlink(path: Path) returns (res: int)
      modifies this
      ensures storagePath == Resolve(root, path)
      ensures res == UnlinkFile(old(files), broken, Resolve(root, path)).res
      ensures files == UnlinkFile(old(files), broken, Resolve(root, path)).files
    {
      var p := PrependStorageDir(path);
      var gone := SysUnlink(files, broken, p);
      if gone.Failed? {
        return -Code(gone.err);
      }
      files := gone.files;
      var start := 0;
      var record := CounterName(p);
      if Openable(files, broken, record) {
        start := CounterIn(files[record], start);
      }
      var recordGone := SysUnlink(files, broken, record);
      if recordGone.Failed? {
        return -Code(recordGone.err);
      }
      files := recordGone.files;
      var i := start;
      while i > -1
        invariant storagePath == p
        invariant UnlinkSnapshots(files, broken, p, i) == UnlinkFile(old(files), broken, p)
        decreases i + 1
      {
        var step := SysUnlink(files, broken, SnapshotName(p, i));
        if step.Failed? {
          return -Code(step.err);
        }
        files := step.files;
        i := i - 1;
      }
      res := 0;
    }

    /** `vers_rename(from, to)`. The storage paths go to local buffers, so
        the shared one is left alone. `uninit` is what the uninitialised
        counter variable holds when the moved record cannot be read. */
    method Rename(from: Path, to: Path, uninit: int) returns (res: int)
      modifies this`files
      ensures res == RenameFile(old(files), broken, Resolve(root, from), Resolve(root, to), uninit).res
      ensures files == RenameFile(old(files), broken, Resolve(root, from), Resolve(root, to), uninit).files
    {
      var storageFrom, storageTo := Resolve(root, from), Resolve(root, to);
      var moved := SysRename(files, broken, storageFrom, storageTo);
      if moved.Failed? {
        return -Code(moved.err);
      }
      files := moved.files;
      var recordFrom, recordTo := CounterName(storageFrom), CounterName(storageTo);
      var recordMoved := SysRename(files, broken, recordFrom, recordTo);
      if recordMoved.Failed? {
        return -Code(recordMoved.err);
      }
      files := recordMoved.files;
      var start := uninit;
      if Openable(files, broken, recordTo) {
        start := CounterIn(files[recordTo], start);
      }
      var i := start;
      while i > -1
        invariant RenameSnapshots(files, broken, storageFrom, storageTo, i)
               == RenameFile(old(files), broken, storageFrom, storageTo, uninit)
        decreases i + 1
      {
        var step := SysRename(files, broken, SnapshotName(storageFrom, i), SnapshotName(storageTo, i));
        if step.Failed? {
          return -Code(step.err);
        }
        files := step.files;
        i := i - 1;
      }
      res := 0;
    }

    /** `vers_readdir(path, ...)`: opens the storage directory and passes
        every entry the filter lets through to `filler`, which has room for
        `capacity` entries. The store is not changed. */
    method ReadDir(path: Path, listing: DirListing, capacity: nat) returns (res: int, shown: seq<string>)
      modifies this`storagePath
      ensures storagePath == Resolve(root, path)
      ensures listing.OpenFailed? ==> res == -Code(listing.err) && shown == []
      ensures listing.Entries? ==> res == 0 && shown == Take(Visible(listing.names), capacity)
    {
      var _ := PrependStorageDir(path);
      if listing.OpenFailed? {
        return -Code(listing.err), [];
      }
      shown := FilterEntries(listing.names, capacity);
      res := 0;
    }
  }
}
