# versFS: the version-chain lifecycle

versFS is a user-level file system, a pass-through mirror of a storage
directory, that keeps a history for every regular file `P` it stores. Two
kinds of artifact sit next to the file in the storage directory:

- the *counter record* `P,v`, which holds the index of the newest snapshot;
- the *snapshots* `P,0`, `P,1`, and so on, which hold the file's content as
  it was before each write or truncate.

This project models the handlers that keep the artifacts in step with the
file as it is created, overwritten, truncated, removed and renamed. It also
models the filter that hides the artifacts from directory listings. It
proves what these handlers do to the chain, including on their error paths.

The model has five layers:

- **`Naming`** (`naming.dfy`): storage paths and the start-up check on the
  arguments. It also holds the artifact names, with `%d` modelled explicitly
  as a decimal printer and reader.
- **`Listing`** (`listing.dfy`): the name test of `vers_readdir`, and its
  loop over a directory's entries.
- **`Backing`** (`backing.dfy`): the backing store as a finite map from
  paths to nodes, plus the system calls the handlers make on it.
  - A node is a regular file (bytes), a counter record (an `int`) or a
    FIFO/device node.
  - Failures are deterministic. A missing path gives `ENOENT` and an
    exclusive create of an existing path gives `EEXIST`. A negative size or
    offset gives `EINVAL`, and every call at a path in a fixed set `broken`
    gives `EIO`.
  - A write on an open file never fails. It accepts at most `maxWrite` bytes
    per call, so partial writes are modelled.
- **`Versioning`** (`versioning.dfy`): one effect function per handler,
  giving its result and the new store from the store before the call.
- **`Lifecycle`** (`lifecycle.dfy`): the chain invariant `Chain(fs, P, h)`
  and the lemmas about the effect functions. The invariant says:
  - the counter is `|h| - 1`;
  - snapshot `i` holds `h[i]`;
  - there is no higher snapshot.
- **`Handlers`** (`handlers.dfy`): class `VersFS`, which holds the store and
  the shared `storage_path` buffer.
  - Each handler is a method that follows the C control flow: the chunked
    copy loop of `cp`, the staging loop of `vers_write`, and the countdown
    loops of `vers_unlink` and `vers_rename`, each with its early returns.
  - Each method is proved to produce exactly the result and store that
    `Versioning` gives, so the `Lifecycle` lemmas apply to it.

Three things the C code gets from outside are taken as parameters:

- the entries `readdir` yields, and how many of them `filler` has room for;
- the largest partial write;
- the value of `vers_rename`'s uninitialised counter when the moved record
  cannot be read.

## Model

| member | source | states |
|---|---|---|
| Naming.Startup | versfs.c:717-729 | The program mounts iff it has at least two arguments and both the storage directory and the mount point start with '/'; otherwise it exits with status 1. The storage root is the first argument. |
| Naming.ResolveFaithful | versfs.c:53-57 | The storage path is the root followed by the client path. Distinct client paths get distinct storage paths, and an absolute root gives absolute storage paths. |
| Naming.DecRoundTrip | versfs.c:150 | Reading back the `%d` numeral of any index gives the index. |
| Naming.DecInjective | versfs.c:150 | Distinct indices have distinct numerals. |
| Naming.DecLength | versfs.c:150 | A numeral has one character exactly for 0..9, and at most two exactly for -9..99. |
| Naming.ArtifactNamesSplit | versfs.c:136-150 | The counter record's name splits at its last comma into the file's path and `v`. A snapshot's name splits into the path and the index's numeral. |
| Naming.NamesDistinct | versfs.c:136-150 | No counter record shares a name with a snapshot. Equal counter names mean equal paths, equal snapshot names mean equal path and index, and no artifact is named like its own file. |
| Listing.VisibleMembers | versfs.c:224-238 | A name is passed on iff it is in the listing and neither its second-last nor its third-last character is a comma. |
| Listing.VisibleAppend | versfs.c:224-238 | Filtering keeps the listing's order: filtering two consecutive parts and joining the results is filtering the whole. |
| Listing.FilterEntries | versfs.c:224-238 | The readdir loop hands `filler` exactly the first `capacity` entries of the filtered listing, in order. It stops at the first visible entry that does not fit. |
| Listing.CounterRecordHidden | versfs.c:230 | Every counter record `P,v` is hidden. |
| Listing.SnapshotHiddenIff | versfs.c:230 | Snapshot `P,i` is hidden iff -10 < i < 100. So `P,100` and above, and the `P,-999` of a backup without a counter record, are listed. |
| Listing.ChainHiddenIff | versfs.c:230 | All snapshots of a chain of n are hidden iff n <= 100. |
| Backing.Resize | versfs.c:483 | Truncating to n bytes gives exactly n bytes. Byte k is the old byte k if there was one, otherwise 0. |
| Backing.Overwrite | versfs.c:575 | After `pwrite` of w at off: the bytes at off.. are w, and every other byte is the old byte or 0 in a gap. The length is the greater of the old length and off+\|w\|. An empty write changes nothing. |
| Handlers.VersFS.constructor | versfs.c:724 | The file system starts with the given absolute storage root and store. |
| Handlers.VersFS.PrependStorageDir | versfs.c:53-57 | Fills the shared buffer with the root followed by the path and returns it. The result starts with the root. |
| Handlers.VersFS.Cp | versfs.c:64-121 | The chunked copy loop, with partial writes inside each chunk, leaves the result and store that `Copy` gives. Invariant: the destination holds the prefix of the source copied so far. |
| Handlers.VersFS.Backup | versfs.c:127-163 | Read-increment-write of the counter, then `cp` to the new snapshot: the result and store are those of `BackupFile`. |
| Handlers.VersFS.Mknod | versfs.c:245-291 | The result and store are those of `MknodFile` for the requested node kind. |
| Handlers.VersFS.Write | versfs.c:550-581 | Backup (result ignored), open, stage, `pwrite`: the result and store are those of `WriteFile`. |
| Handlers.VersFS.Truncate | versfs.c:472-488 | Backup (result ignored), then truncate: the result and store are those of `TruncateFile`. |
| Handlers.VersFS.Unlink | versfs.c:305-350 | Unlinks the file, the record, then counts down through the snapshots with early returns: the result and store are those of `UnlinkFile`. |
| Handlers.VersFS.Rename | versfs.c:379-431 | Renames the file, the record, then counts down through the snapshots with early returns: the result and store are those of `RenameFile`. The shared buffer is untouched. |
| Handlers.VersFS.ReadDir | versfs.c:210-242 | A failed `opendir` returns its negated errno and lists nothing. Otherwise it returns 0 and lists the first `capacity` visible entries. |
| Lifecycle.CopyOutcome | versfs.c:64-121 | `cp` succeeds iff the source opens and the destination is absent and can be created. On failure it returns -1 with the store unchanged. On success the destination holds exactly the source's bytes, and nothing else changes. |
| Lifecycle.MknodStartsChain | versfs.c:258-280 | Creating a regular file that has no artifacts returns 0, gives an empty file and an empty chain (counter -1), and touches nothing else. |
| Lifecycle.MknodReportsOnlyRecord | versfs.c:258-280 | The result is 0 iff the counter record could be written; otherwise it is -EIO. When it is 0 the counter is -1. An existing file is kept, and the failure of its exclusive create is not reported. |
| Lifecycle.MknodSpecialHasNoRecord | versfs.c:281-290 | A FIFO or device node is created iff its path is free and working. No counter record is created. |
| Lifecycle.BackupFrame | versfs.c:127-160 | A backup changes at most the counter record and the snapshot it copies to. |
| Lifecycle.BackupAdvancesCounter | versfs.c:131-160 | With a readable counter c, the record becomes c+1 whatever happens next, and the file is copied to `P,c+1`. The result is 0 iff that copy succeeds, otherwise -1. |
| Lifecycle.BackupWithoutRecord | versfs.c:131-160 | Without a readable counter record, the counter is untouched and the copy targets `P,-999`. The result is 0 iff that copy succeeds, otherwise -1 with nothing changed. |
| Lifecycle.BackupExtendsChain | versfs.c:127-160 | A backup of a tracked file returns 0 and appends the file's current content to its chain. |
| Lifecycle.BackupKeepsFile | versfs.c:127-160 | A backup never changes the file itself. |
| Lifecycle.WriteProceedsRegardless | versfs.c:563-577 | Whatever the backup did, the write fails only when the file does not open (its errno) or the offset is negative (-EINVAL). Otherwise it writes up to `maxWrite` bytes at the offset and returns the count. |
| Lifecycle.TruncateProceedsRegardless | versfs.c:479-486 | Whatever the backup did, the truncate returns 0 iff the size is non-negative and the file opens, with the matching errno otherwise. On success the content is the old content cut or zero-extended. |
| Lifecycle.WriteExtendsChain | versfs.c:563-577 | A write to a tracked file appends the pre-write content to the chain and leaves the written content in the file. It touches nothing but the file, its record and the new snapshot. |
| Lifecycle.TruncateExtendsChain | versfs.c:479-486 | A truncate of a tracked file appends the pre-truncate content to the chain and leaves the resized content in the file. |
| Lifecycle.CallsRecordPreImages | versfs.c:472-581 | After any sequence of writes and truncates to a tracked file, in any mix, the chain has grown by the content from just before each call, in order. The file holds the content after the last call. |
| Lifecycle.CreateThenCalls | versfs.c:258-280 | After mknod of a fresh file and n writes or truncates in any mix, the counter is n-1, and snapshots 0..n-1 hold the content before each call (the first empty). |
| Lifecycle.UnlinkFailureKeepsChain | versfs.c:312-315 | If the file itself cannot be unlinked, unlink returns that errno and changes nothing. |
| Lifecycle.UnlinkSnapshotsStops | versfs.c:334-343 | The countdown from i removes snapshots i..j+1 and stops at the first j it cannot unlink, returning that errno and keeping j and below. With no failure (j = -1) it removes them all and returns 0; from -1 it removes nothing. |
| Lifecycle.UnlinkUntrackedReportsMissingRecord | versfs.c:318-331 | Unlinking a file that has no counter record removes the file, then returns -ENOENT from the unlink of the missing record; nothing else changes. |
| Lifecycle.UnlinkDestroysChain | versfs.c:305-350 | Unlinking a tracked file returns 0 and removes the file, its record and every snapshot, touching nothing else. For the empty chain (counter -1), only the file and its record go. |
| Lifecycle.RenameFailureChangesNothing | versfs.c:388-391 | If the file itself cannot be renamed, rename returns that errno and changes nothing. |
| Lifecycle.RenameSnapshotsStops | versfs.c:412-426 | The countdown from i moves snapshots i..j+1 to the same indices of the new name, contents unchanged, and stops at the first index j it cannot rename. It returns that errno, keeps j and below where they were, and touches nothing else. |
| Lifecycle.RenameUntrackedReportsMissingRecord | versfs.c:395-402 | Renaming a file that has no counter record, to a different path that is not its record's name, moves the file, then returns -ENOENT from the rename of the missing record; nothing else changes. |
| Lifecycle.RenameMovesChain | versfs.c:379-431 | Renaming a tracked file to a path with no artifacts returns 0 and moves the file, its record and every snapshot, with the same indices and contents. Nothing is left under the old name and nothing else is touched. |

## Left out

- FUSE plumbing is not part of this model: the `fuse_operations` table, `fuse_main` and the argument reshuffling in `main` (versfs.c:682-738), beyond the check on the arguments.
- The pass-through handlers are not part of this model, because they have no versioning behaviour: `getattr`, `access`, `readlink`, `mkdir`, `rmdir`, `symlink`, `link`, `chmod`, `chown`, `utimens`, `open`, `read`, `statfs`, `release`, `fsync`, `fallocate` and the xattr calls.
- Only four error numbers are produced: `ENOENT`, `EIO`, `EEXIST` and `EINVAL`. Other failures, and the `EINTR` retry in `cp`, are not modelled.
- A write to an open file never fails. A `write` or `pwrite` in the middle of a copy, or at the end of `vers_write`, is assumed to succeed, partially or in full.
- The counter record is an `int`, so its 4-byte raw encoding and the 32-bit overflow of `start + 1` are not modelled.
- A node of one kind read as another follows fixed conventions:
  - a file that is not a counter record leaves the counter variable at its initial value;
  - `cp` copies a counter record as a whole;
  - a FIFO or device node copies as an empty file, and its blocking behaviour is not modelled;
  - a truncate, or a write of at least one byte, to a counter record or to a FIFO or device node treats its content as empty and leaves a regular file. For example, a 1-byte write at offset 0 to `P,v` leaves a 1-byte file in the model, where the C code (versfs.c:575) keeps the 4-byte record with only its first byte replaced.
- Memory and buffer matters are not part of this model: the 256-byte path buffers, the missing byte in `malloc(strlen(path))` (versfs.c:476, versfs.c:560) and in the `search` buffer of `vers_readdir` (versfs.c:227-228), the `+6` index buffers, and leaked allocations.
- Listing.Hidden: for names shorter than three characters the source reads before the start of the name (versfs.c:230). The model counts a position that does not exist as "not a comma", which is a choice.
- Handlers.VersFS.Rename: the counter variable is uninitialised when the moved record cannot be read (versfs.c:384-409). The model takes its value as the parameter `uninit` instead of fixing one.
- Handlers.VersFS.ReadDir: the entries `readdir` yields, and the room `filler` has, are parameters rather than being derived from the store.
- Handlers.VersFS.Write: the byte-by-byte staging copy into `temp_buf` (versfs.c:571-573) is modelled as a loop over a sequence, not a stack array.
- Concurrency is not part of this model. The code takes no locks, and the model is sequential.
- Listing.Hidden looks only at the second-last and third-last characters, as versfs.c:230 does, so `P,100` and above and `P,-999` are listed, and an unrelated name such as `a,bc` is hidden (SnapshotHiddenIff).
- No locking is modelled, because the code takes none. A backup with no readable counter record still copies, to `P,-999` (BackupWithoutRecord).
