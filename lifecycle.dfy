/** The version-chain invariant and what each handler does to it. */
module Lifecycle {
  import opened Naming
  import opened Backing
  import opened Versioning

  /** Nothing outside `changed` differs between the two stores. */
  ghost predicate AgreeOutside(fs: Files, fs': Files, changed: set<Path>) {
    forall q :: q !in changed ==> (q in fs <==> q in fs') && (q in fs ==> fs'[q] == fs[q])
  }

  /** The names of snapshots `lo` .. `hi - 1` of the file at `p`. */
  ghost function Snapshots(p: Path, lo: int, hi: int): set<Path> {
    set k | lo <= k < hi :: SnapshotName(p, k)
  }

  /** The version chain of the file at `p` records the history `h`: the
      counter is `|h| - 1`, snapshot `i` holds `h[i]`, and there is no
      snapshot with a higher index. */
  ghost predicate Chain(fs: Files, p: Path, h: seq<seq<byte>>) {
    && CounterName(p) in fs && fs[CounterName(p)] == Counter(|h| - 1)
    && (forall i :: 0 <= i < |h| ==> SnapshotName(p, i) in fs && fs[SnapshotName(p, i)] == Regular(h[i]))
    && (forall i :: |h| <= i ==> SnapshotName(p, i) !in fs)
  }

  /** The store accepts every call on the file at `p` and on its artifacts. */
  ghost predicate Healthy(broken: set<Path>, p: Path) {
    && p !in broken && CounterName(p) !in broken
    && forall i :: 0 <= i ==> SnapshotName(p, i) !in broken
  }

  // ---------------------------------------------------------------------
  // Creation

  /** Creating a regular file with no artifacts yields the empty file and an
      empty chain (counter -1), and touches nothing else. */
  lemma MknodStartsChain(fs: Files, broken: set<Path>, p: Path)
    requires Healthy(broken, p)
    requires p !in fs
    requires forall i :: 0 <= i ==> SnapshotName(p, i) !in fs
    ensures var r := MknodFile(fs, broken, p, RegularFile);
      && r.res == 0
      && p in r.files && r.files[p] == Regular([])
      && Chain(r.files, p, [])
      && AgreeOutside(fs, r.files, {p, CounterName(p)})
  {
    var r := MknodFile(fs, broken, p, RegularFile);
    NamesDistinct(p, p, 0, 0);
    forall i | 0 <= i
      ensures SnapshotName(p, i) !in r.files
    {
      NamesDistinct(p, p, i, i);
    }
  }

  /** The return code of a regular-file `vers_mknod` reflects only the
      counter-record step: an existing file is kept, the failure of its
      exclusive create goes unreported, and its counter is reset to -1. */
  lemma MknodReportsOnlyRecord(fs: Files, broken: set<Path>, p: Path)
    ensures var r := MknodFile(fs, broken, p, RegularFile);
      && (r.res == 0 <==> CounterName(p) !in broken)
      && (r.res != 0 ==> r.res == -Code(EIO))
      && (CounterName(p) !in broken ==> CounterName(p) in r.files && r.files[CounterName(p)] == Counter(-1))
      && (p in fs ==> p in r.files && r.files[p] == fs[p])
      && (p !in fs && p !in broken ==> p in r.files && r.files[p] == Regular([]))
  {
    NamesDistinct(p, p, 0, 0);
  }

  /** A FIFO or device node gets no counter record. */
  lemma MknodSpecialHasNoRecord(fs: Files, broken: set<Path>, p: Path, kind: NodeKind)
    requires kind != RegularFile
    ensures var r := MknodFile(fs, broken, p, kind);
      && (r.res == 0 <==> p !in broken && p !in fs)
      && (r.res == 0 ==> r.files == fs[p := Special])
      && (r.res != 0 ==> r.files == fs)
      && (CounterName(p) in r.files <==> CounterName(p) in fs)
  {
    NamesDistinct(p, p, 0, 0);
  }

  // ---------------------------------------------------------------------
  // Copy

  /** `cp` succeeds exactly when the source opens and the destination can be
      created exclusively; on failure it returns -1 and changes nothing, on
      success the destination holds exactly the source's bytes and nothing
      else changes. */
  lemma CopyOutcome(fs: Files, broken: set<Path>, to: Path, from: Path)
    ensures var r := Copy(fs, broken, to, from);
      && (r.res == 0 <==> Openable(fs, broken, from) && to !in broken && to !in fs)
      && (r.res != 0 ==> r.res == -1 && r.files == fs)
      && (r.res == 0 ==> to in r.files && Bytes(r.files[to]) == Bytes(fs[from]))
      && (r.res == 0 && fs[from].Regular? ==> r.files[to] == fs[from])
      && AgreeOutside(fs, r.files, {to})
  {
  }

  // ---------------------------------------------------------------------
  // Backup

  /** A backup changes at most the counter record and the snapshot it copies to. */
  lemma BackupFrame(fs: Files, broken: set<Path>, p: Path)
    ensures var r := BackupFile(fs, broken, p);
      AgreeOutside(fs, r.files, {CounterName(p), SnapshotName(p, BackupIndex(fs, broken, p))})
  {
  }

  /** With an openable counter record holding `c`, a backup stores `c + 1`
      whatever happens next, and copies the current content of `p` to
      snapshot `c + 1`; it returns 0 iff that copy succeeds, -1 otherwise. */
  lemma BackupAdvancesCounter(fs: Files, broken: set<Path>, p: Path)
    requires Openable(fs, broken, CounterName(p)) && fs[CounterName(p)].Counter?
    ensures var c := fs[CounterName(p)].value;
      var s := SnapshotName(p, c + 1);
      var r := BackupFile(fs, broken, p);
      && CounterName(p) in r.files && r.files[CounterName(p)] == Counter(c + 1)
      && (r.res == 0 <==> Openable(fs, broken, p) && s !in fs && s !in broken)
      && (r.res == 0 ==> s in r.files && r.files[s] == CopyOf(fs[p]))
      && (r.res != 0 ==> r.res == -1)
      && AgreeOutside(fs, r.files, {CounterName(p), s})
  {
    var c := fs[CounterName(p)].value;
    NamesDistinct(p, p, c + 1, c + 1);
  }

  /** Without an openable counter record, the counter is left alone and the
      copy targets snapshot -999. */
  lemma BackupWithoutRecord(fs: Files, broken: set<Path>, p: Path)
    requires !Openable(fs, broken, CounterName(p))
    ensures var s := SnapshotName(p, -999);
      var r := BackupFile(fs, broken, p);
      && (r.res == 0 <==> Openable(fs, broken, p) && s !in fs && s !in broken)
      && (r.res == 0 ==> r.files == fs[s := CopyOf(fs[p])])
      && (r.res != 0 ==> r.res == -1 && r.files == fs)
  {
  }

  /** A backup of a tracked regular file appends its current content to the
      chain, and changes nothing but the counter record and the new
      snapshot. */
  lemma BackupExtendsChain(fs: Files, broken: set<Path>, p: Path, h: seq<seq<byte>>)
    requires Healthy(broken, p) && Chain(fs, p, h)
    requires p in fs && fs[p].Regular?
    ensures var r := BackupFile(fs, broken, p);
      && r.res == 0
      && Chain(r.files, p, h + [fs[p].data])
      && p in r.files && r.files[p] == fs[p]
      && AgreeOutside(fs, r.files, {CounterName(p), SnapshotName(p, |h|)})
  {
    var r := BackupFile(fs, broken, p);
    var h' := h + [fs[p].data];
    BackupAdvancesCounter(fs, broken, p);
    NamesDistinct(p, p, |h|, |h|);
    forall i | 0 <= i < |h'|
      ensures SnapshotName(p, i) in r.files && r.files[SnapshotName(p, i)] == Regular(h'[i])
    {
      NamesDistinct(p, p, i, |h|);
    }
    forall i | |h'| <= i
      ensures SnapshotName(p, i) !in r.files
    {
      NamesDistinct(p, p, i, |h|);
    }
  }

  // ---------------------------------------------------------------------
  // Write and truncate: back up first, then mutate regardless

  /** The backup never touches the file itself. */
  lemma BackupKeepsFile(fs: Files, broken: set<Path>, p: Path)
    ensures var r := BackupFile(fs, broken, p);
      (p in r.files <==> p in fs) && (p in fs ==> r.files[p] == fs[p])
  {
    BackupFrame(fs, broken, p);
    NamesDistinct(p, p, BackupIndex(fs, broken, p), 0);
  }

  /** A write goes ahead whatever the backup did: it fails only when the file
      cannot be opened or the offset is negative, and otherwise writes up to
      `maxWrite` bytes of `buf` at `off` and returns how many it wrote. */
  lemma WriteProceedsRegardless(fs: Files, broken: set<Path>, p: Path, buf: seq<byte>, off: int, maxWrite: nat)
    ensures var r := WriteFile(fs, broken, p, buf, off, maxWrite);
      var n := Min(|buf|, maxWrite);
      && (!Openable(fs, broken, p) ==> r.res == -Code(OpenError(broken, p)))
      && (Openable(fs, broken, p) && off < 0 ==> r.res == -Code(EINVAL))
      && (Openable(fs, broken, p) && off >= 0 ==>
            r.res == n && p in r.files && r.files[p] == PWrite(fs[p], off, buf[..n]))
  {
    BackupKeepsFile(fs, broken, p);
  }

  /** Likewise a truncate: it fails only for a negative size or a file that
      cannot be opened, and otherwise cuts or zero-extends the file. */
  lemma TruncateProceedsRegardless(fs: Files, broken: set<Path>, p: Path, size: int)
    ensures var r := TruncateFile(fs, broken, p, size);
      && (r.res == 0 <==> size >= 0 && Openable(fs, broken, p))
      && (size < 0 ==> r.res == -Code(EINVAL))
      && (size >= 0 && !Openable(fs, broken, p) ==> r.res == -Code(OpenError(broken, p)))
      && (r.res == 0 ==> p in r.files && r.files[p] == Regular(Resize(Bytes(fs[p]), size)))
  {
    BackupKeepsFile(fs, broken, p);
  }

  /** After a write to a tracked regular file, the newest snapshot holds the
      content from before the write, and the file holds the written content. */
  lemma WriteExtendsChain(fs: Files, broken: set<Path>, p: Path, h: seq<seq<byte>>,
                          buf: seq<byte>, off: nat, maxWrite: nat)
    requires Healthy(broken, p) && Chain(fs, p, h)
    requires p in fs && fs[p].Regular?
    ensures var r := WriteFile(fs, broken, p, buf, off, maxWrite);
      var n := Min(|buf|, maxWrite);
      && r.res == n
      && Chain(r.files, p, h + [fs[p].data])
      && p in r.files && r.files[p] == Regular(Overwrite(fs[p].data, off, buf[..n]))
      && AgreeOutside(fs, r.files, {p, CounterName(p), SnapshotName(p, |h|)})
  {
    var b := BackupFile(fs, broken, p);
    BackupExtendsChain(fs, broken, p, h);
    var r := WriteFile(fs, broken, p, buf, off, maxWrite);
    ChainIgnoresFile(b.files, r.files, p, h + [fs[p].data]);
  }

  /** After a truncate of a tracked regular file, the newest snapshot holds
      the content from before the truncate. */
  lemma TruncateExtendsChain(fs: Files, broken: set<Path>, p: Path, h: seq<seq<byte>>, size: nat)
    requires Healthy(broken, p) && Chain(fs, p, h)
    requires p in fs && fs[p].Regular?
    ensures var r := TruncateFile(fs, broken, p, size);
      && r.res == 0
      && Chain(r.files, p, h + [fs[p].data])
      && p in r.files && r.files[p] == Regular(Resize(fs[p].data, size))
      && AgreeOutside(fs, r.files, {p, CounterName(p), SnapshotName(p, |h|)})
  {
    var b := BackupFile(fs, broken, p);
    BackupExtendsChain(fs, broken, p, h);
    var r := TruncateFile(fs, broken, p, size);
    ChainIgnoresFile(b.files, r.files, p, h + [fs[p].data]);
  }

  /** Changing the file itself leaves its chain as it was. */
  lemma ChainIgnoresFile(fs: Files, fs': Files, p: Path, h: seq<seq<byte>>)
    requires Chain(fs, p, h) && AgreeOutside(fs, fs', {p})
    ensures Chain(fs', p, h)
  {
    NamesDistinct(p, p, 0, 0);
    forall i | 0 <= i
      ensures SnapshotName(p, i) != p
    {
      NamesDistinct(p, p, i, i);
    }
  }

  // ---------------------------------------------------------------------
  // A history of writes and truncates

  /** A `vers_write` of `buf` at `off`, or a `vers_truncate` to `size`. */
  datatype Call = WriteCall(buf: seq<byte>, off: nat) | TruncateCall(size: nat)

  /** The store after one call on `p`. */
  function Apply(fs: Files, broken: set<Path>, p: Path, c: Call, maxWrite: nat): Files {
    match c
    case WriteCall(buf, off) => WriteFile(fs, broken, p, buf, off, maxWrite).files
    case TruncateCall(size) => TruncateFile(fs, broken, p, size).files
  }

  /** The store after a sequence of calls on `p`. */
  function Replay(fs: Files, broken: set<Path>, p: Path, cs: seq<Call>, maxWrite: nat): Files
    decreases |cs|
  {
    if cs == [] then fs
    else Replay(Apply(fs, broken, p, cs[0], maxWrite), broken, p, cs[1..], maxWrite)
  }

  /** The content of the file after one call. */
  function Changed(d: seq<byte>, c: Call, maxWrite: nat): seq<byte> {
    match c
    case WriteCall(buf, off) => Overwrite(d, off, buf[..Min(|buf|, maxWrite)])
    case TruncateCall(size) => Resize(d, size)
  }

  /** The contents the file had just before each call of the sequence. */
  function PreImages(d: seq<byte>, cs: seq<Call>, maxWrite: nat): (r: seq<seq<byte>>)
    ensures |r| == |cs|
    decreases |cs|
  {
    if cs == [] then [] else [d] + PreImages(Changed(d, cs[0], maxWrite), cs[1..], maxWrite)
  }

  /** The content of the file after the whole sequence. */
  function Final(d: seq<byte>, cs: seq<Call>, maxWrite: nat): seq<byte>
    decreases |cs|
  {
    if cs == [] then d else Final(Changed(d, cs[0], maxWrite), cs[1..], maxWrite)
  }

  /** Each write or truncate of a sequence appends the file's then content
      to the chain: afterwards snapshot `|h| + k` holds the content from just
      before call `k`, and the file holds the content after the last call. */
  lemma {:induction false} CallsRecordPreImages(fs: Files, broken: set<Path>, p: Path, h: seq<seq<byte>>,
                                                cs: seq<Call>, maxWrite: nat)
    requires Healthy(broken, p) && Chain(fs, p, h)
    requires p in fs && fs[p].Regular?
    ensures var fs' := Replay(fs, broken, p, cs, maxWrite);
      && Chain(fs', p, h + PreImages(fs[p].data, cs, maxWrite))
      && p in fs' && fs'[p] == Regular(Final(fs[p].data, cs, maxWrite))
    decreases |cs|
  {
    if cs != [] {
      var d := fs[p].data;
      var fs1 := CallStep(fs, broken, p, h, cs, maxWrite);
      HistoryStep(h, d, cs, maxWrite);
      CallsRecordPreImages(fs1, broken, p, h + [d], cs[1..], maxWrite);
    }
  }

  /** The first call of a sequence contributes the first pre-image. */
  lemma HistoryStep(h: seq<seq<byte>>, d: seq<byte>, cs: seq<Call>, maxWrite: nat)
    requires cs != []
    ensures Final(d, cs, maxWrite) == Final(Changed(d, cs[0], maxWrite), cs[1..], maxWrite)
    ensures h + PreImages(d, cs, maxWrite) == h + [d] + PreImages(Changed(d, cs[0], maxWrite), cs[1..], maxWrite)
  {
  }

  /** One call of a sequence, as a step of the replay. */
  lemma CallStep(fs: Files, broken: set<Path>, p: Path, h: seq<seq<byte>>, cs: seq<Call>, maxWrite: nat)
      returns (fs1: Files)
    requires Healthy(broken, p) && Chain(fs, p, h)
    requires p in fs && fs[p].Regular? && cs != []
    ensures Replay(fs, broken, p, cs, maxWrite) == Replay(fs1, broken, p, cs[1..], maxWrite)
    ensures Chain(fs1, p, h + [fs[p].data]) && p in fs1 && fs1[p] == Regular(Changed(fs[p].data, cs[0], maxWrite))
  {
    fs1 := Apply(fs, broken, p, cs[0], maxWrite);
    match cs[0]
    case WriteCall(buf, off) =>
      WriteExtendsChain(fs, broken, p, h, buf, off, maxWrite);
    case TruncateCall(size) =>
      TruncateExtendsChain(fs, broken, p, h, size);
  }

  /** A file created with no artifacts and then written or truncated `n`
      times, in any mix, has counter `n - 1`, and snapshots `0` .. `n - 1`
      holding its content from just before each call (the first of them
      empty). */
  lemma CreateThenCalls(fs: Files, broken: set<Path>, p: Path, cs: seq<Call>, maxWrite: nat)
    requires Healthy(broken, p)
    requires p !in fs
    requires forall i :: 0 <= i ==> SnapshotName(p, i) !in fs
    ensures var fs' := Replay(MknodFile(fs, broken, p, RegularFile).files, broken, p, cs, maxWrite);
      var pre := PreImages([], cs, maxWrite);
      && CounterName(p) in fs' && fs'[CounterName(p)] == Counter(|cs| - 1)
      && (forall i :: 0 <= i < |cs| ==> SnapshotName(p, i) in fs' && fs'[SnapshotName(p, i)] == Regular(pre[i]))
      && (|cs| > 0 ==> pre[0] == [])
      && p in fs' && fs'[p] == Regular(Final([], cs, maxWrite))
  {
    var fs1 := MknodFile(fs, broken, p, RegularFile).files;
    MknodStartsChain(fs, broken, p);
    CallsRecordPreImages(fs1, broken, p, [], cs, maxWrite);
    assert [] + PreImages([], cs, maxWrite) == PreImages([], cs, maxWrite);
  }

  // ---------------------------------------------------------------------
  // Unlink

  /** The snapshot countdown of `vers_unlink` removes snapshots `i` down to
      `j + 1` and stops at the first snapshot `j` it cannot unlink, returning
      that error and leaving `j` and every lower index in place; with no such
      snapshot (`j = -1`) it removes them all and returns 0. */
  lemma {:induction false} UnlinkSnapshotsStops(fs: Files, broken: set<Path>, p: Path, i: int, j: int)
    requires -1 <= j <= i
    requires forall k :: j < k <= i ==> Openable(fs, broken, SnapshotName(p, k))
    requires j >= 0 ==> !Openable(fs, broken, SnapshotName(p, j))
    ensures var r := UnlinkSnapshots(fs, broken, p, i);
      && r.res == (if j < 0 then 0 else -Code(OpenError(broken, SnapshotName(p, j))))
      && r.files == fs - Snapshots(p, j + 1, i + 1)
    decreases i - j
  {
    if i == j {
      assert Snapshots(p, j + 1, i + 1) == {};
    } else {
      var s := SnapshotName(p, i);
      var fs1 := fs - {s};
      forall k | j <= k < i
        ensures SnapshotName(p, k) != s
      {
        NamesDistinct(p, p, k, i);
      }
      UnlinkSnapshotsStops(fs1, broken, p, i - 1, j);
      assert Snapshots(p, j + 1, i + 1) == Snapshots(p, j + 1, i) + {s};
    }
  }

  /** If the file itself cannot be unlinked, nothing changes. */
  lemma UnlinkFailureKeepsChain(fs: Files, broken: set<Path>, p: Path)
    requires !Openable(fs, broken, p)
    ensures var r := UnlinkFile(fs, broken, p);
      r.res == -Code(OpenError(broken, p)) && r.files == fs
  {
  }

  /** Unlinking a file with no counter record removes the file and then
      reports the failed unlink of the record; nothing else changes. */
  lemma UnlinkUntrackedReportsMissingRecord(fs: Files, broken: set<Path>, p: Path)
    requires Openable(fs, broken, p) && CounterName(p) !in fs && CounterName(p) !in broken
    ensures var r := UnlinkFile(fs, broken, p);
      r.res == -Code(ENOENT) && r.files == fs - {p}
  {
    NamesDistinct(p, p, 0, 0);
  }

  /** Unlinking a tracked file removes the file, its counter record and every
      snapshot, returns 0, and touches nothing else. */
  lemma UnlinkDestroysChain(fs: Files, broken: set<Path>, p: Path, h: seq<seq<byte>>)
    requires Healthy(broken, p) && Chain(fs, p, h) && p in fs
    ensures var r := UnlinkFile(fs, broken, p);
      && r.res == 0
      && p !in r.files && CounterName(p) !in r.files
      && (forall i :: 0 <= i ==> SnapshotName(p, i) !in r.files)
      && AgreeOutside(fs, r.files, {p, CounterName(p)} + Snapshots(p, 0, |h|))
  {
    var record := CounterName(p);
    var fs1 := fs - {p};
    var fs2 := fs1 - {record};
    NamesDistinct(p, p, 0, 0);
    forall k | 0 <= k
      ensures SnapshotName(p, k) != p && SnapshotName(p, k) != record
    {
      NamesDistinct(p, p, k, k);
    }
    UnlinkSnapshotsStops(fs2, broken, p, |h| - 1, -1);
  }

  // ---------------------------------------------------------------------
  // Rename

  /** Snapshot names `lo` .. `hi - 1` gain one name per index. */
  lemma SnapshotsGrow(p: Path, lo: int, hi: int)
    requires lo < hi
    ensures Snapshots(p, lo, hi) == Snapshots(p, lo, hi - 1) + {SnapshotName(p, hi - 1)}
  {
  }

  lemma SnapshotsExclude(x: Path, p: Path, lo: int, hi: int)
    requires forall k :: lo <= k < hi ==> SnapshotName(p, k) != x
    ensures x !in Snapshots(p, lo, hi)
  {
  }

  /** For distinct tracked paths, no lower-indexed snapshot of either path
      shares a name with snapshot `i` of either. */
  lemma StepNamesDiffer(from: Path, to: Path, i: int, lo: int)
    requires from != to
    ensures SnapshotName(from, i) != SnapshotName(to, i)
    ensures forall k :: lo <= k < i ==>
      && SnapshotName(from, k) != SnapshotName(from, i) && SnapshotName(from, k) != SnapshotName(to, i)
      && SnapshotName(to, k) != SnapshotName(from, i) && SnapshotName(to, k) != SnapshotName(to, i)
  {
    NamesDistinct(from, to, i, i);
    forall k | lo <= k < i
      ensures SnapshotName(from, k) != SnapshotName(from, i) && SnapshotName(from, k) != SnapshotName(to, i)
      ensures SnapshotName(to, k) != SnapshotName(from, i) && SnapshotName(to, k) != SnapshotName(to, i)
    {
      NamesDistinct(from, from, k, i);
      NamesDistinct(from, to, k, i);
      NamesDistinct(to, from, k, i);
      NamesDistinct(to, to, k, i);
    }
  }

  /** The snapshot countdown of `vers_rename` moves snapshots `i` down to
      `j + 1` from `from` to `to`, index by index and content unchanged, and
      stops at the first index `j` it cannot rename, returning that error and
      leaving `j` and every lower index where they were. */
  lemma {:induction false} RenameSnapshotsStops(fs: Files, broken: set<Path>, from: Path, to: Path, i: int, j: int)
    requires from != to
    requires -1 <= j <= i
    requires forall k :: j < k <= i ==>
      SnapshotName(from, k) in fs && SnapshotName(from, k) !in broken && SnapshotName(to, k) !in broken
    requires j >= 0 ==> !Openable(fs, broken, SnapshotName(from, j)) || SnapshotName(to, j) in broken
    ensures var r := RenameSnapshots(fs, broken, from, to, i);
      && r.res == (if j < 0 then 0 else -Code(RenameError(broken, SnapshotName(from, j), SnapshotName(to, j))))
      && (forall k :: j < k <= i ==>
            SnapshotName(from, k) !in r.files
            && SnapshotName(to, k) in r.files && r.files[SnapshotName(to, k)] == fs[SnapshotName(from, k)])
      && AgreeOutside(fs, r.files, Snapshots(from, j + 1, i + 1) + Snapshots(to, j + 1, i + 1))
    decreases i - j
  {
    if i == j {
      assert Snapshots(from, j + 1, i + 1) == {} && Snapshots(to, j + 1, i + 1) == {};
    } else {
      var a, b := SnapshotName(from, i), SnapshotName(to, i);
      var fs1 := RenameStep(fs, broken, from, to, i, j);
      RenameSnapshotsStops(fs1, broken, from, to, i - 1, j);
      SnapshotsExclude(a, from, j + 1, i);
      SnapshotsExclude(a, to, j + 1, i);
      SnapshotsExclude(b, from, j + 1, i);
      SnapshotsExclude(b, to, j + 1, i);
      RenameComposeMoved(fs, fs1, RenameSnapshots(fs1, broken, from, to, i - 1).files, from, to, i, j);
      RenameComposeFrame(fs, fs1, RenameSnapshots(fs1, broken, from, to, i - 1).files, from, to, i, j);
    }
  }

  /** Snapshots `j + 1` .. `i` are moved once the first rename and the rest
      of the countdown have moved them. */
  lemma RenameComposeMoved(fs: Files, fs1: Files, fs2: Files, from: Path, to: Path, i: int, j: int)
    requires j < i
    requires forall k :: j < k <= i ==> SnapshotName(from, k) in fs
    requires SnapshotName(from, i) !in fs1
    requires SnapshotName(to, i) in fs1 && fs1[SnapshotName(to, i)] == fs[SnapshotName(from, i)]
    requires forall k :: j <= k < i ==>
      && (SnapshotName(from, k) in fs1 <==> SnapshotName(from, k) in fs)
      && (SnapshotName(from, k) in fs ==> fs1[SnapshotName(from, k)] == fs[SnapshotName(from, k)])
    requires forall k :: j < k <= i - 1 ==>
      SnapshotName(from, k) !in fs2
      && SnapshotName(to, k) in fs2 && fs2[SnapshotName(to, k)] == fs1[SnapshotName(from, k)]
    requires AgreeOutside(fs1, fs2, Snapshots(from, j + 1, i) + Snapshots(to, j + 1, i))
    requires SnapshotName(from, i) !in Snapshots(from, j + 1, i) + Snapshots(to, j + 1, i)
    requires SnapshotName(to, i) !in Snapshots(from, j + 1, i) + Snapshots(to, j + 1, i)
    ensures forall k :: j < k <= i ==>
      SnapshotName(from, k) !in fs2
      && SnapshotName(to, k) in fs2 && fs2[SnapshotName(to, k)] == fs[SnapshotName(from, k)]
  {
  }

  /** Nothing outside snapshots `j + 1` .. `i` of either path changes. */
  lemma RenameComposeFrame(fs: Files, fs1: Files, fs2: Files, from: Path, to: Path, i: int, j: int)
    requires j < i
    requires AgreeOutside(fs, fs1, {SnapshotName(from, i), SnapshotName(to, i)})
    requires AgreeOutside(fs1, fs2, Snapshots(from, j + 1, i) + Snapshots(to, j + 1, i))
    ensures AgreeOutside(fs, fs2, Snapshots(from, j + 1, i + 1) + Snapshots(to, j + 1, i + 1))
  {
    SnapshotsGrow(from, j + 1, i + 1);
    SnapshotsGrow(to, j + 1, i + 1);
  }

  /** The first rename of the countdown, as a step. */
  lemma RenameStep(fs: Files, broken: set<Path>, from: Path, to: Path, i: int, j: int) returns (fs1: Files)
    requires from != to
    requires -1 <= j < i
    requires forall k :: j < k <= i ==>
      SnapshotName(from, k) in fs && SnapshotName(from, k) !in broken && SnapshotName(to, k) !in broken
    ensures RenameSnapshots(fs, broken, from, to, i) == RenameSnapshots(fs1, broken, from, to, i - 1)
    ensures SnapshotName(from, i) !in fs1
    ensures SnapshotName(to, i) in fs1 && fs1[SnapshotName(to, i)] == fs[SnapshotName(from, i)]
    ensures AgreeOutside(fs, fs1, {SnapshotName(from, i), SnapshotName(to, i)})
    ensures forall k :: j <= k < i ==>
      && (SnapshotName(from, k) in fs1 <==> SnapshotName(from, k) in fs)
      && (SnapshotName(from, k) in fs ==> fs1[SnapshotName(from, k)] == fs[SnapshotName(from, k)])
      && SnapshotName(from, k) != SnapshotName(from, i) && SnapshotName(from, k) != SnapshotName(to, i)
      && SnapshotName(to, k) != SnapshotName(from, i) && SnapshotName(to, k) != SnapshotName(to, i)
  {
    var a, b := SnapshotName(from, i), SnapshotName(to, i);
    StepNamesDiffer(from, to, i, j);
    fs1 := (fs - {a})[b := fs[a]];
    assert SysRename(fs, broken, a, b) == Done(fs1);
  }

  /** If the file itself cannot be renamed, nothing changes. */
  lemma RenameFailureChangesNothing(fs: Files, broken: set<Path>, from: Path, to: Path, uninit: int)
    requires SysRename(fs, broken, from, to).Failed?
    ensures var r := RenameFile(fs, broken, from, to, uninit);
      r.res == -Code(RenameError(broken, from, to)) && r.files == fs
  {
  }

  /** Renaming a file with no counter record moves the file and then
      reports the failed rename of the record; nothing else changes. */
  lemma RenameUntrackedReportsMissingRecord(fs: Files, broken: set<Path>, from: Path, to: Path, uninit: int)
    requires Openable(fs, broken, from) && to !in broken && from != to && to != CounterName(from)
    requires CounterName(from) !in fs && CounterName(from) !in broken && CounterName(to) !in broken
    ensures var r := RenameFile(fs, broken, from, to, uninit);
      r.res == -Code(ENOENT) && r.files == (fs - {from})[to := fs[from]]
  {
    var fs1 := (fs - {from})[to := fs[from]];
    assert SysRename(fs, broken, from, to) == Done(fs1);
    assert CounterName(from) !in fs1;
  }

  /** Renaming a tracked file to a path with no artifacts moves the file, its
      counter record and every snapshot (same indices, same contents), leaves
      none of them at the old path, returns 0, and touches nothing else. */
  lemma RenameMovesChain(fs: Files, broken: set<Path>, from: Path, to: Path, h: seq<seq<byte>>, uninit: int)
    requires Healthy(broken, from) && Healthy(broken, to)
    requires Chain(fs, from, h) && from in fs
    requires to !in fs && CounterName(to) !in fs
    requires forall i :: 0 <= i ==> SnapshotName(to, i) !in fs
    ensures var r := RenameFile(fs, broken, from, to, uninit);
      && r.res == 0
      && to in r.files && r.files[to] == fs[from]
      && Chain(r.files, to, h)
      && from !in r.files && CounterName(from) !in r.files
      && (forall i :: 0 <= i < |h| ==> SnapshotName(from, i) !in r.files)
      && AgreeOutside(fs, r.files, {from, to, CounterName(from), CounterName(to)}
                                   + Snapshots(from, 0, |h|) + Snapshots(to, 0, |h|))
  {
    var fs2 := RenameHead(fs, broken, from, to, h, uninit);
    RenameSnapshotsStops(fs2, broken, from, to, |h| - 1, -1);
    var r := RenameSnapshots(fs2, broken, from, to, |h| - 1).files;
    var moved := Snapshots(from, 0, |h|) + Snapshots(to, 0, |h|);
    MovedSnapshotsApart(from, to, |h|);
    AgreeCompose(fs, fs2, r, {from, to, CounterName(from), CounterName(to)}, moved);
    forall i | |h| <= i
      ensures SnapshotName(to, i) !in r
    {
    }
  }

  /** Nothing outside `a` changes in the first step and nothing outside `b`
      in the second: nothing outside both changes overall. */
  lemma AgreeCompose(fs: Files, fs1: Files, fs2: Files, a: set<Path>, b: set<Path>)
    requires AgreeOutside(fs, fs1, a) && AgreeOutside(fs1, fs2, b)
    ensures AgreeOutside(fs, fs2, a + b)
  {
  }

  /** The snapshots a rename moves are named apart from both tracked paths,
      both counter records, and every later snapshot of the target. */
  lemma MovedSnapshotsApart(from: Path, to: Path, n: int)
    requires from != to
    requires forall k :: 0 <= k < n ==> SnapshotName(from, k) != to
    requires forall k :: 0 <= k ==> SnapshotName(to, k) != from
    ensures var moved := Snapshots(from, 0, n) + Snapshots(to, 0, n);
      && from !in moved && to !in moved && CounterName(from) !in moved && CounterName(to) !in moved
      && forall i :: n <= i ==> SnapshotName(to, i) !in moved
  {
    forall k
      ensures SnapshotName(from, k) != from && SnapshotName(from, k) != CounterName(from)
      ensures SnapshotName(from, k) != CounterName(to)
      ensures SnapshotName(to, k) != to && SnapshotName(to, k) != CounterName(from)
      ensures SnapshotName(to, k) != CounterName(to)
    {
      NamesDistinct(from, from, k, k);
      NamesDistinct(to, to, k, k);
      NamesDistinct(to, from, 0, k);
      NamesDistinct(from, to, 0, k);
    }
    forall i, k
      ensures SnapshotName(to, i) != SnapshotName(from, k)
      ensures SnapshotName(to, i) == SnapshotName(to, k) ==> i == k
    {
      NamesDistinct(to, from, i, k);
      NamesDistinct(to, to, i, k);
    }
  }

  /** The names `vers_rename` touches when it moves a tracked file to a path
      with no artifacts are pairwise distinct wherever it matters. */
  lemma RenameNamesApart(fs: Files, from: Path, to: Path, h: seq<seq<byte>>)
    requires Chain(fs, from, h) && from in fs
    requires to !in fs && CounterName(to) !in fs
    requires forall i :: 0 <= i ==> SnapshotName(to, i) !in fs
    ensures from != to && CounterName(from) != CounterName(to)
    ensures from != CounterName(from) && from != CounterName(to) && to != CounterName(from) && to != CounterName(to)
    ensures forall k :: 0 <= k < |h| ==>
      SnapshotName(from, k) != from && SnapshotName(from, k) != to
      && SnapshotName(from, k) != CounterName(from) && SnapshotName(from, k) != CounterName(to)
    ensures forall k :: 0 <= k ==>
      SnapshotName(to, k) != from && SnapshotName(to, k) != to
      && SnapshotName(to, k) != CounterName(from) && SnapshotName(to, k) != CounterName(to)
  {
    NamesDistinct(from, to, 0, 0);
    NamesDistinct(to, from, 0, 0);
    NamesDistinct(from, from, 0, 0);
    NamesDistinct(to, to, 0, 0);
    forall k
      ensures SnapshotName(from, k) != from && SnapshotName(from, k) != CounterName(from)
      ensures SnapshotName(from, k) != CounterName(to)
      ensures SnapshotName(to, k) != to && SnapshotName(to, k) != CounterName(from)
      ensures SnapshotName(to, k) != CounterName(to)
    {
      NamesDistinct(from, from, k, k);
      NamesDistinct(to, to, k, k);
      NamesDistinct(to, from, 0, k);
      NamesDistinct(from, to, 0, k);
    }
  }

  /** The file rename and the counter-record rename of `vers_rename`, after
      which the snapshot countdown starts from the moved counter. */
  lemma RenameHead(fs: Files, broken: set<Path>, from: Path, to: Path, h: seq<seq<byte>>, uninit: int)
      returns (fs2: Files)
    requires Healthy(broken, from) && Healthy(broken, to)
    requires Chain(fs, from, h) && from in fs
    requires to !in fs && CounterName(to) !in fs
    requires forall i :: 0 <= i ==> SnapshotName(to, i) !in fs
    ensures RenameFile(fs, broken, from, to, uninit) == RenameSnapshots(fs2, broken, from, to, |h| - 1)
    ensures to in fs2 && fs2[to] == fs[from] && from !in fs2
    ensures CounterName(to) in fs2 && fs2[CounterName(to)] == Counter(|h| - 1) && CounterName(from) !in fs2
    ensures forall k :: 0 <= k < |h| ==>
      SnapshotName(from, k) in fs2 && fs2[SnapshotName(from, k)] == fs[SnapshotName(from, k)]
    ensures forall k :: 0 <= k ==> SnapshotName(to, k) !in fs2
    ensures AgreeOutside(fs, fs2, {from, to, CounterName(from), CounterName(to)})
  {
    var cf, ct := CounterName(from), CounterName(to);
    RenameNamesApart(fs, from, to, h);
    var fs1 := (fs - {from})[to := fs[from]];
    assert SysRename(fs, broken, from, to) == Done(fs1);
    fs2 := (fs1 - {cf})[ct := fs1[cf]];
    assert SysRename(fs1, broken, cf, ct) == Done(fs2);
  }
}
