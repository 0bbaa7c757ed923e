/** The backing storage directory seen through the system calls the
    versioning layer makes: a finite map from absolute paths to nodes, and a
    fixed set of paths at which every call fails with an I/O error. A call
    that fails leaves the store as it was. */
module Backing {
  import opened Naming

  type byte = bv8

  /** A regular file holds bytes; a counter record holds the version counter
      (its four raw bytes are not modelled); FIFOs and device nodes hold
      nothing this model reads. */
  datatype Node = Regular(data: seq<byte>) | Counter(value: int) | Special

  type Files = map<Path, Node>

  datatype Errno = ENOENT | EIO | EEXIST | EINVAL

  /** Linux's numbers for the errors this model produces. */
  function Code(e: Errno): int {
    match e
    case ENOENT => 2
    case EIO => 5
    case EEXIST => 17
    case EINVAL => 22
  }

  datatype Sys = Done(files: Files) | Failed(err: Errno)

  /** The bytes a read of the node delivers. */
  function Bytes(n: Node): seq<byte> {
    if n.Regular? then n.data else []
  }

  /** `read(fd, &start, 4)`: the counter a record holds; a node that is not a
      counter record leaves the variable at the value it had. */
  function CounterIn(n: Node, init: int): int {
    if n.Counter? then n.value else init
  }

  /** `open` of an existing path. */
  predicate Openable(fs: Files, broken: set<Path>, p: Path) {
    p in fs && p !in broken
  }

  /** The error of an `open` that fails. */
  function OpenError(broken: set<Path>, p: Path): Errno {
    if p in broken then EIO else ENOENT
  }

  /** `open(p, O_CREAT | O_EXCL | O_WRONLY)`: creates an empty file. */
  function CreateExclusive(fs: Files, broken: set<Path>, p: Path): Sys {
    if p in broken then Failed(EIO)
    else if p in fs then Failed(EEXIST)
    else Done(fs[p := Regular([])])
  }

  /** `unlink(p)`. */
  function SysUnlink(fs: Files, broken: set<Path>, p: Path): Sys {
    if !Openable(fs, broken, p) then Failed(OpenError(broken, p))
    else Done(fs - {p})
  }

  /** `mkfifo(p)` and `mknod(p)`: create a node that is not a regular file. */
  function MakeNode(fs: Files, broken: set<Path>, p: Path): Sys {
    if p in broken then Failed(EIO)
    else if p in fs then Failed(EEXIST)
    else Done(fs[p := Special])
  }

  /** The error of a `rename(a, b)` that fails. */
  function RenameError(broken: set<Path>, a: Path, b: Path): Errno {
    if a in broken || b in broken then EIO else ENOENT
  }

  /** `rename(a, b)`: replaces whatever is at `b`; renaming a path onto
      itself changes nothing. */
  function SysRename(fs: Files, broken: set<Path>, a: Path, b: Path): Sys {
    if a in broken || b in broken || a !in fs then Failed(RenameError(broken, a, b))
    else if a == b then Done(fs)
    else Done((fs - {a})[b := fs[a]])
  }

  function Zeros(n: nat): (z: seq<byte>)
    ensures |z| == n && forall k :: 0 <= k < n ==> z[k] == 0
  {
    if n == 0 then [] else Zeros(n - 1) + [0]
  }

  /** The content of a file cut or zero-extended to `n` bytes. */
  function Resize(d: seq<byte>, n: nat): (r: seq<byte>)
    ensures |r| == n
    ensures forall k :: 0 <= k < n ==> r[k] == if k < |d| then d[k] else 0
  {
    if n <= |d| then d[..n] else d + Zeros(n - |d|)
  }

  /** `truncate(p, size)`: a negative size is refused before the path is
      looked at. */
  function SysTruncate(fs: Files, broken: set<Path>, p: Path, size: int): Sys {
    if size < 0 then Failed(EINVAL)
    else if !Openable(fs, broken, p) then Failed(OpenError(broken, p))
    else Done(fs[p := Regular(Resize(Bytes(fs[p]), size))])
  }

  /** The content after `pwrite(fd, w, |w|, off)`: the bytes at `off` ..
      `off + |w| - 1` are replaced, a gap before `off` reads as zeros, and
      an empty write changes nothing. */
  function Overwrite(d: seq<byte>, off: nat, w: seq<byte>): (r: seq<byte>)
    ensures |w| == 0 ==> r == d
    ensures |w| > 0 ==> |r| == if off + |w| < |d| then |d| else off + |w|
    ensures forall k :: 0 <= k < |w| ==> r[off + k] == w[k]
    ensures forall k :: 0 <= k < |r| && !(off <= k < off + |w|) ==> r[k] == if k < |d| then d[k] else 0
  {
    if |w| == 0 then d
    else
      var base := if |d| < off then Resize(d, off) else d;
      base[..off] + w + (if off + |w| < |base| then base[off + |w|..] else [])
  }

  /** The node after `pwrite(fd, w, |w|, off)` on an open file. */
  function PWrite(n: Node, off: nat, w: seq<byte>): Node {
    if |w| == 0 then n else Regular(Overwrite(Bytes(n), off, w))
  }
}
