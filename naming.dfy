/** Paths in the backing store, the storage-root check made at start-up,
    and the names the versioning layer derives from a tracked file's path:
    the counter record `P,v` and the snapshots `P,<i>` (decimal, as `%d`
    prints it). */
module Naming {

  type Path = string

  /** A directory argument is accepted when its first character is '/';
      an empty C string starts with NUL, so it is refused too. */
  predicate IsAbsolute(s: string) {
    |s| > 0 && s[0] == '/'
  }

  /** `prepend_storage_dir`: the storage root followed by the client path. */
  function Resolve(root: Path, path: Path): Path {
    root + path
  }

  /** Distinct client paths reach distinct storage paths, and the storage
      path keeps the root, so it is absolute whenever the root is. */
  lemma ResolveFaithful(root: Path, a: Path, b: Path)
    ensures Resolve(root, a) == Resolve(root, b) ==> a == b
    ensures |Resolve(root, a)| >= |root| && Resolve(root, a)[..|root|] == root
    ensures IsAbsolute(root) ==> IsAbsolute(Resolve(root, a))
  {
    if Resolve(root, a) == Resolve(root, b) {
      assert a == Resolve(root, a)[|root|..];
      assert b == Resolve(root, b)[|root|..];
    }
  }

  /** What `main` does with its arguments before handing over to the
      framework: it needs a storage directory and a mount point, and both
      must be absolute. */
  datatype Launch = Mount(storageDir: Path) | Refuse(status: int)

  function Startup(argv: seq<string>): (r: Launch)
    ensures r.Mount? <==> |argv| >= 3 && IsAbsolute(argv[1]) && IsAbsolute(argv[2])
    ensures r.Mount? ==> r.storageDir == argv[1] && IsAbsolute(r.storageDir)
    ensures r.Refuse? ==> r.status == 1
  {
    if |argv| < 3 then Refuse(1)
    else if !IsAbsolute(argv[1]) || !IsAbsolute(argv[2]) then Refuse(1)
    else Mount(argv[1])
  }

  // ---------------------------------------------------------------------
  // Decimal numerals, as printed by "%d"

  predicate IsDigit(c: char) {
    '0' <= c <= '9'
  }

  function DigitChar(d: int): (c: char)
    requires 0 <= d < 10
    ensures IsDigit(c)
  {
    (('0' as int) + d) as char
  }

  function DigitValue(c: char): int {
    (c as int) - ('0' as int)
  }

  /** The decimal numeral of a natural number, most significant digit first. */
  function NatDec(n: nat): (s: string)
    ensures |s| > 0
    ensures forall k :: 0 <= k < |s| ==> IsDigit(s[k])
  {
    if n < 10 then [DigitChar(n)] else NatDec(n / 10) + [DigitChar(n % 10)]
  }

  /** The value of a string of digits. */
  function ParseNat(s: string): int {
    if s == [] then 0 else 10 * ParseNat(s[..|s| - 1]) + DigitValue(s[|s| - 1])
  }

  lemma {:induction false} ParseNatDec(n: nat)
    ensures ParseNat(NatDec(n)) == n
  {
    if n >= 10 {
      var s := NatDec(n);
      assert s[..|s| - 1] == NatDec(n / 10);
      ParseNatDec(n / 10);
    }
  }

  /** `%d`: a minus sign for negative numbers, then the digits. */
  function Dec(i: int): (s: string)
    ensures |s| > 0
    ensures forall k :: 0 <= k < |s| ==> IsDigit(s[k]) || s[k] == '-'
  {
    if i < 0 then "-" + NatDec(-i) else NatDec(i)
  }

  function ParseDec(s: string): int {
    if |s| > 0 && s[0] == '-' then -ParseNat(s[1..]) else ParseNat(s)
  }

  /** Printing and reading back a number gives the number: `%d` loses
      nothing, so distinct indices have distinct numerals. */
  lemma DecRoundTrip(i: int)
    ensures ParseDec(Dec(i)) == i
  {
    if i < 0 {
      assert Dec(i)[1..] == NatDec(-i);
      ParseNatDec(-i);
    } else {
      ParseNatDec(i);
    }
  }

  lemma DecInjective(i: int, j: int)
    ensures Dec(i) == Dec(j) ==> i == j
  {
    DecRoundTrip(i);
    DecRoundTrip(j);
  }

  /** One digit exactly below 10, at most two exactly below 100. */
  lemma {:induction false} NatDecLength(n: nat)
    ensures |NatDec(n)| == 1 <==> n < 10
    ensures |NatDec(n)| <= 2 <==> n < 100
  {
    if n >= 10 {
      NatDecLength(n / 10);
    }
  }

  /** A numeral fits in two characters exactly for -9 .. 99. */
  lemma DecLength(i: int)
    ensures |Dec(i)| == 1 <==> 0 <= i < 10
    ensures |Dec(i)| <= 2 <==> -10 < i < 100
  {
    if i < 0 {
      NatDecLength(-i);
    } else {
      NatDecLength(i);
    }
  }

  // ---------------------------------------------------------------------
  // Artifact names

  /** The counter record of the file at `p` (`"%s,v"`). */
  function CounterName(p: Path): Path {
    p + ",v"
  }

  /** Snapshot `i` of the file at `p` (`"%s,%d"`). */
  function SnapshotName(p: Path, i: int): Path {
    p + "," + Dec(i)
  }

  /** The part of a name in front of its last comma, and the part after it. */
  function BeforeLastComma(x: string): string {
    if x == [] then []
    else if x[|x| - 1] == ',' then x[..|x| - 1]
    else BeforeLastComma(x[..|x| - 1])
  }

  function AfterLastComma(x: string): string {
    if x == [] then []
    else if x[|x| - 1] == ',' then []
    else AfterLastComma(x[..|x| - 1]) + [x[|x| - 1]]
  }

  /** A name built as `a + "," + s`, with no comma in `s`, splits back into
      `a` and `s`. */
  lemma {:induction false} SplitLastComma(a: string, s: string)
    requires forall k :: 0 <= k < |s| ==> s[k] != ','
    ensures BeforeLastComma(a + "," + s) == a
    ensures AfterLastComma(a + "," + s) == s
  {
    var x := a + "," + s;
    if s == [] {
      assert x[..|x| - 1] == a;
    } else {
      var s' := s[..|s| - 1];
      assert x[..|x| - 1] == a + "," + s';
      SplitLastComma(a, s');
    }
  }

  /** Every artifact name splits back into the tracked path and its marker:
      `v` for the counter record, the index's numeral for a snapshot. */
  lemma ArtifactNamesSplit(p: Path, i: int)
    ensures BeforeLastComma(CounterName(p)) == p && AfterLastComma(CounterName(p)) == "v"
    ensures BeforeLastComma(SnapshotName(p, i)) == p && AfterLastComma(SnapshotName(p, i)) == Dec(i)
  {
    assert CounterName(p) == p + "," + "v";
    SplitLastComma(p, "v");
    SplitLastComma(p, Dec(i));
  }

  /** The naming scheme never lets two artifacts, or an artifact and its own
      tracked file, share a name. */
  lemma NamesDistinct(p: Path, q: Path, i: int, j: int)
    ensures CounterName(p) != SnapshotName(q, j)
    ensures CounterName(p) == CounterName(q) ==> p == q
    ensures SnapshotName(p, i) == SnapshotName(q, j) ==> p == q && i == j
    ensures p != CounterName(p) && p != SnapshotName(p, i)
  {
    ArtifactNamesSplit(p, i);
    ArtifactNamesSplit(q, j);
    assert |Dec(j)| == 1 ==> Dec(j)[0] != 'v';
    assert |"v"| == 1;
    assert AfterLastComma(CounterName(p)) != AfterLastComma(SnapshotName(q, j));
    DecInjective(i, j);
    assert |p| < |CounterName(p)| && |p| < |SnapshotName(p, i)|;
  }
}
