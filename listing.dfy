/** The filter `vers_readdir` applies to the entries of a storage
    directory: an entry is hidden when its second-last or third-last
    character is a comma. */
module Listing {
  import opened Naming

  /** The test at the head of the readdir loop. For names shorter than
      three characters the source reads before the start of the name; this
      model counts a position that does not exist as "not a comma". */
  predicate Hidden(name: string) {
    (|name| >= 2 && name[|name| - 2] == ',') || (|name| >= 3 && name[|name| - 3] == ',')
  }

  /** The entries the filter passes on, in listing order. */
  function Visible(entries: seq<string>): seq<string> {
    if entries == [] then []
    else
      var last := entries[|entries| - 1];
      Visible(entries[..|entries| - 1]) + (if Hidden(last) then [] else [last])
  }

  function Take(s: seq<string>, n: nat): seq<string> {
    if n < |s| then s[..n] else s
  }

  /** A name is passed on iff it is listed and not hidden. */
  lemma {:induction false} VisibleMembers(entries: seq<string>, x: string)
    ensures x in Visible(entries) <==> x in entries && !Hidden(x)
  {
    if entries != [] {
      var init := entries[..|entries| - 1];
      assert entries == init + [entries[|entries| - 1]];
      VisibleMembers(init, x);
    }
  }

  /** Filtering a listing in two parts and joining the results is filtering
      the whole listing: the relative order of the passed entries is kept. */
  lemma {:induction false} VisibleAppend(a: seq<string>, b: seq<string>)
    ensures Visible(a + b) == Visible(a) + Visible(b)
  {
    if b == [] {
      assert a + b == a;
    } else {
      var b' := b[..|b| - 1];
      assert (a + b)[..|a + b| - 1] == a + b';
      VisibleAppend(a, b');
    }
  }

  /** The loop of `vers_readdir` over a listing: every entry the filter passes
      goes to the framework's `filler`, and the loop stops at the first entry
      the framework has no room for (`filler` returns non-zero). */
  method FilterEntries(entries: seq<string>, capacity: nat) returns (shown: seq<string>)
    ensures shown == Take(Visible(entries), capacity)
  {
    shown := [];
    var i := 0;
    while i < |entries|
      invariant 0 <= i <= |entries|
      invariant shown == Visible(entries[..i])
      invariant |shown| <= capacity
    {
      var name := entries[i];
      assert entries[..i + 1][..i] == entries[..i];
      if !Hidden(name) {
        if |shown| == capacity {
          // filler reports a full buffer: the remaining entries are dropped
          VisibleAppend(entries[..i], entries[i..]);
          assert entries[..i] + entries[i..] == entries;
          return;
        }
        shown := shown + [name];
      }
      i := i + 1;
    }
    assert entries[..i] == entries;
  }

  /** Counter records are always hidden. */
  lemma CounterRecordHidden(p: Path)
    ensures Hidden(CounterName(p))
  {
    var x := CounterName(p);
    assert x[|x| - 2] == ',';
  }

  /** Snapshot `i` is hidden exactly when its numeral has at most two
      characters: `,0` .. `,99` (and `,-1` .. `,-9`) are hidden, while
      `,100` and above, and the `,-999` of a backup without a counter
      record, are shown. */
  lemma SnapshotHiddenIff(p: Path, i: int)
    ensures Hidden(SnapshotName(p, i)) <==> -10 < i < 100
  {
    var d := Dec(i);
    var x := SnapshotName(p, i);
    DecLength(i);
    assert x[|p| + 1..] == d;
    if |d| == 1 {
      assert x[|x| - 2] == ',';
    } else if |d| == 2 {
      assert x[|x| - 3] == ',';
    } else {
      assert x[|x| - 2] == d[|d| - 2];
      assert x[|x| - 3] == d[|d| - 3];
    }
  }

  /** Every snapshot of a chain with `n` snapshots is hidden iff `n <= 100`. */
  lemma ChainHiddenIff(p: Path, n: nat)
    ensures (forall i :: 0 <= i < n ==> Hidden(SnapshotName(p, i))) <==> n <= 100
  {
    if n > 100 {
      SnapshotHiddenIff(p, 100);
    } else {
      forall i | 0 <= i < n
        ensures Hidden(SnapshotName(p, i))
      {
        SnapshotHiddenIff(p, i);
      }
    }
  }
}
