/** `src/diff_stats.rs`: insertion and deletion counts of an author's
    commits. */
module DiffStatistics {

  /** `git2::DiffStats`, as far as it is read: the totals of one diff. */
  datatype GitDiffStats = GitDiffStats(insertions: nat, deletions: nat)

  /** `DiffStats`. Its counters are `usize` in the source; unbounded here. */
  datatype DiffStats = DiffStats(insertions: nat, deletions: nat)

  /** The derived `Default`. */
  function Default(): DiffStats {
    DiffStats(0, 0)
  }

  /** The value `self` holds after `self += other`. */
  function Added(self: DiffStats, other: GitDiffStats): DiffStats {
    DiffStats(self.insertions + other.insertions, self.deletions + other.deletions)
  }

  /** `impl AddAssign<git2::DiffStats> for DiffStats`: both counters of
      `self` grow by the diff's, each independently of the other. The
      operator updates `self` through `&mut self`; with nothing else
      referring to it, that is returning the updated value. */
  method AddAssign(self: DiffStats, other: GitDiffStats) returns (r: DiffStats)
    ensures r.insertions == self.insertions + other.insertions
    ensures r.deletions == self.deletions + other.deletions
    ensures r == Added(self, other)
  {
    r := self;
    r := r.(insertions := r.insertions + other.insertions);
    r := r.(deletions := r.deletions + other.deletions);
  }

  /** The value after `+=` of each diff of `ds` in turn, from the default. */
  function Accumulated(ds: seq<GitDiffStats>): DiffStats {
    if ds == [] then Default()
    else Added(Accumulated(ds[..|ds| - 1]), ds[|ds| - 1])
  }

  /** Accumulating a concatenation adds the two halves' counters. */
  lemma {:induction false} AccumulatedAppend(xs: seq<GitDiffStats>, ys: seq<GitDiffStats>)
    ensures Accumulated(xs + ys).insertions == Accumulated(xs).insertions + Accumulated(ys).insertions
    ensures Accumulated(xs + ys).deletions == Accumulated(xs).deletions + Accumulated(ys).deletions
    decreases |ys|
  {
    if ys == [] {
      assert xs + ys == xs;
    } else {
      assert (xs + ys)[..|xs + ys| - 1] == xs + ys[..|ys| - 1];
      AccumulatedAppend(xs, ys[..|ys| - 1]);
    }
  }

  lemma MoveToEnd(p: seq<GitDiffStats>, x: GitDiffStats, q: seq<GitDiffStats>)
    ensures Accumulated(p + [x] + q) == Accumulated(p + q + [x])
  {
    AccumulatedAppend(p + [x], q);
    AccumulatedAppend(p, [x]);
    AccumulatedAppend(p + q, [x]);
    AccumulatedAppend(p, q);
  }

  /** Where the last element of `xs` sits in its permutation `ys`. */
  lemma SplitAtLast<T>(xs: seq<T>, ys: seq<T>) returns (p: seq<T>, q: seq<T>)
    requires xs != [] && multiset(xs) == multiset(ys)
    ensures ys == p + [xs[|xs| - 1]] + q
    ensures multiset(xs[..|xs| - 1]) == multiset(p + q)
  {
    var n := |xs| - 1;
    var x := xs[n];
    assert xs == xs[..n] + [x];
    assert x in multiset(ys);
    var i :| 0 <= i < |ys| && ys[i] == x;
    p, q := ys[..i], ys[i + 1..];
    assert ys == p + [x] + q;
    assert multiset(xs[..n]) == multiset(xs) - multiset{x};
    assert multiset(p + q) == multiset(ys) - multiset{x};
  }

  /** The order in which diffs are accumulated does not matter. */
  lemma {:induction false} AccumulatedOrderIndependent(xs: seq<GitDiffStats>, ys: seq<GitDiffStats>)
    requires multiset(xs) == multiset(ys)
    ensures Accumulated(xs) == Accumulated(ys)
    decreases |xs|
  {
    if xs != [] {
      var x := xs[|xs| - 1];
      var p, q := SplitAtLast(xs, ys);
      AccumulatedOrderIndependent(xs[..|xs| - 1], p + q);
      MoveToEnd(p, x, q);
      var moved := p + q + [x];
      assert moved[..|moved| - 1] == p + q;
    } else {
      assert |multiset(ys)| == 0;
    }
  }
}
