/** Line statistics: the four-counter `Stats` record, the classification of a
    single line, and sums of `Stats` over maps and sequences. */
module LineStats {

  /** The classifier's verdict for one line of a file. */
  datatype LineType = Blank | Code | Comment

  /** Totals for a file or a collection of files. The source's counters are
      `usize`; here they are unbounded (see README). */
  datatype Stats = Stats(lines: nat, blanks: nat, comments: nat, code: nat)

  /** The derived `Default`: every counter zero. */
  function Zero(): Stats {
    Stats(0, 0, 0, 0)
  }

  /** The invariant every `Stats` built by the library keeps. */
  predicate WellFormed(s: Stats) {
    s.lines == s.code + s.comments + s.blanks
  }

  /** `impl Add for Stats`: component-wise addition. */
  function Add(a: Stats, b: Stats): Stats
  {
    Stats(a.lines + b.lines, a.blanks + b.blanks, a.comments + b.comments, a.code + b.code)
  }

  /** The statistics of exactly one line of the given kind. */
  function Unit(t: LineType): Stats
  {
    match t
    case Blank => Stats(1, 1, 0, 0)
    case Code => Stats(1, 0, 0, 1)
    case Comment => Stats(1, 0, 1, 0)
  }

  /** `impl AddAssign<LineType> for Stats`: count one classified line. The
      kind's counter and `lines` each go up by one, nothing else changes. */
  function AddLine(s: Stats, t: LineType): (r: Stats)
    ensures r == Add(s, Unit(t))
    ensures r.lines == s.lines + 1
    ensures r.blanks == s.blanks + (if t == Blank then 1 else 0)
    ensures r.code == s.code + (if t == Code then 1 else 0)
    ensures r.comments == s.comments + (if t == Comment then 1 else 0)
  {
    match t
    case Blank => Stats(s.lines + 1, s.blanks + 1, s.comments, s.code)
    case Code => Stats(s.lines + 1, s.blanks, s.comments, s.code + 1)
    case Comment => Stats(s.lines + 1, s.blanks, s.comments + 1, s.code)
  }

  /** `impl AddAssign for Stats`: the four fields of `self` are updated in
      turn; the new value is the old value plus `other`. */
  method AddAssign(self: Stats, other: Stats) returns (r: Stats)
    ensures r == Add(self, other)
  {
    r := self;
    r := r.(lines := r.lines + other.lines);
    r := r.(code := r.code + other.code);
    r := r.(comments := r.comments + other.comments);
    r := r.(blanks := r.blanks + other.blanks);
  }

  /** `impl AddAssign<LineType> for Stats`. */
  method AddAssignLine(self: Stats, other: LineType) returns (r: Stats)
    ensures r == AddLine(self, other) && r == Add(self, Unit(other))
  {
    r := self;
    match other {
      case Blank => r := r.(blanks := r.blanks + 1);
      case Code => r := r.(code := r.code + 1);
      case Comment => r := r.(comments := r.comments + 1);
    }
    r := r.(lines := r.lines + 1);
  }

  /** `impl AddAssign<&LineType> for Stats`: the borrowed overload. Its
      contract is the owned overload's, so the two have the same effect. */
  method AddAssignLineRef(self: Stats, other: LineType) returns (r: Stats)
    ensures r == AddLine(self, other)
    ensures r.lines == self.lines + 1
  {
    r := self;
    if other == Blank {
      r := r.(blanks := r.blanks + 1);
    } else if other == Code {
      r := r.(code := r.code + 1);
    } else {
      r := r.(comments := r.comments + 1);
    }
    r := r.(lines := r.lines + 1);
  }

  lemma ZeroIsIdentity(s: Stats)
    ensures Add(Zero(), s) == s && Add(s, Zero()) == s
  {
  }

  lemma AddCommutative(a: Stats, b: Stats)
    ensures Add(a, b) == Add(b, a)
  {
  }

  lemma AddAssociative(a: Stats, b: Stats, c: Stats)
    ensures Add(Add(a, b), c) == Add(a, Add(b, c))
  {
  }

  /** The sum of well-formed statistics is well-formed. */
  lemma AddWellFormed(a: Stats, b: Stats)
    requires WellFormed(a) && WellFormed(b)
    ensures WellFormed(Add(a, b))
  {
  }

  /** Counting a line keeps the invariant `lines == code + comments + blanks`. */
  lemma AddLineWellFormed(s: Stats, t: LineType)
    requires WellFormed(s)
    ensures WellFormed(AddLine(s, t))
  {
  }

  // ---------------------------------------------------------------------
  // Sums of Stats over maps and sequences (the order of a HashMap is
  // unspecified, so a sum over a map is defined by picking any key and is
  // then shown not to depend on the choice).
  // ---------------------------------------------------------------------

  /** The value at `k`, or zero when `k` is absent: an absent entry counts as
      zero statistics. */
  function Get<K>(m: map<K, Stats>, k: K): Stats {
    if k in m then m[k] else Zero()
  }

  /** The component-wise sum of all values of `m`. */
  ghost function MapSum<K>(m: map<K, Stats>): Stats
    decreases |m|
  {
    if m == map[] then Zero()
    else
      var k :| k in m;
      Add(m[k], MapSum(m - {k}))
  }

  /** Any key may be taken out first: the sum does not depend on the order in
      which the map is traversed. */
  lemma {:induction false} MapSumPick<K>(m: map<K, Stats>, k: K)
    requires k in m
    ensures MapSum(m) == Add(m[k], MapSum(m - {k}))
    decreases |m|
  {
    var j :| j in m && MapSum(m) == Add(m[j], MapSum(m - {j}));
    if j != k {
      var m' := m - {j} - {k};
      assert m - {j} - {k} == m - {k} - {j};
      MapSumPick(m - {j}, k);
      MapSumPick(m - {k}, j);
      AddAssociative(m[j], m[k], MapSum(m'));
      AddCommutative(m[j], m[k]);
      AddAssociative(m[k], m[j], MapSum(m'));
    }
  }

  /** Adding `x` to the value at `k` (zero when `k` is absent) adds `x` to the sum. */
  lemma {:induction false} MapSumUpdate<K>(m: map<K, Stats>, k: K, x: Stats)
    ensures MapSum(m[k := Add(Get(m, k), x)]) == Add(MapSum(m), x)
  {
    var m' := m[k := Add(Get(m, k), x)];
    MapSumPick(m', k);
    assert m' - {k} == m - {k};
    if k in m {
      MapSumPick(m, k);
      AddAssociative(m[k], x, MapSum(m - {k}));
      AddCommutative(x, MapSum(m - {k}));
      AddAssociative(m[k], MapSum(m - {k}), x);
    } else {
      assert m - {k} == m;
      ZeroIsIdentity(x);
      AddCommutative(x, MapSum(m));
    }
  }

  /** Every value well-formed makes the sum well-formed. */
  lemma {:induction false} MapSumWellFormed<K>(m: map<K, Stats>)
    requires forall k :: k in m ==> WellFormed(m[k])
    ensures WellFormed(MapSum(m))
    decreases |m|
  {
    if m != map[] {
      var k :| k in m;
      MapSumPick(m, k);
      MapSumWellFormed(m - {k});
    }
  }
}
