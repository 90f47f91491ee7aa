/** `ProjectStats`: the nested map author -> language -> `Stats` that
    `final_contributions` builds, its in-place `insert`, its queries, and the
    merge (`+=`) that the parallel reduction relies on. */
module Project {
  import opened LineStats
  import opened Wrappers

  /** language -> statistics, for one author */
  type LangMap = map<string, Stats>

  /** author -> language -> statistics */
  type StatsMap = map<string, LangMap>

  /** Every author has at least one language: `insert`, `from` and the merge
      never create an author with an empty language map. */
  ghost predicate NoEmptyAuthor(m: StatsMap) {
    forall a :: a in m ==> m[a] != map[]
  }

  /** Every cell keeps `lines == code + comments + blanks`. */
  ghost predicate AllWellFormed(m: StatsMap) {
    forall a, l :: a in m && l in m[a] ==> WellFormed(m[a][l])
  }

  /** The languages of author `a`, empty when `a` is unknown. */
  function Langs(m: StatsMap, a: string): LangMap {
    if a in m then m[a] else map[]
  }

  /** The cell (a, l); an absent cell reads as zero. */
  function Cell(m: StatsMap, a: string, l: string): Stats {
    Get(Langs(m, a), l)
  }

  /** The map after `insert(name, lang, s)`: an existing author has `s` added
      to the language entry (created as `Stats::default()` when absent); a new
      author gets a one-language map holding `s`. */
  function Inserted(m: StatsMap, name: string, lang: string, s: Stats): StatsMap {
    if name in m then m[name := m[name][lang := Add(Get(m[name], lang), s)]]
    else m[name := map[lang := s]]
  }

  /** Component-wise sum of each author's languages. */
  ghost function AuthorTotals(m: StatsMap): map<string, Stats> {
    map a | a in m :: MapSum(m[a])
  }

  /** The sum of all cells. */
  ghost function Total(m: StatsMap): Stats {
    MapSum(AuthorTotals(m))
  }

  // ---------------------------------------------------------------------
  // insert
  // ---------------------------------------------------------------------

  /** Both branches of `insert` are one update of the author's language map. */
  lemma InsertedLangs(m: StatsMap, name: string, lang: string, s: Stats)
    ensures Inserted(m, name, lang, s) == m[name := Langs(m, name)[lang := Add(Cell(m, name, lang), s)]]
  {
    if name !in m {
      ZeroIsIdentity(s);
    }
  }

  /** After `insert(name, lang, s)` the target cell is its old value (zero if
      absent) plus `s`; every other cell and every other author is as before;
      `name` is a contributor; the map invariants are kept. */
  lemma InsertFrame(m: StatsMap, name: string, lang: string, s: Stats)
    ensures Cell(Inserted(m, name, lang, s), name, lang) == Add(Cell(m, name, lang), s)
    ensures forall a, l :: a != name || l != lang ==>
              Cell(Inserted(m, name, lang, s), a, l) == Cell(m, a, l)
    ensures forall a :: a != name ==>
              (a in Inserted(m, name, lang, s) <==> a in m) && Langs(Inserted(m, name, lang, s), a) == Langs(m, a)
    ensures Inserted(m, name, lang, s).Keys == m.Keys + {name}
    ensures Langs(Inserted(m, name, lang, s), name).Keys == Langs(m, name).Keys + {lang}
    ensures NoEmptyAuthor(m) ==> NoEmptyAuthor(Inserted(m, name, lang, s))
    ensures AllWellFormed(m) && WellFormed(s) ==> AllWellFormed(Inserted(m, name, lang, s))
  {
    InsertedLangs(m, name, lang, s);
  }

  /** Taking one author out of the total. */
  lemma TotalPick(m: StatsMap, a: string)
    requires a in m
    ensures Total(m) == Add(MapSum(m[a]), Total(m - {a}))
  {
    assert AuthorTotals(m) - {a} == AuthorTotals(m - {a});
    MapSumPick(AuthorTotals(m), a);
  }

  /** `insert` adds exactly `s` to the total, so `total_lines()` grows by
      exactly `s.lines`. */
  lemma InsertTotal(m: StatsMap, name: string, lang: string, s: Stats)
    ensures Total(Inserted(m, name, lang, s)) == Add(Total(m), s)
    ensures Total(Inserted(m, name, lang, s)).lines == Total(m).lines + s.lines
  {
    var r := Inserted(m, name, lang, s);
    InsertedLangs(m, name, lang, s);
    MapSumUpdate(Langs(m, name), lang, s);
    assert Get(AuthorTotals(m), name) == MapSum(Langs(m, name));
    assert AuthorTotals(r) == AuthorTotals(m)[name := Add(Get(AuthorTotals(m), name), s)];
    MapSumUpdate(AuthorTotals(m), name, s);
  }

  lemma InsertTwice(m: StatsMap, n: string, l: string, s1: Stats, s2: Stats)
    ensures Inserted(Inserted(m, n, l, s1), n, l, s2) == m[n := Langs(m, n)[l := Add(Add(Cell(m, n, l), s1), s2)]]
  {
    var X := Langs(m, n);
    var m1 := Inserted(m, n, l, s1);
    InsertedLangs(m, n, l, s1);
    var A := Add(Cell(m, n, l), s1);
    assert Langs(m1, n) == X[l := A];
    assert Cell(m1, n, l) == A;
    InsertedLangs(m1, n, l, s2);
    assert X[l := A][l := Add(A, s2)] == X[l := Add(A, s2)];
    assert m[n := X[l := A]][n := X[l := Add(A, s2)]] == m[n := X[l := Add(A, s2)]];
  }

  /** Two inserts into any cells give the same map in either order, and two
      inserts into the same cell equal one insert of their sum. */
  lemma InsertCommutes(m: StatsMap, n1: string, l1: string, s1: Stats, n2: string, l2: string, s2: Stats)
    ensures Inserted(Inserted(m, n1, l1, s1), n2, l2, s2) == Inserted(Inserted(m, n2, l2, s2), n1, l1, s1)
    ensures n1 == n2 && l1 == l2 ==>
              Inserted(Inserted(m, n1, l1, s1), n2, l2, s2) == Inserted(m, n1, l1, Add(s1, s2))
  {
    if n1 == n2 && l1 == l2 {
      InsertSameCell(m, n1, l1, s1, s2);
    } else if n1 == n2 {
      InsertSameAuthor(m, n1, l1, s1, l2, s2);
    }
  }

  lemma InsertSameCell(m: StatsMap, n: string, l: string, s1: Stats, s2: Stats)
    ensures Inserted(Inserted(m, n, l, s1), n, l, s2) == Inserted(Inserted(m, n, l, s2), n, l, s1)
    ensures Inserted(Inserted(m, n, l, s1), n, l, s2) == Inserted(m, n, l, Add(s1, s2))
  {
    var c := Cell(m, n, l);
    InsertTwice(m, n, l, s1, s2);
    InsertTwice(m, n, l, s2, s1);
    InsertedLangs(m, n, l, Add(s1, s2));
    AddAssociative(c, s1, s2);
    AddAssociative(c, s2, s1);
    AddCommutative(s1, s2);
  }

  lemma InsertSameAuthor(m: StatsMap, n: string, l1: string, s1: Stats, l2: string, s2: Stats)
    requires l1 != l2
    ensures Inserted(Inserted(m, n, l1, s1), n, l2, s2) == Inserted(Inserted(m, n, l2, s2), n, l1, s1)
  {
    var X := Langs(m, n);
    var m1 := Inserted(m, n, l1, s1);
    var m2 := Inserted(m, n, l2, s2);
    InsertedLangs(m, n, l1, s1);
    InsertedLangs(m, n, l2, s2);
    assert Langs(m1, n) == X[l1 := Add(Get(X, l1), s1)];
    assert Langs(m2, n) == X[l2 := Add(Get(X, l2), s2)];
    InsertedLangs(m1, n, l2, s2);
    InsertedLangs(m2, n, l1, s1);
    assert X[l1 := Add(Get(X, l1), s1)][l2 := Add(Get(X, l2), s2)]
        == X[l2 := Add(Get(X, l2), s2)][l1 := Add(Get(X, l1), s1)];
  }

  // ---------------------------------------------------------------------
  // ProjectStats::from((lang, contributions)) and the merge `+=`
  // ---------------------------------------------------------------------

  /** `ProjectStats::from((lang, contributions))`: one single-language entry
      per author of one file. */
  function FromFile(lang: string, contributions: map<string, Stats>): StatsMap {
    map a | a in contributions :: map[lang := contributions[a]]
  }

  /** The per-language merge: union of languages, sum on shared ones. */
  function LangMerged(x: LangMap, y: LangMap): LangMap {
    map l | l in x.Keys + y.Keys :: Add(Get(x, l), Get(y, l))
  }

  /** Authors of `r` that own at least one cell. */
  function Live(r: StatsMap): set<string> {
    set a | a in r && r[a] != map[]
  }

  /** `lhs += rhs`: every cell of `rhs` inserted into `lhs`. Authors of `lhs`
      are kept; an author of `rhs` joins when they own at least one cell. */
  function Merged(m: StatsMap, r: StatsMap): StatsMap {
    map a | a in m.Keys + Live(r) :: LangMerged(Langs(m, a), Langs(r, a))
  }

  lemma GetLangMerged(x: LangMap, y: LangMap, l: string)
    ensures Get(LangMerged(x, y), l) == Add(Get(x, l), Get(y, l))
  {
  }

  lemma LangsMerged(m: StatsMap, r: StatsMap, a: string)
    ensures Langs(Merged(m, r), a) == LangMerged(Langs(m, a), Langs(r, a))
  {
    if a !in Merged(m, r) {
      assert LangMerged(map[], map[]) == map[];
    }
  }

  lemma LangMergedStep(X: LangMap, L: LangMap, l: string)
    requires l in L
    ensures LangMerged(X[l := Add(Get(X, l), L[l])], L - {l}) == LangMerged(X, L)
  {
    var x' := LangMerged(X[l := Add(Get(X, l), L[l])], L - {l});
    var y' := LangMerged(X, L);
    assert x'.Keys == y'.Keys;
    forall k | k in x'
      ensures x'[k] == y'[k]
    {
      if k == l {
        ZeroIsIdentity(Add(Get(X, l), L[l]));
      }
    }
  }

  lemma LiveUpdate(r: StatsMap, a: string, L: LangMap)
    ensures Live(r[a := L]) == (Live(r) - {a}) + (if L == map[] then {} else {a})
  {
  }

  /** One step of the merge loop: inserting cell (a, l) of the right-hand side
      and removing it from the right-hand side leaves the result unchanged. */
  lemma MergeStepCell(m: StatsMap, r: StatsMap, a: string, L: LangMap, l: string)
    requires l in L
    ensures Merged(Inserted(m, a, l, L[l]), r[a := L - {l}]) == Merged(m, r[a := L])
  {
    var m' := Inserted(m, a, l, L[l]);
    var lhs := Merged(m', r[a := L - {l}]);
    var rhs := Merged(m, r[a := L]);
    MergeStepCellKeys(m, r, a, L, l);
    forall b | b in lhs
      ensures lhs[b] == rhs[b]
    {
      MergeStepCellAt(m, r, a, L, l, b);
    }
  }

  lemma MergeStepCellKeys(m: StatsMap, r: StatsMap, a: string, L: LangMap, l: string)
    requires l in L
    ensures Merged(Inserted(m, a, l, L[l]), r[a := L - {l}]).Keys == Merged(m, r[a := L]).Keys
  {
    InsertedLangs(m, a, l, L[l]);
    LiveUpdate(r, a, L);
    LiveUpdate(r, a, L - {l});
  }

  lemma MergeStepCellAt(m: StatsMap, r: StatsMap, a: string, L: LangMap, l: string, b: string)
    requires l in L
    ensures Langs(Merged(Inserted(m, a, l, L[l]), r[a := L - {l}]), b) == Langs(Merged(m, r[a := L]), b)
  {
    var m' := Inserted(m, a, l, L[l]);
    LangsMerged(m', r[a := L - {l}], b);
    LangsMerged(m, r[a := L], b);
    InsertedLangs(m, a, l, L[l]);
    if b == a {
      LangMergedStep(Langs(m, a), L, l);
    } else {
      assert Langs(m', b) == Langs(m, b);
    }
  }

  /** An author of the right-hand side left with no cells contributes nothing. */
  lemma MergeStepAuthor(m: StatsMap, r: StatsMap, a: string)
    ensures Merged(m, r[a := map[]]) == Merged(m, r - {a})
  {
    assert Live(r[a := map[]]) == Live(r - {a});
  }

  lemma LangMergedIdentity(x: LangMap)
    ensures LangMerged(x, map[]) == x && LangMerged(map[], x) == x
  {
    forall l | l in x
      ensures LangMerged(x, map[])[l] == x[l] && LangMerged(map[], x)[l] == x[l]
    {
      ZeroIsIdentity(x[l]);
    }
  }

  /** The empty `ProjectStats` (`ProjectStats::default`) is a two-sided
      identity of the merge. */
  lemma MergedIdentity(m: StatsMap)
    ensures Merged(m, map[]) == m
    ensures NoEmptyAuthor(m) ==> Merged(map[], m) == m
  {
    assert Live(map[]) == {};
    forall a | a in m
      ensures Merged(m, map[])[a] == m[a]
    {
      LangMergedIdentity(m[a]);
    }
    if NoEmptyAuthor(m) {
      assert Live(m) == m.Keys;
      forall a | a in m
        ensures Merged(map[], m)[a] == m[a]
      {
        LangMergedIdentity(m[a]);
      }
    }
  }

  lemma LangMergedCommutative(x: LangMap, y: LangMap)
    ensures LangMerged(x, y) == LangMerged(y, x)
  {
    var p := LangMerged(x, y);
    var q := LangMerged(y, x);
    forall l | l in p
      ensures p[l] == q[l]
    {
      AddCommutative(Get(x, l), Get(y, l));
    }
  }

  /** The merge is commutative on maps with no empty author. */
  lemma MergedCommutative(x: StatsMap, y: StatsMap)
    requires NoEmptyAuthor(x) && NoEmptyAuthor(y)
    ensures Merged(x, y) == Merged(y, x)
  {
    assert Live(x) == x.Keys && Live(y) == y.Keys;
    forall a | a in Merged(x, y)
      ensures Merged(x, y)[a] == Merged(y, x)[a]
    {
      LangMergedCommutative(Langs(x, a), Langs(y, a));
    }
  }

  lemma LangMergedAssociative(x: LangMap, y: LangMap, z: LangMap)
    ensures LangMerged(LangMerged(x, y), z) == LangMerged(x, LangMerged(y, z))
  {
    var p := LangMerged(LangMerged(x, y), z);
    var q := LangMerged(x, LangMerged(y, z));
    assert p.Keys == q.Keys;
    forall l | l in p
      ensures p[l] == q[l]
    {
      LangMergedAssociativeAt(x, y, z, l);
    }
  }

  lemma LangMergedAssociativeAt(x: LangMap, y: LangMap, z: LangMap, l: string)
    ensures Get(LangMerged(LangMerged(x, y), z), l) == Get(LangMerged(x, LangMerged(y, z)), l)
  {
    GetLangMerged(LangMerged(x, y), z, l);
    GetLangMerged(x, y, l);
    GetLangMerged(x, LangMerged(y, z), l);
    GetLangMerged(y, z, l);
    AddAssociative(Get(x, l), Get(y, l), Get(z, l));
  }

  lemma LiveMerged(y: StatsMap, z: StatsMap)
    ensures Live(Merged(y, z)) == Live(y) + Live(z)
  {
    forall a | a in Merged(y, z)
      ensures Merged(y, z)[a] == map[] <==> Langs(y, a) == map[] && Langs(z, a) == map[]
    {
      var p := LangMerged(Langs(y, a), Langs(z, a));
      if p == map[] {
        assert forall l :: l in Langs(y, a) ==> l in p;
        assert forall l :: l in Langs(z, a) ==> l in p;
      }
    }
  }

  /** The merge is associative, so any reduction tree gives the same map. */
  lemma MergedAssociative(x: StatsMap, y: StatsMap, z: StatsMap)
    ensures Merged(Merged(x, y), z) == Merged(x, Merged(y, z))
  {
    var p := Merged(Merged(x, y), z);
    var q := Merged(x, Merged(y, z));
    MergedAssociativeKeys(x, y, z);
    forall a | a in p
      ensures p[a] == q[a]
    {
      MergedAssociativeAt(x, y, z, a);
    }
  }

  lemma MergedAssociativeKeys(x: StatsMap, y: StatsMap, z: StatsMap)
    ensures Merged(Merged(x, y), z).Keys == Merged(x, Merged(y, z)).Keys
  {
    LiveMerged(y, z);
  }

  lemma MergedAssociativeAt(x: StatsMap, y: StatsMap, z: StatsMap, a: string)
    ensures Langs(Merged(Merged(x, y), z), a) == Langs(Merged(x, Merged(y, z)), a)
  {
    LangsMerged(Merged(x, y), z, a);
    LangsMerged(x, y, a);
    LangsMerged(x, Merged(y, z), a);
    LangsMerged(y, z, a);
    LangMergedAssociative(Langs(x, a), Langs(y, a), Langs(z, a));
  }

  /** `insert` is the merge with a one-cell map. */
  lemma InsertIsMerge(m: StatsMap, name: string, lang: string, s: Stats)
    ensures Inserted(m, name, lang, s) == Merged(m, map[name := map[lang := s]])
  {
    var one: StatsMap := map[];
    MergeStepCell(m, one, name, map[lang := s], lang);
    assert map[lang := s] - {lang} == map[];
    MergeStepAuthor(Inserted(m, name, lang, s), one, name);
    assert one - {name} == map[];
    MergedIdentity(Inserted(m, name, lang, s));
  }

  /** The merge keeps the map invariants. */
  lemma MergedInvariants(m: StatsMap, r: StatsMap)
    ensures NoEmptyAuthor(m) ==> NoEmptyAuthor(Merged(m, r))
    ensures AllWellFormed(m) && AllWellFormed(r) ==> AllWellFormed(Merged(m, r))
  {
    var p := Merged(m, r);
    if NoEmptyAuthor(m) {
      forall a | a in p
        ensures p[a] != map[]
      {
        var l :| l in (if a in m then m[a] else r[a]);
      }
    }
    if AllWellFormed(m) && AllWellFormed(r) {
      forall a, l | a in p && l in p[a]
        ensures WellFormed(p[a][l])
      {
      }
    }
  }

  /** The totals add up under the merge: `total_lines()` of `lhs += rhs` is
      the sum of the two. */
  lemma {:induction false} MergedTotal(m: StatsMap, r: StatsMap)
    ensures Total(Merged(m, r)) == Add(Total(m), Total(r))
    decreases |r|, 0
  {
    if r == map[] {
      assert Total(r) == Zero() by {
        assert AuthorTotals(r) == map[];
      }
      MergedIdentity(m);
      ZeroIsIdentity(Total(m));
    } else {
      var a :| a in r;
      var r' := r - {a};
      assert r'[a := r[a]] == r;
      MergedTotalLangs(m, r', a, r[a]);
      TotalPick(r, a);
      AddAssociative(Total(m), MapSum(r[a]), Total(r'));
    }
  }

  lemma {:induction false} MergedTotalLangs(m: StatsMap, r: StatsMap, a: string, L: LangMap)
    requires a !in r
    ensures Total(Merged(m, r[a := L])) == Add(Add(Total(m), MapSum(L)), Total(r))
    decreases |r|, |L| + 1
  {
    if L == map[] {
      MergedTotal(m, r);
      MergedTotalNoLangs(m, r, a);
      ZeroIsIdentity(Total(m));
    } else {
      var l :| l in L;
      MergedTotalLangs(Inserted(m, a, l, L[l]), r, a, L - {l});
      MergedTotalLangsStep(m, r, a, L, l);
    }
  }

  /** The base case of `MergedTotalLangs`: an author with no languages adds
      nothing. */
  lemma MergedTotalNoLangs(m: StatsMap, r: StatsMap, a: string)
    requires a !in r
    ensures Total(Merged(m, r[a := map[]])) == Total(Merged(m, r))
  {
    MergeStepAuthor(m, r, a);
    assert r - {a} == r;
  }

  /** The step of `MergedTotalLangs`: one cell of `L` inserted first. */
  lemma MergedTotalLangsStep(m: StatsMap, r: StatsMap, a: string, L: LangMap, l: string)
    requires a !in r && l in L
    requires Total(Merged(Inserted(m, a, l, L[l]), r[a := L - {l}]))
          == Add(Add(Total(Inserted(m, a, l, L[l])), MapSum(L - {l})), Total(r))
    ensures Total(Merged(m, r[a := L])) == Add(Add(Total(m), MapSum(L)), Total(r))
  {
    MergeStepCell(m, r, a, L, l);
    InsertTotal(m, a, l, L[l]);
    AddAssociative(Total(m), L[l], MapSum(L - {l}));
    MapSumPick(L, l);
  }

  /** A single file's map has no empty author and its total is the sum of its
      contributions. */
  lemma {:induction false} FromFileTotal(lang: string, contributions: map<string, Stats>)
    ensures NoEmptyAuthor(FromFile(lang, contributions))
    ensures Total(FromFile(lang, contributions)) == MapSum(contributions)
    decreases |contributions|
  {
    var f := FromFile(lang, contributions);
    if contributions != map[] {
      var a :| a in contributions;
      TotalPick(f, a);
      assert f - {a} == FromFile(lang, contributions - {a});
      FromFileTotal(lang, contributions - {a});
      MapSumPick(f[a], lang);
      assert f[a] - {lang} == map[];
      ZeroIsIdentity(contributions[a]);
      MapSumPick(contributions, a);
    } else {
      assert AuthorTotals(f) == map[];
    }
  }

  // ---------------------------------------------------------------------
  // The object
  // ---------------------------------------------------------------------

  class ProjectStats {
    var stats: StatsMap

    ghost predicate Valid()
      reads this
    {
      NoEmptyAuthor(stats)
    }

    /** `ProjectStats::new` / `ProjectStats::default`. */
    constructor ()
      ensures Valid() && stats == map[]
      ensures Contributors() == {} && Total(stats).lines == 0
    {
      stats := map[];
    }

    /** `ProjectStats::from((lang, contributions))`. */
    constructor FromFileStats(lang: string, contributions: map<string, Stats>)
      ensures Valid() && stats == FromFile(lang, contributions)
    {
      stats := FromFile(lang, contributions);
      FromFileTotal(lang, contributions);
    }

    /** `insert`: add `s` into cell (name, lang), creating it if absent. */
    method Insert(name: string, lang: string, s: Stats)
      requires Valid()
      modifies this
      ensures Valid()
      ensures stats == Inserted(old(stats), name, lang, s)
    {
      InsertFrame(stats, name, lang, s);
      if name in stats {
        var langStats := stats[name];
        var cell := if lang in langStats then langStats[lang] else Zero();
        cell := LineStats.AddAssign(cell, s);
        stats := stats[name := langStats[lang := cell]];
      } else {
        stats := stats[name := map[lang := s]];
      }
    }

    /** `contributors`: the authors with at least one entry. */
    function Contributors(): (r: set<string>)
      reads this
      ensures forall a :: a in r <==> ContribsByName(a).Some?
    {
      stats.Keys
    }

    /** `contribs_by_name`: the author's per-language map, or None for an
        unknown author. */
    function ContribsByName(name: string): (r: Option<LangMap>)
      reads this
      ensures r.Some? <==> name in stats
      ensures r.Some? ==> forall l :: l in r.value ==> r.value[l] == Cell(stats, name, l)
      ensures r.Some? ==> r.value.Keys == Langs(stats, name).Keys
      ensures r.Some? && Valid() ==> r.value != map[]
    {
      if name in stats then Some(stats[name]) else None
    }

    /** `total_contribs_by_name`: None for an unknown author, else the
        component-wise sum of that author's language statistics. */
    ghost function TotalContribsByName(name: string): (r: Option<Stats>)
      reads this
      ensures r.Some? <==> name in Contributors()
      ensures r.Some? ==> r.value == MapSum(Langs(stats, name))
      ensures r.Some? && AllWellFormed(stats) ==> WellFormed(r.value)
      ensures r.Some? && Valid() ==> r.value.lines <= Total(stats).lines
    {
      if name in stats then
        MapSumWellFormedHelper(stats, name);
        TotalPick(stats, name);
        Some(MapSum(stats[name]))
      else None
    }

    /** `total_lines`: the nested loops sum `lines` over every cell. */
    method TotalLines() returns (sum: nat)
      ensures sum == Total(stats).lines
    {
      sum := 0;
      var rest := stats;
      while rest != map[]
        invariant sum + Total(rest).lines == Total(stats).lines
        decreases |rest|
      {
        var author :| author in rest;
        var authorLines := SumLines(rest[author]);
        sum := sum + authorLines;
        TotalPick(rest, author);
        rest := rest - {author};
      }
    }

    /** `lhs += rhs` (its body is not part of this model): every cell of the
        right-hand side is inserted into this map, one author at a time. */
    method AddAssign(other: ProjectStats)
      requires Valid() && other.Valid()
      modifies this
      ensures Valid()
      ensures stats == Merged(old(stats), old(other.stats))
    {
      var rest := other.stats;
      ghost var goal := Merged(stats, rest);
      while rest != map[]
        invariant Valid()
        invariant Merged(stats, rest) == goal
        decreases |rest|
      {
        var name :| name in rest;
        UpdateSame(rest, name);
        InsertAuthor(name, rest[name], rest);
        MergeStepAuthor(stats, rest, name);
        rest := rest - {name};
      }
      MergedIdentity(stats);
    }

    /** The inner loop of `+=`: every language of one author of the
        right-hand side inserted in turn. */
    method InsertAuthor(name: string, langs: LangMap, ghost rest: StatsMap)
      requires Valid()
      modifies this
      ensures Valid()
      ensures Merged(stats, rest[name := map[]]) == Merged(old(stats), rest[name := langs])
    {
      var todo := langs;
      while todo != map[]
        invariant Valid()
        invariant Merged(stats, rest[name := todo]) == Merged(old(stats), rest[name := langs])
        decreases |todo|
      {
        var lang :| lang in todo;
        MergeStepCell(stats, rest, name, todo, lang);
        Insert(name, lang, todo[lang]);
        todo := todo - {lang};
      }
    }
  }

  /** The inner loop of `total_lines`: the lines of one author's languages. */
  method SumLines(langs: LangMap) returns (sum: nat)
    ensures sum == MapSum(langs).lines
  {
    sum := 0;
    var rest := langs;
    while rest != map[]
      invariant sum + MapSum(rest).lines == MapSum(langs).lines
      decreases |rest|
    {
      var lang :| lang in rest;
      MapSumPick(rest, lang);
      sum := sum + rest[lang].lines;
      rest := rest - {lang};
    }
  }

  lemma UpdateSame(m: StatsMap, a: string)
    requires a in m
    ensures m[a := m[a]] == m
  {
  }

  lemma MapSumWellFormedHelper(m: StatsMap, name: string)
    requires name in m
    ensures AllWellFormed(m) ==> WellFormed(MapSum(m[name]))
  {
    if AllWellFormed(m) {
      MapSumWellFormed(m[name]);
    }
  }
}
