/** String helpers shared by the terminal tables: Rust's order on `str`,
    `chars().take(n)`, the truncation of over-long cells, and the in-place
    sort of `(key, value)` rows by key. */
module Text {
  import opened Wrappers
  import opened Utf8

  /** `s.chars().take(n).collect()`: the first `n` characters, or all of
      them. */
  function Take(s: string, n: nat): (r: string)
    ensures |r| == (if |s| <= n then |s| else n)
    ensures r == s[..|r|]
  {
    if |s| <= n then s else s[..n]
  }

  /** `Ord for str`: lexicographic. Rust compares the UTF-8 bytes, which
      orders strings as their code points do, so the comparison is stated on
      characters. */
  predicate Less(a: string, b: string) {
    if a == [] then b != []
    else if b == [] then false
    else if a[0] != b[0] then a[0] < b[0]
    else Less(a[1..], b[1..])
  }

  lemma {:induction false} LessIrreflexive(a: string)
    ensures !Less(a, a)
  {
    if a != [] {
      LessIrreflexive(a[1..]);
    }
  }

  lemma {:induction false} LessAsymmetric(a: string, b: string)
    ensures Less(a, b) ==> !Less(b, a)
  {
    if a != [] && b != [] && a[0] == b[0] {
      LessAsymmetric(a[1..], b[1..]);
    }
  }

  lemma {:induction false} LessTransitive(a: string, b: string, c: string)
    requires Less(a, b) && Less(b, c)
    ensures Less(a, c)
  {
    if a != [] && a[0] == b[0] && b[0] == c[0] {
      LessTransitive(a[1..], b[1..], c[1..]);
    }
  }

  /** Any two different strings are ordered one way or the other. */
  lemma {:induction false} LessTotal(a: string, b: string)
    ensures a == b || Less(a, b) || Less(b, a)
  {
    if a != [] && b != [] && a[0] == b[0] {
      LessTotal(a[1..], b[1..]);
      if a[1..] == b[1..] {
        assert a == [a[0]] + a[1..] && b == [b[0]] + b[1..];
      }
    }
  }

  /** "Not greater": the order `sort_unstable_by` leaves adjacent keys in. */
  predicate LessEq(a: string, b: string) {
    !Less(b, a)
  }

  lemma LessEqTransitive(a: string, b: string, c: string)
    requires LessEq(a, b) && LessEq(b, c)
    ensures LessEq(a, c)
  {
    if Less(c, a) {
      LessTotal(a, b);
      if Less(a, b) {
        LessTransitive(c, a, b);
      } else if Less(b, a) {
        // impossible: LessEq(a, b) is !Less(b, a)
      } else {
        // impossible: a == b, so Less(c, b) contradicts LessEq(b, c)
      }
    }
  }

  predicate SortedByKey<V>(s: seq<(string, V)>) {
    forall i, j :: 0 <= i < j < |s| ==> LessEq(s[i].0, s[j].0)
  }

  /** Sorted and no key twice: the keys are strictly increasing. */
  lemma SortedDistinctIsStrict<V>(s: seq<(string, V)>, i: nat, j: nat)
    requires SortedByKey(s) && i < j < |s| && s[i].0 != s[j].0
    ensures Less(s[i].0, s[j].0)
  {
    LessTotal(s[i].0, s[j].0);
  }

  /** `slice.sort_unstable_by(|(k1, _), (k2, _)| k1.cmp(k2))`: sorts the rows
      in place by key. The library's sort algorithm is not specified beyond
      that; this is an insertion sort. */
  method SortByKey<V>(a: array<(string, V)>)
    modifies a
    ensures SortedByKey(a[..])
    ensures multiset(a[..]) == multiset(old(a[..]))
  {
    var i := 0;
    while i < a.Length
      invariant 0 <= i <= a.Length
      invariant SortedByKey(a[..i])
      invariant multiset(a[..]) == multiset(old(a[..]))
    {
      InsertAt(a, i);
      i := i + 1;
    }
    assert a[..i] == a[..];
  }

  /** While `a[i]` moves down, it sits at `j`: the other elements of
      `a[..i + 1]` are in order, and none after `j` is smaller than it. */
  predicate Inserting<V>(s: seq<(string, V)>, i: nat, j: nat) {
    j <= i < |s|
    && (forall p, q :: 0 <= p < q <= i && p != j && q != j ==> LessEq(s[p].0, s[q].0))
    && (forall q :: j < q <= i ==> LessEq(s[j].0, s[q].0))
  }

  /** Moves `a[i]` down into the sorted prefix `a[..i]`. */
  method InsertAt<V>(a: array<(string, V)>, i: nat)
    requires i < a.Length && SortedByKey(a[..i])
    modifies a
    ensures SortedByKey(a[..i + 1])
    ensures multiset(a[..]) == multiset(old(a[..]))
  {
    var j: nat := i;
    while j > 0 && Less(a[j].0, a[j - 1].0)
      invariant Inserting(a[..], i, j)
      invariant multiset(a[..]) == multiset(old(a[..]))
    {
      ghost var before := a[..];
      a[j], a[j - 1] := a[j - 1], a[j];
      SwapStep(before, a[..], i, j);
      j := j - 1;
    }
    InsertDone(a[..], i, j);
  }

  /** Swapping the moving element with a larger left neighbour keeps the
      invariant one position further down, and the same elements. */
  lemma SwapStep<V>(s: seq<(string, V)>, t: seq<(string, V)>, i: nat, j: nat)
    requires 0 < j && Inserting(s, i, j) && Less(s[j].0, s[j - 1].0)
    requires t == s[j := s[j - 1]][j - 1 := s[j]]
    ensures Inserting(t, i, j - 1)
    ensures multiset(t) == multiset(s)
  {
    LessAsymmetric(s[j].0, s[j - 1].0);
  }

  /** When the moving element has stopped, the prefix is sorted. */
  lemma InsertDone<V>(s: seq<(string, V)>, i: nat, j: nat)
    requires Inserting(s, i, j)
    requires j == 0 || !Less(s[j].0, s[j - 1].0)
    ensures SortedByKey(s[..i + 1])
  {
    forall p, q | 0 <= p < q <= i
      ensures LessEq(s[p].0, s[q].0)
    {
      if q == j && p < j - 1 {
        LessEqTransitive(s[p].0, s[j - 1].0, s[j].0);
      }
    }
  }

  /** `s` lists every entry of `m`, each exactly once. */
  ghost predicate Enumerates<V>(s: seq<(string, V)>, m: map<string, V>) {
    (forall i :: 0 <= i < |s| ==> s[i].0 in m && s[i].1 == m[s[i].0])
    && (forall k :: k in m ==> exists i :: 0 <= i < |s| && s[i].0 == k)
    && (forall i, j :: 0 <= i < j < |s| ==> s[i].0 != s[j].0)
  }

  /** `m.iter().collect::<Vec<_>>()` followed by the sort by key: every
      entry of the map exactly once, in strictly increasing key order. The
      iteration order of the map is unspecified; the result is the same for
      every order. */
  method SortedEntries<V>(m: map<string, V>) returns (rows: seq<(string, V)>)
    ensures |rows| == |m| && Enumerates(rows, m)
    ensures forall i, j :: 0 <= i < j < |rows| ==> Less(rows[i].0, rows[j].0)
  {
    var entries := CollectEntries(m);
    ghost var collected := entries[..];
    SortByKey(entries);
    rows := entries[..];
    PermutationEnumerates(collected, rows, m);
    forall i, j | 0 <= i < j < |rows|
      ensures Less(rows[i].0, rows[j].0)
    {
      SortedDistinctIsStrict(rows, i, j);
    }
  }

  /** `m.iter().collect()`: the entries in the map's own (unspecified)
      order, in a fresh array. */
  method CollectEntries<V>(m: map<string, V>) returns (entries: array<(string, V)>)
    ensures fresh(entries) && entries.Length == |m| && Enumerates(entries[..], m)
  {
    var collected: seq<(string, V)> := [];
    var rest := m;
    while rest != map[]
      invariant Collecting(m, rest, collected)
      decreases |rest|
    {
      var key :| key in rest;
      CollectStep(m, rest, collected, key);
      collected := collected + [(key, rest[key])];
      rest := rest - {key};
    }
    CollectDone(m, rest, collected);
    entries := new (string, V)[|collected|](i requires 0 <= i < |collected| => collected[i]);
    assert entries[..] == collected;
  }

  /** The collecting loop's invariant: `collected` enumerates the entries of
      `m` that are no longer in `rest`, and `rest` is the remainder of `m`. */
  ghost predicate Collecting<V>(m: map<string, V>, rest: map<string, V>, collected: seq<(string, V)>) {
    |collected| + |rest| == |m| &&
    (forall key :: key in rest ==> key in m && rest[key] == m[key]) &&
    (forall i :: 0 <= i < |collected| ==>
       collected[i].0 in m && collected[i].0 !in rest && collected[i].1 == m[collected[i].0]) &&
    (forall key :: key in m ==> key in rest || exists i :: 0 <= i < |collected| && collected[i].0 == key) &&
    (forall i, j :: 0 <= i < j < |collected| ==> collected[i].0 != collected[j].0)
  }

  lemma CollectStep<V>(m: map<string, V>, rest: map<string, V>, collected: seq<(string, V)>, key: string)
    requires Collecting(m, rest, collected) && key in rest
    ensures Collecting(m, rest - {key}, collected + [(key, rest[key])])
  {
    var after := collected + [(key, rest[key])];
    var rest' := rest - {key};
    assert |rest'| == |rest| - 1;
    forall i | 0 <= i < |after|
      ensures after[i].0 in m && after[i].0 !in rest' && after[i].1 == m[after[i].0]
    {
      if i < |collected| {
        assert after[i] == collected[i];
      }
    }
    forall i, j | 0 <= i < j < |after|
      ensures after[i].0 != after[j].0
    {
      assert after[i] == collected[i];
      if j == |collected| {
        assert collected[i].0 !in rest;
      } else {
        assert after[j] == collected[j];
      }
    }
    forall other | other in m && other !in rest - {key}
      ensures exists i :: 0 <= i < |after| && after[i].0 == other
    {
      if other == key {
        assert after[|collected|].0 == other;
      } else {
        var i :| 0 <= i < |collected| && collected[i].0 == other;
        assert after[i] == collected[i];
      }
    }
  }

  lemma CollectDone<V>(m: map<string, V>, rest: map<string, V>, collected: seq<(string, V)>)
    requires Collecting(m, rest, collected) && rest == map[]
    ensures |collected| == |m| && Enumerates(collected, m)
  {
  }

  /** A permutation of an enumeration of `m` enumerates `m`. */
  lemma PermutationEnumerates<V>(s: seq<(string, V)>, t: seq<(string, V)>, m: map<string, V>)
    requires Enumerates(s, m) && multiset(s) == multiset(t)
    ensures Enumerates(t, m)
  {
    forall i | 0 <= i < |t|
      ensures t[i].0 in m && t[i].1 == m[t[i].0]
    {
      assert t[i] in multiset(s);
    }
    forall key | key in m
      ensures exists i :: 0 <= i < |t| && t[i].0 == key
    {
      var i :| 0 <= i < |s| && s[i].0 == key;
      assert s[i] in multiset(t);
    }
    forall i, j | 0 <= i < j < |t|
      ensures t[i].0 != t[j].0
    {
      if t[i].0 == t[j].0 {
        DistinctCount(s, t[i]);
        DuplicateCount(t, i, j);
      }
    }
  }

  /** A sequence without repeated keys holds each element at most once. */
  lemma {:induction false} DistinctCount<V>(s: seq<(string, V)>, x: (string, V))
    requires forall i, j :: 0 <= i < j < |s| ==> s[i].0 != s[j].0
    ensures multiset(s)[x] <= 1
  {
    if s != [] {
      var n := |s| - 1;
      assert s == s[..n] + [s[n]];
      DistinctCount(s[..n], x);
      if x == s[n] {
        assert x !in s[..n];
      }
    }
  }

  /** An element at two positions occurs at least twice. */
  lemma DuplicateCount<V>(s: seq<(string, V)>, i: nat, j: nat)
    requires i < j < |s| && s[i] == s[j]
    ensures multiset(s)[s[i]] >= 2
  {
    assert s == s[..i] + [s[i]] + s[i + 1..j] + [s[j]] + s[j + 1..];
  }

  // ---------------------------------------------------------------------
  // Truncation of table cells
  // ---------------------------------------------------------------------

  /** The truncation the tables perform, as written: when the cell's length
      in BYTES exceeds `width` (a count of characters), keep its first
      `width - 3` characters and append "...". None where `width - 3`
      underflows (a panic in a debug build). */
  function TruncateAsWritten(s: string, width: nat): Option<string> {
    if ByteLen(s) > width then
      if width < 3 then None else Some(Take(s, width - 3) + "...")
    else Some(s)
  }

  /** The intended truncation: a cell longer than `width` characters is cut
      to fit, ending in "..." when there is room for it. */
  function Truncate(s: string, width: nat): (r: string)
    ensures |r| <= width || r == s
  {
    if |s| <= width then s
    else if width < 3 then Take(s, width)
    else Take(s, width - 3) + "..."
  }

  /** The corrected truncation always fits, leaves a short cell alone, and
      otherwise keeps as many leading characters as leave room for "...". */
  lemma TruncateSpec(s: string, width: nat)
    ensures |Truncate(s, width)| <= width || |s| <= width
    ensures Truncate(s, width) == s <==> |s| <= width
    ensures |s| > width >= 3 ==>
              |Truncate(s, width)| == width &&
              Truncate(s, width) == s[..width - 3] + "..."
  {
    if |s| > width && width >= 3 {
      var r := Truncate(s, width);
      assert r[width - 1] == '.';
    }
  }

  /** Every character is a single UTF-8 byte. */
  predicate Ascii(s: string) {
    forall i :: 0 <= i < |s| ==> (s[i] as int) < 0x80
  }

  /** An ASCII string has as many bytes as characters. */
  lemma {:induction false} AsciiByteLen(s: string)
    requires Ascii(s)
    ensures ByteLen(s) == |s|
  {
    if s != [] {
      AsciiByteLen(s[1..]);
    }
  }

  /** A string of two-byte characters has twice as many bytes. */
  lemma {:induction false} TwoByteLen(s: string)
    requires forall i :: 0 <= i < |s| ==> 0x80 <= (s[i] as int) < 0x800
    ensures ByteLen(s) == 2 * |s|
  {
    if s != [] {
      TwoByteLen(s[1..]);
    }
  }

  /** On ASCII cells wide enough for "...", the code as written and the
      corrected truncation agree. */
  lemma TruncateAgreesOnAscii(s: string, width: nat)
    requires Ascii(s)
    requires width >= 3 || |s| <= width
    ensures TruncateAsWritten(s, width) == Some(Truncate(s, width))
  {
    AsciiByteLen(s);
  }

  /** The byte-length comparison: thirteen 'é' (26 bytes, 13 characters) in
      a 24-character column are "truncated" by appending "..." and removing
      nothing, while the corrected truncation leaves them alone. */
  lemma TruncateAsWrittenAppendsOnly()
    ensures var s := seq(13, _ => 'é');
            TruncateAsWritten(s, 24) == Some(s + "...") && Truncate(s, 24) == s
  {
    var s := seq(13, _ => 'é');
    TwoByteLen(s);
  }

  /** The same comparison in the commits table's summary column, which is
      at most 96 / 5 = 19 wide: ten 'é' (20 bytes) get "..." appended and
      lose nothing, while the corrected truncation leaves them alone. */
  lemma TruncateAsWrittenSummary()
    ensures var s := seq(10, _ => 'é');
            TruncateAsWritten(s, 19) == Some(s + "...") && Truncate(s, 19) == s
  {
    var s := seq(10, _ => 'é');
    TwoByteLen(s);
  }

  /** The `width - 3` underflow: a three-byte name in a two-character column
      makes the code as written panic; the corrected truncation cuts it. */
  lemma TruncateAsWrittenUnderflows()
    ensures TruncateAsWritten("abc", 2) == None && Truncate("abc", 2) == "ab"
  {
    AsciiByteLen("abc");
  }
}
