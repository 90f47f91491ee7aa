/** `gd/src/table/final_contributions.rs`: one block per author with a row
    per language and a total row. Output is modelled as a sequence of lines
    whose cells are given; padding and centring are not modelled. */
module FinalContributionsTable {
  import opened Wrappers
  import opened LineStats
  import opened Project
  import opened Text

  const WIDTH: nat := 72
  const ITEMS: nat := 6
  const TOTAL: string := "Total"

  /** The table keeps the project's statistics by value. */
  datatype Table = Table(separatorLength: nat, stats: StatsMap)

  /** The lines the table writes: a line of dashes, a title centred over the
      whole width, the column titles, a row (its first cell and the four
      counters, in columns of `width`), an empty line. */
  datatype Line =
    | Separator(length: nat)
    | Title(text: string, width: nat)
    | Header(width: nat)
    | Row(name: string, stats: Stats, width: nat)
    | Blank

  /** One author's block, as far as the proof needs it: the author and the
      language entries in the order shown. */
  datatype Block = Block(author: string, rows: seq<(string, Stats)>)

  /** `FinalContributionsTable::new`: the terminal's width, at most `WIDTH`,
      and `WIDTH` when it is unknown. */
  method New(stats: ProjectStats, dimensions: Option<(nat, nat)>) returns (t: Table)
    ensures t.stats == stats.stats
    ensures t.separatorLength <= WIDTH
    ensures dimensions.None? ==> t.separatorLength == WIDTH
    ensures dimensions.Some? ==>
              t.separatorLength == (if dimensions.value.0 > WIDTH then WIDTH else dimensions.value.0)
  {
    var width := if dimensions.Some? then dimensions.value.0 else WIDTH;
    if width > WIDTH {
      width := WIDTH;
    }
    t := Table(width, stats.stats);
  }

  function ColumnWidth(t: Table): nat {
    t.separatorLength / ITEMS
  }

  /** Five columns of a sixth of the table, with a space between each, sum
      to at most the separator once it is at least 24 wide; at the default
      width they take 64. A column width is a minimum: a longer cell is
      printed whole. */
  lemma RowFits(t: Table)
    ensures t.separatorLength >= 24 ==> 5 * ColumnWidth(t) + 4 <= t.separatorLength
    ensures t.separatorLength == WIDTH ==> 5 * ColumnWidth(t) + 4 == 64
  {
  }

  /** `row`: a first cell and the four counters. */
  function RowLine(t: Table, name: string, stats: Stats): Line {
    Row(name, stats, ColumnWidth(t))
  }

  /** `author` and `header`: the author's title, then the column titles
      between two separators. */
  function HeaderLines(t: Table, author: string): seq<Line> {
    [Title(author + "'s contributions", t.separatorLength),
     Separator(t.separatorLength), Header(ColumnWidth(t)), Separator(t.separatorLength)]
  }

  /** One row per entry, in order. */
  function RowLines(t: Table, rows: seq<(string, Stats)>): seq<Line> {
    if rows == [] then []
    else RowLines(t, rows[..|rows| - 1]) + [RowLine(t, rows[|rows| - 1].0, rows[|rows| - 1].1)]
  }

  lemma {:induction false} RowLinesIndex(t: Table, rows: seq<(string, Stats)>)
    ensures |RowLines(t, rows)| == |rows|
    ensures forall i :: 0 <= i < |rows| ==> RowLines(t, rows)[i] == RowLine(t, rows[i].0, rows[i].1)
  {
    if rows != [] {
      RowLinesIndex(t, rows[..|rows| - 1]);
    }
  }

  /** `total += *stats` over the entries, from `Stats::default()`. */
  function RowsSum(rows: seq<(string, Stats)>): Stats {
    if rows == [] then Zero() else Add(RowsSum(rows[..|rows| - 1]), rows[|rows| - 1].1)
  }

  /** Summing the entries of any enumeration of a map gives the sum of the
      map: the total row is the author's total whatever the row order. */
  lemma {:induction false} RowsSumIsMapSum(rows: seq<(string, Stats)>, m: map<string, Stats>)
    requires Enumerates(rows, m)
    ensures RowsSum(rows) == MapSum(m)
    decreases |rows|
  {
    if rows == [] {
      assert forall k :: k !in m;
      assert m == map[];
    } else {
      var n := |rows| - 1;
      var (k, v) := rows[n];
      var prefix := rows[..n];
      var rest := m - {k};
      forall i | 0 <= i < |prefix|
        ensures prefix[i].0 in rest && prefix[i].1 == rest[prefix[i].0]
      {
        assert prefix[i] == rows[i] && rows[i].0 != rows[n].0;
      }
      forall j | j in rest
        ensures exists i :: 0 <= i < |prefix| && prefix[i].0 == j
      {
        var i :| 0 <= i < |rows| && rows[i].0 == j;
        assert i != n;
        assert prefix[i].0 == j;
      }
      assert forall i, j :: 0 <= i < j < |prefix| ==> prefix[i].0 != prefix[j].0;
      assert Enumerates(prefix, rest);
      RowsSumIsMapSum(prefix, rest);
      MapSumPick(m, k);
      AddCommutative(MapSum(rest), v);
    }
  }

  /** A block: title and header, the rows, then the total between two
      separators and an empty line. */
  function BlockLines(t: Table, b: Block): seq<Line> {
    HeaderLines(t, b.author) + RowLines(t, b.rows) +
    [Separator(t.separatorLength), RowLine(t, TOTAL, RowsSum(b.rows)), Separator(t.separatorLength), Line.Blank]
  }

  /** The blocks one after the other. */
  function Concat(t: Table, blocks: seq<Block>): seq<Line> {
    if blocks == [] then [] else Concat(t, blocks[..|blocks| - 1]) + BlockLines(t, blocks[|blocks| - 1])
  }

  /** `b` is how the table shows one of its authors: every language of the
      author once, in increasing name order, each with its statistics. */
  ghost predicate Shows(t: Table, b: Block) {
    b.author in t.stats &&
    Enumerates(b.rows, t.stats[b.author]) &&
    forall i, j :: 0 <= i < j < |b.rows| ==> Less(b.rows[i].0, b.rows[j].0)
  }

  /** Where a block's lines are: the title first, the rows from the fifth
      line on in order, the total third from the end. */
  lemma BlockLayout(t: Table, b: Block)
    ensures var lines := BlockLines(t, b);
            |lines| == |b.rows| + 8 &&
            lines[0] == Title(b.author + "'s contributions", t.separatorLength) &&
            (forall i :: 0 <= i < |b.rows| ==> lines[4 + i] == RowLine(t, b.rows[i].0, b.rows[i].1)) &&
            lines[|lines| - 3] == RowLine(t, TOTAL, RowsSum(b.rows))
  {
    var lines := BlockLines(t, b);
    var rowLines := RowLines(t, b.rows);
    RowLinesIndex(t, b.rows);
    forall i | 0 <= i < |b.rows|
      ensures lines[4 + i] == RowLine(t, b.rows[i].0, b.rows[i].1)
    {
      assert lines[4 + i] == rowLines[i];
    }
  }

  /** What a block states about its author: a row per language with that
      language's statistics, and a total row holding the sum over all of
      the author's languages. */
  lemma BlockSpec(t: Table, b: Block)
    requires Shows(t, b)
    ensures var lines, langs := BlockLines(t, b), t.stats[b.author];
            |lines| == |b.rows| + 8 &&
            (forall i :: 0 <= i < |b.rows| ==>
               lines[4 + i] == Row(b.rows[i].0, langs[b.rows[i].0], ColumnWidth(t))) &&
            lines[|lines| - 3] == Row(TOTAL, MapSum(langs), ColumnWidth(t))
  {
    BlockLayout(t, b);
    RowsSumIsMapSum(b.rows, t.stats[b.author]);
  }

  /** The lines of one author's block, as the body of the outer loop writes
      them. */
  method AuthorBlock(t: Table, author: string) returns (lines: seq<Line>, ghost b: Block)
    requires author in t.stats
    ensures b.author == author && Shows(t, b)
    ensures lines == BlockLines(t, b)
  {
    var langStats := SortedEntries(t.stats[author]);
    var rows, total := LanguageRows(t, langStats);
    b := Block(author, langStats);
    lines := HeaderLines(t, author) + rows +
             [Separator(t.separatorLength), RowLine(t, TOTAL, total), Separator(t.separatorLength), Line.Blank];
  }

  /** The inner loop: a row per language in order, and `total += *stats`. */
  method LanguageRows(t: Table, entries: seq<(string, Stats)>) returns (lines: seq<Line>, total: Stats)
    ensures lines == RowLines(t, entries)
    ensures total == RowsSum(entries)
  {
    lines := [];
    total := Zero();
    for i := 0 to |entries|
      invariant lines == RowLines(t, entries[..i])
      invariant total == RowsSum(entries[..i])
    {
      var (lang, stats) := entries[i];
      assert entries[..i + 1][..i] == entries[..i];
      total := AddAssign(total, stats);
      lines := lines + [RowLine(t, lang, stats)];
    }
    assert entries[..|entries|] == entries;
  }

  /** Every block has at least the eight lines around its rows, so the
      output is empty exactly when there are no blocks. */
  lemma ConcatEmpty(t: Table, blocks: seq<Block>)
    ensures Concat(t, blocks) == [] <==> blocks == []
  {
    if blocks != [] {
      assert |BlockLines(t, blocks[|blocks| - 1])| >= 8;
    }
  }

  /** The loop's progress: `blocks` shows, in order and each once, exactly
      the authors no longer in `remaining`, and `out` is their lines. */
  ghost predicate Progress(t: Table, remaining: set<string>, blocks: seq<Block>, out: seq<Line>) {
    remaining <= t.stats.Keys &&
    |blocks| == |t.stats.Keys| - |remaining| &&
    out == Concat(t, blocks) &&
    (forall i :: 0 <= i < |blocks| ==> Shows(t, blocks[i]) && blocks[i].author !in remaining) &&
    (forall a :: a in t.stats && a !in remaining ==> exists i :: 0 <= i < |blocks| && blocks[i].author == a) &&
    (forall i, j :: 0 <= i < j < |blocks| ==> blocks[i].author != blocks[j].author)
  }

  /** Writing the block of one more author keeps `Progress`. */
  lemma ProgressStep(t: Table, remaining: set<string>, blocks: seq<Block>, out: seq<Line>, b: Block, lines: seq<Line>)
    requires Progress(t, remaining, blocks, out)
    requires b.author in remaining && Shows(t, b) && lines == BlockLines(t, b)
    ensures Progress(t, remaining - {b.author}, blocks + [b], out + lines)
  {
    var blocks' := blocks + [b];
    assert blocks'[..|blocks|] == blocks;
    assert Concat(t, blocks') == out + lines;
    StepShows(t, remaining, blocks, b);
    StepDistinct(remaining, blocks, b);
    StepCovers(t, remaining, blocks, b);
  }

  lemma StepShows(t: Table, remaining: set<string>, blocks: seq<Block>, b: Block)
    requires forall i :: 0 <= i < |blocks| ==> Shows(t, blocks[i]) && blocks[i].author !in remaining
    requires Shows(t, b)
    ensures forall i :: 0 <= i < |blocks + [b]| ==>
              Shows(t, (blocks + [b])[i]) && (blocks + [b])[i].author !in remaining - {b.author}
  {
    var blocks' := blocks + [b];
    forall i | 0 <= i < |blocks'|
      ensures Shows(t, blocks'[i]) && blocks'[i].author !in remaining - {b.author}
    {
      if i < |blocks| {
        assert blocks'[i] == blocks[i];
      }
    }
  }

  lemma StepDistinct(remaining: set<string>, blocks: seq<Block>, b: Block)
    requires forall i :: 0 <= i < |blocks| ==> blocks[i].author !in remaining
    requires forall i, j :: 0 <= i < j < |blocks| ==> blocks[i].author != blocks[j].author
    requires b.author in remaining
    ensures forall i, j :: 0 <= i < j < |blocks + [b]| ==> (blocks + [b])[i].author != (blocks + [b])[j].author
  {
    var blocks' := blocks + [b];
    forall i, j | 0 <= i < j < |blocks'|
      ensures blocks'[i].author != blocks'[j].author
    {
      if j < |blocks| {
        assert blocks'[i] == blocks[i] && blocks'[j] == blocks[j];
      } else {
        assert blocks'[i] == blocks[i] && blocks'[j] == b;
      }
    }
  }

  lemma StepCovers(t: Table, remaining: set<string>, blocks: seq<Block>, b: Block)
    requires forall a :: a in t.stats && a !in remaining ==> exists i :: 0 <= i < |blocks| && blocks[i].author == a
    ensures forall a :: a in t.stats && a !in remaining - {b.author} ==>
              exists i :: 0 <= i < |blocks + [b]| && (blocks + [b])[i].author == a
  {
    var blocks' := blocks + [b];
    forall a | a in t.stats && a !in remaining - {b.author}
      ensures exists i :: 0 <= i < |blocks'| && blocks'[i].author == a
    {
      if a == b.author {
        assert blocks'[|blocks|].author == a;
      } else {
        var i :| 0 <= i < |blocks| && blocks[i].author == a;
        assert blocks'[i].author == a;
      }
    }
  }

  /** `impl Display for FinalContributionsTable`: nothing for no authors;
      otherwise one block per author, the authors in the map's own
      (unspecified) order, each exactly once. */
  method Fmt(t: Table) returns (out: seq<Line>, ghost blocks: seq<Block>)
    ensures out == [] <==> t.stats == map[]
    ensures out == Concat(t, blocks)
    ensures |blocks| == |t.stats|
    ensures forall i :: 0 <= i < |blocks| ==> Shows(t, blocks[i])
    ensures forall a :: a in t.stats ==> exists i :: 0 <= i < |blocks| && blocks[i].author == a
    ensures forall i, j :: 0 <= i < j < |blocks| ==> blocks[i].author != blocks[j].author
  {
    out := [];
    blocks := [];
    if t.stats == map[] {
      return;
    }
    var remaining := t.stats.Keys;
    while remaining != {}
      invariant Progress(t, remaining, blocks, out)
      decreases |remaining|
    {
      var author :| author in remaining;
      var lines, b := AuthorBlock(t, author);
      ProgressStep(t, remaining, blocks, out, b, lines);
      out := out + lines;
      blocks := blocks + [b];
      remaining := remaining - {author};
    }
    ConcatEmpty(t, blocks);
  }
}
