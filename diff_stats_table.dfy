/** `gd/src/table/diff_stats.rs`: insertions and deletions per author.
    Output is modelled as a sequence of lines whose cells are given;
    padding and alignment are not modelled. */
module DiffStatsTable {
  import opened Wrappers
  import opened Text
  import opened DiffStatistics

  const WIDTH: nat := 60
  const ITEMS: nat := 5

  datatype Table = Table(separatorLength: nat, stats: map<string, DiffStats>)

  /** The lines the table writes. A row carries the name as shown, the two
      counters, and the name column's width. */
  datatype Line =
    | Separator(length: nat)
    | Header(authorWidth: nat, width: nat)
    | Row(name: string, insertions: nat, deletions: nat, authorWidth: nat)
    | Blank

  /** `DiffStatsTable::new`: the terminal's width, at most `WIDTH`, and
      `WIDTH` when it is unknown. */
  method New(stats: map<string, DiffStats>, dimensions: Option<(nat, nat)>) returns (t: Table)
    ensures t.stats == stats
    ensures t.separatorLength <= WIDTH
    ensures dimensions.None? ==> t.separatorLength == WIDTH
    ensures dimensions.Some? ==>
              t.separatorLength == (if dimensions.value.0 > WIDTH then WIDTH else dimensions.value.0)
  {
    var width := if dimensions.Some? then dimensions.value.0 else WIDTH;
    if width > WIDTH {
      width := WIDTH;
    }
    t := Table(width, stats);
  }

  /** `author_width`: two fifths of the table, rounded down to an even
      number. */
  function AuthorWidth(t: Table): nat {
    2 * (t.separatorLength / ITEMS)
  }

  /** The width of a row: the name column, then two counter columns of a
      fifth of the table each, separated by single spaces. */
  function RowWidth(t: Table): nat {
    AuthorWidth(t) + 1 + t.separatorLength / ITEMS + 1 + t.separatorLength / ITEMS
  }

  /** The column widths plus the two spaces between them sum to at most the
      separator once that is at least 6 wide; at the default width the name
      column is 24 and the columns take 50. A column width is a minimum: a
      longer cell is printed whole. */
  lemma RowFits(t: Table)
    ensures t.separatorLength >= 6 ==> RowWidth(t) <= t.separatorLength
    ensures t.separatorLength == WIDTH ==> AuthorWidth(t) == 24 && RowWidth(t) == 50
  {
  }

  /** The row of one author: the name cut to the author column. */
  function RowLine(t: Table, name: string, stats: DiffStats): Line {
    Row(Truncate(name, AuthorWidth(t)), stats.insertions, stats.deletions, AuthorWidth(t))
  }

  /** A row shows the author's own counters, and the name unchanged exactly
      when it fits its column; a longer name is cut to the column's width
      with "..." at the end. */
  lemma RowSpec(t: Table, name: string, stats: DiffStats)
    ensures RowLine(t, name, stats).insertions == stats.insertions
    ensures RowLine(t, name, stats).deletions == stats.deletions
    ensures RowLine(t, name, stats).name == name <==> |name| <= AuthorWidth(t)
    ensures |name| > AuthorWidth(t) >= 3 ==>
              RowLine(t, name, stats).name == name[..AuthorWidth(t) - 3] + "..." &&
              |RowLine(t, name, stats).name| == AuthorWidth(t)
    ensures Ascii(name) && (AuthorWidth(t) >= 3 || |name| <= AuthorWidth(t)) ==>
              TruncateAsWritten(name, AuthorWidth(t)) == Some(RowLine(t, name, stats).name)
  {
    TruncateSpec(name, AuthorWidth(t));
    if Ascii(name) && (AuthorWidth(t) >= 3 || |name| <= AuthorWidth(t)) {
      TruncateAgreesOnAscii(name, AuthorWidth(t));
    }
  }

  /** Where the rendered name and the code as written part: at the default
      width the name column is 24, and thirteen 'é' (26 bytes) are shown
      whole, where the code as written appends "..." to them. */
  lemma NameCutAsWritten(t: Table, stats: DiffStats)
    requires t.separatorLength == WIDTH
    ensures var name := seq(13, _ => 'é');
            RowLine(t, name, stats).name == name &&
            TruncateAsWritten(name, AuthorWidth(t)) == Some(name + "...")
  {
    TruncateAsWrittenAppendsOnly();
  }

  function HeaderLines(t: Table): seq<Line> {
    [Separator(t.separatorLength), Header(AuthorWidth(t), t.separatorLength / ITEMS), Separator(t.separatorLength)]
  }

  /** The body of `fmt` once the entries are sorted: the header, one row
      per entry in order, a separator and an empty line. */
  method Render(t: Table, entries: seq<(string, DiffStats)>) returns (out: seq<Line>)
    ensures |out| == |entries| + 5
    ensures out[..3] == HeaderLines(t)
    ensures forall k :: 0 <= k < |entries| ==> out[3 + k] == RowLine(t, entries[k].0, entries[k].1)
    ensures out[|out| - 2..] == [Separator(t.separatorLength), Blank]
  {
    out := HeaderLines(t);
    for i := 0 to |entries|
      invariant |out| == 3 + i && out[..3] == HeaderLines(t)
      invariant forall k :: 0 <= k < i ==> out[3 + k] == RowLine(t, entries[k].0, entries[k].1)
    {
      var (author, diffStats) := entries[i];
      out := out + [RowLine(t, author, diffStats)];
    }
    out := out + [Separator(t.separatorLength), Blank];
  }

  /** `impl Display for DiffStatsTable`: nothing for no authors; otherwise
      the header, one row per author in increasing name order, a separator
      and an empty line. `rows` are the map's entries in the order shown:
      each author once, with their own counters. */
  method Fmt(t: Table) returns (out: seq<Line>, ghost rows: seq<(string, DiffStats)>)
    ensures out == [] <==> t.stats == map[]
    ensures |rows| == |t.stats| && Enumerates(rows, t.stats)
    ensures forall i, j :: 0 <= i < j < |rows| ==> Less(rows[i].0, rows[j].0)
    ensures t.stats != map[] ==>
              |out| == |rows| + 5 &&
              out[..3] == HeaderLines(t) &&
              out[|out| - 2..] == [Separator(t.separatorLength), Blank]
    ensures t.stats != map[] ==>
              forall i :: 0 <= i < |rows| ==> out[3 + i] == RowLine(t, rows[i].0, rows[i].1)
  {
    if t.stats == map[] {
      return [], [];
    }
    var authoredDiffs := SortedEntries(t.stats);
    out := Render(t, authoredDiffs);
    rows := authoredDiffs;
  }
}
