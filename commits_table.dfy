/** `gd/src/table/commits.rs`: the table of commits printed by the `gd`
    tool. Output is modelled as a sequence of lines whose cells are given;
    padding and centring are not modelled. */
module CommitsTable {
  import opened Wrappers
  import opened Utf8
  import opened Text

  const WIDTH: nat := 96
  const SHORT_ID_LEN: nat := 6
  const LONG_ID_LEN: nat := 10
  const ITEMS: nat := 5

  /** What a row shows of a commit: the id's hex rendering, the author's and
      committer's names (or their decoding error), the commit date rendered
      in UTC, and the summary (absent, or possibly not UTF-8). */
  datatype Commit = Commit(
    id: string,
    author: Result<string, Utf8Error>,
    committer: Result<string, Utf8Error>,
    date: string,
    summary: Option<Result<string, Utf8Error>>)

  datatype Table = Table(separatorLength: nat, idLength: nat, commits: seq<Commit>)

  /** The cells of one commit's row. */
  datatype CommitRow = CommitRow(id: string, author: string, committer: string, date: string, summary: string)

  /** The lines the table writes: a line of dashes, the column titles, a
      row (with the id column's and the other columns' widths), an empty
      line. */
  datatype Line =
    | Separator(length: nat)
    | Header(idWidth: nat, itemWidth: nat)
    | Row(row: CommitRow, idWidth: nat, itemWidth: nat)
    | Blank

  /** The first `SHORT_ID_LEN` characters of every two different positions
      differ. */
  predicate ShortIdsDistinct(commits: seq<Commit>) {
    forall i, j :: 0 <= i < |commits| && 0 <= j < |commits| && i != j ==>
      Take(commits[i].id, SHORT_ID_LEN) != Take(commits[j].id, SHORT_ID_LEN)
  }

  /** `unique_short_ids`: compares every ordered pair of distinct positions
      and stops at the first clash. */
  method UniqueShortIds(commits: seq<Commit>) returns (unique: bool)
    ensures unique <==> ShortIdsDistinct(commits)
    ensures |commits| <= 1 ==> unique
  {
    for index := 0 to |commits|
      invariant forall i, j :: 0 <= i < index && 0 <= j < |commits| && i != j ==>
                  Take(commits[i].id, SHORT_ID_LEN) != Take(commits[j].id, SHORT_ID_LEN)
    {
      for i := 0 to |commits|
        invariant forall j :: 0 <= j < i && index != j ==>
                    Take(commits[index].id, SHORT_ID_LEN) != Take(commits[j].id, SHORT_ID_LEN)
      {
        if index != i && Take(commits[index].id, SHORT_ID_LEN) == Take(commits[i].id, SHORT_ID_LEN) {
          return false;
        }
      }
    }
    return true;
  }

  /** `CommitsTable::new`: the width is the terminal's, at most `WIDTH`, and
      `WIDTH` when it is unknown; ids are shown with 6 characters when
      those tell the commits apart, with 10 otherwise. */
  method New(commits: seq<Commit>, dimensions: Option<(nat, nat)>) returns (t: Table)
    ensures t.commits == commits
    ensures t.separatorLength <= WIDTH
    ensures dimensions.None? ==> t.separatorLength == WIDTH
    ensures dimensions.Some? ==>
              t.separatorLength == (if dimensions.value.0 > WIDTH then WIDTH else dimensions.value.0)
    ensures t.idLength == (if ShortIdsDistinct(commits) then SHORT_ID_LEN else LONG_ID_LEN)
  {
    var width := if dimensions.Some? then dimensions.value.0 else WIDTH;
    if width > WIDTH {
      width := WIDTH;
    }
    var unique := UniqueShortIds(commits);
    var idLength := if unique then SHORT_ID_LEN else LONG_ID_LEN;
    t := Table(width, idLength, commits);
  }

  /** `item_width` as written: `s / 5` plus `(s / 5 - 4) / 5 - 1`, both
      subtractions in `usize`. None where one underflows. */
  function ItemWidthAsWritten(separatorLength: nat): Option<nat> {
    var w := separatorLength / ITEMS;
    if w < 4 then None
    else
      var q := (w - 4) / ITEMS;
      if q < 1 then None else Some(w + (q - 1))
  }

  /** The intended column width: a fifth of the table, widened by one for
      every five characters beyond the first four, less one; the widening
      never makes the column narrower than the fifth. */
  function ItemWidth(separatorLength: nat): nat {
    var w := separatorLength / ITEMS;
    var q := if w >= 4 then (w - 4) / ITEMS else 0;
    if q >= 1 then w + q - 1 else w
  }

  /** The code as written computes a width exactly when the table is at
      least 45 wide, and then agrees with the intended width. */
  lemma ItemWidthAsWrittenDefined(separatorLength: nat)
    ensures ItemWidthAsWritten(separatorLength).Some? <==> separatorLength >= 45
    ensures ItemWidthAsWritten(separatorLength).Some? ==>
              ItemWidthAsWritten(separatorLength).value == ItemWidth(separatorLength)
  {
  }

  /** A 40-character terminal: `(8 - 4) / 5 - 1` underflows as written; the
      intended width is 8. At the default width both give 21. */
  lemma ItemWidthExamples()
    ensures ItemWidthAsWritten(40) == None && ItemWidth(40) == 8
    ensures ItemWidthAsWritten(WIDTH) == Some(21) && ItemWidth(WIDTH) == 21
  {
  }

  /** The intended width never shrinks as the table grows, and is never
      below a fifth of it. */
  lemma ItemWidthMonotone(a: nat, b: nat)
    requires a <= b
    ensures ItemWidth(a) <= ItemWidth(b)
    ensures a / ITEMS <= ItemWidth(a)
  {
    assert a / ITEMS <= b / ITEMS;
    var wa, wb := a / ITEMS, b / ITEMS;
    if wa >= 4 {
      assert (wa - 4) / ITEMS <= (wb - 4) / ITEMS;
    }
  }

  /** `name().unwrap_or_default()`. */
  function NameOrDefault(name: Result<string, Utf8Error>): string {
    if name.Ok? then name.value else ""
  }

  /** `summary().unwrap_or_else(|| Ok(String::new())).unwrap_or_default()`. */
  function SummaryText(summary: Option<Result<string, Utf8Error>>): string {
    match summary
    case None => ""
    case Some(Err(_)) => ""
    case Some(Ok(s)) => s
  }

  /** The cells of `row`. The date loses its last four bytes (" UTC"); the
      summary is cut to a fifth of the table. */
  function RowOf(t: Table, c: Commit): CommitRow
    requires |c.date| >= 4
  {
    CommitRow(
      Take(c.id, t.idLength),
      NameOrDefault(c.author),
      NameOrDefault(c.committer),
      c.date[..|c.date| - 4],
      Truncate(SummaryText(c.summary), t.separatorLength / ITEMS))
  }

  /** What a row shows: the first `id_length` characters of the id, the
      names or nothing, and a summary that fits its column (ending in
      "...") unless it already did. */
  lemma RowSpec(t: Table, c: Commit)
    requires |c.date| >= 4
    ensures RowOf(t, c).id == c.id[..(if |c.id| <= t.idLength then |c.id| else t.idLength)]
    ensures c.author.Ok? ==> RowOf(t, c).author == c.author.value
    ensures c.author.Err? ==> RowOf(t, c).author == ""
    ensures RowOf(t, c).summary == SummaryText(c.summary) <==> |SummaryText(c.summary)| <= t.separatorLength / ITEMS
    ensures var s, w := SummaryText(c.summary), t.separatorLength / ITEMS;
            |s| > w >= 3 ==> RowOf(t, c).summary == s[..w - 3] + "..." && |RowOf(t, c).summary| == w
    ensures var s, w := SummaryText(c.summary), t.separatorLength / ITEMS;
            Ascii(s) && (w >= 3 || |s| <= w) ==> TruncateAsWritten(s, w) == Some(RowOf(t, c).summary)
  {
    var s, w := SummaryText(c.summary), t.separatorLength / ITEMS;
    TruncateSpec(s, w);
    if Ascii(s) && (w >= 3 || |s| <= w) {
      TruncateAgreesOnAscii(s, w);
    }
  }

  /** Where the rendered summary and the code as written part: at the
      default width the column is 19, and a summary of ten 'é' (20 bytes)
      is shown whole, where the code as written appends "..." to it. */
  lemma SummaryCutAsWritten(t: Table, c: Commit)
    requires t.separatorLength == WIDTH && |c.date| >= 4
    requires c.summary == Some(Ok(seq(10, _ => 'é')))
    ensures var s := SummaryText(c.summary);
            RowOf(t, c).summary == s && TruncateAsWritten(s, t.separatorLength / ITEMS) == Some(s + "...")
  {
    TruncateAsWrittenSummary();
  }

  /** The header block: separator, column titles, separator. */
  function HeaderLines(t: Table): seq<Line> {
    [Separator(t.separatorLength), Header(t.idLength, ItemWidth(t.separatorLength)), Separator(t.separatorLength)]
  }

  function RowLine(t: Table, c: Commit): Line
    requires |c.date| >= 4
  {
    Row(RowOf(t, c), t.idLength, ItemWidth(t.separatorLength))
  }

  /** From a width of 45 on, the header and every row carry the item width
      the code as written computes; below 45 the code as written has none
      (its `usize` subtraction underflows) and the model uses the corrected
      one. */
  lemma SourceItemWidth(t: Table)
    ensures t.separatorLength >= 45 ==>
              HeaderLines(t)[1].itemWidth == ItemWidthAsWritten(t.separatorLength).value &&
              forall c: Commit :: |c.date| >= 4 ==> RowLine(t, c).itemWidth == ItemWidthAsWritten(t.separatorLength).value
    ensures t.separatorLength < 45 ==> ItemWidthAsWritten(t.separatorLength).None?
  {
  }

  /** `impl Display for CommitsTable`: nothing for no commits; otherwise the
      header, one row per commit in list order, a separator and an empty
      line. */
  method Fmt(t: Table) returns (out: seq<Line>)
    requires forall i :: 0 <= i < |t.commits| ==> |t.commits[i].date| >= 4
    ensures out == [] <==> t.commits == []
    ensures t.commits != [] ==>
              |out| == |t.commits| + 5 &&
              out[..3] == HeaderLines(t) &&
              out[|out| - 2..] == [Separator(t.separatorLength), Blank]
    ensures forall i :: 0 <= i < |t.commits| ==> out[3 + i] == RowLine(t, t.commits[i])
  {
    if t.commits == [] {
      return [];
    }
    out := HeaderLines(t);
    for i := 0 to |t.commits|
      invariant |out| == 3 + i && out[..3] == HeaderLines(t)
      invariant forall k :: 0 <= k < i ==> out[3 + k] == RowLine(t, t.commits[k])
    {
      out := out + [RowLine(t, t.commits[i])];
    }
    out := out + [Separator(t.separatorLength), Blank];
  }
}
