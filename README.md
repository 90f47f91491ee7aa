# git_detective: a verified model of the attribution engine

git_detective measures who wrote what in a git repository. For every tracked
file it asks git for a blame (one hunk per run of final lines last touched by
the same commit) and asks a source-code classifier which lines are code,
comments or blanks. Matching the two gives, per author, the `Stats` of the
lines they last touched. The per-file results are merged into one
`ProjectStats` (author → language → `Stats`). The `gd` front end prints such
results as tables: per-author final contributions, per-author insertions and
deletions, and a list of commits.

This project models that core in Dafny:

- the `Stats` and `DiffStats` value types with their additions
  (module `LineStats`, module `DiffStatistics`);
- the `ProjectStats` container as a class over a map of maps, with a merge
  built from `insert` (module `Project`);
- the library's view of a blame: hunks, final ranges, and author names
  decoded from UTF-8 (modules `GitBlame`, `Utf8`);
- the attribution fold of one file and the best-effort aggregation over all
  files (module `Detective`);
- the layout logic of the three `gd` tables (modules `CommitsTable`,
  `DiffStatsTable`, `FinalContributionsTable`), with their shared string
  ordering, sorting and truncation (module `Text`).

A table's output is a sequence of `Line` values that carry the cells and
column widths; the exact characters (padding, centring) are not produced.

## Model

| member | source | states |
|---|---|---|
| LineStats.AddLine | src/stats.rs:60-69 | counting one line raises `lines` by one and exactly the counter of the line's kind by one |
| LineStats.AddAssign | src/stats.rs:37-44 | `a += b` leaves `a` equal to the old `a + b` (the component-wise sum of src/stats.rs:46-57) |
| LineStats.AddAssignLine | src/stats.rs:60-69 | `s += kind` equals adding the one-line statistics of that kind |
| LineStats.AddAssignLineRef | src/stats.rs:72-81 | the borrowed overload has the same effect as the owned one |
| LineStats.ZeroIsIdentity | src/stats.rs:25-57 | the all-zero default is a two-sided identity of `+` |
| LineStats.AddCommutative | src/stats.rs:46-57 | `+` is commutative |
| LineStats.AddAssociative | src/stats.rs:46-57 | `+` is associative |
| LineStats.AddWellFormed | src/stats.rs:46-57 | if both operands satisfy `lines == code + comments + blanks`, so does their sum |
| LineStats.AddLineWellFormed | src/stats.rs:60-69 | counting a line keeps `lines == code + comments + blanks` |
| LineStats.MapSumPick | src/project_stats.rs:59-67 | a sum over a hash map may take out any key first: traversal order does not matter |
| LineStats.MapSumUpdate | src/project_stats.rs:75-88 | adding `x` into one entry adds `x` to the sum of the map |
| LineStats.MapSumWellFormed | src/project_stats.rs:41-48 | a sum of well-formed statistics is well-formed |
| DiffStatistics.AddAssign | src/diff_stats.rs:30-35 | insertions grow by the other's insertions and deletions by its deletions, independently; the result is the one step `Added` from which `Accumulated` is built |
| DiffStatistics.AccumulatedAppend | src/diff_stats.rs:30-35 | accumulating a concatenation sums the two accumulations, per counter |
| DiffStatistics.MoveToEnd | src/diff_stats.rs:30-35 | moving one diff to the end does not change the accumulation |
| DiffStatistics.AccumulatedOrderIndependent | src/diff_stats.rs:30-35 | any two orderings of the same diffs accumulate to the same value |
| Project.InsertedLangs | src/project_stats.rs:75-88 | both branches of `insert` are one update of the author's language map |
| Project.InsertFrame | src/project_stats.rs:70-88 | after `insert(n, l, s)` cell (n, l) is its old value (zero if absent) plus `s`, every other cell is unchanged, `n` is a contributor, and no author is left with an empty map |
| Project.TotalPick | src/project_stats.rs:59-67 | the total is one author's sum plus the total of the others, for any author |
| Project.InsertTotal | src/project_stats.rs:75-88 | `insert(n, l, s)` raises the total by `s`, so `total_lines` by exactly `s.lines` |
| Project.InsertTwice | src/project_stats.rs:75-88 | two inserts into one cell leave that cell at old + s1 + s2 |
| Project.InsertCommutes | src/project_stats.rs:75-88 | any two inserts commute, and two inserts into one cell equal one insert of their sum |
| Project.InsertSameCell | src/project_stats.rs:75-88 | two inserts into one cell commute and equal one insert of the sum |
| Project.InsertSameAuthor | src/project_stats.rs:75-88 | inserts into two languages of one author commute |
| Project.LangMergedIdentity | src/lib.rs:320-323 | the empty language map is an identity of the per-author merge |
| Project.MergedIdentity | src/lib.rs:320-323 | merging with `ProjectStats::default()` on either side changes nothing |
| Project.LangMergedCommutative | src/lib.rs:320-323 | the per-author merge is commutative |
| Project.MergedCommutative | src/lib.rs:320-323 | `+=` on two project statistics is commutative |
| Project.LangMergedAssociative | src/lib.rs:320-323 | the per-author merge is associative |
| Project.MergedAssociative | src/lib.rs:320-323 | `+=` on project statistics is associative, so any reduction tree gives the same result |
| Project.InsertIsMerge | src/project_stats.rs:75-88 | `insert` is a merge with a one-cell map |
| Project.MergedInvariants | src/lib.rs:320-323 | merging keeps "no author without languages" and well-formed cells |
| Project.MergedTotal | src/lib.rs:320-323 | the total of a merge is the sum of the totals |
| Project.MergeStepCell | src/lib.rs:320-323 | moving one cell from the right operand into the left by `insert` keeps the merge unchanged |
| Project.FromFileTotal | src/lib.rs:314 | the project statistics of one file total that file's contributions, with no empty author |
| Project.ProjectStats.constructor | src/project_stats.rs:27-38 | a fresh `ProjectStats` is empty: no contributors and a total of zero lines |
| Project.ProjectStats.FromFileStats | src/lib.rs:314 | `ProjectStats::from((lang, contributions))` puts each author's statistics under that language |
| Project.ProjectStats.Insert | src/project_stats.rs:75-88 | the new map is the old one with `s` added into cell (name, lang) |
| Project.ProjectStats.Contributors | src/project_stats.rs:70-72 | an author is a contributor exactly when `contribs_by_name` finds them |
| Project.ProjectStats.ContribsByName | src/project_stats.rs:51-56 | None exactly for an unknown author; otherwise a map with exactly that author's languages, each holding that author's cell, and never empty while the class invariant holds |
| Project.ProjectStats.TotalContribsByName | src/project_stats.rs:41-48 | None exactly for an unknown author; otherwise the component-wise sum of that author's language statistics, well-formed and no larger than the total |
| Project.ProjectStats.TotalLines | src/project_stats.rs:59-67 | the nested loops return the sum of `lines` over every author and language |
| Project.SumLines | src/project_stats.rs:62-64 | the inner loop returns the sum of `lines` over one author's languages |
| Project.ProjectStats.AddAssign | src/lib.rs:320-323 | `lhs += rhs` leaves `lhs` equal to the merge of the two old values |
| Project.ProjectStats.InsertAuthor | src/lib.rs:321 | inserting all of one author's cells moves that author from the right operand of the merge to the left |
| Utf8.Decode | src/git/blame.rs:31 | a decoded name has no more characters than bytes; an error's `valid_up_to` lies inside the input |
| Utf8.DecodeErrPrefix | src/git/blame.rs:31 | the bytes before an error's `valid_up_to` decode |
| Utf8.DecodeEncode | src/git/blame.rs:31 | decoding the UTF-8 encoding of any string gives the string back |
| Utf8.EncodeDecode | src/git/blame.rs:31 | a byte string that decodes is the encoding of its decoded text |
| Utf8.DecodeOkIffEncoding | src/git/blame.rs:31 | decoding fails exactly on byte strings that are no string's UTF-8 encoding |
| GitBlame.HunkFrom | src/git/blame.rs:26-34 | start and length are copied; the author is an error exactly when the name bytes are not valid UTF-8, else the decoded name |
| GitBlame.BlameFrom | src/git/blame.rs:13-18 | one hunk per libgit2 hunk, in the same order |
| GitBlame.FinalRange | src/git/blame.rs:37-42 | the range starts at the final start line, has `lines_in_hunk` lines, and is empty exactly when the hunk has no lines |
| GitBlame.BlameFromAppend | src/git/blame.rs:8-18 | conversion keeps order across any split of the hunk list |
| Detective.AttributeFile | src/lib.rs:369-409 | the two nested loops compute the attribution fold over the hunks, or the read error |
| Detective.FinalContributionsFile | src/lib.rs:356-364 | a failed blame is returned unchanged; otherwise the file is attributed |
| Detective.FileContributionsOutcome | src/lib.rs:379-382 | the language falls back to plain text; the only failure is the read error carrying its path |
| Detective.VisitLinesKeys | src/lib.rs:394-402 | an author is in the result of a hunk's lines exactly when already present or one of the lines is annotated |
| Detective.FoldAppend | src/lib.rs:384-406 | folding a concatenation of hunk lists is folding one after the other |
| Detective.UndecodableHunkIgnored | src/lib.rs:387-392 | removing a hunk whose author does not decode leaves the result unchanged |
| Detective.FoldAuthors | src/lib.rs:396-402 | an author is in the fold's result exactly when already present or one of their hunks covers an annotated line |
| Detective.AttributedAuthors | src/lib.rs:384-406 | from an empty start, the authors are exactly those with a hunk covering an annotated line |
| Detective.VisitLinesSameAuthor | src/lib.rs:394-403 | visiting a hunk's lines adds to its author exactly the annotated lines of the range, counted by kind |
| Detective.VisitLinesOtherAuthor | src/lib.rs:394-403 | visiting a hunk's lines leaves every other author's statistics unchanged |
| Detective.FoldAuthorStats | src/lib.rs:384-406 | each author's statistics after the loop are their starting statistics plus the annotated lines of the final ranges of their decodable hunks, by kind |
| Detective.AttributedStats | src/lib.rs:369-409 | for one file, each author gets exactly the lines blamed on them: `lines`, blanks, comments and code counted over their hunks (zero for an author no hunk names) |
| Detective.VisitLinesWellFormed | src/lib.rs:400-403 | counting a hunk's lines keeps `lines == code + comments + blanks` for every author |
| Detective.FoldWellFormed | src/lib.rs:384-406 | every per-author `Stats` of the fold is well-formed |
| Detective.AnnotatedLines | src/lib.rs:394-399 | a range has no more annotated lines than lines |
| Detective.VisitLinesTotal | src/lib.rs:394-403 | a hunk raises the sum of `lines` by the number of its annotated lines |
| Detective.FoldTotal | src/lib.rs:384-406 | the sum of `lines` over authors is the number of (decodable hunk, annotated line) pairs visited |
| Detective.FinalContributions | src/lib.rs:302-324 | fails only when listing the files fails; otherwise returns the merge of the successful per-file results |
| Detective.AggregateNoEmptyAuthor | src/lib.rs:308-323 | the aggregate never holds an author without languages |
| Detective.AggregateWellFormed | src/lib.rs:302-324 | every `Stats` of the aggregate over all files keeps `lines == code + comments + blanks` |
| Detective.AggregateAppend | src/lib.rs:320-323 | the aggregate of a concatenation is the merge of the two aggregates |
| Detective.FailedFileContributesNothing | src/lib.rs:308-319 | a file whose blame or attribution fails can be removed without changing the aggregate |
| Detective.MoveToEnd | src/lib.rs:320-323 | moving one file to the end does not change the aggregate |
| Detective.AggregateOrderIndependent | src/lib.rs:320-323 | any two orderings of the same files aggregate to the same map |
| Detective.PerFileTotalLines | src/lib.rs:314 | a successful file contributes its attributed line count to the total |
| Detective.AggregateTotalLines | src/lib.rs:302-324 | the aggregate's `total_lines` is the sum of the files' attributed line counts |
| Text.Take | gd/src/table/commits.rs:65-70 | `chars().take(n)` is the prefix of length `min(n, len)` |
| Text.LessIrreflexive | gd/src/table/diff_stats.rs:76-79 | string order: no string precedes itself |
| Text.LessAsymmetric | gd/src/table/diff_stats.rs:76-79 | string order is asymmetric |
| Text.LessTransitive | gd/src/table/diff_stats.rs:76-79 | string order is transitive |
| Text.LessTotal | gd/src/table/diff_stats.rs:76-79 | any two distinct strings are ordered one way |
| Text.LessEqTransitive | gd/src/table/diff_stats.rs:76-79 | the non-strict order is transitive |
| Text.SortedDistinctIsStrict | gd/src/table/diff_stats.rs:76-79 | in a sorted list, entries with different keys are strictly increasing |
| Text.SortByKey | gd/src/table/diff_stats.rs:77-79 | sorting by key in place yields a sorted permutation of the input |
| Text.CollectEntries | gd/src/table/diff_stats.rs:76 | collecting a map's entries lists each key once with its value |
| Text.SortedEntries | gd/src/table/final_contributions.rs:77-81 | each map entry appears exactly once, keys strictly ascending |
| Text.PermutationEnumerates | gd/src/table/diff_stats.rs:76-79 | a permutation of a listing of a map is again a listing of it |
| Text.Truncate | gd/src/table/diff_stats.rs:33-39 | the result fits the width or is the input unchanged |
| Text.TruncateSpec | gd/src/table/diff_stats.rs:33-39 | the text is unchanged exactly when it fits; a longer one keeps `width - 3` characters followed by "..." and is exactly `width` long |
| Text.TruncateAgreesOnAscii | gd/src/table/diff_stats.rs:33-39 | on ASCII text the code as written and the corrected truncation agree |
| Text.TruncateAsWrittenAppendsOnly | gd/src/table/diff_stats.rs:33-39 | thirteen 'é' at width 24: the code as written keeps all 13 characters and appends "...", giving 16 characters |
| Text.TruncateAsWrittenSummary | gd/src/table/commits.rs:79-86 | ten 'é' at the summary column's largest width, 19: the code as written keeps all 10 characters and appends "..."; the corrected truncation leaves them alone |
| Text.TruncateAsWrittenUnderflows | gd/src/table/diff_stats.rs:34 | at width 2 a 3-character text makes `width - 3` underflow; the corrected version cuts to 2 |
| CommitsTable.UniqueShortIds | gd/src/table/commits.rs:35-56 | true exactly when no two positions share their 6-character id prefix; true for 0 or 1 commits |
| CommitsTable.New | gd/src/table/commits.rs:17-32 | width is `min(requested, 96)`, 96 by default; id length 6 when short ids are unique, else 10 |
| CommitsTable.ItemWidthAsWrittenDefined | gd/src/table/commits.rs:58-62 | the `usize` expression as written is defined exactly when the width is at least 45, and then equals `s/5 + (s/5 - 4)/5 - 1` |
| CommitsTable.ItemWidthExamples | gd/src/table/commits.rs:58-62 | at width 96 the item width is 21; at width 40 the code as written underflows, the corrected one gives 8 |
| CommitsTable.ItemWidthMonotone | gd/src/table/commits.rs:58-62 | the corrected item width grows with the width and is at least `s/5` |
| CommitsTable.RowSpec | gd/src/table/commits.rs:64-98 | the id is the first `id_length` characters; a name that does not decode shows as empty; with the corrected truncation the summary is unchanged exactly when it has at most `s/5` characters, else cut with "..."; on an ASCII summary this is what the code as written shows |
| CommitsTable.SummaryCutAsWritten | gd/src/table/commits.rs:79-86 | at the default width a summary of ten 'é' is shown whole by the model, while the code as written appends "..." |
| CommitsTable.SourceItemWidth | gd/src/table/commits.rs:58-62 | from width 45 on, the header and every row carry the item width the code as written computes; below 45 the code as written has none |
| CommitsTable.Fmt | gd/src/table/commits.rs:121-133 | no output for no commits; otherwise the header and one row per commit in order, both with the corrected item width |
| DiffStatsTable.New | gd/src/table/diff_stats.rs:15-24 | width is `min(requested, 60)`, 60 by default |
| DiffStatsTable.RowFits | gd/src/table/diff_stats.rs:26-48 | the author column is `2 * (s / 5)`: 24 at the default width; once the separator is at least 6 wide, the column widths plus the single spaces between them sum to at most the separator |
| DiffStatsTable.RowSpec | gd/src/table/diff_stats.rs:30-49 | a row shows the author's own counters; with the corrected truncation the name is unchanged exactly when it has at most as many characters as the author column, else cut with "..." to that width; on an ASCII name this is what the code as written shows |
| DiffStatsTable.NameCutAsWritten | gd/src/table/diff_stats.rs:30-39 | at the default width a name of thirteen 'é' is shown whole by the model, while the code as written appends "..." |
| DiffStatsTable.Render | gd/src/table/diff_stats.rs:75-84 | header, one row per entry in order, then a separator and an empty line |
| DiffStatsTable.Fmt | gd/src/table/diff_stats.rs:70-87 | no output exactly for an empty map; otherwise one row per author, each once, in strictly ascending name order |
| FinalContributionsTable.New | gd/src/table/final_contributions.rs:14-23 | width is `min(requested, 72)`, 72 by default; the table shows the given statistics |
| FinalContributionsTable.RowFits | gd/src/table/final_contributions.rs:25-36 | every column is `s / 6` wide: at the default width the five columns and their spaces take 64; once the separator is at least 24, the column widths plus the spaces sum to at most the separator |
| FinalContributionsTable.RowLinesIndex | gd/src/table/final_contributions.rs:83-86 | one row per language, in order |
| FinalContributionsTable.RowsSumIsMapSum | gd/src/table/final_contributions.rs:75-88 | the running `total` over a listing of an author's languages is the component-wise sum of that author's statistics |
| FinalContributionsTable.BlockLayout | gd/src/table/final_contributions.rs:72-91 | an author's block: title, header, one row per language, separator, Total row, separator, empty line |
| FinalContributionsTable.BlockSpec | gd/src/table/final_contributions.rs:72-91 | each language row shows that language's statistics, and the Total row shows the sum over all the author's languages |
| FinalContributionsTable.AuthorBlock | gd/src/table/final_contributions.rs:73-90 | an author's block lists every language once, in strictly ascending order |
| FinalContributionsTable.LanguageRows | gd/src/table/final_contributions.rs:83-86 | the loop emits one row per language and accumulates their sum |
| FinalContributionsTable.ConcatEmpty | gd/src/table/final_contributions.rs:72-91 | blocks produce output exactly when there is at least one |
| FinalContributionsTable.Fmt | gd/src/table/final_contributions.rs:67-94 | no output exactly for empty statistics; otherwise one block per author, each author exactly once |

## Left out

- Counters are unbounded naturals: `usize` overflow of the `Stats`, `DiffStats` and line-count additions is not modelled.
- `Stats` is a `Copy` value and its `+=` is a method that returns the updated value. `DiffStats` is not `Copy`: its `+=` updates through `&mut self`, and with nothing else referring to the value that equals returning the updated value.
- libgit2 is not modelled: listing the files, the blame of a file and a commit's id, names, date and summary are inputs.
- git2's name accessor is modelled by UTF-8 decoding of the signature's name bytes.
- The tokei classifier is not modelled: the language (or its absence) and the line → kind annotation map (or the read error with its path) are inputs.
- Detective.FinalContributions: the parallel iterator and the mutex are a sequential fold over the files. A failed lock, like a failed blame or attribution, makes a file contribute nothing. The lemmas on merge order justify any reduction order.
- Project.ProjectStats.FromFileStats and Project.ProjectStats.AddAssign: the bodies of `ProjectStats::from` and of `+=` on `ProjectStats` are not part of this model. `from` puts the file's contributions under its language. `+=` inserts every cell of the right-hand side, which is the merge `Merged`.
- `is_empty` and `iter` on `ProjectStats` are not part of this model: the tables read the map directly.
- The historical diff walk (`diff_stats()`, `files_contributed_to()`) is not part of this model: only the `DiffStats` value and its accumulation are.
- Files are not filtered by exclusion patterns.
- The library's error enum has no read-error variant, although src/lib.rs:382 returns one. The model follows src/lib.rs and adds `IOError(path)`.
- Project.ProjectStats.TotalContribsByName is a ghost function: the sum over a hash map is defined by choosing keys.
- Table output is a sequence of lines carrying cells and widths. Padding, centring, alignment and the separator's characters are not produced.
- CommitsTable.RowSpec, CommitsTable.RowOf and DiffStatsTable.RowSpec: the summary and name cells are cut with the corrected `Text.Truncate`, which compares character counts. The code as written compares byte lengths (see Findings), so a cell with multi-byte characters can differ; the two agree on ASCII cells, as the RowSpec lemmas state.
- CommitsTable.Fmt, CommitsTable.HeaderLines and CommitsTable.RowLine: the header and rows carry the corrected `ItemWidth`. The code as written underflows below 45 columns (see Findings) and agrees with it from 45 on, as CommitsTable.SourceItemWidth states.
- DiffStatsTable.RowLine, DiffStatsTable.Render and DiffStatsTable.Fmt: the name cells come from the corrected truncation, as for DiffStatsTable.RowSpec above.
- DiffStatsTable.RowFits and FinalContributionsTable.RowFits: a column width is a minimum, so a cell longer than its column (a counter with more digits, a long header or language name) is printed whole and widens its row past the separator; the lemmas bound only the sum of the column widths.
- CommitsTable.RowOf: chrono's date rendering is not modelled. The date string is an input that must hold at least the 4 bytes the row cuts from its end; a rendered date always does.
- String order is lexicographic on characters. This equals Rust's byte-wise order on UTF-8, but the model does not prove that.
- FinalContributionsTable.Fmt: authors come in hash-map order, which is unspecified; the contract fixes only that each author appears once.
- The tags table, the printing utilities and the command-line front ends are not part of this model.

## Findings

| source | as written | input that shows it | evidently intended | confidence | as-written member | corrected member |
|---|---|---|---|---|---|---|
| gd/src/table/commits.rs:58-62 | `item_width` computes `(s/5 - 4)/5 - 1` in `usize` | a terminal 40 columns wide: `(8 - 4)/5 - 1` underflows | the same formula, with the widening term dropped where it would be negative | not executed | CommitsTable.ItemWidthAsWritten (CommitsTable.ItemWidthExamples) | CommitsTable.ItemWidth |
| gd/src/table/diff_stats.rs:33-39 | compares the name's byte length with the column, then keeps `width - 3` characters | a name of 13 × 'é' (26 bytes) at width 24 keeps all 13 characters and appends "..." | cut only names with more characters than the column | not executed | Text.TruncateAsWritten (Text.TruncateAsWrittenAppendsOnly, DiffStatsTable.NameCutAsWritten) | Text.Truncate |
| gd/src/table/commits.rs:79-86 | the summary is cut the same way, byte length against character count | a summary of 10 × 'é' (20 bytes) at the default width, whose summary column is 19, keeps all 10 characters and appends "..." | cut only summaries with more characters than the column | not executed | Text.TruncateAsWritten (Text.TruncateAsWrittenSummary, CommitsTable.SummaryCutAsWritten) | Text.Truncate |
| gd/src/table/diff_stats.rs:34 | `author_width - 3` in `usize` when the column is narrower than 3 | the name "abc" at width 2 | cut to the column's width | not executed | Text.TruncateAsWritten (Text.TruncateAsWrittenUnderflows) | Text.Truncate |
