/** `src/lib.rs`: final contributions. A file's blame hunks are matched
    against the classifier's per-line annotations to count, per author, the
    lines of each kind they last touched (`_final_contributions_file`); the
    per-file results of a whole repository are merged into one
    `ProjectStats` (`final_contributions`). libgit2 and the tokei classifier
    are not modelled: a blame, a language and an annotation map are inputs. */
module Detective {
  import opened Wrappers
  import opened LineStats
  import opened Project
  import opened GitBlame

  /** The library's error, reduced to the two variants these operations
      produce: a libgit2 failure, and a failed read of a file, reported with
      the path the classifier gives back. */
  datatype Error = GitError(message: string) | IOError(path: string)

  /** The classifier's annotation of a file: line number to kind. Lines
      without an entry are not counted. */
  type Annotations = map<nat, LineType>

  /** Author name to the statistics of the lines they wrote last. */
  type Contributions = map<string, Stats>

  /** The name of the fallback language (`LanguageType::Text`). */
  const PLAIN_TEXT: string := "Plain Text"

  /** `LanguageType::from_path(..).unwrap_or(LanguageType::Text)`, by name. */
  function Language(langType: Option<string>): string {
    if langType.Some? then langType.value else PLAIN_TEXT
  }

  // ---------------------------------------------------------------------
  // Specification of the attribution fold
  // ---------------------------------------------------------------------

  /** One line of a hunk by `author`: counted when it is annotated. */
  function Visit(acc: Contributions, author: string, ann: Annotations, line: nat): Contributions {
    if line in ann then acc[author := AddLine(Get(acc, author), ann[line])] else acc
  }

  /** Lines `lo .. hi` of a hunk by `author`, in increasing order. */
  function VisitLines(acc: Contributions, author: string, ann: Annotations, lo: nat, hi: nat): Contributions
    decreases hi
  {
    if hi <= lo then acc else Visit(VisitLines(acc, author, ann, lo, hi - 1), author, ann, hi - 1)
  }

  /** One hunk: its final range if the author decodes, nothing otherwise. */
  function Step(acc: Contributions, h: BlameHunk, ann: Annotations): Contributions {
    match h.author
    case Err(_) => acc
    case Ok(name) =>
      var r := FinalRange(h);
      VisitLines(acc, name, ann, r.start, r.end)
  }

  /** The hunks in blame order, starting from `acc`. */
  function Fold(acc: Contributions, hunks: seq<BlameHunk>, ann: Annotations): Contributions {
    if hunks == [] then acc else Step(Fold(acc, hunks[..|hunks| - 1], ann), hunks[|hunks| - 1], ann)
  }

  /** The outcome of `_final_contributions_file`. */
  function FileContributions(langType: Option<string>, annotations: Result<Annotations, string>, blame: Blame)
    : Result<(string, Contributions), Error>
  {
    match annotations
    case Err(path) => Err(IOError(path))
    case Ok(ann) => Ok((Language(langType), Fold(map[], blame.hunks, ann)))
  }

  // ---------------------------------------------------------------------
  // The attribution loop
  // ---------------------------------------------------------------------

  /** `_final_contributions_file`: the language (falling back to plain text)
      and the per-author statistics of one file, or the classifier's read
      error. */
  method AttributeFile(langType: Option<string>, annotations: Result<Annotations, string>, blame: Blame)
    returns (r: Result<(string, Contributions), Error>)
    ensures r == FileContributions(langType, annotations, blame)
  {
    var lang := if langType.Some? then langType.value else PLAIN_TEXT;
    if annotations.Err? {
      return Err(IOError(annotations.error));
    }
    var ann := annotations.value;
    var contributions: Contributions := map[];
    var i := 0;
    while i < |blame.hunks|
      invariant 0 <= i <= |blame.hunks|
      invariant contributions == Fold(map[], blame.hunks[..i], ann)
    {
      var hunk := blame.hunks[i];
      assert blame.hunks[..i + 1][..i] == blame.hunks[..i];
      if hunk.author.Ok? {
        var author := hunk.author.value;
        var before := contributions;
        var end := hunk.finalStartLine + hunk.linesInHunk;
        var lineNum := hunk.finalStartLine;
        while lineNum < end
          invariant hunk.finalStartLine <= lineNum <= end
          invariant contributions == VisitLines(before, author, ann, hunk.finalStartLine, lineNum)
        {
          if lineNum in ann {
            var lineType := ann[lineNum];
            var stats := if author in contributions then contributions[author] else Zero();
            stats := AddAssignLineRef(stats, lineType);
            contributions := contributions[author := stats];
          }
          lineNum := lineNum + 1;
        }
      }
      i := i + 1;
    }
    assert blame.hunks[..i] == blame.hunks;
    return Ok((lang, contributions));
  }

  /** `final_contributions_file`: the strict variant. A failed blame is
      returned as it is; otherwise the file is attributed. */
  method FinalContributionsFile(blame: Result<Blame, Error>, langType: Option<string>, annotations: Result<Annotations, string>)
    returns (r: Result<(string, Contributions), Error>)
    ensures blame.Err? ==> r == Err(blame.error)
    ensures blame.Ok? ==> r == FileContributions(langType, annotations, blame.value)
  {
    if blame.Err? {
      return Err(blame.error);
    }
    r := AttributeFile(langType, annotations, blame.value);
  }

  // ---------------------------------------------------------------------
  // Properties of the attribution
  // ---------------------------------------------------------------------

  /** A hunk of `a` covers `line`, and the classifier annotated that line. */
  predicate Attributes(h: BlameHunk, a: string, ann: Annotations, line: nat) {
    h.author == Ok(a) && InRange(FinalRange(h), line) && line in ann
  }

  /** The language is the recognised one, or plain text when there is none;
      the only failure is the classifier's, carrying its path. */
  lemma FileContributionsOutcome(langType: Option<string>, annotations: Result<Annotations, string>, blame: Blame)
    ensures FileContributions(langType, annotations, blame).Err? <==> annotations.Err?
    ensures annotations.Err? ==> FileContributions(langType, annotations, blame) == Err(IOError(annotations.error))
    ensures annotations.Ok? ==> FileContributions(langType, annotations, blame).value.0
                                == (if langType.None? then PLAIN_TEXT else langType.value)
  {
  }

  lemma {:induction false} VisitLinesKeys(acc: Contributions, author: string, ann: Annotations, lo: nat, hi: nat, a: string)
    ensures a in VisitLines(acc, author, ann, lo, hi) <==>
            a in acc || (a == author && exists line :: lo <= line < hi && line in ann)
    decreases hi
  {
    if hi > lo {
      VisitLinesKeys(acc, author, ann, lo, hi - 1, a);
      if a == author && hi - 1 !in ann && exists line :: lo <= line < hi && line in ann {
        var line :| lo <= line < hi && line in ann;
        assert line < hi - 1;
      }
    }
  }

  lemma {:induction false} FoldAppend(acc: Contributions, xs: seq<BlameHunk>, ys: seq<BlameHunk>, ann: Annotations)
    ensures Fold(acc, xs + ys, ann) == Fold(Fold(acc, xs, ann), ys, ann)
    decreases |ys|
  {
    if ys == [] {
      assert xs + ys == xs;
    } else {
      assert (xs + ys)[..|xs + ys| - 1] == xs + ys[..|ys| - 1];
      FoldAppend(acc, xs, ys[..|ys| - 1], ann);
    }
  }

  /** A hunk whose author did not decode contributes nothing: the result is
      that of the same blame without the hunk. */
  lemma UndecodableHunkIgnored(hunks: seq<BlameHunk>, i: nat, ann: Annotations)
    requires i < |hunks| && hunks[i].author.Err?
    ensures Fold(map[], hunks[..i] + hunks[i + 1..], ann) == Fold(map[], hunks, ann)
  {
    var acc := Fold(map[], hunks[..i], ann);
    assert hunks == hunks[..i] + [hunks[i]] + hunks[i + 1..];
    FoldAppend(map[], hunks[..i] + [hunks[i]], hunks[i + 1..], ann);
    FoldAppend(map[], hunks[..i], [hunks[i]], ann);
    assert [hunks[i]][..0] == [];
    FoldAppend(map[], hunks[..i], hunks[i + 1..], ann);
  }

  /** An author is in the result exactly when one of their hunks covers an
      annotated line (or they were in the starting map). */
  lemma {:induction false} FoldAuthors(acc: Contributions, hunks: seq<BlameHunk>, ann: Annotations, a: string)
    ensures a in Fold(acc, hunks, ann) <==>
            a in acc || exists i: nat, line: nat :: i < |hunks| && Attributes(hunks[i], a, ann, line)
    decreases |hunks|
  {
    if hunks != [] {
      var n := |hunks| - 1;
      var prefix := hunks[..n];
      var h := hunks[n];
      FoldAuthors(acc, prefix, ann, a);
      var before := Fold(acc, prefix, ann);
      if h.author.Ok? {
        VisitLinesKeys(before, h.author.value, ann, FinalRange(h).start, FinalRange(h).end, a);
      }
      if exists i: nat, line: nat :: i < |hunks| && Attributes(hunks[i], a, ann, line) {
        var i: nat, line: nat :| i < |hunks| && Attributes(hunks[i], a, ann, line);
        if i < n {
          assert Attributes(prefix[i], a, ann, line);
        } else {
          assert Attributes(h, a, ann, line);
        }
      }
      if a in Fold(acc, hunks, ann) && a !in before {
        assert h.author == Ok(a);
        var line: nat :| FinalRange(h).start <= line < FinalRange(h).end && line in ann;
        assert Attributes(hunks[n], a, ann, line);
      }
      if exists i: nat, line: nat :: i < n && Attributes(prefix[i], a, ann, line) {
        var i: nat, line: nat :| i < n && Attributes(prefix[i], a, ann, line);
        assert Attributes(hunks[i], a, ann, line);
      }
    }
  }

  /** The attribution of a whole file: an author appears if and only if
      some hunk of theirs covers an annotated line. */
  lemma AttributedAuthors(hunks: seq<BlameHunk>, ann: Annotations, a: string)
    ensures a in Fold(map[], hunks, ann) <==>
            exists i: nat, line: nat :: i < |hunks| && Attributes(hunks[i], a, ann, line)
  {
    FoldAuthors(map[], hunks, ann, a);
  }

  lemma {:induction false} VisitLinesWellFormed(acc: Contributions, author: string, ann: Annotations, lo: nat, hi: nat)
    requires forall a :: a in acc ==> WellFormed(acc[a])
    ensures forall a :: a in VisitLines(acc, author, ann, lo, hi) ==> WellFormed(VisitLines(acc, author, ann, lo, hi)[a])
    decreases hi
  {
    if hi > lo {
      var before := VisitLines(acc, author, ann, lo, hi - 1);
      VisitLinesWellFormed(acc, author, ann, lo, hi - 1);
      if hi - 1 in ann {
        AddLineWellFormed(Get(before, author), ann[hi - 1]);
      }
    }
  }

  /** Every per-author `Stats` of the result keeps
      `lines == code + comments + blanks`. */
  lemma {:induction false} FoldWellFormed(acc: Contributions, hunks: seq<BlameHunk>, ann: Annotations)
    requires forall a :: a in acc ==> WellFormed(acc[a])
    ensures forall a :: a in Fold(acc, hunks, ann) ==> WellFormed(Fold(acc, hunks, ann)[a])
    decreases |hunks|
  {
    if hunks != [] {
      var h := hunks[|hunks| - 1];
      FoldWellFormed(acc, hunks[..|hunks| - 1], ann);
      if h.author.Ok? {
        VisitLinesWellFormed(Fold(acc, hunks[..|hunks| - 1], ann), h.author.value, ann, FinalRange(h).start, FinalRange(h).end);
      }
    }
  }

  /** The number of annotated lines among `lo .. hi`. */
  function AnnotatedLines(ann: Annotations, lo: nat, hi: nat): (n: nat)
    ensures n <= (if hi <= lo then 0 else hi - lo)
    decreases hi
  {
    if hi <= lo then 0 else AnnotatedLines(ann, lo, hi - 1) + (if hi - 1 in ann then 1 else 0)
  }

  /** The number of lines among `lo .. hi` annotated with kind `t`. */
  function KindLines(ann: Annotations, lo: nat, hi: nat, t: LineType): nat
    decreases hi
  {
    if hi <= lo then 0 else KindLines(ann, lo, hi - 1, t) + (if hi - 1 in ann && ann[hi - 1] == t then 1 else 0)
  }

  /** What lines `lo .. hi` are worth to the author they are blamed on: the
      annotated lines, and among them the blanks, comments and code. */
  function RangeStats(ann: Annotations, lo: nat, hi: nat): Stats {
    Stats(AnnotatedLines(ann, lo, hi), KindLines(ann, lo, hi, Blank),
          KindLines(ann, lo, hi, Comment), KindLines(ann, lo, hi, Code))
  }

  /** What a blame owes author `a`: the sum of `RangeStats` over the final
      ranges of the hunks whose author decodes to `a`. */
  function AuthorStats(hunks: seq<BlameHunk>, ann: Annotations, a: string): Stats {
    if hunks == [] then Zero()
    else
      var h := hunks[|hunks| - 1];
      Add(AuthorStats(hunks[..|hunks| - 1], ann, a),
          if h.author == Ok(a) then RangeStats(ann, FinalRange(h).start, FinalRange(h).end) else Zero())
  }

  /** Widening a range by one line adds that line's statistics, if it is
      annotated. */
  lemma RangeStatsStep(ann: Annotations, lo: nat, hi: nat)
    requires lo < hi
    ensures RangeStats(ann, lo, hi) ==
            Add(RangeStats(ann, lo, hi - 1), if hi - 1 in ann then Unit(ann[hi - 1]) else Zero())
  {
    var r, r' := RangeStats(ann, lo, hi - 1), RangeStats(ann, lo, hi);
    var x := if hi - 1 in ann then Unit(ann[hi - 1]) else Zero();
    LineCountStep(ann, lo, hi, x);
    assert r'.lines == r.lines + x.lines;
    assert r'.blanks == r.blanks + x.blanks;
    assert r'.comments == r.comments + x.comments;
    assert r'.code == r.code + x.code;
  }

  lemma LineCountStep(ann: Annotations, lo: nat, hi: nat, x: Stats)
    requires lo < hi && x == (if hi - 1 in ann then Unit(ann[hi - 1]) else Zero())
    ensures AnnotatedLines(ann, lo, hi) == AnnotatedLines(ann, lo, hi - 1) + x.lines
    ensures KindLines(ann, lo, hi, Blank) == KindLines(ann, lo, hi - 1, Blank) + x.blanks
    ensures KindLines(ann, lo, hi, Comment) == KindLines(ann, lo, hi - 1, Comment) + x.comments
    ensures KindLines(ann, lo, hi, Code) == KindLines(ann, lo, hi - 1, Code) + x.code
  {
  }

  /** Visiting a range by `author` adds its `RangeStats` to that author. */
  lemma {:induction false} VisitLinesSameAuthor(acc: Contributions, author: string, ann: Annotations, lo: nat, hi: nat)
    ensures Get(VisitLines(acc, author, ann, lo, hi), author) == Add(Get(acc, author), RangeStats(ann, lo, hi))
    decreases hi
  {
    if hi <= lo {
      ZeroIsIdentity(Get(acc, author));
    } else {
      var before := VisitLines(acc, author, ann, lo, hi - 1);
      VisitLinesSameAuthor(acc, author, ann, lo, hi - 1);
      RangeStatsStep(ann, lo, hi);
      var x := if hi - 1 in ann then Unit(ann[hi - 1]) else Zero();
      calc {
        Get(VisitLines(acc, author, ann, lo, hi), author);
        { if hi - 1 !in ann { ZeroIsIdentity(Get(before, author)); } }
        Add(Get(before, author), x);
        Add(Add(Get(acc, author), RangeStats(ann, lo, hi - 1)), x);
        { AddAssociative(Get(acc, author), RangeStats(ann, lo, hi - 1), x); }
        Add(Get(acc, author), RangeStats(ann, lo, hi));
      }
    }
  }

  /** Visiting a range by `author` leaves every other author alone. */
  lemma {:induction false} VisitLinesOtherAuthor(acc: Contributions, author: string, ann: Annotations, lo: nat, hi: nat, a: string)
    requires a != author
    ensures Get(VisitLines(acc, author, ann, lo, hi), a) == Get(acc, a)
    decreases hi
  {
    if hi > lo {
      VisitLinesOtherAuthor(acc, author, ann, lo, hi - 1, a);
    }
  }

  /** Each author's statistics after the fold are their starting statistics
      plus exactly the lines blamed on them, by kind. */
  lemma {:induction false} FoldAuthorStats(acc: Contributions, hunks: seq<BlameHunk>, ann: Annotations, a: string)
    ensures Get(Fold(acc, hunks, ann), a) == Add(Get(acc, a), AuthorStats(hunks, ann, a))
    decreases |hunks|
  {
    if hunks == [] {
      ZeroIsIdentity(Get(acc, a));
    } else {
      var prefix := hunks[..|hunks| - 1];
      var h := hunks[|hunks| - 1];
      var before := Fold(acc, prefix, ann);
      FoldAuthorStats(acc, prefix, ann, a);
      var x := if h.author == Ok(a) then RangeStats(ann, FinalRange(h).start, FinalRange(h).end) else Zero();
      if h.author == Ok(a) {
        VisitLinesSameAuthor(before, a, ann, FinalRange(h).start, FinalRange(h).end);
      } else {
        if h.author.Ok? {
          VisitLinesOtherAuthor(before, h.author.value, ann, FinalRange(h).start, FinalRange(h).end, a);
        }
        ZeroIsIdentity(Get(before, a));
      }
      assert Get(Fold(acc, hunks, ann), a) == Add(Get(before, a), x);
      AddAssociative(Get(acc, a), AuthorStats(prefix, ann, a), x);
    }
  }

  /** One file: every author's statistics are exactly the lines blamed on
      them, by kind (zero for an author the blame does not name). */
  lemma AttributedStats(hunks: seq<BlameHunk>, ann: Annotations, a: string)
    ensures Get(Fold(map[], hunks, ann), a) == AuthorStats(hunks, ann, a)
  {
    FoldAuthorStats(map[], hunks, ann, a);
    ZeroIsIdentity(AuthorStats(hunks, ann, a));
  }

  /** The number of (decodable hunk, annotated line) pairs of a blame. */
  function AttributedPairs(hunks: seq<BlameHunk>, ann: Annotations): nat {
    if hunks == [] then 0
    else
      var h := hunks[|hunks| - 1];
      AttributedPairs(hunks[..|hunks| - 1], ann)
      + (if h.author.Ok? then AnnotatedLines(ann, FinalRange(h).start, FinalRange(h).end) else 0)
  }

  lemma {:induction false} VisitLinesTotal(acc: Contributions, author: string, ann: Annotations, lo: nat, hi: nat)
    ensures MapSum(VisitLines(acc, author, ann, lo, hi)).lines == MapSum(acc).lines + AnnotatedLines(ann, lo, hi)
    decreases hi
  {
    if hi > lo {
      var before := VisitLines(acc, author, ann, lo, hi - 1);
      VisitLinesTotal(acc, author, ann, lo, hi - 1);
      if hi - 1 in ann {
        MapSumUpdate(before, author, Unit(ann[hi - 1]));
      }
    }
  }

  /** The lines of all authors together are the (decodable hunk, annotated
      line) pairs visited: every such line is counted once. */
  lemma {:induction false} FoldTotal(acc: Contributions, hunks: seq<BlameHunk>, ann: Annotations)
    ensures MapSum(Fold(acc, hunks, ann)).lines == MapSum(acc).lines + AttributedPairs(hunks, ann)
    decreases |hunks|
  {
    if hunks != [] {
      var h := hunks[|hunks| - 1];
      FoldTotal(acc, hunks[..|hunks| - 1], ann);
      if h.author.Ok? {
        VisitLinesTotal(Fold(acc, hunks[..|hunks| - 1], ann), h.author.value, ann, FinalRange(h).start, FinalRange(h).end);
      }
    }
  }

  // ---------------------------------------------------------------------
  // The whole repository
  // ---------------------------------------------------------------------

  /** What the parallel pass sees for one listed file: whether the
      repository lock was obtained, the blame, and the classifier's answer.
      The blame is the library's converted view of git2's hunks
      (`GitBlame.BlameFrom`), which the attribution loop reads hunk by hunk
      in the same order. */
  datatype FileInput = FileInput(
    locked: bool,
    blame: Result<Blame, Error>,
    langType: Option<string>,
    annotations: Result<Annotations, string>)

  /** The `filter_map` closure: a file's stats, or None when the lock, the
      blame or the attribution failed. */
  function PerFile(f: FileInput): Option<StatsMap> {
    if !f.locked || f.blame.Err? then None
    else match FileContributions(f.langType, f.annotations, f.blame.value)
      case Err(_) => None
      case Ok(res) => Some(FromFile(res.0, res.1))
  }

  /** The `reduce`: per-file results merged into the default `ProjectStats`. */
  function Aggregate(files: seq<FileInput>): StatsMap {
    if files == [] then map[]
    else
      var rest := Aggregate(files[..|files| - 1]);
      match PerFile(files[|files| - 1])
      case None => rest
      case Some(m) => Merged(rest, m)
  }

  /** `final_contributions`: a failed listing is the only error; every file
      that fails is skipped. The files are taken in list order here; the
      lemmas below show that any order and any grouping give the same map. */
  method FinalContributions(files: Result<seq<FileInput>, Error>) returns (r: Result<ProjectStats, Error>)
    ensures files.Err? <==> r.Err?
    ensures files.Err? ==> r.error == files.error
    ensures r.Ok? ==> fresh(r.value) && r.value.Valid() && r.value.stats == Aggregate(files.value)
  {
    if files.Err? {
      return Err(files.error);
    }
    var fs := files.value;
    var acc := new ProjectStats();
    for i := 0 to |fs|
      invariant fresh(acc) && acc.Valid()
      invariant acc.stats == Aggregate(fs[..i])
    {
      assert fs[..i + 1][..i] == fs[..i];
      var f := fs[i];
      if f.locked && f.blame.Ok? {
        var res := AttributeFile(f.langType, f.annotations, f.blame.value);
        if res.Ok? {
          var one := new ProjectStats.FromFileStats(res.value.0, res.value.1);
          acc.AddAssign(one);
        }
      }
    }
    assert fs[..|fs|] == fs;
    return Ok(acc);
  }

  lemma {:induction false} AggregateNoEmptyAuthor(files: seq<FileInput>)
    ensures NoEmptyAuthor(Aggregate(files))
  {
    if files != [] {
      AggregateNoEmptyAuthor(files[..|files| - 1]);
      var p := PerFile(files[|files| - 1]);
      if p.Some? {
        MergedInvariants(Aggregate(files[..|files| - 1]), p.value);
      }
    }
  }

  /** Every `Stats` the whole run produces keeps
      `lines == code + comments + blanks`. */
  lemma {:induction false} AggregateWellFormed(files: seq<FileInput>)
    ensures AllWellFormed(Aggregate(files))
  {
    if files != [] {
      var f := files[|files| - 1];
      AggregateWellFormed(files[..|files| - 1]);
      if PerFile(f).Some? {
        var ann := f.annotations.value;
        var hunks := f.blame.value.hunks;
        FoldWellFormed(map[], hunks, ann);
        var contributions := Fold(map[], hunks, ann);
        assert AllWellFormed(FromFile(Language(f.langType), contributions));
        MergedInvariants(Aggregate(files[..|files| - 1]), PerFile(f).value);
      }
    }
  }

  /** Merging the results of two halves is the result of the whole: any
      grouping of the parallel reduction gives the same map. */
  lemma {:induction false} AggregateAppend(xs: seq<FileInput>, ys: seq<FileInput>)
    ensures Aggregate(xs + ys) == Merged(Aggregate(xs), Aggregate(ys))
    decreases |ys|
  {
    if ys == [] {
      assert xs + ys == xs;
      MergedIdentity(Aggregate(xs));
    } else {
      var ys' := ys[..|ys| - 1];
      assert (xs + ys)[..|xs + ys| - 1] == xs + ys';
      AggregateAppend(xs, ys');
      var p := PerFile(ys[|ys| - 1]);
      if p.Some? {
        MergedAssociative(Aggregate(xs), Aggregate(ys'), p.value);
      }
    }
  }

  /** A file whose blame or attribution fails changes nothing, wherever it
      sits in the list. */
  lemma FailedFileContributesNothing(p: seq<FileInput>, f: FileInput, q: seq<FileInput>)
    requires PerFile(f).None?
    ensures Aggregate(p + [f] + q) == Aggregate(p + q)
  {
    AggregateAppend(p + [f], q);
    assert (p + [f])[..|p|] == p;
    AggregateAppend(p, q);
  }

  /** Moving one file to the end does not change the aggregate. */
  lemma MoveToEnd(p: seq<FileInput>, f: FileInput, q: seq<FileInput>)
    ensures Aggregate(p + [f] + q) == Aggregate(p + q + [f])
  {
    var x := [f];
    AggregateNoEmptyAuthor(x);
    AggregateNoEmptyAuthor(q);
    calc {
      Aggregate(p + x + q);
    == { AggregateAppend(p + x, q); }
      Merged(Aggregate(p + x), Aggregate(q));
    == { AggregateAppend(p, x); }
      Merged(Merged(Aggregate(p), Aggregate(x)), Aggregate(q));
    == { MergedAssociative(Aggregate(p), Aggregate(x), Aggregate(q)); }
      Merged(Aggregate(p), Merged(Aggregate(x), Aggregate(q)));
    == { MergedCommutative(Aggregate(x), Aggregate(q)); }
      Merged(Aggregate(p), Merged(Aggregate(q), Aggregate(x)));
    == { MergedAssociative(Aggregate(p), Aggregate(q), Aggregate(x)); }
      Merged(Merged(Aggregate(p), Aggregate(q)), Aggregate(x));
    == { AggregateAppend(p, q); }
      Merged(Aggregate(p + q), Aggregate(x));
    == { AggregateAppend(p + q, x); }
      Aggregate(p + q + x);
    }
  }

  /** The order in which files are processed does not change the aggregate. */
  lemma {:induction false} AggregateOrderIndependent(xs: seq<FileInput>, ys: seq<FileInput>)
    requires multiset(xs) == multiset(ys)
    ensures Aggregate(xs) == Aggregate(ys)
    decreases |xs|
  {
    if xs != [] {
      var n := |xs| - 1;
      var x := xs[n];
      assert xs == xs[..n] + [x];
      assert x in multiset(ys);
      var i :| 0 <= i < |ys| && ys[i] == x;
      var ys' := ys[..i] + ys[i + 1..];
      assert ys == ys[..i] + [x] + ys[i + 1..];
      assert multiset(xs[..n]) == multiset(xs) - multiset{x};
      assert multiset(ys') == multiset(ys) - multiset{x};
      AggregateOrderIndependent(xs[..n], ys');
      MoveToEnd(ys[..i], x, ys[i + 1..]);
      AggregateAppend(ys', [x]);
      AggregateAppend(xs[..n], [x]);
    } else {
      assert |multiset(ys)| == 0;
    }
  }

  /** The lines a file contributes: its (decodable hunk, annotated line)
      pairs, or none when it fails. */
  function FileLines(f: FileInput): nat {
    match PerFile(f)
    case None => 0
    case Some(_) => AttributedPairs(f.blame.value.hunks, f.annotations.value)
  }

  function FilesLines(files: seq<FileInput>): nat {
    if files == [] then 0 else FilesLines(files[..|files| - 1]) + FileLines(files[|files| - 1])
  }

  lemma PerFileTotalLines(f: FileInput)
    requires PerFile(f).Some?
    ensures Total(PerFile(f).value).lines == FileLines(f)
  {
    var ann := f.annotations.value;
    var c := Fold(map[], f.blame.value.hunks, ann);
    assert PerFile(f).value == FromFile(Language(f.langType), c);
    FromFileTotal(Language(f.langType), c);
    FoldTotal(map[], f.blame.value.hunks, ann);
    var empty: Contributions := map[];
    assert MapSum(empty) == Zero();
  }

  /** `total_lines()` of the aggregate is the number of annotated lines
      attributed in the files that did not fail. */
  lemma {:induction false} AggregateTotalLines(files: seq<FileInput>)
    ensures Total(Aggregate(files)).lines == FilesLines(files)
  {
    if files == [] {
      assert AuthorTotals(map[]) == map[];
    } else {
      var f := files[|files| - 1];
      AggregateTotalLines(files[..|files| - 1]);
      var p := PerFile(f);
      if p.Some? {
        MergedTotal(Aggregate(files[..|files| - 1]), p.value);
        PerFileTotalLines(f);
      }
    }
  }
}
