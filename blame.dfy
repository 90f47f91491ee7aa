/** `src/git/blame.rs`: the library's own view of a blame, one hunk per run
    of final lines attributed to the same commit. */
module GitBlame {
  import opened Wrappers
  import opened Utf8

  /** What libgit2 reports for one hunk (`git2::BlameHunk`): the first line
      of the hunk in the final file, its number of lines, and the raw bytes
      of the final signature's name. */
  datatype GitHunk = GitHunk(finalStartLine: nat, linesInHunk: nat, nameBytes: seq<byte>)

  /** `BlameHunk`: the author is the decoded name, or the decoding error. */
  datatype BlameHunk = BlameHunk(finalStartLine: nat, linesInHunk: nat, author: Result<string, Utf8Error>)

  /** `Blame`: the hunks in libgit2's order. `Blame::iter` yields `hunks`
      front to back. */
  datatype Blame = Blame(hunks: seq<BlameHunk>)

  /** `std::ops::Range<usize>`: the half-open interval `[start, end)`. */
  datatype Range = Range(start: nat, end: nat)

  predicate InRange(r: Range, line: nat) {
    r.start <= line < r.end
  }

  /** `impl From<git2::BlameHunk> for BlameHunk`. */
  function HunkFrom(h: GitHunk): (r: BlameHunk)
    ensures r.finalStartLine == h.finalStartLine && r.linesInHunk == h.linesInHunk
    ensures r.author.Ok? <==> exists s :: Encode(s) == h.nameBytes
    ensures r.author.Ok? ==> Encode(r.author.value) == h.nameBytes
  {
    DecodeOkIffEncoding(h.nameBytes);
    var author := Decode(h.nameBytes);
    if author.Ok? then
      EncodeDecode(h.nameBytes);
      BlameHunk(h.finalStartLine, h.linesInHunk, author)
    else
      BlameHunk(h.finalStartLine, h.linesInHunk, author)
  }

  /** `impl From<git2::Blame> for Blame`: `iter().map(BlameHunk::from).collect()`. */
  function BlameFrom(raw: seq<GitHunk>): (r: Blame)
    ensures |r.hunks| == |raw|
    ensures forall i :: 0 <= i < |raw| ==> r.hunks[i] == HunkFrom(raw[i])
  {
    if raw == [] then Blame([])
    else Blame([HunkFrom(raw[0])] + BlameFrom(raw[1..]).hunks)
  }

  /** `BlameHunk::final_range`. */
  function FinalRange(h: BlameHunk): (r: Range)
    ensures r.start == h.finalStartLine
    ensures r.end - r.start == h.linesInHunk
    ensures h.linesInHunk == 0 <==> (forall line :: !InRange(r, line))
  {
    var r := Range(h.finalStartLine, h.finalStartLine + h.linesInHunk);
    assert h.linesInHunk > 0 ==> InRange(r, h.finalStartLine);
    r
  }

  /** Converting a concatenation of hunk lists is the concatenation of the
      conversions: order is kept across any split. */
  lemma {:induction false} BlameFromAppend(xs: seq<GitHunk>, ys: seq<GitHunk>)
    ensures BlameFrom(xs + ys).hunks == BlameFrom(xs).hunks + BlameFrom(ys).hunks
  {
    if xs != [] {
      assert (xs + ys)[1..] == xs[1..] + ys;
      BlameFromAppend(xs[1..], ys);
    } else {
      assert xs + ys == ys;
    }
  }
}
