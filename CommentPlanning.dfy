/**
 * IsFileModified, GetAddedLines, GetCommentsForChunk and CreateCommentsForFile: the plan of the
 * review comments posted on one file. Every chunk of the file's patch with an added line and a
 * matching finding gets exactly one comment, anchored at the chunk's first added line and
 * carrying the formatted findings of that chunk. Posting the comments is left to the caller; the
 * plan is the sequence of comments in the order they would be posted.
 */
module CommentPlanning {
  import opened Outcomes
  import opened DotNetText
  import opened Models
  import opened Linq
  import opened PatchParser
  import opened CommentFormatting

  /** IsFileModified: only modified and added files are reviewed. */
  function IsFileModified(file: PullRequestFile): (r: bool)
    ensures r <==> file.status == "modified" || file.status == "added"
  {
    file.status == "modified" || file.status == "added"
  }

  /** An added line of a chunk: its index among the chunk's lines (header at 0) and its derived line number. */
  datatype AddedLine = AddedLine(index: nat, lineNumber: int)

  /** A line counts as added when it starts with "+" but not with "++". */
  predicate IsAddedLine(line: string)
    ensures IsAddedLine(line) <==> |line| >= 1 && line[0] == '+' && (|line| == 1 || line[1] != '+')
  {
    StartsWith(line, "+") && !StartsWith(line, "++")
  }

  /** The chunk's text split at '\n', empty pieces kept. */
  function ChunkLines(chunk: DiffChunk): seq<string> {
    Split(chunk.content, {'\n'})
  }

  /**
   * The added lines among `lines`, in order, each with `newStart + index - 1` as 32-bit
   * arithmetic computes it.
   */
  function AddedAmong(lines: seq<string>, newStart: int): seq<AddedLine> {
    if lines == [] then []
    else
      var k := |lines| - 1;
      AddedAmong(lines[..k], newStart)
        + (if IsAddedLine(lines[k]) then [AddedLine(k, WrapInt32(newStart + k - 1))] else [])
  }

  /** Every listed line is an added line of `lines`, numbered `newStart + index - 1` in 32-bit arithmetic. */
  ghost predicate ListsAddedLines(lines: seq<string>, newStart: int, r: seq<AddedLine>) {
    forall i :: 0 <= i < |r| ==>
      && r[i].index < |lines|
      && IsAddedLine(lines[r[i].index])
      && r[i].lineNumber == WrapInt32(newStart + r[i].index - 1)
  }

  /** The listed lines are in line order, each listed once. */
  ghost predicate InLineOrder(r: seq<AddedLine>) {
    forall i, j :: 0 <= i < j < |r| ==> r[i].index < r[j].index
  }

  /** Only added lines are listed, with their derived line numbers, in line order. */
  lemma AddedAmongSound(lines: seq<string>, newStart: int)
    ensures ListsAddedLines(lines, newStart, AddedAmong(lines, newStart))
    ensures InLineOrder(AddedAmong(lines, newStart))
  {
    AddedAmongLists(lines, newStart);
    AddedAmongOrdered(lines, newStart);
  }

  lemma {:induction false} AddedAmongLists(lines: seq<string>, newStart: int)
    ensures ListsAddedLines(lines, newStart, AddedAmong(lines, newStart))
  {
    if lines != [] {
      var k := |lines| - 1;
      var init := lines[..k];
      AddedAmongLists(init, newStart);
      var r0 := AddedAmong(init, newStart);
      var r := AddedAmong(lines, newStart);
      forall i | 0 <= i < |r0|
        ensures r[i] == r0[i] && lines[r0[i].index] == init[r0[i].index]
      {
      }
    }
  }

  lemma {:induction false} AddedAmongOrdered(lines: seq<string>, newStart: int)
    ensures InLineOrder(AddedAmong(lines, newStart))
  {
    if lines != [] {
      var k := |lines| - 1;
      var init := lines[..k];
      AddedAmongOrdered(init, newStart);
      AddedAmongLists(init, newStart);
      var r0 := AddedAmong(init, newStart);
      var r := AddedAmong(lines, newStart);
      forall i | 0 <= i < |r0|
        ensures r[i] == r0[i] && r0[i].index < k
      {
      }
    }
  }

  /** GetAddedLines: only added lines of the chunk's text, in line order, with their derived line numbers. */
  function GetAddedLines(chunk: DiffChunk): (r: seq<AddedLine>)
    ensures ListsAddedLines(ChunkLines(chunk), chunk.newStart, r)
    ensures InLineOrder(r)
  {
    AddedAmongSound(ChunkLines(chunk), chunk.newStart);
    AddedAmong(ChunkLines(chunk), chunk.newStart)
  }

  /** No added line is missed: every added line of the chunk is listed. */
  lemma {:induction false} AddedAmongComplete(lines: seq<string>, newStart: int, k: nat)
    requires k < |lines| && IsAddedLine(lines[k])
    ensures exists i :: 0 <= i < |AddedAmong(lines, newStart)| && AddedAmong(lines, newStart)[i].index == k
  {
    var last := |lines| - 1;
    var r := AddedAmong(lines, newStart);
    if k < last {
      AddedAmongComplete(lines[..last], newStart, k);
      var i :| 0 <= i < |AddedAmong(lines[..last], newStart)| && AddedAmong(lines[..last], newStart)[i].index == k;
      assert r[i] == AddedAmong(lines[..last], newStart)[i];
    } else {
      assert r[|r| - 1].index == k;
    }
  }

  /**
   * The added lines are exactly the lines that start with "+" and not "++", in order, and each
   * line number counts every line from the chunk's start, removed lines included.
   */
  lemma AddedAmongExact(lines: seq<string>, newStart: int, k: nat)
    ensures (exists i :: 0 <= i < |AddedAmong(lines, newStart)| && AddedAmong(lines, newStart)[i].index == k)
      <==> k < |lines| && IsAddedLine(lines[k])
    ensures forall i :: 0 <= i < |AddedAmong(lines, newStart)| ==>
      AddedAmong(lines, newStart)[i].lineNumber == WrapInt32(newStart + AddedAmong(lines, newStart)[i].index - 1)
  {
    AddedAmongSound(lines, newStart);
    if k < |lines| && IsAddedLine(lines[k]) {
      AddedAmongComplete(lines, newStart, k);
    }
  }

  /** GetAddedLines lists exactly the added lines of the chunk's text, with their derived line numbers. */
  lemma AddedLinesExact(chunk: DiffChunk, k: nat)
    ensures (exists i :: 0 <= i < |GetAddedLines(chunk)| && GetAddedLines(chunk)[i].index == k)
      <==> k < |ChunkLines(chunk)| && IsAddedLine(ChunkLines(chunk)[k])
    ensures forall i :: 0 <= i < |GetAddedLines(chunk)| ==>
      GetAddedLines(chunk)[i].lineNumber == WrapInt32(chunk.newStart + GetAddedLines(chunk)[i].index - 1)
  {
    assert GetAddedLines(chunk) == AddedAmong(ChunkLines(chunk), chunk.newStart);
    AddedAmongExact(ChunkLines(chunk), chunk.newStart, k);
  }

  /** The first listed line is the first added line. */
  lemma FirstAddedAmong(lines: seq<string>, newStart: int)
    requires AddedAmong(lines, newStart) != []
    ensures var k := AddedAmong(lines, newStart)[0].index;
      && k < |lines| && IsAddedLine(lines[k])
      && forall j :: 0 <= j < k ==> !IsAddedLine(lines[j])
  {
    var r := AddedAmong(lines, newStart);
    AddedAmongSound(lines, newStart);
    forall j | 0 <= j < |lines| && IsAddedLine(lines[j])
      ensures r[0].index <= j
    {
      AddedAmongComplete(lines, newStart, j);
      var i :| 0 <= i < |r| && r[i].index == j;
      if i > 0 {
        assert r[0].index < r[i].index;
      }
    }
  }

  /** Appending a line appends it to the added lines exactly when it is added. */
  lemma AddedAmongSnoc(lines: seq<string>, line: string, newStart: int)
    ensures AddedAmong(lines + [line], newStart)
      == AddedAmong(lines, newStart) + (if IsAddedLine(line) then [AddedLine(|lines|, WrapInt32(newStart + |lines| - 1))] else [])
  {
    assert (lines + [line])[..|lines|] == lines;
  }

  /** Of four lines of which only the third is added, the third is the one added line. */
  lemma OneAddedAmongFour(lines: seq<string>, newStart: int)
    requires |lines| == 4 && IsAddedLine(lines[2])
    requires !IsAddedLine(lines[0]) && !IsAddedLine(lines[1]) && !IsAddedLine(lines[3])
    ensures AddedAmong(lines, newStart) == [AddedLine(2, WrapInt32(newStart + 1))]
  {
    var one, first, three := lines[..1], lines[..2], lines[..3];
    assert one == [] + [lines[0]];
    AddedAmongSnoc([], lines[0], newStart);
    assert first == one + [lines[1]];
    AddedAmongSnoc(one, lines[1], newStart);
    assert three == first + [lines[2]];
    AddedAmongSnoc(first, lines[2], newStart);
    assert lines == three + [lines[3]];
    AddedAmongSnoc(three, lines[3], newStart);
  }

  /**
   * A hunk with one removed and one added line: the added line is the third line of the chunk
   * and is numbered `newStart + 1`, one past its line in the new file, because the removed line
   * is counted too.
   */
  lemma RemovedLinesCounted(header: string, removed: string, added: string, newStart: int)
    requires !IsAddedLine(header)
    requires added == [] || added[0] != '+'
    requires forall j :: 0 <= j < |header| ==> header[j] != '\n'
    requires forall j :: 0 <= j < |removed| ==> removed[j] != '\n'
    requires forall j :: 0 <= j < |added| ==> added[j] != '\n'
    ensures GetAddedLines(DiffChunk(newStart, Terminated([header, "-" + removed, "+" + added])))
      == [AddedLine(2, WrapInt32(newStart + 1))]
  {
    var lines := [header, "-" + removed, "+" + added];
    forall i, j | 0 <= i < |lines| && 0 <= j < |lines[i]|
      ensures lines[i][j] != '\n'
    {
      if i == 1 && j > 0 {
        assert lines[i][j] == removed[j - 1];
      } else if i == 2 && j > 0 {
        assert lines[i][j] == added[j - 1];
      }
    }
    SplitTerminatedLines(lines);
    var pieces := lines + [""];
    assert pieces[0] == header && pieces[1] == "-" + removed && pieces[2] == "+" + added && pieces[3] == "";
    assert !IsAddedLine(pieces[1]) && IsAddedLine(pieces[2]) && !IsAddedLine(pieces[3]);
    OneAddedAmongFour(pieces, newStart);
  }

  /** A finding belongs to a chunk when it names the file (ignoring case) and one of the chunk's added line numbers. */
  predicate MatchesChunk(c: CodeReviewComment, fileName: string, addedLines: seq<AddedLine>)
    ensures MatchesChunk(c, fileName, addedLines) ==> addedLines != [] && |c.fileName| <= |fileName|
  {
    && EqualsIgnoreCase(c.fileName, GetFileName(fileName))
    && exists i :: 0 <= i < |addedLines| && addedLines[i].lineNumber == c.lineNumber
  }

  /** GetCommentsForChunk: the findings that belong to the chunk, in the order of the analysis results. */
  function GetCommentsForChunk(analysisResults: seq<CodeReviewComment>, fileName: string, addedLines: seq<AddedLine>)
    : (r: seq<CodeReviewComment>)
    ensures |r| <= |analysisResults|
  {
    if analysisResults == [] then []
    else
      var c := analysisResults[|analysisResults| - 1];
      GetCommentsForChunk(analysisResults[..|analysisResults| - 1], fileName, addedLines)
        + (if MatchesChunk(c, fileName, addedLines) then [c] else [])
  }

  /**
   * A finding is posted on a chunk exactly when it is among the results, names the file's base
   * name ignoring case and carries one of the chunk's added line numbers; the order of the
   * results is kept.
   */
  lemma {:induction false} ChunkCommentsExact(analysisResults: seq<CodeReviewComment>, fileName: string,
                                               addedLines: seq<AddedLine>, c: CodeReviewComment)
    ensures c in GetCommentsForChunk(analysisResults, fileName, addedLines)
      <==> (c in analysisResults && EqualsIgnoreCase(c.fileName, GetFileName(fileName))
        && exists i :: 0 <= i < |addedLines| && addedLines[i].lineNumber == c.lineNumber)
    ensures IsSubsequence(GetCommentsForChunk(analysisResults, fileName, addedLines), analysisResults)
  {
    if analysisResults != [] {
      var init, last := analysisResults[..|analysisResults| - 1], analysisResults[|analysisResults| - 1];
      assert analysisResults == init + [last];
      ChunkCommentsExact(init, fileName, addedLines, c);
      var w := GetCommentsForChunk(analysisResults, fileName, addedLines);
      if MatchesChunk(last, fileName, addedLines) {
        assert w[..|w| - 1] == GetCommentsForChunk(init, fileName, addedLines);
      } else {
        assert w == GetCommentsForChunk(init, fileName, addedLines);
      }
    }
  }

  /** The comment planned for a chunk: the file path, the chunk's findings, the chunk's text as diff hunk, and the position. */
  datatype PlannedComment = PlannedComment(path: string, findings: seq<CodeReviewComment>, diffHunk: string, position: nat)

  /** A review comment as posted: the findings are replaced by their formatted text. */
  datatype ReviewComment = ReviewComment(path: string, body: string, diffHunk: string, position: nat)

  /** The posted form of a planned comment, its body as FormatGroupedComments renders the findings. */
  function Posted(p: PlannedComment): ReviewComment {
    ReviewComment(p.path, TrimEnd(RenderedText(p.findings), WhiteSpace), p.diffHunk, p.position)
  }

  /** The posted forms of planned comments, in order. */
  function PostAll(ps: seq<PlannedComment>): (r: seq<ReviewComment>)
    ensures |r| == |ps|
  {
    if ps == [] then [] else PostAll(ps[..|ps| - 1]) + [Posted(ps[|ps| - 1])]
  }

  /**
   * The comment for one chunk: there is one exactly when one of the findings names the file and
   * one of the chunk's added line numbers. It is on the file, carries the chunk's text and its
   * non-empty matching findings, and is positioned at the chunk's first added line (counting the
   * header as line 0).
   */
  function PlanChunk(fileName: string, analysisResults: seq<CodeReviewComment>, chunk: DiffChunk): (r: Option<PlannedComment>)
    ensures r.Some? <==> HasMatchingFinding(analysisResults, fileName, GetAddedLines(chunk))
    ensures r.Some? ==>
      && r.value.path == fileName && r.value.diffHunk == chunk.content
      && r.value.findings == GetCommentsForChunk(analysisResults, fileName, GetAddedLines(chunk)) && r.value.findings != []
      && r.value.position < |ChunkLines(chunk)| && IsAddedLine(ChunkLines(chunk)[r.value.position])
      && (forall j :: 0 <= j < r.value.position ==> !IsAddedLine(ChunkLines(chunk)[j]))
  {
    ChunkCommentsNonEmpty(analysisResults, fileName, GetAddedLines(chunk));
    var added := GetAddedLines(chunk);
    if added == [] then None
    else
      FirstAddedAmong(ChunkLines(chunk), chunk.newStart);
      var comments := GetCommentsForChunk(analysisResults, fileName, added);
      if comments == [] then None
      else Some(PlannedComment(fileName, comments, chunk.content, added[0].index))
  }

  /** PlanChunk for one file and its findings, as a function of the chunk. */
  function ChunkPlanner(fileName: string, analysisResults: seq<CodeReviewComment>): DiffChunk -> Option<PlannedComment> {
    chunk => PlanChunk(fileName, analysisResults, chunk)
  }

  /** The comments for the chunks of one file, in chunk order. */
  function PlanChunks(fileName: string, analysisResults: seq<CodeReviewComment>, chunks: seq<DiffChunk>): seq<PlannedComment> {
    SelectSome(chunks, ChunkPlanner(fileName, analysisResults))
  }

  /** Some finding names the file's base name, ignoring case, and one of the added line numbers. */
  predicate HasMatchingFinding(analysisResults: seq<CodeReviewComment>, fileName: string, addedLines: seq<AddedLine>) {
    exists c, i ::
      && c in analysisResults && 0 <= i < |addedLines|
      && EqualsIgnoreCase(c.fileName, GetFileName(fileName)) && addedLines[i].lineNumber == c.lineNumber
  }

  /** Some finding is posted on a chunk exactly when one names the file and one of the chunk's added line numbers. */
  lemma ChunkCommentsNonEmpty(analysisResults: seq<CodeReviewComment>, fileName: string, addedLines: seq<AddedLine>)
    ensures GetCommentsForChunk(analysisResults, fileName, addedLines) != []
      <==> HasMatchingFinding(analysisResults, fileName, addedLines)
    ensures HasMatchingFinding(analysisResults, fileName, addedLines) ==> addedLines != []
  {
    var comments := GetCommentsForChunk(analysisResults, fileName, addedLines);
    if HasMatchingFinding(analysisResults, fileName, addedLines) {
      var c, i :| c in analysisResults && 0 <= i < |addedLines|
        && EqualsIgnoreCase(c.fileName, GetFileName(fileName)) && addedLines[i].lineNumber == c.lineNumber;
      ChunkCommentsExact(analysisResults, fileName, addedLines, c);
      assert c in comments;
    }
    if comments != [] {
      ChunkCommentsExact(analysisResults, fileName, addedLines, comments[0]);
      assert comments[0] in comments;
    }
  }

  /** At most one comment per chunk, and the plan of consecutive chunk runs is the concatenation of their plans. */
  lemma PlanChunksCompose(fileName: string, analysisResults: seq<CodeReviewComment>, a: seq<DiffChunk>, b: seq<DiffChunk>)
    ensures |PlanChunks(fileName, analysisResults, a)| <= |a|
    ensures PlanChunks(fileName, analysisResults, a + b)
      == PlanChunks(fileName, analysisResults, a) + PlanChunks(fileName, analysisResults, b)
  {
    SelectSomeAppend(a, b, ChunkPlanner(fileName, analysisResults));
  }

  /** The plan of the first `k + 1` chunks extends that of the first `k` by the comment of chunk `k`, if any. */
  lemma PlanChunksStep(fileName: string, analysisResults: seq<CodeReviewComment>, chunks: seq<DiffChunk>, k: nat)
    requires k < |chunks|
    ensures PlanChunks(fileName, analysisResults, chunks[..k + 1])
      == PlanChunks(fileName, analysisResults, chunks[..k])
        + (match PlanChunk(fileName, analysisResults, chunks[k]) case Some(p) => [p] case None => [])
  {
    assert chunks[..k + 1][..k] == chunks[..k];
  }

  /** The comment posted for a planned chunk, if any. */
  function PostedFor(planned: Option<PlannedComment>): seq<ReviewComment> {
    match planned
    case Some(p) => [Posted(p)]
    case None => []
  }

  /** Posting a plan extended by an optional comment extends the posted comments by it. */
  lemma PostAllOption(ps: seq<PlannedComment>, planned: Option<PlannedComment>)
    ensures PostAll(ps + (match planned case Some(p) => [p] case None => [])) == PostAll(ps) + PostedFor(planned)
  {
    if planned.Some? {
      assert (ps + [planned.value])[..|ps|] == ps;
    } else {
      assert ps + [] == ps;
    }
  }

  /** Posting the plan of the first `k + 1` chunks extends posting that of the first `k` by chunk `k`'s comment. */
  lemma PostChunksStep(fileName: string, analysisResults: seq<CodeReviewComment>, chunks: seq<DiffChunk>, k: nat)
    requires k < |chunks|
    ensures PostAll(PlanChunks(fileName, analysisResults, chunks[..k + 1]))
      == PostAll(PlanChunks(fileName, analysisResults, chunks[..k])) + PostedFor(PlanChunk(fileName, analysisResults, chunks[k]))
  {
    PlanChunksStep(fileName, analysisResults, chunks, k);
    PostAllOption(PlanChunks(fileName, analysisResults, chunks[..k]), PlanChunk(fileName, analysisResults, chunks[k]));
  }

  /**
   * The body of the chunk loop of CreateCommentsForFile: nothing when the chunk has no added
   * line or no matching finding, else one comment with the formatted findings.
   */
  method CommentForChunk(fileName: string, analysisResults: seq<CodeReviewComment>, chunk: DiffChunk)
    returns (r: seq<ReviewComment>)
    ensures r == PostedFor(PlanChunk(fileName, analysisResults, chunk))
  {
    var addedLines := GetAddedLines(chunk);
    if addedLines == [] {
      return [];
    }
    var chunkComments := GetCommentsForChunk(analysisResults, fileName, addedLines);
    if chunkComments == [] {
      return [];
    }
    var body := FormatGroupedComments(chunkComments);
    r := [ReviewComment(fileName, body, chunk.content, addedLines[0].index)];
  }

  /**
   * CreateCommentsForFile: for every chunk in order, skip it when it has no added line or no
   * matching finding, else post one comment with the formatted findings.
   */
  method CreateCommentsForFile(file: PullRequestFile, diffInfo: DiffInfo, analysisResults: seq<CodeReviewComment>)
    returns (posted: seq<ReviewComment>)
    ensures posted == PostAll(PlanChunks(file.fileName, analysisResults, diffInfo.chunks))
  {
    var chunks := diffInfo.chunks;
    posted := [];
    var k := 0;
    while k < |chunks|
      invariant 0 <= k <= |chunks|
      invariant posted == PostAll(PlanChunks(file.fileName, analysisResults, chunks[..k]))
    {
      var comment := CommentForChunk(file.fileName, analysisResults, chunks[k]);
      PostChunksStep(file.fileName, analysisResults, chunks, k);
      posted := posted + comment;
      k := k + 1;
    }
    assert chunks[..k] == chunks;
  }

  /**
   * The comments posted for one file of the pull request given the findings of its analysis:
   * at most one per chunk of its patch, or the overflow exception of a hunk header.
   */
  function PlanFile(file: PullRequestFile, analysisResults: seq<CodeReviewComment>): (r: Result<seq<ReviewComment>>)
    ensures r.Failure? ==> IsFileModified(file) && r.message == OverflowMessage
    ensures r.Success? ==> |r.value| <= |ParseChunks(file.patch)|
  {
    PlanChunksCompose(file.fileName, analysisResults, ParseChunks(file.patch), []);
    if !IsFileModified(file) then Success([])
    else if exists k :: 0 <= k < |PatchLines(file.patch)| && Overflows(PatchLines(file.patch)[k]) then
      Failure(OverflowMessage)
    else Success(PostAll(PlanChunks(file.fileName, analysisResults, ParseChunks(file.patch))))
  }

  /**
   * One iteration of the review loop: a file that is neither modified nor added is skipped;
   * otherwise its patch is parsed (failing on a hunk header whose start overflows) and its
   * comments are posted.
   */
  method ReviewFile(file: PullRequestFile, analysisResults: seq<CodeReviewComment>) returns (r: Result<seq<ReviewComment>>)
    ensures r == PlanFile(file, analysisResults)
  {
    if !IsFileModified(file) {
      return Success([]);
    }
    var parsed := ParseDiffInfo(file.patch);
    if parsed.Failure? {
      return Failure(parsed.message);
    }
    var posted := CreateCommentsForFile(file, parsed.value, analysisResults);
    return Success(posted);
  }

  /** Files whose status is neither "modified" nor "added" get no comment, whatever their patch. */
  lemma UnmodifiedFilesSkipped(file: PullRequestFile, analysisResults: seq<CodeReviewComment>)
    requires file.status != "modified" && file.status != "added"
    ensures PlanFile(file, analysisResults) == Success([])
  {
  }
}
