/**
 * ParseDiffInfo, AddCurrentChunkIfNotEmpty and CreateNewChunk: a file's patch is split into
 * lines at '\n' and cut into chunks before every line that starts with "@@". Each line lands in
 * exactly one chunk, followed by "\n"; the lines before the first header form a chunk of their
 * own with NewStart 0; chunks with no text are never added.
 */
module PatchParser {
  import opened Outcomes
  import opened DotNetText
  import opened Models
  import HunkHeader

  /** The message of the exception `int.Parse` throws for a number past Int32.MaxValue. */
  const OverflowMessage: string := "Value was either too large or too small for an Int32."

  /** A line that starts a new chunk: its first two characters are "@@". */
  predicate IsHunkHeader(line: string)
    ensures IsHunkHeader(line) <==> |line| >= 2 && line[0] == '@' && line[1] == '@'
  {
    StartsWith(line, "@@")
  }

  /** The lines of a patch, `patch.Split('\n')`. */
  function PatchLines(patch: string): seq<string> {
    Split(patch, {'\n'})
  }

  /** A header line on which `int.Parse` of the captured number throws. */
  predicate Overflows(line: string) {
    IsHunkHeader(line) && HunkHeader.NewStartOf(line) > Int32Max
  }

  /** The chunk a header line starts: its text so far is the line, NewStart is read from it. */
  function HeaderChunk(line: string): DiffChunk {
    DiffChunk(HunkHeader.NewStartOf(line), line + "\n")
  }

  /**
   * CreateNewChunk: the chunk a header line starts, or the overflow exception when the
   * captured number does not fit in an Int32.
   */
  function CreateNewChunk(line: string): (r: Result<DiffChunk>)
    ensures r.Failure? <==> HunkHeader.NewStartOf(line) > Int32Max
    ensures r.Failure? ==> r.message == OverflowMessage
    ensures r.Success? ==> r.value.content == line + "\n" && 0 <= r.value.newStart <= Int32Max
    ensures r.Success? ==> r.value == HeaderChunk(line)
  {
    var start := HunkHeader.NewStartOf(line);
    if start > Int32Max then Failure(OverflowMessage) else Success(DiffChunk(start, line + "\n"))
  }

  /** What AddCurrentChunkIfNotEmpty appends: the chunk, unless its text is empty. */
  function Flush(chunk: DiffChunk): seq<DiffChunk> {
    if chunk.content == "" then [] else [chunk]
  }

  /**
   * The chunks the parsing loop adds while it reads `lines`, given the chunk it is building,
   * including the final flush.
   */
  function ScanChunks(lines: seq<string>, current: DiffChunk): (r: seq<DiffChunk>)
    ensures forall c :: c in r ==> c.content != ""
  {
    if lines == [] then Flush(current)
    else if IsHunkHeader(lines[0]) then Flush(current) + ScanChunks(lines[1..], HeaderChunk(lines[0]))
    else ScanChunks(lines[1..], current.(content := current.content + lines[0] + "\n"))
  }

  /** The chunks of a patch that parses (the initial chunk has no text and NewStart 0); none is empty. */
  function ParseChunks(patch: string): (r: seq<DiffChunk>)
    ensures forall c :: c in r ==> c.content != ""
  {
    ScanChunks(PatchLines(patch), DiffChunk(0, ""))
  }

  /** AddCurrentChunkIfNotEmpty. */
  method AddCurrentChunkIfNotEmpty(diffInfo: DiffInfo, chunk: DiffChunk)
    modifies diffInfo
    ensures diffInfo.chunks == old(diffInfo.chunks) + Flush(chunk)
  {
    if chunk.content != "" {
      diffInfo.chunks := diffInfo.chunks + [chunk];
    }
  }

  /**
   * ParseDiffInfo: fails exactly when some header's number overflows; otherwise returns a new
   * DiffInfo holding the patch's chunks.
   */
  method ParseDiffInfo(patch: string) returns (r: Result<DiffInfo>)
    ensures r.Failure? <==> exists k :: 0 <= k < |PatchLines(patch)| && Overflows(PatchLines(patch)[k])
    ensures r.Failure? ==> r.message == OverflowMessage
    ensures r.Success? ==> fresh(r.value) && r.value.chunks == ParseChunks(patch)
  {
    var diffInfo := new DiffInfo();
    var lines := PatchLines(patch);
    var current := DiffChunk(0, "");
    ghost var all := ParseChunks(patch);
    var i := 0;
    while i < |lines|
      invariant 0 <= i <= |lines|
      invariant diffInfo.chunks + ScanChunks(lines[i..], current) == all
      invariant NoOverflowBefore(lines, i)
    {
      var line := lines[i];
      ScanStep(lines, i, current);
      if IsHunkHeader(line) {
        AddCurrentChunkIfNotEmpty(diffInfo, current);
        var next := CreateNewChunk(line);
        if next.Failure? {
          assert Overflows(lines[i]);
          return Failure(next.message);
        }
        current := next.value;
      } else {
        current := current.(content := current.content + line + "\n");
      }
      i := i + 1;
    }
    assert lines[i..] == [];
    assert !exists k :: 0 <= k < |lines| && Overflows(lines[k]);
    AddCurrentChunkIfNotEmpty(diffInfo, current);
    return Success(diffInfo);
  }

  /** No line before `i` is a header whose number overflows. */
  ghost predicate NoOverflowBefore(lines: seq<string>, i: nat) {
    forall k :: 0 <= k < i && k < |lines| ==> !Overflows(lines[k])
  }

  /** One step of the scan: the line at `i` either closes the current chunk and opens its own, or joins it. */
  lemma ScanStep(lines: seq<string>, i: nat, current: DiffChunk)
    requires i < |lines|
    ensures IsHunkHeader(lines[i]) ==>
      ScanChunks(lines[i..], current) == Flush(current) + ScanChunks(lines[i + 1..], HeaderChunk(lines[i]))
    ensures !IsHunkHeader(lines[i]) ==>
      ScanChunks(lines[i..], current) == ScanChunks(lines[i + 1..], current.(content := current.content + lines[i] + "\n"))
  {
    assert lines[i..][1..] == lines[i + 1..];
  }

  /** The chunks of a patch, read one after the other, are the patch followed by "\n". */
  lemma ChunksCoverPatch(patch: string)
    ensures AllContent(ParseChunks(patch)) == patch + "\n"
  {
    ScanKeepsText(PatchLines(patch), DiffChunk(0, ""));
    SplitTerminated(patch);
  }

  /** The text of all chunks, one after the other. */
  function AllContent(chunks: seq<DiffChunk>): string {
    if chunks == [] then "" else chunks[0].content + AllContent(chunks[1..])
  }

  lemma {:induction false} AllContentAppend(a: seq<DiffChunk>, b: seq<DiffChunk>)
    ensures AllContent(a + b) == AllContent(a) + AllContent(b)
  {
    if a == [] {
      assert a + b == b;
    } else {
      assert (a + b)[1..] == a[1..] + b;
      AllContentAppend(a[1..], b);
    }
  }

  /** The scan neither loses, repeats nor reorders text: its chunks hold the lines, each followed by "\n". */
  lemma {:induction false} ScanKeepsText(lines: seq<string>, current: DiffChunk)
    ensures AllContent(ScanChunks(lines, current)) == current.content + Terminated(lines)
  {
    if lines == [] {
    } else if IsHunkHeader(lines[0]) {
      ScanKeepsText(lines[1..], HeaderChunk(lines[0]));
      AllContentAppend(Flush(current), ScanChunks(lines[1..], HeaderChunk(lines[0])));
    } else {
      ScanKeepsText(lines[1..], current.(content := current.content + lines[0] + "\n"));
    }
  }

  /**
   * The lines cut before every hunk header: the first group holds the lines before the first
   * header (possibly none), every later group one header and the lines up to the next.
   */
  function Groups(lines: seq<string>): (gs: seq<seq<string>>)
    ensures |gs| >= 1
  {
    if lines == [] then [[]]
    else
      var rest := Groups(lines[1..]);
      if IsHunkHeader(lines[0]) then [[]] + [[lines[0]] + rest[0]] + rest[1..]
      else [[lines[0]] + rest[0]] + rest[1..]
  }

  function Flatten(gs: seq<seq<string>>): seq<string> {
    if gs == [] then [] else gs[0] + Flatten(gs[1..])
  }

  /** The number of hunk-header lines. */
  function HeaderCount(lines: seq<string>): nat {
    if lines == [] then 0 else (if IsHunkHeader(lines[0]) then 1 else 0) + HeaderCount(lines[1..])
  }

  /** Every group after the first starts with a header; no other line of any group is one. */
  ghost predicate HeaderLed(gs: seq<seq<string>>) {
    && (forall k :: 1 <= k < |gs| ==> gs[k] != [] && IsHunkHeader(gs[k][0]))
    && (forall k, j :: 0 <= k < |gs| && 0 <= j < |gs[k]| && (k == 0 || j > 0) ==> !IsHunkHeader(gs[k][j]))
  }

  /** The groups partition the lines, in order, one group per header plus the leading group. */
  lemma GroupsPartition(lines: seq<string>)
    ensures Flatten(Groups(lines)) == lines
    ensures HeaderLed(Groups(lines))
    ensures |Groups(lines)| == HeaderCount(lines) + 1
  {
    GroupsFlatten(lines);
    GroupsHeaderLed(lines);
    GroupsCount(lines);
  }

  lemma {:induction false} GroupsFlatten(lines: seq<string>)
    ensures Flatten(Groups(lines)) == lines
  {
    if lines != [] {
      GroupsFlatten(lines[1..]);
      var rest := Groups(lines[1..]);
      var g0 := [lines[0]] + rest[0];
      assert Flatten(rest) == rest[0] + Flatten(rest[1..]);
      assert lines == [lines[0]] + lines[1..];
      if IsHunkHeader(lines[0]) {
        var gs := [[]] + [g0] + rest[1..];
        assert gs[1..] == [g0] + rest[1..];
        assert gs[2..] == rest[1..];
        assert Flatten(gs) == [] + Flatten(gs[1..]);
        assert Flatten(gs[1..]) == g0 + Flatten(rest[1..]);
      } else {
        var gs := [g0] + rest[1..];
        assert gs[1..] == rest[1..];
      }
    }
  }

  lemma {:induction false} GroupsHeaderLed(lines: seq<string>)
    ensures HeaderLed(Groups(lines))
  {
    if lines != [] {
      GroupsHeaderLed(lines[1..]);
      if IsHunkHeader(lines[0]) {
        HeaderLedNewGroup(lines[0], Groups(lines[1..]));
      } else {
        HeaderLedSameGroup(lines[0], Groups(lines[1..]));
      }
    }
  }

  /** A header in front opens a new group after an empty leading group. */
  lemma HeaderLedNewGroup(line: string, rest: seq<seq<string>>)
    requires |rest| >= 1 && HeaderLed(rest) && IsHunkHeader(line)
    ensures HeaderLed([[]] + [[line] + rest[0]] + rest[1..])
  {
    var gs := [[]] + [[line] + rest[0]] + rest[1..];
    forall k, j | 0 <= k < |gs| && 0 <= j < |gs[k]| && (k == 0 || j > 0)
      ensures !IsHunkHeader(gs[k][j])
    {
      if k == 1 {
        assert gs[k][j] == rest[0][j - 1];
      } else {
        assert gs[k] == rest[k - 1];
      }
    }
    forall k | 1 <= k < |gs|
      ensures gs[k] != [] && IsHunkHeader(gs[k][0])
    {
      if k > 1 {
        assert gs[k] == rest[k - 1];
      }
    }
  }

  /** Any other line in front joins the leading group. */
  lemma HeaderLedSameGroup(line: string, rest: seq<seq<string>>)
    requires |rest| >= 1 && HeaderLed(rest) && !IsHunkHeader(line)
    ensures HeaderLed([[line] + rest[0]] + rest[1..])
  {
    var gs := [[line] + rest[0]] + rest[1..];
    forall k, j | 0 <= k < |gs| && 0 <= j < |gs[k]| && (k == 0 || j > 0)
      ensures !IsHunkHeader(gs[k][j])
    {
      if k == 0 && j > 0 {
        assert gs[k][j] == rest[0][j - 1];
      } else if k > 0 {
        assert gs[k] == rest[k];
      }
    }
    forall k | 1 <= k < |gs|
      ensures gs[k] != [] && IsHunkHeader(gs[k][0])
    {
      assert gs[k] == rest[k];
    }
  }

  lemma {:induction false} GroupsCount(lines: seq<string>)
    ensures |Groups(lines)| == HeaderCount(lines) + 1
  {
    if lines != [] {
      GroupsCount(lines[1..]);
    }
  }

  /** The chunk of a header-led group: NewStart from its header, text from all its lines. */
  function GroupChunks(gs: seq<seq<string>>): seq<DiffChunk>
    requires forall k :: 0 <= k < |gs| ==> gs[k] != []
  {
    if gs == [] then []
    else [DiffChunk(HunkHeader.NewStartOf(gs[0][0]), Terminated(gs[0]))] + GroupChunks(gs[1..])
  }

  /** The scan, stated by groups: the current chunk absorbs the leading group, every later group becomes a chunk. */
  lemma {:induction false} ScanByGroups(lines: seq<string>, current: DiffChunk)
    ensures var gs := Groups(lines);
      && (forall k :: 1 <= k < |gs| ==> gs[k] != [])
      && ScanChunks(lines, current)
         == Flush(current.(content := current.content + Terminated(gs[0]))) + GroupChunks(gs[1..])
  {
    GroupsLaterNonEmpty(lines);
    if lines == [] {
      assert current.(content := current.content + "") == current;
    } else {
      GroupsLaterNonEmpty(lines[1..]);
      if IsHunkHeader(lines[0]) {
        ScanByGroups(lines[1..], HeaderChunk(lines[0]));
        ScanHeaderStep(lines[0], Groups(lines[1..]), current);
      } else {
        ScanByGroups(lines[1..], current.(content := current.content + lines[0] + "\n"));
        ScanPlainStep(lines[0], Groups(lines[1..]), current);
      }
    }
  }

  /** Every group after the leading one holds at least its header. */
  lemma GroupsLaterNonEmpty(lines: seq<string>)
    ensures forall k :: 1 <= k < |Groups(lines)| ==> Groups(lines)[k] != []
  {
    GroupsHeaderLed(lines);
  }

  /** A header line closes the current chunk and starts the chunk of its own group. */
  lemma ScanHeaderStep(line: string, rest: seq<seq<string>>, current: DiffChunk)
    requires |rest| >= 1 && forall k :: 1 <= k < |rest| ==> rest[k] != []
    ensures var gs, h := [[]] + [[line] + rest[0]] + rest[1..], HeaderChunk(line);
      Flush(current) + (Flush(h.(content := h.content + Terminated(rest[0]))) + GroupChunks(rest[1..]))
        == Flush(current.(content := current.content + Terminated(gs[0]))) + GroupChunks(gs[1..])
  {
    var h, g := HeaderChunk(line), [line] + rest[0];
    var gs := [[]] + [g] + rest[1..];
    assert Terminated(g) == line + "\n" + Terminated(rest[0]) by {
      assert g[1..] == rest[0];
    }
    assert gs[1..] == [g] + rest[1..] && ([g] + rest[1..])[1..] == rest[1..];
    assert current.(content := current.content + Terminated(gs[0])) == current;
  }

  /** Any other line joins the current chunk, which is the leading group's. */
  lemma ScanPlainStep(line: string, rest: seq<seq<string>>, current: DiffChunk)
    requires |rest| >= 1 && forall k :: 1 <= k < |rest| ==> rest[k] != []
    ensures var gs, next := [[line] + rest[0]] + rest[1..], current.(content := current.content + line + "\n");
      Flush(next.(content := next.content + Terminated(rest[0]))) + GroupChunks(rest[1..])
        == Flush(current.(content := current.content + Terminated(gs[0]))) + GroupChunks(gs[1..])
  {
    var g := [line] + rest[0];
    assert Terminated(g) == line + "\n" + Terminated(rest[0]) by {
      assert g[1..] == rest[0];
    }
    assert ([g] + rest[1..])[1..] == rest[1..];
    var next := current.(content := current.content + line + "\n");
    assert next.(content := next.content + Terminated(rest[0])) == current.(content := current.content + Terminated(g));
  }

  /**
   * The chunks of a patch: the lines before the first header as one chunk with NewStart 0 when
   * there are any, then one chunk per hunk header, starting with that header's line and
   * taking NewStart from it.
   */
  lemma ParseChunksByGroups(patch: string)
    ensures var gs := Groups(PatchLines(patch));
      && Flatten(gs) == PatchLines(patch)
      && HeaderLed(gs)
      && ParseChunks(patch)
         == (if gs[0] == [] then [] else [DiffChunk(0, Terminated(gs[0]))]) + GroupChunks(gs[1..])
  {
    var gs := Groups(PatchLines(patch));
    GroupsPartition(PatchLines(patch));
    ScanByGroups(PatchLines(patch), DiffChunk(0, ""));
    assert DiffChunk(0, "").(content := "" + Terminated(gs[0])) == DiffChunk(0, Terminated(gs[0]));
    assert gs[0] == [] <==> Terminated(gs[0]) == "";
  }

  /** The number of chunks: one per hunk header, plus one when lines precede the first header. */
  lemma ChunkCount(patch: string)
    ensures var lines := PatchLines(patch);
      |ParseChunks(patch)| == HeaderCount(lines) + (if lines != [] && !IsHunkHeader(lines[0]) then 1 else 0)
  {
    var lines := PatchLines(patch);
    var gs := Groups(lines);
    ParseChunksByGroups(patch);
    GroupsPartition(lines);
    GroupChunksLength(gs[1..]);
    assert lines != [] ==> lines == [lines[0]] + lines[1..];
    LeadingGroupEmpty(lines);
  }

  lemma {:induction false} GroupChunksLength(gs: seq<seq<string>>)
    requires forall k :: 0 <= k < |gs| ==> gs[k] != []
    ensures |GroupChunks(gs)| == |gs|
  {
    if gs != [] {
      GroupChunksLength(gs[1..]);
    }
  }

  /** The leading group is empty exactly when the patch starts with a header line. */
  lemma LeadingGroupEmpty(lines: seq<string>)
    ensures Groups(lines)[0] == [] <==> (lines == [] || IsHunkHeader(lines[0]))
  {
  }

  /** An empty patch still yields one chunk: the single empty line, NewStart 0, text "\n". */
  lemma EmptyPatchGivesOneChunk()
    ensures ParseChunks("") == [DiffChunk(0, "\n")]
  {
    assert PatchLines("") == [""];
    assert !IsHunkHeader("");
    assert [""][1..] == [];
    assert DiffChunk(0, "").(content := "" + "" + "\n") == DiffChunk(0, "\n");
    assert ScanChunks([""], DiffChunk(0, "")) == ScanChunks([], DiffChunk(0, "\n"));
  }
}
