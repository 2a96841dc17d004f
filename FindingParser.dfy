/**
 * ParseAIResponse, ParseCommentLine and RemoveDuplicateComments: the model's reply is read line
 * by line; a line becomes a finding when, trimmed and cut at ' ', ':' and '-' into at most five
 * pieces, it has five pieces and the second is a positive 32-bit integer. Findings that repeat
 * the file, line, category and message of an earlier one are dropped.
 */
module FindingParser {
  import opened Outcomes
  import opened DotNetText
  import opened Models
  import opened Linq

  /** The characters a finding line is cut at. */
  const Separators: set<char> := {' ', ':', '-'}

  /** The characters trimmed off the file name. */
  const Brackets: CharClass := AnyOf({'[', ']'})

  /** The characters the reply is split into lines at. */
  const LineBreaks: set<char> := {'\r', '\n'}

  /** Every piece of the trimmed line between separators, without the five-piece limit. */
  function Fields(line: string): seq<string> {
    Split(Trim(line, WhiteSpace), Separators)
  }

  /** The line has five fields or more and the second reads as a positive Int32. */
  predicate HasLineNumber(fields: seq<string>) {
    |fields| >= 5 && TryParseInt32(fields[1]).Some? && TryParseInt32(fields[1]).value > 0
  }

  /** ParseCommentLine: a finding only for a line whose second piece is a positive Int32. */
  function ParseCommentLine(line: string): (r: Option<CodeReviewComment>)
    ensures r.Some? ==> 0 < r.value.lineNumber <= Int32Max
  {
    var trimmed := Trim(line, WhiteSpace);
    if trimmed == [] then None
    else
      var parts := SplitN(trimmed, Separators, 5);
      if |parts| < 5 then None
      else
        match TryParseInt32(parts[1])
        case None => None
        case Some(lineNumber) =>
          if lineNumber <= 0 then None
          else
            Some(CodeReviewComment(
              Trim(parts[0], Brackets),
              lineNumber,
              Trim(parts[2], WhiteSpace),
              Trim(parts[3], WhiteSpace),
              Trim(parts[4], WhiteSpace)))
  }

  /**
   * A line yields a finding exactly when it has a positive line number in its second field;
   * the file name is then the first field without brackets, the line number the second field's
   * value, and category and severity the third and fourth fields, trimmed.
   */
  lemma ParseCommentLineFields(line: string)
    ensures ParseCommentLine(line).Some? <==> HasLineNumber(Fields(line))
    ensures ParseCommentLine(line).Some? ==>
      && ParseCommentLine(line).value.fileName == Trim(Fields(line)[0], Brackets)
      && ParseCommentLine(line).value.lineNumber == TryParseInt32(Fields(line)[1]).value
      && ParseCommentLine(line).value.category == Trim(Fields(line)[2], WhiteSpace)
      && ParseCommentLine(line).value.severity == Trim(Fields(line)[3], WhiteSpace)
  {
    var trimmed := Trim(line, WhiteSpace);
    SplitNAgreesWithSplit(trimmed, Separators, 5);
    SplitNoSeparator("", Separators);
  }

  /**
   * `message` is the trimmed rest of the trimmed line from position `n`, where the rest holds
   * exactly the fifth field onwards.
   */
  ghost predicate IsMessageAt(line: string, n: int, message: string) {
    var t := Trim(line, WhiteSpace);
    && 0 <= n <= |t|
    && |Fields(line)| >= 4
    && Split(t[n..], Separators) == Fields(line)[4..]
    && message == Trim(t[n..], WhiteSpace)
  }

  lemma ParseCommentLineMessage(line: string)
    requires HasLineNumber(Fields(line))
    ensures ParseCommentLine(line).Some?
    ensures exists n :: IsMessageAt(line, n, ParseCommentLine(line).value.message)
  {
    var t := Trim(line, WhiteSpace);
    MessageIsLastPiece(line);
    var last := SplitN(t, Separators, 5)[4];
    SplitNRest(t, Separators, 5);
    SplitNLastIsSuffix(t, Separators, 5);
    SuffixIsMessage(line, last, ParseCommentLine(line).value.message);
  }

  /** A suffix of the trimmed line that splits into the fields from the fifth on is the message's source. */
  lemma SuffixIsMessage(line: string, last: string, message: string)
    requires IsSuffix(last, Trim(line, WhiteSpace)) && |Fields(line)| >= 5
    requires Split(last, Separators) == Fields(line)[4..] && message == Trim(last, WhiteSpace)
    ensures IsMessageAt(line, |Trim(line, WhiteSpace)| - |last|, message)
  {
  }

  /** The message is the last of the five pieces, trimmed. */
  lemma MessageIsLastPiece(line: string)
    requires HasLineNumber(Fields(line))
    ensures ParseCommentLine(line).Some?
    ensures |SplitN(Trim(line, WhiteSpace), Separators, 5)| == 5
    ensures ParseCommentLine(line).value.message
      == Trim(SplitN(Trim(line, WhiteSpace), Separators, 5)[4], WhiteSpace)
  {
    ParseCommentLineFields(line);
    SplitNoSeparator("", Separators);
    SplitNRest(Trim(line, WhiteSpace), Separators, 5);
  }

  /** The non-empty pieces (`StringSplitOptions.RemoveEmptyEntries`). */
  function NonEmpty(pieces: seq<string>): (r: seq<string>)
    ensures |r| <= |pieces|
    ensures forall i :: 0 <= i < |r| ==> r[i] != [] && r[i] in pieces
  {
    if pieces == [] then []
    else NonEmpty(pieces[..|pieces| - 1]) + (if pieces[|pieces| - 1] == [] then [] else [pieces[|pieces| - 1]])
  }

  lemma {:induction false} NonEmptyAppend(a: seq<string>, b: seq<string>)
    ensures NonEmpty(a + b) == NonEmpty(a) + NonEmpty(b)
  {
    if b == [] {
      assert a + b == a;
    } else {
      assert (a + b)[..|a + b| - 1] == a + b[..|b| - 1];
      NonEmptyAppend(a, b[..|b| - 1]);
    }
  }

  /** The lines of the reply: the non-empty pieces between '\r' and '\n' characters. */
  function ResponseLines(text: string): (r: seq<string>)
    ensures forall i :: 0 <= i < |r| ==> r[i] != []
    ensures forall i, j :: 0 <= i < |r| && 0 <= j < |r[i]| ==> r[i][j] !in LineBreaks
  {
    NonEmpty(Split(text, LineBreaks))
  }

  /** The findings of the lines that parse, in line order (`Select(ParseCommentLine).Where(c => c != null)`). */
  function ParseLines(lines: seq<string>): seq<CodeReviewComment> {
    SelectSome(lines, ParseCommentLine)
  }

  /** What one line contributes: its finding, if it has one. */
  function Found(line: string): seq<CodeReviewComment> {
    match ParseCommentLine(line)
    case Some(c) => [c]
    case None => []
  }

  /** The key two findings are duplicates by: everything but the severity. */
  datatype DuplicateKey = DuplicateKey(fileName: string, lineNumber: int, category: string, message: string)

  function KeyOf(c: CodeReviewComment): DuplicateKey {
    DuplicateKey(c.fileName, c.lineNumber, c.category, c.message)
  }

  /** RemoveDuplicateComments: the first finding of each key group, groups in first-occurrence order. */
  function RemoveDuplicateComments(comments: seq<CodeReviewComment>): (r: seq<CodeReviewComment>)
    ensures |r| <= |comments|
  {
    GroupByContents(comments, KeyOf);
    GroupsNoLargerThanInput(GroupBy(comments, KeyOf));
    Firsts(GroupBy(comments, KeyOf))
  }

  lemma {:induction false} GroupsNoLargerThanInput(gs: seq<(DuplicateKey, seq<CodeReviewComment>)>)
    requires forall i :: 0 <= i < |gs| ==> gs[i].1 != []
    ensures |gs| <= TotalSize(gs)
  {
    if gs != [] {
      GroupsNoLargerThanInput(gs[..|gs| - 1]);
    }
  }

  /** ParseAIResponse: the findings of the reply's lines, one per duplicate key, every key kept. */
  function ParseAIResponse(aiResponse: string): (r: seq<CodeReviewComment>)
    ensures Keys(r) == Keys(ParseLines(ResponseLines(aiResponse)))
    ensures forall i, j :: 0 <= i < j < |r| ==> KeyOf(r[i]) != KeyOf(r[j])
  {
    var found := ParseLines(ResponseLines(aiResponse));
    RemoveDuplicatesKeepsFirst(found);
    KeepFirstKeys(found);
    RemoveDuplicateComments(found)
  }

  /** A line contributes its own finding, independently of the lines around it. */
  lemma ParseLinesAppend(a: seq<string>, b: seq<string>)
    ensures ParseLines(a + b) == ParseLines(a) + ParseLines(b)
  {
    SelectSomeAppend(a, b, ParseCommentLine);
  }

  /** A single line yields its finding, if it has one. */
  lemma ParseLinesOne(line: string)
    ensures ParseLines([line]) == Found(line)
  {
    assert [line][..0] == [];
  }

  /** A line of white space only is never a finding. */
  lemma BlankLineIgnored(line: string)
    requires forall i :: 0 <= i < |line| ==> IsWhiteSpace(line[i])
    ensures ParseCommentLine(line) == None
  {
    var t := TrimStart(line, WhiteSpace);
    assert t == [];
  }

  /** A line break cuts the reply into two parts whose lines are read independently. */
  lemma ResponseLinesAppend(a: string, c: char, b: string)
    requires c in LineBreaks
    ensures ResponseLines(a + [c] + b) == ResponseLines(a) + ResponseLines(b)
  {
    SplitAtSeparator(a, c, b, LineBreaks);
    NonEmptyAppend(Split(a, LineBreaks), Split(b, LineBreaks));
  }

  /**
   * ParseAIResponse reads the parts of a reply on either side of a line break independently;
   * only the duplicate removal looks across them.
   */
  lemma ParseAIResponseByParts(a: string, c: char, b: string)
    requires c in LineBreaks
    ensures ParseAIResponse(a + [c] + b)
      == RemoveDuplicateComments(ParseLines(ResponseLines(a)) + ParseLines(ResponseLines(b)))
  {
    ResponseLinesAppend(a, c, b);
    ParseLinesAppend(ResponseLines(a), ResponseLines(b));
  }

  /** A reply of one line holds that line's finding, if it has one, and nothing else. */
  lemma ParseAIResponseOneLine(line: string)
    requires line != [] && forall i :: 0 <= i < |line| ==> line[i] !in LineBreaks
    ensures ParseAIResponse(line) == Found(line)
  {
    SplitNoSeparator(line, LineBreaks);
    assert NonEmpty([line]) == [line] by {
      assert [line][..0] == [];
    }
    ParseLinesOne(line);
    RemoveDuplicatesKeepsFirst(Found(line));
    if Found(line) != [] {
      assert Found(line)[..0] == [];
    }
  }

  /** The keys of the findings. */
  function Keys(comments: seq<CodeReviewComment>): set<DuplicateKey> {
    set i | 0 <= i < |comments| :: KeyOf(comments[i])
  }

  lemma KeysAppend(a: seq<CodeReviewComment>, c: CodeReviewComment)
    ensures Keys(a + [c]) == Keys(a) + {KeyOf(c)}
  {
    assert forall i :: 0 <= i < |a| ==> (a + [c])[i] == a[i];
    assert (a + [c])[|a|] == c;
  }

  /** Reference definition: keep a finding exactly when no earlier finding has its key. */
  function KeepFirst(comments: seq<CodeReviewComment>): seq<CodeReviewComment> {
    if comments == [] then []
    else
      var init, last := comments[..|comments| - 1], comments[|comments| - 1];
      KeepFirst(init) + (if KeyOf(last) in Keys(init) then [] else [last])
  }

  /**
   * Taking the first finding of every key group, groups in first-occurrence order, is the
   * same as keeping each finding whose key has not appeared before it.
   */
  lemma {:induction false} RemoveDuplicatesKeepsFirst(comments: seq<CodeReviewComment>)
    ensures RemoveDuplicateComments(comments) == KeepFirst(comments)
  {
    if comments != [] {
      var init, x := comments[..|comments| - 1], comments[|comments| - 1];
      RemoveDuplicatesKeepsFirst(init);
      GroupByContents(init, KeyOf);
      GroupByContents(comments, KeyOf);
      GroupByCoversKeys(init, KeyOf, KeyOf(x));
      var gs0 := GroupBy(init, KeyOf);
      var gs := GroupBy(comments, KeyOf);
      var i := GroupIndex(gs0, KeyOf(x));
      assert gs == AddToGroup(gs0, KeyOf(x), x);
      assert HasKey(init, KeyOf, KeyOf(x)) <==> KeyOf(x) in Keys(init) by {
        if KeyOf(x) in Keys(init) {
          var j :| 0 <= j < |init| && KeyOf(init[j]) == KeyOf(x);
        }
      }
      FirstsAddToGroup(gs0, KeyOf(x), x);
    }
  }

  /** The kept findings are the input with some findings left out, the rest in input order. */
  lemma {:induction false} KeepFirstIsSubsequence(comments: seq<CodeReviewComment>)
    ensures IsSubsequence(KeepFirst(comments), comments)
  {
    if comments != [] {
      var init, x := comments[..|comments| - 1], comments[|comments| - 1];
      KeepFirstIsSubsequence(init);
      var k := KeepFirst(init);
      if KeyOf(x) in Keys(init) {
        assert KeepFirst(comments) == k;
        assert IsSubsequence(k, init);
      } else {
        assert KeepFirst(comments) == k + [x];
        assert (k + [x])[..|k + [x]| - 1] == k;
      }
    }
  }

  /** The kept findings carry the keys of the input, each exactly once. */
  lemma {:induction false} KeepFirstKeys(comments: seq<CodeReviewComment>)
    ensures Keys(KeepFirst(comments)) == Keys(comments)
    ensures forall i, j :: 0 <= i < j < |KeepFirst(comments)| ==>
      KeyOf(KeepFirst(comments)[i]) != KeyOf(KeepFirst(comments)[j])
  {
    if comments != [] {
      var init, x := comments[..|comments| - 1], comments[|comments| - 1];
      KeepFirstKeys(init);
      assert init + [x] == comments;
      KeysAppend(init, x);
      var k := KeepFirst(init);
      if KeyOf(x) in Keys(init) {
        assert KeepFirst(comments) == k;
      } else {
        KeysAppend(k, x);
        assert KeepFirst(comments) == k + [x];
        forall i | 0 <= i < |k|
          ensures KeyOf(k[i]) != KeyOf(x)
        {
          assert KeyOf(k[i]) in Keys(k);
        }
      }
    }
  }

  /** `c` occurs in `comments` and no finding before its first occurrence has its key. */
  ghost predicate IsFirstOfKey(comments: seq<CodeReviewComment>, c: CodeReviewComment) {
    exists j :: 0 <= j < |comments| && comments[j] == c
      && forall m :: 0 <= m < j ==> KeyOf(comments[m]) != KeyOf(c)
  }

  /** Every kept finding is the first of its key in the input. */
  lemma {:induction false} KeepFirstKeepsFirstOccurrence(comments: seq<CodeReviewComment>)
    ensures forall i :: 0 <= i < |KeepFirst(comments)| ==> IsFirstOfKey(comments, KeepFirst(comments)[i])
  {
    if comments != [] {
      var init, x := comments[..|comments| - 1], comments[|comments| - 1];
      KeepFirstKeepsFirstOccurrence(init);
      var k := KeepFirst(init);
      forall i | 0 <= i < |KeepFirst(comments)|
        ensures IsFirstOfKey(comments, KeepFirst(comments)[i])
      {
        if i < |k| {
          var c := k[i];
          assert KeepFirst(comments)[i] == c;
          var j :| 0 <= j < |init| && init[j] == c && forall m :: 0 <= m < j ==> KeyOf(init[m]) != KeyOf(c);
          assert comments[j] == c;
          assert forall m :: 0 <= m < j ==> comments[m] == init[m];
        } else {
          assert KeepFirst(comments)[i] == x && KeyOf(x) !in Keys(init);
          forall m | 0 <= m < |init|
            ensures KeyOf(comments[m]) != KeyOf(x)
          {
            assert comments[m] == init[m];
            assert KeyOf(init[m]) in Keys(init);
          }
          assert comments[|init|] == x;
        }
      }
    }
  }

  /** Findings whose keys are already pairwise different are all kept. */
  lemma {:induction false} KeepFirstOfDistinct(comments: seq<CodeReviewComment>)
    requires forall i, j :: 0 <= i < j < |comments| ==> KeyOf(comments[i]) != KeyOf(comments[j])
    ensures KeepFirst(comments) == comments
  {
    if comments != [] {
      var init, x := comments[..|comments| - 1], comments[|comments| - 1];
      KeepFirstOfDistinct(init);
      assert KeyOf(x) !in Keys(init) by {
        forall j | 0 <= j < |init|
          ensures KeyOf(init[j]) != KeyOf(x)
        {
          assert init[j] == comments[j];
        }
      }
      assert init + [x] == comments;
    }
  }

  /** Removing duplicates a second time changes nothing. */
  lemma RemoveDuplicatesIdempotent(comments: seq<CodeReviewComment>)
    ensures RemoveDuplicateComments(RemoveDuplicateComments(comments)) == RemoveDuplicateComments(comments)
  {
    RemoveDuplicatesKeepsFirst(comments);
    RemoveDuplicatesKeepsFirst(KeepFirst(comments));
    KeepFirstKeys(comments);
    KeepFirstOfDistinct(KeepFirst(comments));
  }

  /** No character of `s` is one of the separators. */
  predicate NoSeparator(s: string) {
    forall i :: 0 <= i < |s| ==> s[i] !in Separators
  }

  /** Neither end of `s` is white space. */
  predicate TrimmedEnds(s: string) {
    s == [] || (!IsWhiteSpace(s[0]) && !IsWhiteSpace(s[|s| - 1]))
  }

  /** Trimming brackets off `[name]` gives the name back when it has no bracket at either end. */
  lemma UnbracketName(name: string)
    requires name == [] || (name[0] !in {'[', ']'} && name[|name| - 1] !in {'[', ']'})
    ensures Trim("[" + name + "]", Brackets) == name
  {
    var s := "[" + name + "]";
    assert |s| == |name| + 2 && s[0] == '[' && s[|s| - 1] == ']' && s[1..|s| - 1] == name;
    if name == [] {
      TrimEmptyBrackets(s);
    } else {
      TrimBracketed(s);
    }
  }

  /** Both characters of `[]` are trimmed. */
  lemma TrimEmptyBrackets(s: string)
    requires |s| == 2 && s[0] == '[' && s[1] == ']'
    ensures Trim(s, Brackets) == []
  {
    TrimSteps(s, Brackets);
    TrimSteps(s[1..], Brackets);
    TrimSteps(s[1..][1..], Brackets);
    TrimSteps([], Brackets);
  }

  /** The trim of a text in brackets whose inside starts and ends with no bracket is the inside. */
  lemma TrimBracketed(s: string)
    requires |s| > 2 && s[0] == '[' && s[|s| - 1] == ']'
    requires !Brackets.Has(s[1]) && !Brackets.Has(s[|s| - 2])
    ensures Trim(s, Brackets) == s[1..|s| - 1]
  {
    TrimOuter(s, Brackets);
  }

  /** The fields joined, each separator character between two consecutive fields. */
  function Joined(fields: seq<string>, seps: seq<char>): string
    requires |fields| == |seps| + 1
  {
    if seps == [] then fields[0] else fields[0] + ([seps[0]] + Joined(fields[1..], seps[1..]))
  }

  /** The fields of a line in the prompt's format: the fourth is empty. */
  function PromptFormatFields(file: string, lineNumber: nat, category: string, severity: string, message: string): seq<string> {
    ["[" + file + "]", DecimalString(lineNumber), category, "", severity + (" - " + message)]
  }

  /**
   * A finding line in the format the review prompt asks for,
   * `[<file>]:<line> <CATEGORY>: <SEVERITY> - <message>`.
   */
  function PromptFormatLine(file: string, lineNumber: nat, category: string, severity: string, message: string): string {
    Joined(PromptFormatFields(file, lineNumber, category, severity, message), [':', ' ', ':', ' '])
  }

  /** How ParseCommentLine reads a trimmed line whose five pieces hold the given fields. */
  lemma ReadFromParts(line: string, name: string, number: string, category: string, severity: string, message: string,
                      comment: CodeReviewComment)
    requires line != [] && Trim(line, WhiteSpace) == line
    requires SplitN(line, Separators, 5) == [name, number, category, severity, message]
    requires TryParseInt32(number) == Some(comment.lineNumber) && comment.lineNumber > 0
    requires Trim(name, Brackets) == comment.fileName
    requires Trim(category, WhiteSpace) == comment.category
    requires Trim(severity, WhiteSpace) == comment.severity
    requires Trim(message, WhiteSpace) == comment.message
    ensures ParseCommentLine(line) == Some(comment)
  {
  }

  /** A limited split takes the text before a first separator as its first piece. */
  lemma SplitNPeel(line: string, a: string, c: char, rest: string, count: nat)
    requires count >= 2 && c in Separators && NoSeparator(a)
    requires line == a + ([c] + rest)
    ensures SplitN(line, Separators, count) == [a] + SplitN(rest, Separators, count - 1)
  {
    assert line == a + [c] + rest;
    SplitNStep(a, c, rest, Separators, count);
  }

  /**
   * A line of fields joined by separators, every field but the last free of separators, is
   * split back into its fields by a split limited to the number of fields.
   */
  lemma {:induction false} SplitNJoined(fields: seq<string>, seps: seq<char>)
    requires |fields| == |seps| + 1
    requires forall i :: 0 <= i < |seps| ==> seps[i] in Separators && NoSeparator(fields[i])
    ensures SplitN(Joined(fields, seps), Separators, |fields|) == fields
  {
    if seps != [] {
      var rest := Joined(fields[1..], seps[1..]);
      SplitNJoined(fields[1..], seps[1..]);
      SplitNPeel(Joined(fields, seps), fields[0], seps[0], rest, |fields|);
      assert fields == [fields[0]] + fields[1..];
    }
  }

  /** A joined line starts with its first field's first character and ends with its last field's last. */
  lemma JoinedEnds(fields: seq<string>, seps: seq<char>)
    requires |fields| == |seps| + 1
    requires fields[0] != [] && fields[|fields| - 1] != []
    ensures var line := Joined(fields, seps);
      && line != [] && line[0] == fields[0][0]
      && line[|line| - 1] == fields[|fields| - 1][|fields[|fields| - 1]| - 1]
  {
    JoinedEndsLast(fields, seps);
  }

  /** A joined line ends with its last field's last character. */
  lemma {:induction false} JoinedEndsLast(fields: seq<string>, seps: seq<char>)
    requires |fields| == |seps| + 1
    requires fields[|fields| - 1] != []
    ensures var line := Joined(fields, seps);
      line != [] && line[|line| - 1] == fields[|fields| - 1][|fields[|fields| - 1]| - 1]
  {
    if seps != [] {
      var tail := fields[1..];
      assert tail[|tail| - 1] == fields[|fields| - 1];
      JoinedEndsLast(tail, seps[1..]);
    }
  }

  /** The bracketed file name and the line number hold no separator. */
  lemma PrefixFieldsUnseparated(file: string, lineNumber: nat)
    requires NoSeparator(file)
    ensures NoSeparator("[" + file + "]") && NoSeparator(DecimalString(lineNumber))
  {
    var p0 := "[" + file + "]";
    forall i | 0 <= i < |p0|
      ensures p0[i] !in Separators
    {
      if 0 < i < |p0| - 1 {
        assert p0[i] == file[i - 1];
      }
    }
  }

  /** The five pieces of a line in the prompt's format: the fourth is the empty text between ':' and ' '. */
  lemma PromptFormatPieces(file: string, lineNumber: nat, category: string, severity: string, message: string)
    requires NoSeparator(file) && NoSeparator(category)
    ensures SplitN(PromptFormatLine(file, lineNumber, category, severity, message), Separators, 5)
      == ["[" + file + "]", DecimalString(lineNumber), category, "", severity + (" - " + message)]
  {
    PrefixFieldsUnseparated(file, lineNumber);
    var fields := PromptFormatFields(file, lineNumber, category, severity, message);
    var seps := [':', ' ', ':', ' '];
    forall i | 0 <= i < |seps|
      ensures seps[i] in Separators && NoSeparator(fields[i])
    {
    }
    SplitNJoined(fields, seps);
  }

  /**
   * A line in the prompt's own format is read with an empty severity: the piece between ':'
   * and the following ' ' is empty, so the severity lands at the head of the message.
   */
  lemma PromptFormatLosesSeverity(file: string, lineNumber: nat, category: string, severity: string, message: string)
    requires NoSeparator(file) && (file == [] || (file[0] !in {'[', ']'} && file[|file| - 1] !in {'[', ']'}))
    requires 0 < lineNumber <= Int32Max
    requires NoSeparator(category) && TrimmedEnds(category)
    requires severity != [] && !IsWhiteSpace(severity[0])
    requires message != [] && !IsWhiteSpace(message[|message| - 1])
    ensures ParseCommentLine(PromptFormatLine(file, lineNumber, category, severity, message))
      == Some(CodeReviewComment(file, lineNumber, category, "", severity + " - " + message))
  {
    var line := PromptFormatLine(file, lineNumber, category, severity, message);
    PromptFormatPieces(file, lineNumber, category, severity, message);
    PromptFormatTrimmed(file, lineNumber, category, severity, message);
    ParseDecimalRoundTrip(lineNumber);
    ReadPromptPieces(line, file, DecimalString(lineNumber), lineNumber, category, severity, message);
  }

  /** The reading of a trimmed line whose five pieces are those of a line in the prompt's format. */
  lemma ReadPromptPieces(line: string, file: string, number: string, lineNumber: nat, category: string, severity: string, message: string)
    requires file == [] || (file[0] !in {'[', ']'} && file[|file| - 1] !in {'[', ']'})
    requires 0 < lineNumber && TryParseInt32(number) == Some(lineNumber)
    requires TrimmedEnds(category)
    requires severity != [] && !IsWhiteSpace(severity[0])
    requires message != [] && !IsWhiteSpace(message[|message| - 1])
    requires line != [] && Trim(line, WhiteSpace) == line
    requires SplitN(line, Separators, 5)
      == ["[" + file + "]", number, category, "", severity + (" - " + message)]
    ensures ParseCommentLine(line) == Some(CodeReviewComment(file, lineNumber, category, "", severity + " - " + message))
  {
    UnbracketName(file);
    TrimUntouched(category, WhiteSpace);
    TrimUntouched("", WhiteSpace);
    MessageKeepsSeverity(severity, message);
    ReadFromParts(line, "[" + file + "]", number, category, "", severity + (" - " + message),
      CodeReviewComment(file, lineNumber, category, "", severity + " - " + message));
  }

  /** A line in the prompt's format is non-empty and already trimmed. */
  lemma PromptFormatTrimmed(file: string, lineNumber: nat, category: string, severity: string, message: string)
    requires message != [] && !IsWhiteSpace(message[|message| - 1])
    ensures PromptFormatLine(file, lineNumber, category, severity, message) != []
    ensures Trim(PromptFormatLine(file, lineNumber, category, severity, message), WhiteSpace)
      == PromptFormatLine(file, lineNumber, category, severity, message)
  {
    var last := severity + (" - " + message);
    assert last[|last| - 1] == message[|message| - 1];
    JoinedEnds(PromptFormatFields(file, lineNumber, category, severity, message), [':', ' ', ':', ' ']);
    TrimUntouched(PromptFormatLine(file, lineNumber, category, severity, message), WhiteSpace);
  }

  /** The last piece of a line in the prompt's format is kept whole by the trim. */
  lemma MessageKeepsSeverity(severity: string, message: string)
    requires severity != [] && !IsWhiteSpace(severity[0])
    requires message != [] && !IsWhiteSpace(message[|message| - 1])
    ensures Trim(severity + (" - " + message), WhiteSpace) == severity + " - " + message
  {
    var r := severity + (" - " + message);
    assert r[0] == severity[0] && r[|r| - 1] == message[|message| - 1];
    TrimUntouched(r, WhiteSpace);
    assert r == severity + " - " + message;
  }

  /** The fields of a spaced line. */
  function SpacedFields(file: string, lineNumber: nat, category: string, severity: string, message: string): seq<string> {
    ["[" + file + "]", DecimalString(lineNumber), category, severity, message]
  }

  /** A finding line with every field separated by one space, `[<file>]:<line> <CATEGORY> <SEVERITY> <message>`. */
  function SpacedLine(file: string, lineNumber: nat, category: string, severity: string, message: string): string {
    Joined(SpacedFields(file, lineNumber, category, severity, message), [':', ' ', ' ', ' '])
  }

  /** The five pieces of a spaced line are its fields, the file name still in brackets. */
  lemma SpacedLinePieces(file: string, lineNumber: nat, category: string, severity: string, message: string)
    requires NoSeparator(file) && NoSeparator(category) && NoSeparator(severity)
    ensures SplitN(SpacedLine(file, lineNumber, category, severity, message), Separators, 5)
      == ["[" + file + "]", DecimalString(lineNumber), category, severity, message]
  {
    PrefixFieldsUnseparated(file, lineNumber);
    var fields := SpacedFields(file, lineNumber, category, severity, message);
    var seps := [':', ' ', ' ', ' '];
    forall i | 0 <= i < |seps|
      ensures seps[i] in Separators && NoSeparator(fields[i])
    {
    }
    SplitNJoined(fields, seps);
  }

  /** A line with the fields separated by single spaces is read back field for field. */
  lemma SpacedLineRoundTrip(file: string, lineNumber: nat, category: string, severity: string, message: string)
    requires NoSeparator(file) && (file == [] || (file[0] !in {'[', ']'} && file[|file| - 1] !in {'[', ']'}))
    requires 0 < lineNumber <= Int32Max
    requires NoSeparator(category) && TrimmedEnds(category)
    requires NoSeparator(severity) && TrimmedEnds(severity)
    requires message != [] && TrimmedEnds(message)
    ensures ParseCommentLine(SpacedLine(file, lineNumber, category, severity, message))
      == Some(CodeReviewComment(file, lineNumber, category, severity, message))
  {
    var line := SpacedLine(file, lineNumber, category, severity, message);
    SpacedLinePieces(file, lineNumber, category, severity, message);
    SpacedLineTrimmed(file, lineNumber, category, severity, message);
    ParseDecimalRoundTrip(lineNumber);
    ReadSpacedPieces(line, file, DecimalString(lineNumber), lineNumber, category, severity, message);
  }

  /** The reading of a trimmed line whose five pieces are those of a spaced line. */
  lemma ReadSpacedPieces(line: string, file: string, number: string, lineNumber: nat, category: string, severity: string, message: string)
    requires file == [] || (file[0] !in {'[', ']'} && file[|file| - 1] !in {'[', ']'})
    requires 0 < lineNumber && TryParseInt32(number) == Some(lineNumber)
    requires TrimmedEnds(category) && TrimmedEnds(severity) && TrimmedEnds(message)
    requires line != [] && Trim(line, WhiteSpace) == line
    requires SplitN(line, Separators, 5) == ["[" + file + "]", number, category, severity, message]
    ensures ParseCommentLine(line) == Some(CodeReviewComment(file, lineNumber, category, severity, message))
  {
    UnbracketName(file);
    TrimUntouched(category, WhiteSpace);
    TrimUntouched(severity, WhiteSpace);
    TrimUntouched(message, WhiteSpace);
    ReadFromParts(line, "[" + file + "]", number, category, severity, message,
      CodeReviewComment(file, lineNumber, category, severity, message));
  }

  /** A spaced line is non-empty and already trimmed. */
  lemma SpacedLineTrimmed(file: string, lineNumber: nat, category: string, severity: string, message: string)
    requires message != [] && TrimmedEnds(message)
    ensures SpacedLine(file, lineNumber, category, severity, message) != []
    ensures Trim(SpacedLine(file, lineNumber, category, severity, message), WhiteSpace)
      == SpacedLine(file, lineNumber, category, severity, message)
  {
    JoinedEnds(SpacedFields(file, lineNumber, category, severity, message), [':', ' ', ' ', ' ']);
    TrimUntouched(SpacedLine(file, lineNumber, category, severity, message), WhiteSpace);
  }

  /**
   * A bracketed file name with one '-' and no other separator is cut at the '-': the second
   * piece ends in ']' and is no number, so the line yields no finding.
   */
  lemma HyphenatedFileNameDropped(before: string, after: string, rest: string)
    requires NoSeparator(before) && NoSeparator(after)
    requires rest == [] || !IsWhiteSpace(rest[|rest| - 1])
    ensures ParseCommentLine("[" + before + "-" + after + "]:" + rest) == None
  {
    var line := "[" + before + "-" + after + "]:" + rest;
    var p0, p1 := "[" + before, after + "]";
    assert line == p0 + ['-'] + (p1 + [':'] + rest);
    BracketsUnseparated(before, after);
    CutTwice(line, p0, p1, rest);
    assert line[0] == '[' && !IsWhiteSpace(line[|line| - 1]);
    TrimUntouched(line, WhiteSpace);
    TryParseRejectsChar(p1, |after|);
    NoNumberNoFinding(line);
  }

  /** The fields of `[<head>-<digits>-<tail>]:<number> <rest>`: a file name holding two '-' around a run of digits. */
  function HyphenatedFields(head: string, digits: string, tail: string, number: nat, rest: string): seq<string> {
    ["[" + head, digits, tail + "]", DecimalString(number), rest]
  }

  /** A finding line whose bracketed file name holds two '-' around a run of digits, as in `[2024-01-notes.md]:42 ...`. */
  function HyphenatedLine(head: string, digits: string, tail: string, number: nat, rest: string): string {
    Joined(HyphenatedFields(head, digits, tail, number, rest), ['-', '-', ':', ' '])
  }

  /**
   * A file name with two '-' around a run of digits is misread rather than dropped: the digits
   * become the line number, the name's head the file, its tail (with the ']') the category, the
   * real line number the severity, and the rest of the line the message.
   */
  lemma HyphenatedDigitsMisread(head: string, digits: string, tail: string, number: nat, rest: string)
    requires NoSeparator(head) && (head == [] || (head[0] !in {'[', ']'} && head[|head| - 1] !in {'[', ']'}))
    requires digits != [] && AllDigits(digits) && 0 < DigitsValue(digits) <= Int32Max
    requires NoSeparator(tail) && (tail == [] || !IsWhiteSpace(tail[0]))
    requires rest != [] && TrimmedEnds(rest)
    ensures ParseCommentLine(HyphenatedLine(head, digits, tail, number, rest))
      == Some(CodeReviewComment(head, DigitsValue(digits), tail + "]", DecimalString(number), rest))
  {
    var line := HyphenatedLine(head, digits, tail, number, rest);
    HyphenatedPieces(head, digits, tail, number, rest);
    HyphenatedLineTrimmed(head, digits, tail, number, rest);
    DigitsParse(digits);
    ClosedTailTrimmed(tail);
    DecimalTrimmed(number);
    ReadHyphenatedPieces(line, head, digits, DigitsValue(digits), tail + "]", DecimalString(number), rest);
  }

  /** A line with a doubly hyphenated file name is non-empty and already trimmed. */
  lemma HyphenatedLineTrimmed(head: string, digits: string, tail: string, number: nat, rest: string)
    requires rest != [] && TrimmedEnds(rest)
    ensures HyphenatedLine(head, digits, tail, number, rest) != []
    ensures Trim(HyphenatedLine(head, digits, tail, number, rest), WhiteSpace) == HyphenatedLine(head, digits, tail, number, rest)
  {
    JoinedEnds(HyphenatedFields(head, digits, tail, number, rest), ['-', '-', ':', ' ']);
    TrimUntouched(HyphenatedLine(head, digits, tail, number, rest), WhiteSpace);
  }

  /** A run of ASCII digits whose value fits in Int32 parses to that value. */
  lemma DigitsParse(digits: string)
    requires digits != [] && AllDigits(digits) && DigitsValue(digits) <= Int32Max
    ensures TryParseInt32(digits) == Some(DigitsValue(digits) as int)
  {
    ParseWithoutNul(digits);
    SignedDigitsOfDigits(digits);
  }

  /** A printed number has no white space at its ends. */
  lemma DecimalTrimmed(n: nat)
    ensures TrimmedEnds(DecimalString(n))
  {
    var d := DecimalString(n);
    assert IsAsciiDigit(d[0]) && IsAsciiDigit(d[|d| - 1]);
  }

  /** A name's tail followed by the closing bracket has no white space at its ends. */
  lemma ClosedTailTrimmed(tail: string)
    requires tail == [] || !IsWhiteSpace(tail[0])
    ensures TrimmedEnds(tail + "]")
  {
    var t := tail + "]";
    assert t[0] == (if tail == [] then ']' else tail[0]) && t[|t| - 1] == ']';
  }

  /** The five pieces of a line with a doubly hyphenated file name. */
  lemma HyphenatedPieces(head: string, digits: string, tail: string, number: nat, rest: string)
    requires NoSeparator(head) && AllDigits(digits) && NoSeparator(tail)
    ensures SplitN(HyphenatedLine(head, digits, tail, number, rest), Separators, 5)
      == HyphenatedFields(head, digits, tail, number, rest)
  {
    BracketsUnseparated(head, tail);
    PrefixFieldsUnseparated(head, number);
    var fields := HyphenatedFields(head, digits, tail, number, rest);
    var seps := ['-', '-', ':', ' '];
    forall i | 0 <= i < |seps|
      ensures seps[i] in Separators && NoSeparator(fields[i])
    {
    }
    SplitNJoined(fields, seps);
  }

  /** The reading of a trimmed line whose pieces are those of a doubly hyphenated file name. */
  lemma ReadHyphenatedPieces(line: string, head: string, number: string, lineNumber: nat, category: string, severity: string, message: string)
    requires head == [] || (head[0] !in {'[', ']'} && head[|head| - 1] !in {'[', ']'})
    requires 0 < lineNumber && TryParseInt32(number) == Some(lineNumber)
    requires TrimmedEnds(category) && TrimmedEnds(severity) && TrimmedEnds(message)
    requires line != [] && Trim(line, WhiteSpace) == line
    requires SplitN(line, Separators, 5) == ["[" + head, number, category, severity, message]
    ensures ParseCommentLine(line) == Some(CodeReviewComment(head, lineNumber, category, severity, message))
  {
    OpenBracketName(head);
    TrimUntouched(category, WhiteSpace);
    TrimUntouched(severity, WhiteSpace);
    TrimUntouched(message, WhiteSpace);
    ReadFromParts(line, "[" + head, number, category, severity, message,
      CodeReviewComment(head, lineNumber, category, severity, message));
  }


  /** Trimming brackets off `[name` gives the name back when it has no bracket at either end. */
  lemma OpenBracketName(name: string)
    requires name == [] || (name[0] !in {'[', ']'} && name[|name| - 1] !in {'[', ']'})
    ensures Trim("[" + name, Brackets) == name
  {
    var s := "[" + name;
    if name == [] {
      TrimSteps(s, Brackets);
      TrimSteps([], Brackets);
      assert s[1..] == [];
    } else {
      calc {
        Trim(s, Brackets);
        TrimEnd(TrimStart(s, Brackets), Brackets);
        { TrimStartOne(s, Brackets); assert s[1..] == name; }
        TrimEnd(name, Brackets);
        { TrimSteps(name, Brackets); }
        name;
      }
    }
  }


  /** Neither the opening nor the closing bracket is a separator. */
  lemma BracketsUnseparated(before: string, after: string)
    requires NoSeparator(before) && NoSeparator(after)
    ensures NoSeparator("[" + before) && NoSeparator(after + "]")
  {
    assert forall i :: 1 <= i < |"[" + before| ==> ("[" + before)[i] == before[i - 1];
    assert forall i :: 0 <= i < |after| ==> (after + "]")[i] == after[i];
  }

  /** The first two pieces of a line cut at a '-' and then at a ':'. */
  lemma CutTwice(line: string, p0: string, p1: string, rest: string)
    requires NoSeparator(p0) && NoSeparator(p1)
    requires line == p0 + ['-'] + (p1 + [':'] + rest)
    ensures |SplitN(line, Separators, 5)| >= 2 && SplitN(line, Separators, 5)[1] == p1
  {
    SplitNSecond(p0, '-', p1, ':', rest, Separators, 5);
  }

  /** A trimmed line whose second piece is no number yields no finding. */
  lemma NoNumberNoFinding(line: string)
    requires Trim(line, WhiteSpace) == line
    requires |SplitN(line, Separators, 5)| >= 2 && TryParseInt32(SplitN(line, Separators, 5)[1]) == None
    ensures ParseCommentLine(line) == None
  {
  }
}
