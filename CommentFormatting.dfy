/**
 * FormatGroupedComments, GetSeverityOrder and GetSeverityEmoji: the findings posted on one chunk
 * are grouped by category, the groups ordered by category name, each group's findings ordered by
 * severity rank (HIGH, MEDIUM, LOW, anything else), and everything rendered as Markdown lines: a
 * header per category, one line per finding with the severity's emoji, and a blank line after
 * each group. Trailing white space is trimmed off the whole text.
 */
module CommentFormatting {
  import opened DotNetText
  import opened Models
  import opened Linq

  /** GetSeverityOrder: HIGH before MEDIUM before LOW before every other severity. */
  function GetSeverityOrder(severity: string): (r: nat)
    ensures r <= 3
    ensures r == 0 <==> severity == "HIGH"
    ensures r == 1 <==> severity == "MEDIUM"
    ensures r == 2 <==> severity == "LOW"
  {
    match severity
    case "HIGH" => 0
    case "MEDIUM" => 1
    case "LOW" => 2
    case _ => 3
  }

  /** GetSeverityEmoji: red, yellow and green circles for the known severities, an information sign otherwise. */
  function GetSeverityEmoji(severity: string): (r: string)
    ensures severity == "HIGH" ==> r == "\U{1F534}"
    ensures severity == "MEDIUM" ==> r == "\U{1F7E1}"
    ensures severity == "LOW" ==> r == "\U{1F7E2}"
    ensures severity !in {"HIGH", "MEDIUM", "LOW"} ==> r == "\U{2139}\U{FE0F}"
  {
    match severity
    case "HIGH" => "\U{1F534}"
    case "MEDIUM" => "\U{1F7E1}"
    case "LOW" => "\U{1F7E2}"
    case _ => "\U{2139}\U{FE0F}"
  }

  /** The emoji of each rank, most severe first. */
  const RankEmoji: seq<string> := ["\U{1F534}", "\U{1F7E1}", "\U{1F7E2}", "\U{2139}\U{FE0F}"]

  /** The emoji and the rank agree: two severities share an emoji exactly when they share a rank. */
  lemma EmojiFollowsRank(a: string, b: string)
    ensures GetSeverityEmoji(a) == RankEmoji[GetSeverityOrder(a)]
    ensures GetSeverityEmoji(a) == GetSeverityEmoji(b) <==> GetSeverityOrder(a) == GetSeverityOrder(b)
  {
    var ra, rb := GetSeverityOrder(a), GetSeverityOrder(b);
    assert forall i, j :: 0 <= i < j < |RankEmoji| ==> RankEmoji[i] != RankEmoji[j] by {
      assert RankEmoji[0][0] == '\U{1F534}' && RankEmoji[1][0] == '\U{1F7E1}';
      assert RankEmoji[2][0] == '\U{1F7E2}' && RankEmoji[3][0] == '\U{2139}';
    }
  }

  function CategoryOf(c: CodeReviewComment): string { c.category }

  function SeverityRank(c: CodeReviewComment): nat { GetSeverityOrder(c.severity) }

  /** A category with its findings. */
  type CategoryGroup = (string, seq<CodeReviewComment>)

  /** One step of `OrderBy(g => g.Key)` under ordinal order: `g` goes after every group whose key is not above its own. */
  function InsertGroup(s: seq<CategoryGroup>, g: CategoryGroup): (r: seq<CategoryGroup>)
    ensures |r| == |s| + 1
  {
    if s == [] || !OrdinalLess(g.0, s[|s| - 1].0) then s + [g]
    else InsertGroup(s[..|s| - 1], g) + [s[|s| - 1]]
  }

  /** `OrderBy(g => g.Key)` with the ordinal string order, by stable insertion. */
  function OrderByCategory(gs: seq<CategoryGroup>): (r: seq<CategoryGroup>)
    ensures |r| == |gs|
  {
    if gs == [] then [] else InsertGroup(OrderByCategory(gs[..|gs| - 1]), gs[|gs| - 1])
  }

  /**
   * The groups of the findings in the order FormatGroupedComments renders them: one per
   * category, in strictly ascending ordinal order, together holding every finding once.
   */
  function CategoryGroups(comments: seq<CodeReviewComment>): (r: seq<CategoryGroup>)
    ensures Ascending(r)
    ensures TotalSize(r) == |comments|
  {
    GroupByKeysDistinct(comments, CategoryOf);
    OrderByCategoryAscending(GroupBy(comments, CategoryOf));
    OrderByCategorySize(GroupBy(comments, CategoryOf));
    OrderByCategory(GroupBy(comments, CategoryOf))
  }

  /** The keys strictly ascend. */
  ghost predicate Ascending(gs: seq<CategoryGroup>) {
    forall i, j :: 0 <= i < j < |gs| ==> OrdinalLess(gs[i].0, gs[j].0)
  }

  lemma {:induction false} InsertGroupPermutation(s: seq<CategoryGroup>, g: CategoryGroup)
    ensures multiset(InsertGroup(s, g)) == multiset(s) + multiset{g}
  {
    if s != [] && OrdinalLess(g.0, s[|s| - 1].0) {
      var init := s[..|s| - 1];
      assert s == init + [s[|s| - 1]];
      InsertGroupPermutation(init, g);
    }
  }

  /** Ordering the groups neither loses nor repeats one. */
  lemma {:induction false} OrderByCategoryPermutation(gs: seq<CategoryGroup>)
    ensures multiset(OrderByCategory(gs)) == multiset(gs)
  {
    if gs != [] {
      var init := gs[..|gs| - 1];
      assert gs == init + [gs[|gs| - 1]];
      OrderByCategoryPermutation(init);
      InsertGroupPermutation(OrderByCategory(init), gs[|gs| - 1]);
    }
  }

  /** Inserting a group of a new key into ascending groups keeps them ascending. */
  lemma {:induction false} InsertGroupAscending(s: seq<CategoryGroup>, g: CategoryGroup)
    requires Ascending(s)
    requires forall i :: 0 <= i < |s| ==> s[i].0 != g.0
    ensures Ascending(InsertGroup(s, g))
  {
    if s == [] {
    } else if !OrdinalLess(g.0, s[|s| - 1].0) {
      var last := s[|s| - 1];
      OrdinalLessTotal(g.0, last.0);
      forall i | 0 <= i < |s|
        ensures OrdinalLess(s[i].0, g.0)
      {
        if i < |s| - 1 {
          OrdinalLessTransitive(s[i].0, last.0, g.0);
        }
      }
    } else {
      var init, last := s[..|s| - 1], s[|s| - 1];
      InsertGroupAscending(init, g);
      var t := InsertGroup(init, g);
      InsertGroupPermutation(init, g);
      forall i | 0 <= i < |t|
        ensures OrdinalLess(t[i].0, last.0)
      {
        assert t[i] in multiset(t);
        if t[i] != g {
          assert t[i] in multiset(init);
          var k :| 0 <= k < |init| && init[k] == t[i];
          assert s[k] == init[k];
        }
      }
      var r := t + [last];
      forall i, j | 0 <= i < j < |r|
        ensures OrdinalLess(r[i].0, r[j].0)
      {
        if j < |t| {
          assert r[i] == t[i] && r[j] == t[j];
        }
      }
    }
  }

  /** Groups with pairwise different keys come out with strictly ascending keys. */
  lemma {:induction false} OrderByCategoryAscending(gs: seq<CategoryGroup>)
    requires KeysDistinct(gs)
    ensures Ascending(OrderByCategory(gs))
  {
    if gs != [] {
      var init, g := gs[..|gs| - 1], gs[|gs| - 1];
      assert KeysDistinct(init);
      OrderByCategoryAscending(init);
      var s := OrderByCategory(init);
      OrderByCategoryPermutation(init);
      forall i | 0 <= i < |s|
        ensures s[i].0 != g.0
      {
        assert s[i] in multiset(init);
        var k :| 0 <= k < |init| && init[k] == s[i];
        assert gs[k] == init[k];
      }
      InsertGroupAscending(s, g);
    }
  }

  /** Every rendered group is one of the groups of the findings. */
  lemma CategoryGroupIsGroup(comments: seq<CodeReviewComment>, i: nat)
    requires i < |CategoryGroups(comments)|
    ensures exists j :: 0 <= j < |GroupBy(comments, CategoryOf)| && GroupBy(comments, CategoryOf)[j] == CategoryGroups(comments)[i]
  {
    OrderByCategoryPermutation(GroupBy(comments, CategoryOf));
    assert CategoryGroups(comments)[i] in multiset(GroupBy(comments, CategoryOf));
  }

  /** A category has a group exactly when some finding has that category. */
  lemma CategoriesPresent(comments: seq<CodeReviewComment>, category: string)
    ensures HasKey(comments, CategoryOf, category)
      <==> exists i :: 0 <= i < |CategoryGroups(comments)| && CategoryGroups(comments)[i].0 == category
  {
    var gs, cg := GroupBy(comments, CategoryOf), CategoryGroups(comments);
    GroupByCoversKeys(comments, CategoryOf, category);
    OrderByCategoryPermutation(gs);
    if HasKey(comments, CategoryOf, category) {
      var j := GroupIndex(gs, category);
      assert gs[j] in multiset(cg);
      var i :| 0 <= i < |cg| && cg[i] == gs[j];
    }
    if exists i :: 0 <= i < |cg| && cg[i].0 == category {
      var i :| 0 <= i < |cg| && cg[i].0 == category;
      CategoryGroupIsGroup(comments, i);
    }
  }

  /** Each group holds exactly the findings of its category, in input order, and is not empty. */
  lemma CategoryGroupContents(comments: seq<CodeReviewComment>, i: nat)
    requires i < |CategoryGroups(comments)|
    ensures CategoryGroups(comments)[i].1 != []
    ensures CategoryGroups(comments)[i].1 == WithKey(comments, CategoryOf, CategoryGroups(comments)[i].0)
  {
    CategoryGroupIsGroup(comments, i);
    GroupByContents(comments, CategoryOf);
  }

  /** The findings of a group in the order they are rendered. */
  function OrderedBySeverity(members: seq<CodeReviewComment>): seq<CodeReviewComment> {
    OrderBy(members, SeverityRank)
  }

  /**
   * Within a group the severity rank never decreases, findings of one rank keep their input
   * order, and no finding is lost or repeated.
   */
  lemma SeverityOrdered(members: seq<CodeReviewComment>, rank: nat)
    ensures forall i, j :: 0 <= i < j < |OrderedBySeverity(members)| ==>
      SeverityRank(OrderedBySeverity(members)[i]) <= SeverityRank(OrderedBySeverity(members)[j])
    ensures WithKey(OrderedBySeverity(members), SeverityRank, rank) == WithKey(members, SeverityRank, rank)
    ensures multiset(OrderedBySeverity(members)) == multiset(members)
  {
    assert KeysBelow(members, SeverityRank, 4);
    OrderBySorted(members, SeverityRank, 4);
    OrderByStable(members, SeverityRank, 4, rank);
    OrderByPermutation(members, SeverityRank);
  }

  /** `📝 **<category>**` */
  function HeaderLine(category: string): string {
    "\U{1F4DD} **" + category + "**"
  }

  /** `<emoji> **<severity>**: <message>` */
  function CommentLine(c: CodeReviewComment): string {
    GetSeverityEmoji(c.severity) + " **" + c.severity + "**: " + c.message
  }

  /** One line per finding, in order. */
  function CommentLines(cs: seq<CodeReviewComment>): (r: seq<string>)
    ensures |r| == |cs|
  {
    if cs == [] then [] else CommentLines(cs[..|cs| - 1]) + [CommentLine(cs[|cs| - 1])]
  }

  /** The `i`-th finding line renders the `i`-th finding, with its severity's emoji. */
  lemma {:induction false} CommentLinesAt(cs: seq<CodeReviewComment>, i: nat)
    requires i < |cs|
    ensures CommentLines(cs)[i] == GetSeverityEmoji(cs[i].severity) + " **" + cs[i].severity + "**: " + cs[i].message
  {
    if i < |cs| - 1 {
      CommentLinesAt(cs[..|cs| - 1], i);
    }
  }

  /** The lines appended for one group: its header, one line per finding, and an empty line. */
  function GroupLines(g: CategoryGroup): seq<string> {
    [HeaderLine(g.0)] + CommentLines(OrderedBySeverity(g.1)) + [""]
  }

  /** The lines appended for a sequence of groups. */
  function RenderLines(gs: seq<CategoryGroup>): seq<string> {
    if gs == [] then [] else RenderLines(gs[..|gs| - 1]) + GroupLines(gs[|gs| - 1])
  }

  /**
   * The builder's text before the final trim: every line followed by a line break. It is empty
   * exactly when there are no findings, and otherwise ends with a line break.
   */
  function RenderedText(comments: seq<CodeReviewComment>): (r: string)
    ensures r == [] <==> comments == []
    ensures r == [] || r[|r| - 1] == '\n'
  {
    var lines := RenderLines(CategoryGroups(comments));
    RenderLinesCount(CategoryGroups(comments));
    if lines == [] then Terminated(lines)
    else
      assert lines == lines[..|lines| - 1] + [lines[|lines| - 1]];
      TerminatedSnoc(lines[..|lines| - 1], lines[|lines| - 1]);
      Terminated(lines)
  }

  /** Every finding has one line and every group two more, its header and its empty line. */
  lemma {:induction false} RenderLinesCount(gs: seq<CategoryGroup>)
    ensures |RenderLines(gs)| == TotalSize(gs) + 2 * |gs|
  {
    if gs != [] {
      RenderLinesCount(gs[..|gs| - 1]);
    }
  }

  lemma {:induction false} InsertGroupSize(s: seq<CategoryGroup>, g: CategoryGroup)
    ensures TotalSize(InsertGroup(s, g)) == TotalSize(s) + |g.1|
  {
    if s != [] && OrdinalLess(g.0, s[|s| - 1].0) {
      var t := InsertGroup(s, g);
      assert t[..|t| - 1] == InsertGroup(s[..|s| - 1], g);
      InsertGroupSize(s[..|s| - 1], g);
    } else {
      var t := s + [g];
      assert t[..|t| - 1] == s;
    }
  }

  lemma {:induction false} OrderByCategorySize(gs: seq<CategoryGroup>)
    ensures TotalSize(OrderByCategory(gs)) == TotalSize(gs)
  {
    if gs != [] {
      OrderByCategorySize(gs[..|gs| - 1]);
      InsertGroupSize(OrderByCategory(gs[..|gs| - 1]), gs[|gs| - 1]);
    }
  }

  /** The rendering has one line per finding plus a header and an empty line per category. */
  lemma RenderedLineCount(comments: seq<CodeReviewComment>)
    ensures |RenderLines(CategoryGroups(comments))| == |comments| + 2 * |CategoryGroups(comments)|
  {
    RenderLinesCount(CategoryGroups(comments));
  }

  /** Appending one line to the builder. */
  lemma TerminatedSnoc(lines: seq<string>, line: string)
    ensures Terminated(lines + [line]) == Terminated(lines) + line + "\n"
  {
    TerminatedAppend(lines, [line]);
    assert Terminated([line]) == line + "\n";
  }

  /** Appending one line to a builder that holds `lines` after some prefix. */
  lemma BuilderStep(prefix: string, lines: seq<string>, line: string)
    ensures prefix + Terminated(lines) + line + "\n" == prefix + Terminated(lines + [line])
  {
    TerminatedSnoc(lines, line);
  }

  /** The lines of the first `i + 1` groups are those of the first `i` and then those of group `i`. */
  lemma RenderLinesStep(gs: seq<CategoryGroup>, i: nat)
    requires i < |gs|
    ensures RenderLines(gs[..i + 1]) == RenderLines(gs[..i]) + GroupLines(gs[i])
  {
    assert gs[..i + 1][..i] == gs[..i];
  }

  /** The builder after group `i` holds the text of the first `i + 1` groups. */
  lemma RenderedPrefixStep(gs: seq<CategoryGroup>, i: nat)
    requires i < |gs|
    ensures Terminated(RenderLines(gs[..i])) + Terminated(GroupLines(gs[i])) == Terminated(RenderLines(gs[..i + 1]))
  {
    TerminatedAppend(RenderLines(gs[..i]), GroupLines(gs[i]));
    RenderLinesStep(gs, i);
  }

  /** A group's text: its header line, its finding lines and an empty line, each ended by a line break. */
  lemma TerminatedGroup(header: string, body: seq<string>)
    ensures Terminated([header] + body + [""]) == header + "\n" + Terminated(body) + "\n"
  {
    TerminatedAppend([header] + body, [""]);
    TerminatedAppend([header], body);
    assert Terminated([header]) == header + "\n" by {
      assert [header][1..] == [];
    }
    assert Terminated([""]) == "\n" by {
      assert [""][1..] == [];
    }
  }

  /** The inner loop of FormatGroupedComments: one line per finding appended to the builder. */
  method AppendCommentLines(sb: string, ordered: seq<CodeReviewComment>) returns (out: string)
    ensures out == sb + Terminated(CommentLines(ordered))
  {
    out := sb;
    var j := 0;
    assert CommentLines(ordered[..j]) == [];
    while j < |ordered|
      invariant 0 <= j <= |ordered|
      invariant out == sb + Terminated(CommentLines(ordered[..j]))
    {
      ghost var done := CommentLines(ordered[..j]);
      assert CommentLines(ordered[..j + 1]) == done + [CommentLine(ordered[j])] by {
        assert ordered[..j + 1][..j] == ordered[..j];
      }
      BuilderStep(sb, done, CommentLine(ordered[j]));
      out := out + CommentLine(ordered[j]) + "\n";
      j := j + 1;
    }
    assert ordered[..j] == ordered;
  }

  /** The body of the outer loop of FormatGroupedComments: one group's lines appended to the builder. */
  method AppendGroup(sb: string, g: CategoryGroup) returns (out: string)
    ensures out == sb + Terminated(GroupLines(g))
  {
    var ordered := OrderedBySeverity(g.1);
    out := sb + HeaderLine(g.0) + "\n";
    out := AppendCommentLines(out, ordered);
    out := out + "\n";
    TerminatedGroup(HeaderLine(g.0), CommentLines(ordered));
  }

  /**
   * FormatGroupedComments: the groups in category order, each as its header, its findings by
   * severity and an empty line, appended to a builder; the text is returned without trailing
   * white space.
   */
  method FormatGroupedComments(comments: seq<CodeReviewComment>) returns (r: string)
    ensures r == TrimEnd(RenderedText(comments), WhiteSpace)
    ensures r == RenderedText(comments)[..|r|]
    ensures r == [] || !IsWhiteSpace(r[|r| - 1])
  {
    var groups := CategoryGroups(comments);
    var sb := "";
    var i := 0;
    assert groups[..i] == [];
    while i < |groups|
      invariant 0 <= i <= |groups|
      invariant sb == Terminated(RenderLines(groups[..i]))
    {
      sb := AppendGroup(sb, groups[i]);
      RenderedPrefixStep(groups, i);
      i := i + 1;
    }
    assert groups[..i] == groups;
    assert sb == RenderedText(comments);
    r := TrimEnd(sb, WhiteSpace);
  }
}
