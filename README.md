# Code review bot: patch chunking, finding parsing and comment planning

This project models the text-processing core of a pull-request review bot. The bot takes each
changed file of a pull request and splits the file's unified-diff patch into chunks at its hunk
headers. It asks an AI back end for findings and reads the reply line by line into findings
(file, line, category, severity, message). It then drops duplicate findings and plans at most one
inline review comment per chunk. That comment carries the findings of the chunk rendered as
grouped, severity-ordered Markdown. Two smaller pieces are also modelled:

- reading the owner, the repository and the pull-request number from the path segments of a
  pull-request URL;
- choosing the analysis strategy registered for the requested AI back end.

Modules:

- `Outcomes`: `Option` and `Result`. An exception the source throws is a `Failure` carrying the
  exception's message.
- `DotNetText`: the .NET string primitives the code relies on, written out. They are
  `String.Split` with and without a piece limit, `Trim`/`TrimEnd` and `Char.IsWhiteSpace`. They
  also include `Int32.TryParse`, ordinal order, `OrdinalIgnoreCase` equality,
  `Path.GetFileName` and unchecked 32-bit arithmetic.
- `Models`: `CodeReviewComment`, `DiffChunk`, the `DiffInfo` class whose chunk list parsing
  appends to, `PullRequestFile` and `AiModelType`.
- `HunkHeader`: the regular expression `@@ -\d+,?\d* \+(\d+),?\d* @@` as an unanchored leftmost
  search. The module also covers the unified-diff hunk header format of GNU diffutils and
  `git diff`.
- `PatchParser`: `ParseDiffInfo`, `AddCurrentChunkIfNotEmpty` and `CreateNewChunk`. The loop is
  an imperative method over the `DiffInfo` object. It is proved against a recursive
  specification, and the lemmas are about that specification.
- `Linq`: `GroupBy` (groups in first-occurrence order), the stable `OrderBy` on a rank, and
  their properties.
- `FindingParser`: `ParseCommentLine`, `ParseAIResponse` and `RemoveDuplicateComments`.
- `CommentFormatting`: `GetSeverityOrder`, `GetSeverityEmoji` and `FormatGroupedComments`. The
  last is a method whose string builder runs through nested loops.
- `CommentPlanning`: `IsFileModified`, `GetAddedLines`, `GetCommentsForChunk`,
  `CreateCommentsForFile` (a loop over the chunks) and one iteration of the per-file review loop.
- `PrUrl`: `ParseGitHubPrUrl` from the URL's segment list onward.
- `StrategyFactory`: `GetStrategy`.

Behaviours of the code that the model keeps and proves:

- A line in the exact format the review prompt asks for, `[main.go]:42 BUG: HIGH - x`, parses to
  category `BUG` with an empty severity and the message `HIGH - x`. The split keeps the empty
  piece between `:` and ` `.
- A bracketed file name with one `-` and no space or `:` is split apart, so its line is dropped.
  With two `-` around digits, as in `[2024-01-notes.md]:42 BUG: HIGH - x`, the line is misread
  instead: file `2024`, line number 1, category `notes.md]`, severity `42`.
- The line number of an added line is `NewStart + index - 1`. The index counts every line of the
  chunk, header (index 0) and removed lines included.
- The comment position is the index of the chunk's first added line.
- The empty patch yields one chunk, with content `"\n"` and NewStart 0.

## Model

Helpers that only spell out a piece of text or a list carry no row of their own. Their source
lines are covered by the rows that use them:
- `CommentFormatting.HeaderLine` (BaseCodeAnalysisStrategy.cs line 172), `CommentLine` (line 179),
  `GroupLines` and `RenderLines` are covered by `CommentFormatting.CommentLinesAt`,
  `TerminatedGroup` and `RenderedText`; `OrderedBySeverity` (line 175) by `SeverityOrdered`.
- `CommentPlanning.AddedAmong` is covered by `GetAddedLines`, and `Posted` and `PlanChunks` by
  `CreateCommentsForFile`.
- `StrategyFactory.NotFoundMessage` (CodeAnalysisStrategyFactory.cs line 18) is covered by
  `GetStrategy`.

| member | source | states |
|---|---|---|
| Models.DiffInfo.constructor | src/CodeReviewBot.API/Models/DiffInfo.cs:3-6 | a new DiffInfo has no chunks |
| HunkHeader.DigitRun | src/CodeReviewBot.API/Strategies/BaseCodeAnalysisStrategy.cs:156 | `\d+` at a position takes the whole maximal run of ASCII digits |
| HunkHeader.SkipCount | src/CodeReviewBot.API/Strategies/BaseCodeAnalysisStrategy.cs:156 | `,?\d*` consumes a prefix and leaves a suffix of the text |
| HunkHeader.MatchHere | src/CodeReviewBot.API/Strategies/BaseCodeAnalysisStrategy.cs:156 | a match at a fixed position captures a non-empty run of digits |
| HunkHeader.Search | src/CodeReviewBot.API/Strategies/BaseCodeAnalysisStrategy.cs:156 | the unanchored search captures a non-empty digit run |
| HunkHeader.SearchLeftmost | src/CodeReviewBot.API/Strategies/BaseCodeAnalysisStrategy.cs:156-159 | the search fails exactly when the pattern matches at no position, and otherwise returns the match at the leftmost matching position |
| HunkHeader.DigitRunOver | src/CodeReviewBot.API/Strategies/BaseCodeAnalysisStrategy.cs:156 | digits followed by a non-digit form one run of exactly their length |
| HunkHeader.SkipCountOver | src/CodeReviewBot.API/Strategies/BaseCodeAnalysisStrategy.cs:156 | an omitted or present `,count` is skipped up to the following space |
| HunkHeader.RangeOver | src/CodeReviewBot.API/Strategies/BaseCodeAnalysisStrategy.cs:156 | a printed range reads back as its start digits followed by the rest |
| HunkHeader.MatchSteps | src/CodeReviewBot.API/Strategies/BaseCodeAnalysisStrategy.cs:156 | the pattern's pieces in sequence make a match capturing the new-start digits |
| HunkHeader.HeaderMatches | src/CodeReviewBot.API/Strategies/BaseCodeAnalysisStrategy.cs:156 | every unified-diff hunk header matches at its start and captures the new-file start |
| HunkHeader.HeaderRoundTrip | src/CodeReviewBot.API/Strategies/BaseCodeAnalysisStrategy.cs:156-159 | reading the NewStart of a printed hunk header gives back the new range's start, with or without counts and a section heading |
| HunkHeader.NoMatchMeansZero | src/CodeReviewBot.API/Strategies/BaseCodeAnalysisStrategy.cs:159 | a line containing no `@@ -` has NewStart 0 |
| HunkHeader.NewStartOf | src/CodeReviewBot.API/Strategies/BaseCodeAnalysisStrategy.cs:156-159 | NewStart is the number captured by the leftmost match of the pattern in the line, or 0 when it matches nowhere |
| PatchParser.CreateNewChunk | src/CodeReviewBot.API/Strategies/BaseCodeAnalysisStrategy.cs:154-162 | the chunk's content is the header line and a line break, and NewStart is the captured number or 0. A capture beyond Int32 fails exactly then, with int.Parse's overflow message |
| PatchParser.AddCurrentChunkIfNotEmpty | src/CodeReviewBot.API/Strategies/BaseCodeAnalysisStrategy.cs:146-152 | the chunk list gains the chunk exactly when its content is non-empty, and nothing else changes |
| PatchParser.ParseDiffInfo | src/CodeReviewBot.API/Strategies/BaseCodeAnalysisStrategy.cs:124-144 | fails exactly when some hunk header's start overflows Int32; otherwise a fresh DiffInfo holds the chunks of the recursive chunking specification |
| PatchParser.AllContentAppend | src/CodeReviewBot.API/Strategies/BaseCodeAnalysisStrategy.cs:124-144 | the text of the chunks distributes over concatenation |
| PatchParser.ScanKeepsText | src/CodeReviewBot.API/Strategies/BaseCodeAnalysisStrategy.cs:130-142 | the chunks the loop emits hold the current chunk's text followed by every remaining line and its line break |
| PatchParser.ChunksCoverPatch | src/CodeReviewBot.API/Strategies/BaseCodeAnalysisStrategy.cs:124-144 | the chunk contents concatenated in order are the patch followed by one line break, so no line is lost, duplicated or reordered |
| PatchParser.ScanChunks | src/CodeReviewBot.API/Strategies/BaseCodeAnalysisStrategy.cs:130-142 | the chunks the loop emits from the remaining lines and the chunk being built; no emitted chunk has empty content |
| PatchParser.ParseChunks | src/CodeReviewBot.API/Strategies/BaseCodeAnalysisStrategy.cs:124-144 | the chunks of a patch, none with empty content; the loop of `ParseDiffInfo` is proved to build exactly these |
| PatchParser.IsHunkHeader | src/CodeReviewBot.API/Strategies/BaseCodeAnalysisStrategy.cs:132 | a line starts a new chunk exactly when its first two characters are `@@` |
| PatchParser.ScanStep | src/CodeReviewBot.API/Strategies/BaseCodeAnalysisStrategy.cs:132-139 | one step of the loop: a header line flushes the current chunk and opens a new one; any other line, with a line break, is appended to the current chunk |
| PatchParser.Groups | src/CodeReviewBot.API/Strategies/BaseCodeAnalysisStrategy.cs:130-140 | the lines fall into at least one group, the leading one |
| PatchParser.GroupsPartition | src/CodeReviewBot.API/Strategies/BaseCodeAnalysisStrategy.cs:130-140 | the groups flatten back to the lines, every group after the first starts with a header and holds no other header, and there is one group per header plus one |
| PatchParser.GroupsFlatten | src/CodeReviewBot.API/Strategies/BaseCodeAnalysisStrategy.cs:130-140 | the groups concatenate back to the lines |
| PatchParser.GroupsHeaderLed | src/CodeReviewBot.API/Strategies/BaseCodeAnalysisStrategy.cs:132-137 | each header starts a group and no other line of a group is a header |
| PatchParser.GroupsCount | src/CodeReviewBot.API/Strategies/BaseCodeAnalysisStrategy.cs:132-137 | the number of groups is the number of headers plus one |
| PatchParser.ScanByGroups | src/CodeReviewBot.API/Strategies/BaseCodeAnalysisStrategy.cs:130-142 | the loop emits the current chunk extended by the leading group, then one chunk per header-led group |
| PatchParser.ParseChunksByGroups | src/CodeReviewBot.API/Strategies/BaseCodeAnalysisStrategy.cs:124-162 | the chunks are a NewStart-0 chunk of the lines before the first header (absent when there are none), then one chunk per header holding that header and the lines up to the next header |
| PatchParser.ChunkCount | src/CodeReviewBot.API/Strategies/BaseCodeAnalysisStrategy.cs:124-152 | there is one chunk per header, plus one when the patch does not begin with a header |
| PatchParser.GroupChunksLength | src/CodeReviewBot.API/Strategies/BaseCodeAnalysisStrategy.cs:132-137 | each header-led group gives exactly one chunk |
| PatchParser.LeadingGroupEmpty | src/CodeReviewBot.API/Strategies/BaseCodeAnalysisStrategy.cs:128-134 | the lines before the first header are none exactly when the patch starts with a header |
| PatchParser.EmptyPatchGivesOneChunk | src/CodeReviewBot.API/Strategies/BaseCodeAnalysisStrategy.cs:127-142 | the empty patch yields the single chunk with content `"\n"` and NewStart 0 |
| DotNetText.TrimStart | src/CodeReviewBot.API/Strategies/BaseCodeAnalysisStrategy.cs:216 | the result is a suffix, every removed character is of the class, and the first kept one is not |
| DotNetText.TrimEnd | src/CodeReviewBot.API/Strategies/BaseCodeAnalysisStrategy.cs:185 | the result is a prefix, every removed character is of the class, and the last kept one is not |
| DotNetText.Trim | src/CodeReviewBot.API/Strategies/BaseCodeAnalysisStrategy.cs:226-230 | neither end of the result is of the class |
| DotNetText.TrimSteps | src/CodeReviewBot.API/Strategies/BaseCodeAnalysisStrategy.cs:216 | one step of each trim: an end of the class is dropped and any other end stops the trim |
| DotNetText.TrimUntouched | src/CodeReviewBot.API/Strategies/BaseCodeAnalysisStrategy.cs:216 | a string with both ends outside the class is its own trim |
| DotNetText.Split | src/CodeReviewBot.API/Strategies/BaseCodeAnalysisStrategy.cs:127 | there is at least one piece, and no piece contains a separator; empty pieces are kept |
| DotNetText.SplitAtSeparator | src/CodeReviewBot.API/Strategies/BaseCodeAnalysisStrategy.cs:127 | splitting at a separator gives the left piece followed by the pieces of the rest |
| DotNetText.SplitNoSeparator | src/CodeReviewBot.API/Strategies/BaseCodeAnalysisStrategy.cs:127 | text with no separator is a single piece |
| DotNetText.TerminatedAppend | src/CodeReviewBot.API/Strategies/BaseCodeAnalysisStrategy.cs:139 | line-break-terminated text distributes over concatenation of line lists |
| DotNetText.SplitTerminatedLines | src/CodeReviewBot.API/Strategies/BaseCodeAnalysisStrategy.cs:77 | splitting lines that were each terminated by a line break gives them back, plus one empty piece |
| DotNetText.SplitTerminated | src/CodeReviewBot.API/Strategies/BaseCodeAnalysisStrategy.cs:127-140 | the pieces of a text, each followed by a line break, spell the text and a final line break |
| DotNetText.IndexOfAny | src/CodeReviewBot.API/Strategies/BaseCodeAnalysisStrategy.cs:219 | the result is the first position holding one of the characters, or none when there is none |
| DotNetText.SplitN | src/CodeReviewBot.API/Strategies/BaseCodeAnalysisStrategy.cs:219 | between one and `count` pieces |
| DotNetText.SplitNAgreesWithSplit | src/CodeReviewBot.API/Strategies/BaseCodeAnalysisStrategy.cs:219 | the limited split has as many pieces as the unlimited one, capped at `count`; all but its last piece agree with the unlimited split, and it is the unlimited split when that has no more than `count` pieces |
| DotNetText.SplitNStep | src/CodeReviewBot.API/Strategies/BaseCodeAnalysisStrategy.cs:219 | with room for two or more pieces, a leading piece is cut at the first separator |
| DotNetText.SplitNRest | src/CodeReviewBot.API/Strategies/BaseCodeAnalysisStrategy.cs:219 | when there are enough separators the limited split has exactly `count` pieces, and its last piece splits into the remaining unlimited pieces |
| DotNetText.SplitNLastIsSuffix | src/CodeReviewBot.API/Strategies/BaseCodeAnalysisStrategy.cs:219 | the last piece of the limited split is a suffix of the text, kept verbatim |
| DotNetText.DecimalString | src/CodeReviewBot.API/Strategies/BaseCodeAnalysisStrategy.cs:222 | the decimal spelling is a non-empty digit string whose value is the number |
| DotNetText.TryParseInt32 | src/CodeReviewBot.API/Strategies/BaseCodeAnalysisStrategy.cs:222 | a parsed value lies in the Int32 range; trailing `\0` characters are dropped before parsing |
| DotNetText.TryParseRejectsChar | src/CodeReviewBot.API/Strategies/BaseCodeAnalysisStrategy.cs:222 | text holding, before its trailing `\0` characters, a character that is no digit, sign or number white space does not parse |
| DotNetText.ParseDecimalRoundTrip | src/CodeReviewBot.API/Strategies/BaseCodeAnalysisStrategy.cs:222 | the spelling of a number in range parses back to the number |
| DotNetText.ParseNegativeDigits | src/CodeReviewBot.API/Helpers/StringFormatHelper.cs:41 | a minus sign followed by digits whose value fits parses to the negated value |
| DotNetText.TrailingNulIgnored | src/CodeReviewBot.API/Strategies/BaseCodeAnalysisStrategy.cs:222 | a `\0` appended to the text does not change what it parses to |
| DotNetText.ParseDecimalNulRoundTrip | src/CodeReviewBot.API/Strategies/BaseCodeAnalysisStrategy.cs:222 | the spelling of a number in range followed by `\0` parses back to the number |
| DotNetText.ParseWithoutNul | src/CodeReviewBot.API/Strategies/BaseCodeAnalysisStrategy.cs:222 | text that does not end in `\0` is parsed as white space, an optional sign, digits and white space |
| DotNetText.SignedDigitsOfDigits | src/CodeReviewBot.API/Strategies/BaseCodeAnalysisStrategy.cs:222 | a run of ASCII digits parses to its value exactly when that value fits in Int32 |
| DotNetText.ParseRejectsOverflow | src/CodeReviewBot.API/Strategies/BaseCodeAnalysisStrategy.cs:222 | a number beyond Int32 does not parse |
| DotNetText.WrapInt32 | src/CodeReviewBot.API/Strategies/BaseCodeAnalysisStrategy.cs:82 | the wrapped value is in the Int32 range, congruent to the input modulo 2^32, and equal to it when it is in range |
| DotNetText.OrdinalLessIrreflexive | src/CodeReviewBot.API/Strategies/BaseCodeAnalysisStrategy.cs:168 | no key sorts before itself |
| DotNetText.OrdinalLessTransitive | src/CodeReviewBot.API/Strategies/BaseCodeAnalysisStrategy.cs:168 | the key order is transitive |
| DotNetText.OrdinalLessTotal | src/CodeReviewBot.API/Strategies/BaseCodeAnalysisStrategy.cs:168 | of two different keys one sorts first |
| DotNetText.OrdinalLessAsymmetric | src/CodeReviewBot.API/Strategies/BaseCodeAnalysisStrategy.cs:168 | two keys never sort before each other |
| DotNetText.GetFileName | src/CodeReviewBot.API/Strategies/BaseCodeAnalysisStrategy.cs:93 | the base name is a suffix of the path without `/`, preceded by `/` whenever it is not the whole path |
| Linq.SelectSome | src/CodeReviewBot.API/Strategies/BaseCodeAnalysisStrategy.cs:206-208 | a select that drops the null results gives no more results than inputs |
| Linq.SelectSomeAppend | src/CodeReviewBot.API/Strategies/BaseCodeAnalysisStrategy.cs:206-208 | each input contributes its own results, independently of the others |
| Linq.WithKey | src/CodeReviewBot.API/Strategies/BaseCodeAnalysisStrategy.cs:237 | the elements with a key are no more than the input, and all have that key |
| Linq.GroupIndex | src/CodeReviewBot.API/Strategies/BaseCodeAnalysisStrategy.cs:237 | the index found is the group with the key, or -1 when no group has it |
| Linq.AddToGroup | src/CodeReviewBot.API/Strategies/BaseCodeAnalysisStrategy.cs:237 | an element joins the end of its key's group, or opens a new last group |
| Linq.TotalSizeUpdate | src/CodeReviewBot.API/Strategies/BaseCodeAnalysisStrategy.cs:237 | replacing a group changes the total size by the difference of the sizes |
| Linq.GroupByKeysDistinct | src/CodeReviewBot.API/Strategies/BaseCodeAnalysisStrategy.cs:167 | no two groups share a key |
| Linq.GroupByContents | src/CodeReviewBot.API/Strategies/BaseCodeAnalysisStrategy.cs:167 | every group is non-empty and holds exactly the input elements with its key, in input order |
| Linq.WithKeyAbsent | src/CodeReviewBot.API/Strategies/BaseCodeAnalysisStrategy.cs:237 | a key without a group has no elements |
| Linq.GroupByCoversKeys | src/CodeReviewBot.API/Strategies/BaseCodeAnalysisStrategy.cs:167 | a key has a group exactly when some element has that key |
| Linq.GroupBy | src/CodeReviewBot.API/Strategies/BaseCodeAnalysisStrategy.cs:167 | the group sizes add up to the number of elements grouped |
| Linq.Firsts | src/CodeReviewBot.API/Strategies/BaseCodeAnalysisStrategy.cs:238 | one element per group, the group's first |
| Linq.FirstsAddToGroup | src/CodeReviewBot.API/Strategies/BaseCodeAnalysisStrategy.cs:237-238 | adding an element leaves the first elements alone, except that a new key contributes the element at the end |
| Linq.WithKeyAppend | src/CodeReviewBot.API/Strategies/BaseCodeAnalysisStrategy.cs:237 | filtering by key distributes over concatenation |
| Linq.WithKeySnoc | src/CodeReviewBot.API/Strategies/BaseCodeAnalysisStrategy.cs:237 | a last element is kept exactly when it has the key |
| Linq.WithKeyNone | src/CodeReviewBot.API/Strategies/BaseCodeAnalysisStrategy.cs:237 | when no element has the key, none is kept |
| Linq.WithKeyTwice | src/CodeReviewBot.API/Strategies/BaseCodeAnalysisStrategy.cs:174-175 | filtering twice by the same key is filtering once, and by two different keys keeps nothing |
| Linq.InsertByKey | src/CodeReviewBot.API/Strategies/BaseCodeAnalysisStrategy.cs:175 | inserting adds exactly one element |
| Linq.OrderBy | src/CodeReviewBot.API/Strategies/BaseCodeAnalysisStrategy.cs:175 | sorting keeps the length |
| Linq.InsertBetween | src/CodeReviewBot.API/Strategies/BaseCodeAnalysisStrategy.cs:175 | an element goes after every element whose key is not above its own, and before the larger ones |
| Linq.BucketsKeys | src/CodeReviewBot.API/Strategies/BaseCodeAnalysisStrategy.cs:175 | the reference ordering over a key range holds only elements with keys in the range |
| Linq.BucketsSplit | src/CodeReviewBot.API/Strategies/BaseCodeAnalysisStrategy.cs:175 | the reference ordering over a range is the orderings of its two halves, one after the other |
| Linq.BucketsSnocOutside | src/CodeReviewBot.API/Strategies/BaseCodeAnalysisStrategy.cs:175 | an element whose key is outside the range does not appear |
| Linq.BucketsSnocLast | src/CodeReviewBot.API/Strategies/BaseCodeAnalysisStrategy.cs:175 | a last input element with the range's top key comes last |
| Linq.OrderByIsBuckets | src/CodeReviewBot.API/Strategies/BaseCodeAnalysisStrategy.cs:175 | the stable sort equals the reference ordering: every element of key 0 in input order, then of key 1, and so on |
| Linq.BucketsOfNothing | src/CodeReviewBot.API/Strategies/BaseCodeAnalysisStrategy.cs:175 | ordering nothing gives nothing |
| Linq.BucketsSorted | src/CodeReviewBot.API/Strategies/BaseCodeAnalysisStrategy.cs:175 | the reference ordering is sorted by key |
| Linq.OrderBySorted | src/CodeReviewBot.API/Strategies/BaseCodeAnalysisStrategy.cs:175 | the sort's keys never decrease |
| Linq.BucketsFilter | src/CodeReviewBot.API/Strategies/BaseCodeAnalysisStrategy.cs:175 | the elements of one key in the reference ordering are that key's input elements in input order |
| Linq.OrderByStable | src/CodeReviewBot.API/Strategies/BaseCodeAnalysisStrategy.cs:175 | elements with equal keys keep their input order |
| Linq.OrderByPermutation | src/CodeReviewBot.API/Strategies/BaseCodeAnalysisStrategy.cs:175 | the sort is a permutation of its input |
| Linq.InsertByKeyPermutation | src/CodeReviewBot.API/Strategies/BaseCodeAnalysisStrategy.cs:175 | inserting adds the element to the multiset and nothing else |
| Linq.WithKeyMembers | src/CodeReviewBot.API/Strategies/BaseCodeAnalysisStrategy.cs:237 | an element is kept exactly when it is in the input and has the key |
| Linq.WithKeySubsequence | src/CodeReviewBot.API/Strategies/BaseCodeAnalysisStrategy.cs:237 | the kept elements are a subsequence of the input |
| FindingParser.ParseCommentLine | src/CodeReviewBot.API/Strategies/BaseCodeAnalysisStrategy.cs:214-232 | every parsed line number is positive and fits in an Int32 |
| FindingParser.ParseCommentLineFields | src/CodeReviewBot.API/Strategies/BaseCodeAnalysisStrategy.cs:214-232 | a finding is produced exactly when the trimmed line has five pieces or more and the second parses to a positive Int32; the file name is the first piece with brackets trimmed from both ends, and the category and severity are the third and fourth pieces trimmed |
| FindingParser.ParseCommentLineMessage | src/CodeReviewBot.API/Strategies/BaseCodeAnalysisStrategy.cs:219-230 | the message is the trimmed rest of the line after the fourth separator, separators included |
| FindingParser.MessageIsLastPiece | src/CodeReviewBot.API/Strategies/BaseCodeAnalysisStrategy.cs:219-230 | the message is the trimmed fifth piece of the five-piece split |
| FindingParser.NonEmpty | src/CodeReviewBot.API/Strategies/BaseCodeAnalysisStrategy.cs:206 | the kept pieces are non-empty pieces of the input |
| FindingParser.NonEmptyAppend | src/CodeReviewBot.API/Strategies/BaseCodeAnalysisStrategy.cs:206 | dropping empty pieces distributes over concatenation |
| FindingParser.ResponseLines | src/CodeReviewBot.API/Strategies/BaseCodeAnalysisStrategy.cs:206 | the reply's lines are non-empty and contain no `\r` or `\n` |
| FindingParser.RemoveDuplicateComments | src/CodeReviewBot.API/Strategies/BaseCodeAnalysisStrategy.cs:234-240 | deduplication never adds a finding |
| FindingParser.GroupsNoLargerThanInput | src/CodeReviewBot.API/Strategies/BaseCodeAnalysisStrategy.cs:237-238 | there are no more groups than findings |
| FindingParser.ParseLinesAppend | src/CodeReviewBot.API/Strategies/BaseCodeAnalysisStrategy.cs:206-208 | the findings of two runs of lines are each run's findings, in order |
| FindingParser.ParseLinesOne | src/CodeReviewBot.API/Strategies/BaseCodeAnalysisStrategy.cs:207-208 | one line gives its own finding or nothing |
| FindingParser.BlankLineIgnored | src/CodeReviewBot.API/Strategies/BaseCodeAnalysisStrategy.cs:216-217 | a line of white space gives no finding |
| FindingParser.ResponseLinesAppend | src/CodeReviewBot.API/Strategies/BaseCodeAnalysisStrategy.cs:206 | the lines of a reply split at a line break are the lines of each side |
| FindingParser.ParseAIResponse | src/CodeReviewBot.API/Strategies/BaseCodeAnalysisStrategy.cs:204-212 | the findings of the reply's lines with one finding per duplicate key: every key of the parsed lines is kept and no two results share a key |
| FindingParser.ParseAIResponseByParts | src/CodeReviewBot.API/Strategies/BaseCodeAnalysisStrategy.cs:204-212 | the findings of a reply are those of its two sides, in order, deduplicated together |
| FindingParser.ParseAIResponseOneLine | src/CodeReviewBot.API/Strategies/BaseCodeAnalysisStrategy.cs:204-212 | a one-line reply gives exactly that line's finding, if any |
| FindingParser.KeysAppend | src/CodeReviewBot.API/Strategies/BaseCodeAnalysisStrategy.cs:237 | the keys of a list grow by the key of an appended finding |
| FindingParser.RemoveDuplicatesKeepsFirst | src/CodeReviewBot.API/Strategies/BaseCodeAnalysisStrategy.cs:234-240 | the first of every group, groups in first-occurrence order, is each finding whose key was not seen before it |
| FindingParser.KeepFirstIsSubsequence | src/CodeReviewBot.API/Strategies/BaseCodeAnalysisStrategy.cs:234-240 | the output is a subsequence of the input |
| FindingParser.KeepFirstKeys | src/CodeReviewBot.API/Strategies/BaseCodeAnalysisStrategy.cs:234-240 | the output has every key of the input, and no two outputs share (FileName, LineNumber, Category, Message) |
| FindingParser.KeepFirstKeepsFirstOccurrence | src/CodeReviewBot.API/Strategies/BaseCodeAnalysisStrategy.cs:238 | every output is the first finding of its key in the input |
| FindingParser.KeepFirstOfDistinct | src/CodeReviewBot.API/Strategies/BaseCodeAnalysisStrategy.cs:234-240 | a list without duplicate keys is left unchanged |
| FindingParser.RemoveDuplicatesIdempotent | src/CodeReviewBot.API/Strategies/BaseCodeAnalysisStrategy.cs:234-240 | deduplicating twice is deduplicating once |
| FindingParser.UnbracketName | src/CodeReviewBot.API/Strategies/BaseCodeAnalysisStrategy.cs:226 | `[name]` loses its brackets and gives the name back when the name has no bracket at either end |
| FindingParser.TrimEmptyBrackets | src/CodeReviewBot.API/Strategies/BaseCodeAnalysisStrategy.cs:226 | `[]` trims to the empty name |
| FindingParser.TrimBracketed | src/CodeReviewBot.API/Strategies/BaseCodeAnalysisStrategy.cs:226 | a bracketed name loses exactly its outer brackets |
| FindingParser.ReadFromParts | src/CodeReviewBot.API/Strategies/BaseCodeAnalysisStrategy.cs:214-232 | a trimmed line whose five pieces read as the fields of a finding parses to that finding |
| FindingParser.SplitNPeel | src/CodeReviewBot.API/Strategies/BaseCodeAnalysisStrategy.cs:219 | a leading field without separators is peeled off as the first piece |
| FindingParser.SplitNJoined | src/CodeReviewBot.API/Strategies/BaseCodeAnalysisStrategy.cs:219 | fields joined by single separators, all but the last free of separators, split back into the fields |
| FindingParser.JoinedEnds | src/CodeReviewBot.API/Strategies/BaseCodeAnalysisStrategy.cs:216 | a joined line begins with the first field's first character and ends with the last field's last character |
| FindingParser.JoinedEndsLast | src/CodeReviewBot.API/Strategies/BaseCodeAnalysisStrategy.cs:216 | a joined line ends with the last field's last character |
| FindingParser.PrefixFieldsUnseparated | src/CodeReviewBot.API/Strategies/BaseCodeAnalysisStrategy.cs:219 | a bracketed name without separators and a printed line number contain no separator |
| FindingParser.PromptFormatPieces | src/CodeReviewBot.API/Helpers/Prompt.cs:19 | a line in the prompt's format splits into the bracketed name, the number, the category, an empty piece, and the severity, ` - ` and the message together |
| FindingParser.PromptFormatLosesSeverity | src/CodeReviewBot.API/Strategies/BaseCodeAnalysisStrategy.cs:219-230 | a line in the prompt's own format parses with an empty severity and with the severity, ` - ` and the message as the message |
| FindingParser.ReadPromptPieces | src/CodeReviewBot.API/Strategies/BaseCodeAnalysisStrategy.cs:222-230 | the pieces of a prompt-format line read as that finding |
| FindingParser.PromptFormatTrimmed | src/CodeReviewBot.API/Strategies/BaseCodeAnalysisStrategy.cs:216 | a prompt-format line is non-empty and untouched by the trim |
| FindingParser.MessageKeepsSeverity | src/CodeReviewBot.API/Strategies/BaseCodeAnalysisStrategy.cs:230 | trimming the last piece keeps the severity, ` - ` and the message |
| FindingParser.SpacedLinePieces | src/CodeReviewBot.API/Strategies/BaseCodeAnalysisStrategy.cs:219 | a line with single-space separated fields splits into those five fields |
| FindingParser.SpacedLineRoundTrip | src/CodeReviewBot.API/Strategies/BaseCodeAnalysisStrategy.cs:214-232 | `[file]:line CATEGORY SEVERITY message` parses back to exactly those five fields |
| FindingParser.ReadSpacedPieces | src/CodeReviewBot.API/Strategies/BaseCodeAnalysisStrategy.cs:222-230 | the pieces of a spaced line read as that finding |
| FindingParser.SpacedLineTrimmed | src/CodeReviewBot.API/Strategies/BaseCodeAnalysisStrategy.cs:216 | a spaced line is non-empty and untouched by the trim |
| FindingParser.HyphenatedFileNameDropped | src/CodeReviewBot.API/Strategies/BaseCodeAnalysisStrategy.cs:219-222 | a bracketed file name with one `-` and no other separator is cut at it, so the second piece ends in `]`, is no number, and the line gives no finding |
| FindingParser.HyphenatedDigitsMisread | src/CodeReviewBot.API/Strategies/BaseCodeAnalysisStrategy.cs:214-232 | a bracketed file name with two `-` around a run of digits is misread, not dropped: the name's head becomes the file, the digits the line number, the tail with its `]` the category, the real line number the severity and the rest the message |
| FindingParser.HyphenatedPieces | src/CodeReviewBot.API/Strategies/BaseCodeAnalysisStrategy.cs:219 | such a line splits into `[head`, the digits, `tail]`, the line number and the rest |
| FindingParser.ReadHyphenatedPieces | src/CodeReviewBot.API/Strategies/BaseCodeAnalysisStrategy.cs:222-230 | those pieces read as that misread finding |
| FindingParser.OpenBracketName | src/CodeReviewBot.API/Strategies/BaseCodeAnalysisStrategy.cs:226 | `Trim('[', ']')` of `[name` is the name when the name has no bracket at either end |
| CommentFormatting.GetSeverityOrder | src/CodeReviewBot.API/Strategies/BaseCodeAnalysisStrategy.cs:188-194 | the rank is at most 3, and it is 0, 1 or 2 exactly for HIGH, MEDIUM or LOW |
| CommentFormatting.GetSeverityEmoji | src/CodeReviewBot.API/Strategies/BaseCodeAnalysisStrategy.cs:196-202 | HIGH, MEDIUM and LOW get 🔴, 🟡 and 🟢, and any other severity gets ℹ️ |
| CommentFormatting.EmojiFollowsRank | src/CodeReviewBot.API/Strategies/BaseCodeAnalysisStrategy.cs:188-202 | the emoji is determined by the rank, and two severities share an emoji exactly when they share a rank |
| CommentFormatting.InsertGroup | src/CodeReviewBot.API/Strategies/BaseCodeAnalysisStrategy.cs:168 | inserting adds exactly one group |
| CommentFormatting.OrderByCategory | src/CodeReviewBot.API/Strategies/BaseCodeAnalysisStrategy.cs:168 | ordering keeps the number of groups |
| CommentFormatting.InsertGroupPermutation | src/CodeReviewBot.API/Strategies/BaseCodeAnalysisStrategy.cs:168 | inserting adds the group and nothing else |
| CommentFormatting.OrderByCategoryPermutation | src/CodeReviewBot.API/Strategies/BaseCodeAnalysisStrategy.cs:168 | ordering the groups is a permutation |
| CommentFormatting.InsertGroupAscending | src/CodeReviewBot.API/Strategies/BaseCodeAnalysisStrategy.cs:168 | inserting a new key into ascending groups keeps them ascending |
| CommentFormatting.OrderByCategoryAscending | src/CodeReviewBot.API/Strategies/BaseCodeAnalysisStrategy.cs:168 | groups with distinct keys come out in strictly ascending key order |
| CommentFormatting.CategoryGroupIsGroup | src/CodeReviewBot.API/Strategies/BaseCodeAnalysisStrategy.cs:167-168 | every ordered group is one of the category groups |
| CommentFormatting.CategoryGroups | src/CodeReviewBot.API/Strategies/BaseCodeAnalysisStrategy.cs:167-168 | the category groups come in strictly ascending ordinal order of their keys, so each category has one group, and together they hold every comment |
| CommentFormatting.CategoriesPresent | src/CodeReviewBot.API/Strategies/BaseCodeAnalysisStrategy.cs:167-172 | a category has a group exactly when some finding has that category |
| CommentFormatting.CategoryGroupContents | src/CodeReviewBot.API/Strategies/BaseCodeAnalysisStrategy.cs:167-172 | each group is non-empty and holds exactly the findings of its category, in input order |
| CommentFormatting.SeverityOrdered | src/CodeReviewBot.API/Strategies/BaseCodeAnalysisStrategy.cs:174-175 | within a category the severity rank never decreases, findings of equal rank keep input order, and the ordering is a permutation |
| CommentFormatting.CommentLines | src/CodeReviewBot.API/Strategies/BaseCodeAnalysisStrategy.cs:177-180 | one line per finding |
| CommentFormatting.CommentLinesAt | src/CodeReviewBot.API/Strategies/BaseCodeAnalysisStrategy.cs:179 | the line of a finding is its severity's emoji, its severity in bold, a colon and its message |
| CommentFormatting.RenderLinesCount | src/CodeReviewBot.API/Strategies/BaseCodeAnalysisStrategy.cs:170-183 | the rendering has one line per finding and two per group (header and empty line) |
| CommentFormatting.InsertGroupSize | src/CodeReviewBot.API/Strategies/BaseCodeAnalysisStrategy.cs:168 | inserting a group adds its findings to the total |
| CommentFormatting.OrderByCategorySize | src/CodeReviewBot.API/Strategies/BaseCodeAnalysisStrategy.cs:168 | ordering the groups keeps the total number of findings |
| CommentFormatting.RenderedLineCount | src/CodeReviewBot.API/Strategies/BaseCodeAnalysisStrategy.cs:164-183 | exactly one line per finding plus a header and an empty line per category |
| CommentFormatting.TerminatedSnoc | src/CodeReviewBot.API/Strategies/BaseCodeAnalysisStrategy.cs:179 | appending a line and a line break extends the terminated text by that line |
| CommentFormatting.BuilderStep | src/CodeReviewBot.API/Strategies/BaseCodeAnalysisStrategy.cs:179 | one AppendLine on the builder adds one line to the rendered lines |
| CommentFormatting.RenderLinesStep | src/CodeReviewBot.API/Strategies/BaseCodeAnalysisStrategy.cs:170-183 | one more group renders as the lines so far followed by that group's lines |
| CommentFormatting.TerminatedGroup | src/CodeReviewBot.API/Strategies/BaseCodeAnalysisStrategy.cs:172-182 | a group renders as its header line, its finding lines and an empty line |
| CommentFormatting.AppendCommentLines | src/CodeReviewBot.API/Strategies/BaseCodeAnalysisStrategy.cs:177-180 | the builder grows by each finding's line and a line break, in order |
| CommentFormatting.AppendGroup | src/CodeReviewBot.API/Strategies/BaseCodeAnalysisStrategy.cs:172-182 | the builder grows by the group's header, its severity-ordered lines and an empty line |
| CommentFormatting.RenderedText | src/CodeReviewBot.API/Strategies/BaseCodeAnalysisStrategy.cs:170-183 | the built text is empty exactly when there are no comments, and otherwise ends in a line break |
| CommentFormatting.FormatGroupedComments | src/CodeReviewBot.API/Strategies/BaseCodeAnalysisStrategy.cs:164-186 | the result is the rendering of the ascending category groups with trailing white space trimmed: a prefix of the rendering that does not end in white space |
| CommentPlanning.IsFileModified | src/CodeReviewBot.API/Strategies/BaseCodeAnalysisStrategy.cs:41-42 | true exactly for the statuses "modified" and "added" |
| CommentPlanning.IsAddedLine | src/CodeReviewBot.API/Strategies/BaseCodeAnalysisStrategy.cs:79 | a line is an added line exactly when it starts with `+` and not with `++` |
| CommentPlanning.GetAddedLines | src/CodeReviewBot.API/Strategies/BaseCodeAnalysisStrategy.cs:75-85 | lists exactly the added lines of the chunk, in line order, each with its index and the line number `NewStart + index - 1` |
| CommentPlanning.AddedAmongSound | src/CodeReviewBot.API/Strategies/BaseCodeAnalysisStrategy.cs:75-85 | every listed line starts with "+" and not "++", its number is `NewStart + index - 1` in 32-bit arithmetic, and the list is in line order |
| CommentPlanning.AddedAmongComplete | src/CodeReviewBot.API/Strategies/BaseCodeAnalysisStrategy.cs:75-85 | no added line is missed |
| CommentPlanning.AddedAmongExact | src/CodeReviewBot.API/Strategies/BaseCodeAnalysisStrategy.cs:75-85 | an index is listed exactly when its line is an added line, and every listed number is `NewStart + index - 1` |
| CommentPlanning.AddedLinesExact | src/CodeReviewBot.API/Strategies/BaseCodeAnalysisStrategy.cs:75-85 | the same for a chunk: exactly its added lines, each numbered `NewStart + index - 1`, where the header is index 0 |
| CommentPlanning.FirstAddedAmong | src/CodeReviewBot.API/Strategies/BaseCodeAnalysisStrategy.cs:56-64 | the first listed index is the chunk's first added line |
| CommentPlanning.AddedAmongSnoc | src/CodeReviewBot.API/Strategies/BaseCodeAnalysisStrategy.cs:78-83 | one more line is listed exactly when it is an added line, numbered from its index |
| CommentPlanning.OneAddedAmongFour | src/CodeReviewBot.API/Strategies/BaseCodeAnalysisStrategy.cs:82 | in four lines with only the third added, that line is listed with index 2 and number `NewStart + 1` |
| CommentPlanning.RemovedLinesCounted | src/CodeReviewBot.API/Strategies/BaseCodeAnalysisStrategy.cs:82 | a removed line before an added line still counts: header, `-` line, `+` line gives index 2 and number `NewStart + 1` |
| CommentPlanning.MatchesChunk | src/CodeReviewBot.API/Strategies/BaseCodeAnalysisStrategy.cs:93-94 | a finding matches only when the chunk has added lines; its file name, equal ignoring ASCII case to the last path segment, is then no longer than the path |
| CommentPlanning.GetCommentsForChunk | src/CodeReviewBot.API/Strategies/BaseCodeAnalysisStrategy.cs:87-96 | the chunk's findings are no more than the analysis results |
| CommentPlanning.ChunkCommentsExact | src/CodeReviewBot.API/Strategies/BaseCodeAnalysisStrategy.cs:87-96 | a finding belongs to the chunk exactly when its name equals the file's base name ignoring case and its line number is one of the added line numbers; the findings keep the order of the analysis results |
| CommentPlanning.PostAll | src/CodeReviewBot.API/Strategies/BaseCodeAnalysisStrategy.cs:109-121 | one posted comment per planned comment |
| CommentPlanning.ChunkCommentsNonEmpty | src/CodeReviewBot.API/Strategies/BaseCodeAnalysisStrategy.cs:87-96 | a chunk has findings exactly when some finding matches the file and an added line, which requires an added line |
| CommentPlanning.PlanChunk | src/CodeReviewBot.API/Strategies/BaseCodeAnalysisStrategy.cs:56-71 | a chunk gets a comment exactly when some finding matches the file and one of its added lines; the comment is on the file, carries the chunk text and the non-empty matching findings, and sits at the chunk's first added line |
| CommentPlanning.PlanChunksCompose | src/CodeReviewBot.API/Strategies/BaseCodeAnalysisStrategy.cs:54-72 | at most one comment per chunk, and the comments of two runs of chunks are each run's comments, in chunk order |
| CommentPlanning.PlanChunksStep | src/CodeReviewBot.API/Strategies/BaseCodeAnalysisStrategy.cs:54-72 | one more chunk adds its comment, if any, at the end |
| CommentPlanning.PostAllOption | src/CodeReviewBot.API/Strategies/BaseCodeAnalysisStrategy.cs:62-71 | posting one optional comment more extends the posted list by it |
| CommentPlanning.PostChunksStep | src/CodeReviewBot.API/Strategies/BaseCodeAnalysisStrategy.cs:54-72 | one more chunk adds its posted comment, if any, at the end |
| CommentPlanning.CommentForChunk | src/CodeReviewBot.API/Strategies/BaseCodeAnalysisStrategy.cs:56-71 | one loop iteration posts exactly the comment planned for the chunk, or nothing |
| CommentPlanning.CreateCommentsForFile | src/CodeReviewBot.API/Strategies/BaseCodeAnalysisStrategy.cs:44-73 | the comments posted for the file are the plan for its chunks, in chunk order |
| CommentPlanning.PlanFile | src/CodeReviewBot.API/Strategies/BaseCodeAnalysisStrategy.cs:29-37 | parsing a file's patch fails only for a modified file with an overflowing hunk start; otherwise the file gets at most one comment per chunk |
| CommentPlanning.ReviewFile | src/CodeReviewBot.API/Strategies/BaseCodeAnalysisStrategy.cs:29-38 | one iteration of the per-file loop: an unreviewed file posts nothing, a header overflow fails, and otherwise the plan for the parsed chunks is posted |
| CommentPlanning.UnmodifiedFilesSkipped | src/CodeReviewBot.API/Strategies/BaseCodeAnalysisStrategy.cs:31 | a file that is neither modified nor added gets no comment |
| PrUrl.StripSlashes | src/CodeReviewBot.API/Helpers/StringFormatHelper.cs:39-40 | the stripped segment is a prefix of the segment and does not end in `/` |
| PrUrl.NumberOf | src/CodeReviewBot.API/Helpers/StringFormatHelper.cs:41 | a parsed number is in the Int32 range |
| PrUrl.ParseGitHubPrUrl | src/CodeReviewBot.API/Helpers/StringFormatHelper.cs:28-47 | "Invalid GitHub PR URL format." exactly when there are fewer than 5 segments or the fourth is not "pull" up to trailing slashes; "Invalid PR number in URL." exactly when the shape is right but the fifth does not parse; otherwise owner and repository are the second and third segments without trailing slashes, and the number is the parsed fifth |
| PrUrl.StripOneSlash | src/CodeReviewBot.API/Helpers/StringFormatHelper.cs:39-40 | a name not ending in `/` is read back from itself and from itself followed by `/` |
| PrUrl.ParseReads | src/CodeReviewBot.API/Helpers/StringFormatHelper.cs:34-46 | segments whose stripped parts read as an owner, a repository and a number parse to exactly those |
| PrUrl.PullSegmentsRead | src/CodeReviewBot.API/Helpers/StringFormatHelper.cs:34-41 | the segments of `/owner/repo/pull/number` strip to the owner, the repository, "pull" and the number text |
| PrUrl.ParsePullSegmentsText | src/CodeReviewBot.API/Helpers/StringFormatHelper.cs:28-47 | built segments whose number text parses give back the owner, the repository and the number |
| PrUrl.ParsePullSegments | src/CodeReviewBot.API/Helpers/StringFormatHelper.cs:28-47 | round trip: the segments of a URL built from an owner, a repository and a number in range parse back to those three |
| PrUrl.ParseExampleUrl | src/CodeReviewBot.API/Helpers/StringFormatHelper.cs:32 | the segments of https://github.com/owner/repo/pull/123 give ("owner", "repo", 123) |
| PrUrl.NegativeNumberAccepted | src/CodeReviewBot.API/Helpers/StringFormatHelper.cs:41-46 | no positivity check: a number segment made of a minus sign and digits that fit is returned as the negated pull-request number |
| PrUrl.OtherSegmentsIgnored | src/CodeReviewBot.API/Helpers/StringFormatHelper.cs:31-46 | the root segment and any segments after the fifth do not affect the result |
| StrategyFactory.FirstIndex | src/CodeReviewBot.API/Strategies/CodeAnalysisStrategyFactory.cs:17 | the index found is the first entry registered for the type, and none is found exactly when no entry has that type |
| StrategyFactory.CodeAnalysisStrategyFactory.GetStrategy | src/CodeReviewBot.API/Strategies/CodeAnalysisStrategyFactory.cs:15-19 | the strategy returned has the requested model type and is the first registered for it; the lookup fails, with "No strategy found for model type <type>", exactly when none is registered |
| StrategyFactory.GetStrategyFirstMatch | src/CodeReviewBot.API/Strategies/CodeAnalysisStrategyFactory.cs:17 | the first entry registered for the type is the one handed out |
| StrategyFactory.LaterRegistrationsIgnored | src/CodeReviewBot.API/Strategies/CodeAnalysisStrategyFactory.cs:15-18 | strategies registered after a match do not change which strategy is handed out |
| StrategyFactory.OneStrategyPerBackEnd | src/CodeReviewBot.API/Program.cs:22-23 | with one strategy per back end, each requested type gets its own strategy |

## Left out

- Network and service calls are not modelled: GitHub access, the AI back ends' HTTP requests and
  the UI's calls. The AI's reply enters the model as the text `ParseAIResponse` reads, and the
  posted review comments leave it as `ReviewComment` values.
- The async orchestration of `AnalyzeAndReviewPR` is not modelled, nor its fetching of the pull
  request and creation of the review. One iteration of its file loop is `ReviewFile`.
  `AnalyzeCodeWithPrompt` results are an input.
- `CreateCommentForChunk` is reduced to the comment it would post (path, body, diff hunk,
  position). The commit SHA, owner, repository, number and review id are passed through to
  GitHub unchanged, so the model drops them.
- Path segments are the input of `ParseGitHubPrUrl`. `Uri.UnescapeDataString` and `new Uri`
  (the URL syntax and its exceptions) are not modelled.
- `StringFormatHelper.Format` and the HTML formatting of the AI reply are not modelled; they
  depend on `WebUtility.HtmlDecode`.
- Program.cs wiring, the prompt text constants, the temperature and top_p settings, the
  `ICodeAnalysisStrategy` interface and the unused enums in ReviewEnums.cs are not modelled.
- `\d` in the hunk-header pattern is taken as the ASCII digits 0-9; .NET also matches other
  Unicode decimal digits. For the line `@@ -1 +٣ @@` (an Arabic-Indic three) the .NET pattern
  matches and `int.Parse` at BaseCodeAnalysisStrategy.cs:159 throws `FormatException`, so
  `ParseDiffInfo` throws; the model finds no match there and gives the chunk NewStart 0.
- ParseDiffInfo: the header test `line.StartsWith("@@")` (BaseCodeAnalysisStrategy.cs:132) is the
  one-argument .NET overload, which compares under the current culture and ignores zero-width
  code points such as U+200B, U+00AD and U+0000. The model compares ordinally, so a line such as
  `\u200B@@ -1 +1 @@` opens a chunk in .NET but not in the model.
- IsHunkHeader: ordinal `StartsWith("@@")`, where the source's test is culture-sensitive as above.
- IsAddedLine: ordinal `StartsWith("+")` and `StartsWith("++")`, where the source's tests
  (BaseCodeAnalysisStrategy.cs:79) are culture-sensitive: `+\u200B+x` starts with `++` under the
  current culture, so .NET does not count it as added, while the model does.
- AddedLinesExact: states the added lines under the ordinal `IsAddedLine` above, so it is weaker
  than the source's behaviour on lines holding ignorable code points near their start.
- `OrderBy(g => g.Key)` uses the current culture's string comparison. The model uses ordinal
  order.
- `OrdinalIgnoreCase` is modelled as ASCII case folding.
- `Path.GetFileName` is modelled as the text after the last `/`.
- `AppendLine` writes `Environment.NewLine`; the model writes `"\n"`.
- Strings are sequences of characters. UTF-16 surrogate pairs are not treated specially.
- A `null` patch (a binary file) is not modelled: `patch.Split` would throw on it.
- `Int32.TryParse` is modelled with the default integer style in an invariant culture: trailing
  `\0` characters dropped, then white space, an optional sign, ASCII digits and white space.
  Culture-specific signs are not modelled.
- The LINQ operators are modelled as sequence functions. Their deferred evaluation is not
  modelled; it changes nothing here because every query is consumed once.
- Repeated calls of `GetStrategy` return the same strategy. This holds because the factory is an
  immutable value and the lookup is a function. No separate lemma states it.
