/**
 * The hunk-header regular expression `@@ -\d+,?\d* \+(\d+),?\d* @@` of CreateNewChunk and the
 * search `Regex.Match` makes with it: the leftmost position where the pattern matches, and the
 * text of its one capture group (the new-file start line).
 */
module HunkHeader {
  import opened Outcomes
  import opened DotNetText

  /** The length of the run of digits that `t` starts with. */
  function DigitRun(t: string): (n: nat)
    ensures n <= |t| && AllDigits(t[..n])
    ensures n == |t| || !IsAsciiDigit(t[n])
  {
    if t != [] && IsAsciiDigit(t[0]) then
      var n := 1 + DigitRun(t[1..]);
      assert t[..n] == [t[0]] + t[1..][..n - 1];
      n
    else 0
  }

  /** What is left of `t` after `,?\d*`: an optional comma, then every digit after it. */
  function SkipCount(t: string): (r: string)
    ensures |r| <= |t| && r == t[|t| - |r|..]
  {
    var u := if t != [] && t[0] == ',' then t[1..] else t;
    u[DigitRun(u)..]
  }

  /**
   * The capture of the pattern when it matches at the start of `t`. Anchored, the greedy
   * pattern gains nothing by backtracking: a shorter digit run leaves a digit where the pattern
   * needs ',' or ' ', so every run is taken whole and the capture is the whole number.
   */
  function MatchHere(t: string): (r: Option<string>)
    ensures r.Some? ==> r.value != [] && AllDigits(r.value)
  {
    if !StartsWith(t, "@@ -") then None
    else
      var oldPart := t[4..];
      var oldDigits := DigitRun(oldPart);
      var afterOld := SkipCount(oldPart[oldDigits..]);
      if oldDigits == 0 || !StartsWith(afterOld, " +") then None
      else
        var newPart := afterOld[2..];
        var newDigits := DigitRun(newPart);
        var afterNew := SkipCount(newPart[newDigits..]);
        if newDigits == 0 || !StartsWith(afterNew, " @@") then None
        else Some(newPart[..newDigits])
  }

  /** `Regex.Match`: the capture at the leftmost position of `s` where the pattern matches. */
  function Search(s: string): (r: Option<string>)
    ensures r.Some? ==> r.value != [] && AllDigits(r.value)
  {
    match MatchHere(s)
    case Some(d) => Some(d)
    case None => if s == [] then None else Search(s[1..])
  }

  /** The pattern matches nowhere in `s`. */
  ghost predicate MatchesNowhere(s: string) {
    forall i :: 0 <= i <= |s| ==> MatchHere(s[i..]).None?
  }

  /** The pattern matches at position `i` of `s` with capture `r`, and at no position before. */
  ghost predicate LeftmostMatch(s: string, i: int, r: Option<string>) {
    && 0 <= i <= |s| && r.Some? && MatchHere(s[i..]) == r
    && forall j :: 0 <= j < i ==> MatchHere(s[j..]).None?
  }

  /** Search finds nothing exactly when the pattern matches nowhere, and otherwise finds the leftmost match. */
  lemma SearchLeftmost(s: string)
    ensures Search(s).None? <==> MatchesNowhere(s)
    ensures Search(s).Some? ==> exists i :: LeftmostMatch(s, i, Search(s))
  {
    SearchNone(s);
    SearchFirst(s);
  }

  /** Search finds nothing exactly when the pattern matches at no position. */
  lemma {:induction false} SearchNone(s: string)
    ensures Search(s).None? <==> MatchesNowhere(s)
  {
    assert s[0..] == s;
    if MatchHere(s).None? && s != [] {
      var tail := s[1..];
      SearchNone(tail);
      forall i | 1 <= i <= |s|
        ensures s[i..] == tail[i - 1..]
      {
      }
    }
  }

  /** What Search finds is the capture at the leftmost position where the pattern matches. */
  lemma {:induction false} SearchFirst(s: string)
    ensures Search(s).Some? ==> exists i :: LeftmostMatch(s, i, Search(s))
  {
    if MatchHere(s).Some? {
      assert s[0..] == s;
      assert LeftmostMatch(s, 0, Search(s));
    } else if s != [] && Search(s).Some? {
      var tail := s[1..];
      SearchFirst(tail);
      var i :| LeftmostMatch(tail, i, Search(tail));
      LeftmostShift(s, i, Search(tail));
    }
  }

  /** A leftmost match in the tail is one position further on in the whole, when the whole does not match at its start. */
  lemma LeftmostShift(s: string, i: int, r: Option<string>)
    requires s != [] && MatchHere(s).None? && LeftmostMatch(s[1..], i, r)
    ensures LeftmostMatch(s, i + 1, r)
  {
    var tail := s[1..];
    assert s[0..] == s;
    assert s[i + 1..] == tail[i..];
    forall j | 1 <= j < i + 1
      ensures MatchHere(s[j..]).None?
    {
      assert s[j..] == tail[j - 1..];
    }
  }

  /** `n` is the number captured by the leftmost match in `line`, or 0 when the pattern matches nowhere. */
  ghost predicate ReadsNewStart(line: string, n: nat) {
    || (MatchesNowhere(line) && n == 0)
    || exists i, d :: LeftmostMatch(line, i, Some(d)) && n == DigitsValue(d)
  }

  /** NewStart of a header line: the captured number, or 0 when the pattern matches nowhere in it. */
  function NewStartOf(line: string): (r: nat)
    ensures ReadsNewStart(line, r)
  {
    SearchLeftmost(line);
    match Search(line)
    case Some(d) => DigitsValue(d)
    case None => 0
  }

  /** One side of a hunk header: the start line and, unless omitted, the line count. */
  datatype Range = Range(start: nat, count: Option<nat>)

  /** The `,<count>` part of a range, empty when the count is omitted. */
  function CountText(count: Option<nat>): string {
    match count
    case None => ""
    case Some(c) => "," + DecimalString(c)
  }

  function RangeText(r: Range): string {
    DecimalString(r.start) + CountText(r.count)
  }

  /**
   * A hunk header line in the unified format of GNU diff and `git diff`,
   * `@@ -<old range> +<new range> @@`, followed by the optional section heading text.
   */
  function HeaderLine(oldRange: Range, newRange: Range, section: string): string {
    "@@ -" + (RangeText(oldRange) + (" +" + (RangeText(newRange) + (" @@" + section))))
  }

  /** Digits followed by a non-digit (or nothing) form one whole run. */
  lemma {:induction false} DigitRunOver(d: string, rest: string)
    requires AllDigits(d)
    requires rest == [] || !IsAsciiDigit(rest[0])
    ensures DigitRun(d + rest) == |d|
  {
    if d != [] {
      assert (d + rest)[1..] == d[1..] + rest;
      DigitRunOver(d[1..], rest);
    } else {
      assert d + rest == rest;
    }
  }

  /** The count part of a range, followed by a space, is skipped exactly. */
  lemma SkipCountOver(count: Option<nat>, rest: string)
    requires rest != [] && rest[0] == ' '
    ensures SkipCount(CountText(count) + rest) == rest
  {
    match count
    case None =>
      assert CountText(count) + rest == rest;
      DigitRunOver([], rest);
      assert rest == [] + rest;
    case Some(c) =>
      var d := DecimalString(c);
      var t := CountText(count) + rest;
      assert t == [','] + (d + rest);
      assert t[1..] == d + rest;
      DigitRunOver(d, rest);
      assert (d + rest)[|d|..] == rest;
  }

  /** A range followed by a space reads as its start's digits, then the text after the range. */
  lemma RangeOver(r: Range, rest: string)
    requires rest != [] && rest[0] == ' '
    ensures var t := RangeText(r) + rest; var n := DigitRun(t);
      n == |DecimalString(r.start)| && t[..n] == DecimalString(r.start) && SkipCount(t[n..]) == rest
  {
    var d := DecimalString(r.start);
    var tail := CountText(r.count) + rest;
    var t := RangeText(r) + rest;
    assert t == d + tail;
    assert tail != [] && (tail[0] == ',' || tail[0] == ' ');
    DigitRunOver(d, tail);
    assert t[..|d|] == d && t[|d|..] == tail;
    SkipCountOver(r.count, rest);
  }

  /** The steps of an anchored match, one by one. */
  lemma MatchSteps(t: string, afterOld: string, afterNew: string, d: string)
    requires StartsWith(t, "@@ -")
    requires var oldPart := t[4..]; var n := DigitRun(oldPart);
      n > 0 && SkipCount(oldPart[n..]) == afterOld
    requires StartsWith(afterOld, " +")
    requires var newPart := afterOld[2..]; var n := DigitRun(newPart);
      n > 0 && newPart[..n] == d && SkipCount(newPart[n..]) == afterNew
    requires StartsWith(afterNew, " @@")
    ensures MatchHere(t) == Some(d)
  {
  }

  /** The pattern matches at the start of a header written in the unified format. */
  lemma HeaderMatches(oldRange: Range, newRange: Range, section: string)
    ensures MatchHere(HeaderLine(oldRange, newRange, section)) == Some(DecimalString(newRange.start))
  {
    var s := HeaderLine(oldRange, newRange, section);
    var d := DecimalString(newRange.start);
    var afterNew := " @@" + section;
    var afterOld := " +" + (RangeText(newRange) + afterNew);
    assert StartsWith(s, "@@ -") && s[4..] == RangeText(oldRange) + afterOld by {
      assert s == "@@ -" + (RangeText(oldRange) + afterOld);
    }
    assert DigitRun(s[4..]) > 0 && SkipCount(s[4..][DigitRun(s[4..])..]) == afterOld by {
      RangeOver(oldRange, afterOld);
    }
    assert StartsWith(afterOld, " +") && afterOld[2..] == RangeText(newRange) + afterNew;
    var newPart := afterOld[2..];
    assert DigitRun(newPart) > 0 && newPart[..DigitRun(newPart)] == d
      && SkipCount(newPart[DigitRun(newPart)..]) == afterNew by {
      RangeOver(newRange, afterNew);
    }
    assert StartsWith(afterNew, " @@");
    MatchSteps(s, afterOld, afterNew, d);
  }

  /** Reading a header written in the unified format gives back its new-file start line. */
  lemma HeaderRoundTrip(oldRange: Range, newRange: Range, section: string)
    ensures NewStartOf(HeaderLine(oldRange, newRange, section)) == newRange.start
  {
    HeaderMatches(oldRange, newRange, section);
  }

  /** A line in which "@@ -" occurs nowhere has NewStart 0. */
  lemma NoMatchMeansZero(line: string)
    requires forall i :: 0 <= i <= |line| ==> !StartsWith(line[i..], "@@ -")
    ensures NewStartOf(line) == 0
  {
    SearchLeftmost(line);
    assert MatchesNowhere(line);
  }
}
