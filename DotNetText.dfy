/**
 * The .NET string primitives the review strategy relies on, stated over Dafny strings:
 * `String.Split` (with and without a piece limit), `Trim`/`TrimStart`/`TrimEnd`,
 * `Char.IsWhiteSpace`, `Int32.TryParse` with the default integer number style,
 * ordinal string order, ASCII case-insensitive equality and `Path.GetFileName`.
 */
module DotNetText {
  import opened Outcomes

  const Int32Min: int := -2147483648
  const Int32Max: int := 2147483647

  /** `Char.IsWhiteSpace`: the Unicode White_Space characters. */
  predicate IsWhiteSpace(c: char) {
    || ('\t' <= c <= '\r')
    || c == ' '
    || c == '\U{0085}'
    || c == '\U{00A0}'
    || c == '\U{1680}'
    || ('\U{2000}' <= c <= '\U{200A}')
    || c == '\U{2028}'
    || c == '\U{2029}'
    || c == '\U{202F}'
    || c == '\U{205F}'
    || c == '\U{3000}'
  }

  /** The characters a trim removes. */
  datatype CharClass =
    | WhiteSpace                // String.Trim(), TrimEnd() without arguments
    | NumberWhite               // white space that number parsing skips: '\t'..'\r' and ' '
    | AnyOf(chars: set<char>)   // String.Trim('[', ']'), TrimEnd('/')
  {
    predicate Has(c: char) {
      match this
      case WhiteSpace => IsWhiteSpace(c)
      case NumberWhite => ('\t' <= c <= '\r') || c == ' '
      case AnyOf(cs) => c in cs
    }
  }

  /** `r` is the tail of `s`. */
  ghost predicate SuffixOf(r: string, s: string) {
    |r| <= |s| && r == s[|s| - |r|..]
  }

  /** `r` is the head of `s`. */
  ghost predicate PrefixOf(r: string, s: string) {
    |r| <= |s| && r == s[..|r|]
  }

  /** Removes every leading character of the class. */
  function TrimStart(s: string, cls: CharClass): (r: string)
    ensures |r| <= |s| && SuffixOf(r, s)
    ensures forall i :: 0 <= i < |s| - |r| ==> cls.Has(s[i])
    ensures r == [] || !cls.Has(r[0])
  {
    if s != [] && cls.Has(s[0]) then
      var r := TrimStart(s[1..], cls);
      assert forall i :: 1 <= i < |s| - |r| ==> s[i] == s[1..][i - 1];
      r
    else s
  }

  /** Removes every trailing character of the class. */
  function TrimEnd(s: string, cls: CharClass): (r: string)
    ensures |r| <= |s| && PrefixOf(r, s)
    ensures forall i :: |r| <= i < |s| ==> cls.Has(s[i])
    ensures r == [] || !cls.Has(r[|r| - 1])
  {
    if s != [] && cls.Has(s[|s| - 1]) then TrimEnd(s[..|s| - 1], cls) else s
  }

  /** Removes the characters of the class from both ends. */
  function Trim(s: string, cls: CharClass): (r: string)
    ensures |r| <= |s|
    ensures r == [] || (!cls.Has(r[0]) && !cls.Has(r[|r| - 1]))
  {
    TrimEnd(TrimStart(s, cls), cls)
  }

  /** One step of each trim: a first (last) character of the class is dropped, any other stops the trim. */
  lemma TrimSteps(s: string, cls: CharClass)
    ensures s != [] && cls.Has(s[0]) ==> TrimStart(s, cls) == TrimStart(s[1..], cls)
    ensures s == [] || !cls.Has(s[0]) ==> TrimStart(s, cls) == s
    ensures s != [] && cls.Has(s[|s| - 1]) ==> TrimEnd(s, cls) == TrimEnd(s[..|s| - 1], cls)
    ensures s == [] || !cls.Has(s[|s| - 1]) ==> TrimEnd(s, cls) == s
  {
  }

  /** A string that starts and ends outside the class is its own trim. */
  lemma TrimUntouched(s: string, cls: CharClass)
    requires s == [] || (!cls.Has(s[0]) && !cls.Has(s[|s| - 1]))
    ensures Trim(s, cls) == s
  {
  }

  /** A text framed by one character of the class at each end, with none just inside, trims to its inside. */
  lemma TrimOuter(s: string, cls: CharClass)
    requires |s| > 2 && cls.Has(s[0]) && cls.Has(s[|s| - 1])
    requires !cls.Has(s[1]) && !cls.Has(s[|s| - 2])
    ensures Trim(s, cls) == s[1..|s| - 1]
  {
    var t := s[1..];
    calc {
      Trim(s, cls);
      TrimEnd(TrimStart(s, cls), cls);
      { TrimStartOne(s, cls); }
      TrimEnd(t, cls);
      { TrimEndOne(t, cls); }
      t[..|t| - 1];
      s[1..|s| - 1];
    }
  }

  lemma TrimStartOne(s: string, cls: CharClass)
    requires |s| >= 2 && cls.Has(s[0]) && !cls.Has(s[1])
    ensures TrimStart(s, cls) == s[1..]
  {
    assert s[1..][0] == s[1];
  }

  lemma TrimEndOne(s: string, cls: CharClass)
    requires |s| >= 2 && cls.Has(s[|s| - 1]) && !cls.Has(s[|s| - 2])
    ensures TrimEnd(s, cls) == s[..|s| - 1]
  {
    var t := s[..|s| - 1];
    assert t[|t| - 1] == s[|s| - 2];
  }

  /**
   * Ordinal `StartsWith`. The one-argument `String.StartsWith(string)` of .NET compares under
   * the current culture, which ignores zero-width code points such as U+200B, U+00AD and U+0000;
   * this model compares character by character.
   */
  predicate StartsWith(s: string, prefix: string) {
    |prefix| <= |s| && s[..|prefix|] == prefix
  }

  /** `String.Split(char[] separators)`: every piece between separators, empty pieces included. */
  function Split(s: string, seps: set<char>): (r: seq<string>)
    ensures |r| >= 1
    ensures forall i, j :: 0 <= i < |r| && 0 <= j < |r[i]| ==> r[i][j] !in seps
  {
    if s == [] then [""]
    else if s[0] in seps then [""] + Split(s[1..], seps)
    else
      var rest := Split(s[1..], seps);
      [[s[0]] + rest[0]] + rest[1..]
  }

  /** A separator cuts the text into two parts that split independently. */
  lemma {:induction false} SplitAtSeparator(a: string, c: char, b: string, seps: set<char>)
    requires c in seps
    ensures Split(a + [c] + b, seps) == Split(a, seps) + Split(b, seps)
  {
    if a == [] {
      assert a + [c] + b == [c] + b;
      assert ([c] + b)[1..] == b;
    } else {
      var s := a + [c] + b;
      assert s[0] == a[0];
      assert s[1..] == a[1..] + [c] + b;
      SplitAtSeparator(a[1..], c, b, seps);
      JoinPieces(if a[0] in seps then None else Some(a[0]), Split(a[1..], seps), Split(b, seps));
    }
  }

  /**
   * The step of Split at a first character, applied to the pieces of two texts one after the
   * other: `None` for a separator, which starts a new piece, `Some(x)` for a character that
   * joins the first piece.
   */
  lemma JoinPieces(first: Option<char>, ra: seq<string>, rb: seq<string>)
    requires |ra| >= 1
    ensures first.None? ==> [""] + (ra + rb) == ([""] + ra) + rb
    ensures first.Some? ==>
      [[first.value] + (ra + rb)[0]] + (ra + rb)[1..] == ([[first.value] + ra[0]] + ra[1..]) + rb
  {
    if first.Some? {
      assert (ra + rb)[0] == ra[0] && (ra + rb)[1..] == ra[1..] + rb;
    }
  }

  /** Text without separators is a single piece. */
  lemma {:induction false} SplitNoSeparator(s: string, seps: set<char>)
    requires forall j :: 0 <= j < |s| ==> s[j] !in seps
    ensures Split(s, seps) == [s]
  {
    if s != [] {
      SplitNoSeparator(s[1..], seps);
      assert [s[0]] + s[1..] == s;
    }
  }

  /** Concatenation of the lines, each followed by "\n" (what `Content += line + "\n"` builds). */
  function Terminated(lines: seq<string>): string {
    if lines == [] then "" else lines[0] + "\n" + Terminated(lines[1..])
  }

  lemma {:induction false} TerminatedAppend(a: seq<string>, b: seq<string>)
    ensures Terminated(a + b) == Terminated(a) + Terminated(b)
  {
    if a != [] {
      assert (a + b)[1..] == a[1..] + b;
      TerminatedAppend(a[1..], b);
    } else {
      assert a + b == b;
    }
  }

  /** Terminated lines without line breaks split back into the lines and one empty last piece. */
  lemma {:induction false} SplitTerminatedLines(lines: seq<string>)
    requires forall i, j :: 0 <= i < |lines| && 0 <= j < |lines[i]| ==> lines[i][j] != '\n'
    ensures Split(Terminated(lines), {'\n'}) == lines + [""]
  {
    if lines == [] {
      SplitNoSeparator("", {'\n'});
    } else {
      var rest := Terminated(lines[1..]);
      forall i, j | 0 <= i < |lines[1..]| && 0 <= j < |lines[1..][i]|
        ensures lines[1..][i][j] != '\n'
      {
        assert lines[1..][i] == lines[i + 1];
      }
      calc {
        Split(Terminated(lines), {'\n'});
        { assert Terminated(lines) == lines[0] + ['\n'] + rest; }
        Split(lines[0] + ['\n'] + rest, {'\n'});
        { SplitAtSeparator(lines[0], '\n', rest, {'\n'}); }
        Split(lines[0], {'\n'}) + Split(rest, {'\n'});
        { SplitNoSeparator(lines[0], {'\n'}); SplitTerminatedLines(lines[1..]); }
        [lines[0]] + (lines[1..] + [""]);
        { assert lines == [lines[0]] + lines[1..]; }
        lines + [""];
      }
    }
  }

  /** Splitting at '\n' and terminating every piece with '\n' gives back the text plus one '\n'. */
  lemma {:induction false} SplitTerminated(s: string)
    ensures Terminated(Split(s, {'\n'})) == s + "\n"
  {
    if s != [] {
      SplitTerminated(s[1..]);
      if s[0] != '\n' {
        var rest := Split(s[1..], {'\n'});
        var pieces := [[s[0]] + rest[0]] + rest[1..];
        assert Split(s, {'\n'}) == pieces;
        assert pieces[1..] == rest[1..];
        assert Terminated(rest) == rest[0] + "\n" + Terminated(rest[1..]);
        calc {
          Terminated(pieces);
          pieces[0] + "\n" + Terminated(pieces[1..]);
          [s[0]] + (rest[0] + "\n" + Terminated(rest[1..]));
          [s[0]] + (s[1..] + "\n");
          { assert s == [s[0]] + s[1..]; }
          s + "\n";
        }
      }
    }
  }

  /** The first position holding one of the characters, if any (`IndexOfAny`). */
  function IndexOfAny(s: string, chars: set<char>): (r: Option<nat>)
    ensures r.Some? ==> r.value < |s| && s[r.value] in chars
    ensures r.Some? ==> forall j :: 0 <= j < r.value ==> s[j] !in chars
    ensures r.None? ==> forall j :: 0 <= j < |s| ==> s[j] !in chars
  {
    if s == [] then None
    else if s[0] in chars then Some(0)
    else match IndexOfAny(s[1..], chars)
      case None => None
      case Some(i) => Some(i + 1)
  }

  /**
   * `String.Split(char[] separators, int count)`: at most `count` pieces; the last piece
   * holds the rest of the text, separators included.
   */
  function SplitN(s: string, seps: set<char>, count: nat): (r: seq<string>)
    requires count >= 1
    ensures 1 <= |r| <= count
  {
    if count == 1 then [s]
    else match IndexOfAny(s, seps)
      case None => [s]
      case Some(i) => [s[..i]] + SplitN(s[i + 1..], seps, count - 1)
  }

  /**
   * The limited split agrees with the full split: it has min(count, pieces) pieces and all
   * but its last are the full split's pieces; when the limit is not reached the two are equal.
   */
  lemma {:induction false} SplitNAgreesWithSplit(s: string, seps: set<char>, count: nat)
    requires count >= 1
    ensures var full, lim := Split(s, seps), SplitN(s, seps, count);
      && |lim| == (if |full| < count then |full| else count)
      && (forall k :: 0 <= k < |lim| - 1 ==> lim[k] == full[k])
      && (|full| <= count ==> lim == full)
    decreases |s|, 1
  {
    match IndexOfAny(s, seps)
    case None =>
      SplitNoSeparator(s, seps);
    case Some(i) =>
      var a, c, b := s[..i], s[i], s[i + 1..];
      assert s == a + [c] + b;
      assert forall j :: 0 <= j < |a| ==> a[j] == s[j];
      if count == 1 {
        SplitAtSeparator(a, c, b, seps);
      } else {
        SplitNAgreesCut(a, c, b, seps, count);
      }
  }

  /** The agreement carries over a cut at the first separator. */
  lemma {:induction false} SplitNAgreesCut(a: string, c: char, b: string, seps: set<char>, count: nat)
    requires count >= 2 && c in seps
    requires forall j :: 0 <= j < |a| ==> a[j] !in seps
    ensures var full, lim := Split(a + [c] + b, seps), SplitN(a + [c] + b, seps, count);
      && |lim| == (if |full| < count then |full| else count)
      && (forall k :: 0 <= k < |lim| - 1 ==> lim[k] == full[k])
      && (|full| <= count ==> lim == full)
    decreases |a| + 1 + |b|, 0
  {
    SplitNCut(a, c, b, seps, count);
    SplitNAgreesWithSplit(b, seps, count - 1);
    SplitNConsAgrees(a, SplitN(b, seps, count - 1), Split(b, seps), count);
  }

  lemma SplitNConsAgrees(a: string, lim: seq<string>, full: seq<string>, count: nat)
    requires count >= 2
    requires |lim| == (if |full| < count - 1 then |full| else count - 1)
    requires forall k :: 0 <= k < |lim| - 1 ==> lim[k] == full[k]
    requires |full| <= count - 1 ==> lim == full
    ensures |[a] + lim| == (if |[a] + full| < count then |[a] + full| else count)
    ensures forall k :: 0 <= k < |[a] + lim| - 1 ==> ([a] + lim)[k] == ([a] + full)[k]
    ensures |[a] + full| <= count ==> [a] + lim == [a] + full
  {
  }

  /** A limited split peels off the text before the first separator as its first piece. */
  lemma SplitNStep(a: string, c: char, b: string, seps: set<char>, count: nat)
    requires count >= 2 && c in seps
    requires forall j :: 0 <= j < |a| ==> a[j] !in seps
    ensures SplitN(a + [c] + b, seps, count) == [a] + SplitN(b, seps, count - 1)
  {
    var s := a + [c] + b;
    assert s[|a|] == c;
    assert forall j :: 0 <= j < |a| ==> s[j] == a[j];
    IndexOfAnyAt(s, seps, |a|);
    assert s[..|a|] == a && s[|a| + 1..] == b;
  }

  /** The first separator is found where it is. */
  lemma IndexOfAnyAt(s: string, seps: set<char>, k: nat)
    requires k < |s| && s[k] in seps
    requires forall j :: 0 <= j < k ==> s[j] !in seps
    ensures IndexOfAny(s, seps) == Some(k)
  {
    var r := IndexOfAny(s, seps);
    assert r.Some?;
    assert r.value == k by {
      assert !(r.value < k);
      assert !(k < r.value);
    }
  }

  /**
   * When the text has at least `count` pieces, the limited split has `count` pieces and its
   * last one splits into exactly the remaining pieces of the full split.
   */
  lemma {:induction false} SplitNRest(s: string, seps: set<char>, count: nat)
    requires count >= 1 && |Split(s, seps)| >= count
    ensures |SplitN(s, seps, count)| == count
    ensures Split(SplitN(s, seps, count)[count - 1], seps) == Split(s, seps)[count - 1..]
    decreases |s|, 1
  {
    if count == 1 {
      assert Split(s, seps)[0..] == Split(s, seps);
    } else {
      match IndexOfAny(s, seps)
      case None =>
        SplitNoSeparator(s, seps);
      case Some(i) =>
        var a, c, b := s[..i], s[i], s[i + 1..];
        assert s == a + [c] + b;
        assert forall j :: 0 <= j < |a| ==> a[j] == s[j];
        SplitNRestCut(a, c, b, seps, count);
    }
  }

  /** The rest property carries over a cut at the first separator. */
  lemma {:induction false} SplitNRestCut(a: string, c: char, b: string, seps: set<char>, count: nat)
    requires count >= 2 && c in seps
    requires forall j :: 0 <= j < |a| ==> a[j] !in seps
    requires |Split(a + [c] + b, seps)| >= count
    ensures |SplitN(a + [c] + b, seps, count)| == count
    ensures Split(SplitN(a + [c] + b, seps, count)[count - 1], seps) == Split(a + [c] + b, seps)[count - 1..]
    decreases |a| + 1 + |b|, 0
  {
    SplitNCut(a, c, b, seps, count);
    SplitNRest(b, seps, count - 1);
    SplitNRestStep(a, b, SplitN(b, seps, count - 1), Split(b, seps), count);
  }

  /** The second piece of a limited split of a text with separators after its first two pieces. */
  lemma SplitNSecond(p0: string, c0: char, p1: string, c1: char, rest: string, seps: set<char>, count: nat)
    requires count >= 3 && c0 in seps && c1 in seps
    requires forall j :: 0 <= j < |p0| ==> p0[j] !in seps
    requires forall j :: 0 <= j < |p1| ==> p1[j] !in seps
    ensures SplitN(p0 + [c0] + (p1 + [c1] + rest), seps, count) == [p0] + ([p1] + SplitN(rest, seps, count - 2))
  {
    calc {
      SplitN(p0 + [c0] + (p1 + [c1] + rest), seps, count);
      { SplitNStep(p0, c0, p1 + [c1] + rest, seps, count); }
      [p0] + SplitN(p1 + [c1] + rest, seps, count - 1);
      { SplitNStep(p1, c1, rest, seps, count - 1); }
      [p0] + ([p1] + SplitN(rest, seps, count - 2));
    }
  }

  /** Cutting at the first separator, for the full and the limited split at once. */
  lemma SplitNCut(a: string, c: char, b: string, seps: set<char>, count: nat)
    requires count >= 2 && c in seps
    requires forall j :: 0 <= j < |a| ==> a[j] !in seps
    ensures Split(a + [c] + b, seps) == [a] + Split(b, seps)
    ensures SplitN(a + [c] + b, seps, count) == [a] + SplitN(b, seps, count - 1)
  {
    SplitAtSeparator(a, c, b, seps);
    SplitNoSeparator(a, seps);
    SplitNStep(a, c, b, seps, count);
  }

  lemma SplitNRestStep(a: string, b: string, lim: seq<string>, full: seq<string>, count: nat)
    requires count >= 2 && |lim| == count - 1 && |full| >= count - 1
    ensures |[a] + lim| == count
    ensures ([a] + lim)[count - 1] == lim[count - 2]
    ensures ([a] + full)[count - 1..] == full[count - 2..]
  {
  }

  lemma LastOfCons(x: string, sub: seq<string>)
    requires |sub| >= 1
    ensures ([x] + sub)[|[x] + sub| - 1] == sub[|sub| - 1]
  {
  }

  /** `t` is a suffix of `s`. */
  predicate IsSuffix(t: string, s: string) {
    |t| <= |s| && t == s[|s| - |t|..]
  }

  lemma SuffixOfDrop(s: string, k: nat, t: string)
    requires k <= |s| && IsSuffix(t, s[k..])
    ensures IsSuffix(t, s)
  {
    assert s[k..][|s[k..]| - |t|..] == s[|s| - |t|..];
  }

  /** The last piece of a limited split is the rest of the text, a suffix of it. */
  lemma {:induction false} SplitNLastIsSuffix(s: string, seps: set<char>, count: nat)
    requires count >= 1
    ensures IsSuffix(SplitN(s, seps, count)[|SplitN(s, seps, count)| - 1], s)
  {
    if count == 1 {
      assert s[|s| - |s|..] == s;
    } else {
      match IndexOfAny(s, seps)
      case None =>
        assert s[|s| - |s|..] == s;
      case Some(i) =>
        var sub := SplitN(s[i + 1..], seps, count - 1);
        SplitNLastIsSuffix(s[i + 1..], seps, count - 1);
        LastOfCons(s[..i], sub);
        SuffixOfDrop(s, i + 1, sub[|sub| - 1]);
    }
  }

  predicate IsAsciiDigit(c: char) {
    '0' <= c <= '9'
  }

  predicate AllDigits(s: string) {
    forall i :: 0 <= i < |s| ==> IsAsciiDigit(s[i])
  }

  /** The value of a string of decimal digits, most significant first. */
  function DigitsValue(ds: string): nat
    requires AllDigits(ds)
  {
    if ds == [] then 0 else DigitsValue(ds[..|ds| - 1]) * 10 + (ds[|ds| - 1] as int - '0' as int)
  }

  function DigitChar(d: nat): (c: char)
    requires d < 10
    ensures IsAsciiDigit(c) && c as int - '0' as int == d
  {
    (48 + d) as char
  }

  /** The decimal spelling of a natural number, as `ToString()` writes it. */
  function DecimalString(n: nat): (r: string)
    ensures r != [] && AllDigits(r)
    ensures DigitsValue(r) == n
  {
    if n < 10 then [DigitChar(n)]
    else
      var p := DecimalString(n / 10);
      var r := p + [DigitChar(n % 10)];
      assert r[..|r| - 1] == p;
      r
  }

  /** The '\0' characters `Int32.TryParse` tolerates at the very end of its text. */
  const TrailingNul: CharClass := AnyOf({'\0'})

  /**
   * `Int32.TryParse` with `NumberStyles.Integer`: optional white space around an optional
   * sign and one or more ASCII digits, then any number of '\0' characters at the very end
   * (the parser's trailing-zeros rule); fails when the value does not fit in 32 bits.
   */
  function TryParseInt32(s: string): (r: Option<int>)
    ensures r.Some? ==> Int32Min <= r.value <= Int32Max
  {
    ParseSignedDigits(TrimEnd(s, TrailingNul))
  }

  /** White space, an optional sign, ASCII digits and white space, as a value in the Int32 range. */
  function ParseSignedDigits(s: string): (r: Option<int>)
    ensures r.Some? ==> Int32Min <= r.value <= Int32Max
  {
    ReadSigned(Trim(s, NumberWhite))
  }

  /** An optional leading sign, then the digits. */
  function ReadSigned(t: string): (r: Option<int>)
    ensures r.Some? ==> Int32Min <= r.value <= Int32Max
  {
    if t != [] && t[0] == '-' then ReadMagnitude(t[1..], true)
    else if t != [] && t[0] == '+' then ReadMagnitude(t[1..], false)
    else ReadMagnitude(t, false)
  }

  /** One or more ASCII digits, negated when a '-' preceded them; None outside the Int32 range. */
  function ReadMagnitude(digits: string, negative: bool): (r: Option<int>)
    ensures r.Some? ==> Int32Min <= r.value <= Int32Max
  {
    if digits == [] || !AllDigits(digits) then None
    else
      var v := if negative then -(DigitsValue(digits) as int) else DigitsValue(digits) as int;
      if Int32Min <= v <= Int32Max then Some(v) else None
  }

  /**
   * Text holding, before its trailing '\0' characters, a character that is no digit, sign or
   * number white space does not parse.
   */
  lemma TryParseRejectsChar(s: string, k: nat)
    requires k < |TrimEnd(s, TrailingNul)|
    requires !IsAsciiDigit(s[k]) && !NumberWhite.Has(s[k]) && s[k] != '+' && s[k] != '-'
    ensures TryParseInt32(s) == None
  {
    var u := TrimEnd(s, TrailingNul);
    assert u[k] == s[k];
    SignedDigitsRejectChar(u, k);
  }

  lemma SignedDigitsRejectChar(u: string, k: nat)
    requires k < |u| && !IsAsciiDigit(u[k]) && !NumberWhite.Has(u[k]) && u[k] != '+' && u[k] != '-'
    ensures ParseSignedDigits(u) == None
  {
    var c := u[k];
    TrimKeepsChar(u, k, NumberWhite);
    var t := Trim(u, NumberWhite);
    var m :| 0 <= m < |t| && t[m] == c;
    if t[0] == '-' || t[0] == '+' {
      assert t[1..][m - 1] == c;
    }
  }

  /** A text that does not end in '\0' is parsed as it stands. */
  lemma ParseWithoutNul(s: string)
    requires s == [] || s[|s| - 1] != '\0'
    ensures TryParseInt32(s) == ParseSignedDigits(s)
  {
    assert TrimEnd(s, TrailingNul) == s;
  }

  /** A '\0' appended to the text does not change what it parses to. */
  lemma TrailingNulIgnored(s: string)
    ensures TryParseInt32(s + ['\0']) == TryParseInt32(s)
  {
    var t := s + ['\0'];
    assert t[..|t| - 1] == s;
    assert TrimEnd(t, TrailingNul) == TrimEnd(s, TrailingNul);
  }

  /** A character outside the class survives the trim. */
  lemma TrimKeepsChar(s: string, k: nat, cls: CharClass)
    requires k < |s| && !cls.Has(s[k])
    ensures exists m :: 0 <= m < |Trim(s, cls)| && Trim(s, cls)[m] == s[k]
  {
    var u := TrimStart(s, cls);
    var m := k - (|s| - |u|);
    assert 0 <= m < |u| && u[m] == s[k];
    assert Trim(s, cls)[m] == s[k];
  }

  /** A plain digit string reads as its value, when that fits in 32 bits. */
  lemma SignedDigitsOfDigits(d: string)
    requires d != [] && AllDigits(d)
    ensures ParseSignedDigits(d) == if DigitsValue(d) <= Int32Max then Some(DigitsValue(d) as int) else None
  {
    assert !NumberWhite.Has(d[0]) && !NumberWhite.Has(d[|d| - 1]);
    TrimUntouched(d, NumberWhite);
    assert ReadSigned(d) == ReadMagnitude(d, false);
  }

  /** Parsing the decimal spelling of a 32-bit non-negative number gives the number back. */
  lemma ParseDecimalRoundTrip(n: nat)
    requires n <= Int32Max
    ensures TryParseInt32(DecimalString(n)) == Some(n)
  {
    var d := DecimalString(n);
    ParseWithoutNul(d);
    SignedDigitsOfDigits(d);
  }

  /** The spelling followed by a '\0' parses back to the number too. */
  lemma ParseDecimalNulRoundTrip(n: nat)
    requires n <= Int32Max
    ensures TryParseInt32(DecimalString(n) + ['\0']) == Some(n)
  {
    TrailingNulIgnored(DecimalString(n));
    ParseDecimalRoundTrip(n);
  }

  /** A leading '-' negates: a '-' followed by digits parses to minus their value, when that fits. */
  lemma ParseNegativeDigits(m: string)
    requires |m| >= 2 && m[0] == '-' && AllDigits(m[1..]) && DigitsValue(m[1..]) <= -Int32Min
    ensures TryParseInt32(m) == Some(-(DigitsValue(m[1..]) as int))
  {
    assert m[|m| - 1] == m[1..][|m| - 2];
    assert TrimEnd(m, TrailingNul) == m;
    TrimUntouched(m, NumberWhite);
  }

  /** A number too large for 32 bits does not parse. */
  lemma ParseRejectsOverflow(n: nat)
    requires n > Int32Max
    ensures TryParseInt32(DecimalString(n)) == None
  {
    var d := DecimalString(n);
    ParseWithoutNul(d);
    SignedDigitsOfDigits(d);
  }

  /** C#'s unchecked 32-bit integer arithmetic: the value wrapped into the Int32 range. */
  function WrapInt32(x: int): (r: int)
    ensures Int32Min <= r <= Int32Max
    ensures (r - x) % 4294967296 == 0
    ensures Int32Min <= x <= Int32Max ==> r == x
  {
    (x - Int32Min) % 4294967296 + Int32Min
  }

  /** `String.CompareOrdinal(a, b) < 0`: lexicographic order on characters, a proper prefix first. */
  predicate OrdinalLess(a: string, b: string) {
    if a == [] then b != []
    else if b == [] then false
    else if a[0] == b[0] then OrdinalLess(a[1..], b[1..])
    else a[0] < b[0]
  }

  lemma {:induction false} OrdinalLessIrreflexive(a: string)
    ensures !OrdinalLess(a, a)
  {
    if a != [] {
      OrdinalLessIrreflexive(a[1..]);
    }
  }

  lemma {:induction false} OrdinalLessTransitive(a: string, b: string, c: string)
    requires OrdinalLess(a, b) && OrdinalLess(b, c)
    ensures OrdinalLess(a, c)
  {
    if a != [] && b != [] && c != [] && a[0] == b[0] && b[0] == c[0] {
      OrdinalLessTransitive(a[1..], b[1..], c[1..]);
    }
  }

  /** Any two different strings are ordered one way or the other. */
  lemma {:induction false} OrdinalLessTotal(a: string, b: string)
    requires a != b
    ensures OrdinalLess(a, b) || OrdinalLess(b, a)
  {
    if a != [] && b != [] && a[0] == b[0] {
      assert a == [a[0]] + a[1..] && b == [b[0]] + b[1..];
      OrdinalLessTotal(a[1..], b[1..]);
    }
  }

  lemma {:induction false} OrdinalLessAsymmetric(a: string, b: string)
    requires OrdinalLess(a, b)
    ensures !OrdinalLess(b, a)
  {
    if a != [] && b != [] && a[0] == b[0] {
      OrdinalLessAsymmetric(a[1..], b[1..]);
    }
  }

  /** ASCII upper-casing, the fold `StringComparison.OrdinalIgnoreCase` applies to ASCII letters. */
  function ToUpperAscii(c: char): char {
    if 'a' <= c <= 'z' then (c as int - 32) as char else c
  }

  /** `String.Equals(a, b, StringComparison.OrdinalIgnoreCase)` over ASCII case folding. */
  predicate EqualsIgnoreCase(a: string, b: string) {
    |a| == |b| && forall i :: 0 <= i < |a| ==> ToUpperAscii(a[i]) == ToUpperAscii(b[i])
  }

  /** `Path.GetFileName` with '/' as the directory separator: the text after the last '/'. */
  function GetFileName(path: string): (r: string)
    ensures |r| <= |path| && r == path[|path| - |r|..]
    ensures forall i :: 0 <= i < |r| ==> r[i] != '/'
    ensures |r| < |path| ==> path[|path| - |r| - 1] == '/'
  {
    if path == [] then []
    else if path[|path| - 1] == '/' then []
    else GetFileName(path[..|path| - 1]) + [path[|path| - 1]]
  }
}
