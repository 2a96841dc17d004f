/**
 * Reading the owner, the repository and the pull-request number out of a pull-request URL,
 * from the URL's path segments onward (`Uri.Segments`: "/", "owner/", "repo/", "pull/", "123").
 */
module PrUrl {
  import opened Outcomes
  import opened DotNetText

  /** The (owner, repo, prNumber) tuple the parse returns. */
  datatype PullRequestRef = PullRequestRef(owner: string, repo: string, prNumber: int)

  const FormatError: string := "Invalid GitHub PR URL format."
  const NumberError: string := "Invalid PR number in URL."

  /** `TrimEnd('/')`: every trailing slash removed. */
  function StripSlashes(s: string): (r: string)
    ensures r == [] || r[|r| - 1] != '/'
    ensures |r| <= |s| && r == s[..|r|]
  {
    TrimEnd(s, AnyOf({'/'}))
  }

  /** At least five segments, the fourth of which names the "pull" route. */
  predicate IsPullPath(segments: seq<string>) {
    |segments| >= 5 && StripSlashes(segments[3]) == "pull"
  }

  /** The number segment, slashes stripped, as `int.TryParse` reads it. */
  function NumberOf(segments: seq<string>): (r: Option<int>)
    requires |segments| >= 5
    ensures r.Some? ==> Int32Min <= r.value <= Int32Max
  {
    TryParseInt32(StripSlashes(segments[4]))
  }

  /**
   * `ParseGitHubPrUrl` on the segment list: the shape is checked first, then the number;
   * owner and repository are taken verbatim apart from trailing slashes.
   */
  function ParseGitHubPrUrl(segments: seq<string>): (r: Result<PullRequestRef>)
    ensures r == Failure(FormatError) <==> !IsPullPath(segments)
    ensures r == Failure(NumberError) <==> IsPullPath(segments) && NumberOf(segments).None?
    ensures r.Success? <==> IsPullPath(segments) && NumberOf(segments).Some?
    ensures r.Success? ==>
      && r.value.owner == StripSlashes(segments[1])
      && r.value.repo == StripSlashes(segments[2])
      && NumberOf(segments) == Some(r.value.prNumber)
  {
    if |segments| < 5 || StripSlashes(segments[3]) != "pull" then
      Failure(FormatError)
    else
      var owner := StripSlashes(segments[1]);
      var repo := StripSlashes(segments[2]);
      match NumberOf(segments)
      case None => Failure(NumberError)
      case Some(prNumber) => Success(PullRequestRef(owner, repo, prNumber))
  }

  /** A name that does not end in a slash is its own stripped form, with or without one slash after it. */
  lemma StripOneSlash(name: string)
    requires name == [] || name[|name| - 1] != '/'
    ensures StripSlashes(name) == name
    ensures StripSlashes(name + "/") == name
  {
    var s := name + "/";
    assert s[..|s| - 1] == name;
    TrimSteps(s, AnyOf({'/'}));
    TrimSteps(name, AnyOf({'/'}));
  }

  /** The segments of https://host/owner/repo/pull/number, optionally with a slash after the number. */
  function PullSegments(owner: string, repo: string, number: string, trailing: bool): seq<string> {
    ["/", owner + "/", repo + "/", "pull/", if trailing then number + "/" else number]
  }

  /** Segments whose stripped parts read as given parse to exactly those parts. */
  lemma ParseReads(segments: seq<string>, owner: string, repo: string, n: int)
    requires |segments| >= 5 && StripSlashes(segments[3]) == "pull"
    requires StripSlashes(segments[1]) == owner && StripSlashes(segments[2]) == repo
    requires TryParseInt32(StripSlashes(segments[4])) == Some(n)
    ensures ParseGitHubPrUrl(segments) == Success(PullRequestRef(owner, repo, n))
  {
  }

  /** The built segments read back as the owner, the repository, the route and the number text. */
  lemma PullSegmentsRead(owner: string, repo: string, number: string, trailing: bool)
    requires owner == [] || owner[|owner| - 1] != '/'
    requires repo == [] || repo[|repo| - 1] != '/'
    requires number == [] || number[|number| - 1] != '/'
    ensures |PullSegments(owner, repo, number, trailing)| == 5
    ensures StripSlashes(PullSegments(owner, repo, number, trailing)[1]) == owner
    ensures StripSlashes(PullSegments(owner, repo, number, trailing)[2]) == repo
    ensures StripSlashes(PullSegments(owner, repo, number, trailing)[3]) == "pull"
    ensures StripSlashes(PullSegments(owner, repo, number, trailing)[4]) == number
  {
    StripOneSlash(owner);
    StripOneSlash(repo);
    assert StripSlashes("pull/") == "pull" by {
      StripOneSlash("pull");
      assert "pull" + "/" == "pull/";
    }
    StripOneSlash(number);
  }

  /** Built segments whose number text parses read back as the owner, the repository and that number. */
  lemma ParsePullSegmentsText(owner: string, repo: string, number: string, n: int, trailing: bool)
    requires owner == [] || owner[|owner| - 1] != '/'
    requires repo == [] || repo[|repo| - 1] != '/'
    requires number == [] || number[|number| - 1] != '/'
    requires TryParseInt32(number) == Some(n)
    ensures ParseGitHubPrUrl(PullSegments(owner, repo, number, trailing))
      == Success(PullRequestRef(owner, repo, n))
  {
    PullSegmentsRead(owner, repo, number, trailing);
    ParseReads(PullSegments(owner, repo, number, trailing), owner, repo, n);
  }

  /**
   * Round trip: the segments of a URL built from an owner, a repository and a number in the
   * 32-bit range parse back to those three values.
   */
  lemma ParsePullSegments(owner: string, repo: string, n: nat, trailing: bool)
    requires owner == [] || owner[|owner| - 1] != '/'
    requires repo == [] || repo[|repo| - 1] != '/'
    requires n <= Int32Max
    ensures ParseGitHubPrUrl(PullSegments(owner, repo, DecimalString(n), trailing))
      == Success(PullRequestRef(owner, repo, n))
  {
    var d := DecimalString(n);
    assert IsAsciiDigit(d[|d| - 1]);
    ParseDecimalRoundTrip(n);
    ParsePullSegmentsText(owner, repo, d, n, trailing);
  }

  /** The example in the source's comment: .../owner/repo/pull/123 gives ("owner", "repo", 123). */
  lemma ParseExampleUrl(segments: seq<string>)
    requires segments == ["/", "owner/", "repo/", "pull/", "123"]
    ensures ParseGitHubPrUrl(segments) == Success(PullRequestRef("owner", "repo", 123))
  {
    assert segments == PullSegments("owner", "repo", "123", false) by {
      assert "owner" + "/" == "owner/";
      assert "repo" + "/" == "repo/";
    }
    assert DecimalString(123) == "123" by {
      assert DecimalString(12) == "12" by {
        assert DecimalString(1) == "1";
      }
    }
    ParseDecimalRoundTrip(123);
    ParsePullSegmentsText("owner", "repo", "123", 123, false);
  }

  /**
   * No positivity check: a number segment of a '-' and digits is accepted, and its negative
   * value is returned as the pull-request number.
   */
  lemma NegativeNumberAccepted(owner: string, repo: string, number: string, trailing: bool)
    requires owner == [] || owner[|owner| - 1] != '/'
    requires repo == [] || repo[|repo| - 1] != '/'
    requires |number| >= 2 && number[0] == '-' && AllDigits(number[1..])
    requires DigitsValue(number[1..]) <= -Int32Min
    ensures ParseGitHubPrUrl(PullSegments(owner, repo, number, trailing))
      == Success(PullRequestRef(owner, repo, -(DigitsValue(number[1..]) as int)))
  {
    assert number[|number| - 1] == number[1..][|number| - 2];
    ParseNegativeDigits(number);
    ParsePullSegmentsText(owner, repo, number, -(DigitsValue(number[1..]) as int), trailing);
  }

  /** The first segment (the root "/") and any segments after the number are never looked at. */
  lemma OtherSegmentsIgnored(segments: seq<string>, root: string, extra: seq<string>)
    requires |segments| == 5
    ensures ParseGitHubPrUrl([root] + segments[1..] + extra) == ParseGitHubPrUrl(segments)
  {
    var t := [root] + segments[1..] + extra;
    assert t[1..5] == segments[1..5];
  }
}
