/** `FactCheckService`: the shaping of each claim's verdict, the citation
    scan, the trust score and the reliability flag. Claim extraction and the
    per-claim search and model calls are external: their outcomes come in as
    parameters. */
module FactCheck {
  import opened Results
  import opened Strings

  datatype VerifiedClaim = VerifiedClaim(claim: string, status: string, reasoning: string, source: string)

  datatype CitationCheck = CitationCheck(citation: string, status: string, note: string)

  datatype Report = Report(
    trustScore: real,
    claims: seq<VerifiedClaim>,
    citations: seq<CitationCheck>,
    isReliable: bool)

  const DefaultMinConfidence: real := 0.7

  // ------------------------------------------------------------ one claim

  /** `_verify_single_claim` after its external calls: `outcome` is the JSON
      object the model answered with, or the text of the exception raised on
      the way. Missing keys take their defaults. */
  function ShapeClaim(claim: string, outcome: Result<map<string, string>, string>): (v: VerifiedClaim)
    ensures v.claim == claim
    ensures outcome.Failure? ==> v == VerifiedClaim(claim, "Unverified", outcome.error, "")
    ensures outcome.Success? && "status" in outcome.value ==> v.status == outcome.value["status"]
    ensures outcome.Success? && "status" !in outcome.value ==> v.status == "Unverified"
    ensures outcome.Success? && "reasoning" in outcome.value ==> v.reasoning == outcome.value["reasoning"]
    ensures outcome.Success? && "reasoning" !in outcome.value ==> v.reasoning == ""
    ensures outcome.Success? && "source_url" in outcome.value ==> v.source == outcome.value["source_url"]
    ensures outcome.Success? && "source_url" !in outcome.value ==> v.source == ""
  {
    match outcome
    case Failure(message) => VerifiedClaim(claim, "Unverified", message, "")
    case Success(result) =>
      VerifiedClaim(claim, Get(result, "status", "Unverified"), Get(result, "reasoning", ""), Get(result, "source_url", ""))
  }

  // ------------------------------------------------------------ trust score

  function CountStatus(claims: seq<VerifiedClaim>, status: string): (n: nat)
    ensures n <= |claims|
    decreases |claims|
  {
    if claims == [] then 0
    else CountStatus(claims[..|claims| - 1], status) + (if claims[|claims| - 1].status == status then 1 else 0)
  }

  /** `_calculate_trust_score` as an exact ratio: supported claims count 1,
      contradicted 0, any other status one half; no claims give 1. */
  function TrustScore(claims: seq<VerifiedClaim>): real {
    if |claims| == 0 then 1.0
    else
      var correct := CountStatus(claims, "Supported");
      var incorrect := CountStatus(claims, "Contradicted");
      var total := |claims|;
      Points(correct, incorrect, total) / total as real
  }

  /** The points of the score's numerator: one per supported claim, one half
      per claim that is neither supported nor contradicted. */
  function Points(correct: nat, incorrect: nat, total: nat): real {
    correct as real + (total - correct - incorrect) as real * 0.5
  }

  /** A fraction of points over a positive total lies in [0, 1]; it is 1
      exactly for full points and 0 exactly for none. */
  lemma {:induction false} FractionBounds(points: real, total: real)
    requires total > 0.0 && 0.0 <= points <= total
    ensures 0.0 <= points / total <= 1.0
    ensures points / total == 1.0 <==> points == total
    ensures points / total == 0.0 <==> points == 0.0
  {
    var q := points / total;
    assert q * total == points;
    assert (q - 1.0) * total == points - total;
  }

  /** A claim is counted at most once. */
  lemma {:induction false} CountsDisjoint(claims: seq<VerifiedClaim>)
    ensures CountStatus(claims, "Supported") + CountStatus(claims, "Contradicted") <= |claims|
    decreases |claims|
  {
    if claims != [] {
      CountsDisjoint(claims[..|claims| - 1]);
    }
  }

  /** Each count reaches the total exactly when every claim has that status. */
  lemma {:induction false} CountAll(claims: seq<VerifiedClaim>, status: string)
    ensures CountStatus(claims, status) == |claims| <==> forall i :: 0 <= i < |claims| ==> claims[i].status == status
    ensures CountStatus(claims, status) == 0 <==> forall i :: 0 <= i < |claims| ==> claims[i].status != status
    decreases |claims|
  {
    if claims != [] {
      var init := claims[..|claims| - 1];
      CountAll(init, status);
      assert forall i :: 0 <= i < |init| ==> init[i] == claims[i];
    }
  }

  /** The score is a fraction between 0 and 1. */
  lemma TrustScoreBounds(claims: seq<VerifiedClaim>)
    ensures 0.0 <= TrustScore(claims) <= 1.0
  {
    if claims != [] {
      CountsDisjoint(claims);
      var c, i, t := CountStatus(claims, "Supported"), CountStatus(claims, "Contradicted"), |claims|;
      FractionBounds(Points(c, i, t), t as real);
    }
  }

  /** Only an all-supported list scores 1 (or no claims at all). */
  lemma TrustScoreOne(claims: seq<VerifiedClaim>)
    ensures TrustScore(claims) == 1.0 <==> forall i :: 0 <= i < |claims| ==> claims[i].status == "Supported"
  {
    CountAll(claims, "Supported");
    if claims != [] {
      CountsDisjoint(claims);
      var c, i, t := CountStatus(claims, "Supported"), CountStatus(claims, "Contradicted"), |claims|;
      FractionBounds(Points(c, i, t), t as real);
      assert Points(c, i, t) == t as real <==> c == t;
    }
  }

  /** Only an all-contradicted list of claims scores 0. */
  lemma TrustScoreZero(claims: seq<VerifiedClaim>)
    requires claims != []
    ensures TrustScore(claims) == 0.0 <==> forall i :: 0 <= i < |claims| ==> claims[i].status == "Contradicted"
  {
    CountAll(claims, "Contradicted");
    CountsDisjoint(claims);
    var c, i, t := CountStatus(claims, "Supported"), CountStatus(claims, "Contradicted"), |claims|;
    FractionBounds(Points(c, i, t), t as real);
    assert Points(c, i, t) == 0.0 <==> i == t;
  }

  /** Claims that are neither supported nor contradicted count one half each. */
  lemma TrustScoreHalf(claims: seq<VerifiedClaim>)
    requires claims != []
    requires forall i :: 0 <= i < |claims| ==> claims[i].status != "Supported" && claims[i].status != "Contradicted"
    ensures TrustScore(claims) == 0.5
  {
    CountAll(claims, "Supported");
    CountAll(claims, "Contradicted");
    var t := |claims| as real;
    assert Points(0, 0, |claims|) == t * 0.5;
    assert (t * 0.5) / t == 0.5;
  }

  /** Under the default threshold of `verify_content`, an all-supported
      list is reliable, and a non-empty list without a supported claim is
      not: it scores at most one half. */
  lemma DefaultThreshold(claims: seq<VerifiedClaim>)
    ensures (forall i :: 0 <= i < |claims| ==> claims[i].status == "Supported") ==> TrustScore(claims) >= DefaultMinConfidence
    ensures claims != [] && (forall i :: 0 <= i < |claims| ==> claims[i].status != "Supported") ==>
      TrustScore(claims) <= 0.5 < DefaultMinConfidence
  {
    TrustScoreOne(claims);
    if claims != [] && forall i :: 0 <= i < |claims| ==> claims[i].status != "Supported" {
      CountAll(claims, "Supported");
      CountsDisjoint(claims);
      var i, t := CountStatus(claims, "Contradicted"), |claims|;
      HalfBound(Points(0, i, t), t as real);
    }
  }

  /** Points of at most one half per claim give a fraction of at most one half. */
  lemma HalfBound(points: real, total: real)
    requires total > 0.0 && points <= total * 0.5
    ensures points / total <= 0.5
  {
    assert (points / total) * total == points;
  }

  // ------------------------------------------------------------ citation scan

  /** The length of the run of ASCII digits that starts `s`. */
  function DigitRun(s: string): (n: nat)
    ensures n <= |s|
    ensures forall i :: 0 <= i < n ==> IsDigit(s[i])
    ensures n < |s| ==> !IsDigit(s[n])
    decreases |s|
  {
    if s != [] && IsDigit(s[0]) then 1 + DigitRun(s[1..]) else 0
  }

  /** The length of the run of lower-case letters that starts `s`. */
  function LowerRun(s: string): (n: nat)
    ensures n <= |s|
    ensures forall i :: 0 <= i < n ==> IsLower(s[i])
    ensures n < |s| ==> !IsLower(s[n])
    decreases |s|
  {
    if s != [] && IsLower(s[0]) then 1 + LowerRun(s[1..]) else 0
  }

  /** `[digits]`. */
  predicate IsNumericCitation(c: string) {
    |c| >= 3 && c[0] == '[' && c[|c| - 1] == ']' && forall i :: 1 <= i < |c| - 1 ==> IsDigit(c[i])
  }

  /** `(Name, 1999)`: a capital, lower-case letters, a comma, one white-space
      character, four digits. */
  predicate IsAuthorCitation(c: string) {
    |c| >= 10 && c[0] == '(' && IsUpper(c[1])
    && (forall i :: 2 <= i < |c| - 7 ==> IsLower(c[i]))
    && c[|c| - 7] == ',' && IsSpace(c[|c| - 6])
    && (forall i :: |c| - 5 <= i < |c| - 1 ==> IsDigit(c[i]))
    && c[|c| - 1] == ')'
  }

  /** The length of a `\[\d+\]` match at the start of `s`, if any. */
  function NumericAt(s: string): (r: Option<nat>)
    ensures r.Some? ==> 3 <= r.value <= |s| && IsNumericCitation(s[..r.value])
  {
    if s == [] || s[0] != '[' then None
    else
      var d := DigitRun(s[1..]);
      if d >= 1 && d + 1 < |s| && s[d + 1] == ']' then Some(d + 2) else None
  }

  /** The length of a `\([A-Z][a-z]+,\s\d{4}\)` match at the start of `s`. */
  function AuthorAt(s: string): (r: Option<nat>)
    ensures r.Some? ==> 10 <= r.value <= |s| && IsAuthorCitation(s[..r.value])
  {
    if |s| < 2 || s[0] != '(' || !IsUpper(s[1]) then None
    else
      var l := LowerRun(s[2..]);
      var n := l + 9;
      if l >= 1 && n <= |s| && s[l + 2] == ',' && IsSpace(s[l + 3])
         && IsDigit(s[l + 4]) && IsDigit(s[l + 5]) && IsDigit(s[l + 6]) && IsDigit(s[l + 7])
         && s[l + 8] == ')'
      then AuthorShape(s, l); Some(n)
      else None
  }

  /** The prefix `AuthorAt` accepts has the shape of an author citation. */
  lemma AuthorShape(s: string, l: nat)
    requires 2 <= |s| && s[0] == '(' && IsUpper(s[1])
    requires 1 <= l && l + 9 <= |s| && forall i :: 0 <= i < l ==> IsLower(s[2..][i])
    requires s[l + 2] == ',' && IsSpace(s[l + 3]) && s[l + 8] == ')'
    requires IsDigit(s[l + 4]) && IsDigit(s[l + 5]) && IsDigit(s[l + 6]) && IsDigit(s[l + 7])
    ensures IsAuthorCitation(s[..l + 9])
  {
    var c := s[..l + 9];
    assert |c| == l + 9;
    forall i | 2 <= i < |c| - 7
      ensures IsLower(c[i])
    {
      assert c[i] == s[2..][i - 2];
    }
    forall i | |c| - 5 <= i < |c| - 1
      ensures IsDigit(c[i])
    {
      assert c[i] == s[i];
    }
  }

  /** `re.findall` for a pattern without groups, left to right and without
      overlaps. `at(u)` is the length of the match at the start of `u`, if
      any: the scan takes it and resumes after it, or moves on by one
      character. An empty or overlong length counts as no match; the
      matchers below never give one. */
  function FindAll(s: string, at: string -> Option<nat>): seq<string>
    decreases |s|
  {
    if s == [] then []
    else match at(s)
      case Some(n) => if 0 < n <= |s| then [s[..n]] + FindAll(s[n..], at) else FindAll(s[1..], at)
      case None => FindAll(s[1..], at)
  }

  /** No match starts inside another one, after its first character. */
  ghost predicate NoInnerMatch(at: string -> Option<nat>) {
    forall u: string, q: nat :: at(u).Some? && 0 < q < at(u).value && q <= |u| ==> at(u[q..]).None?
  }

  /** Everything found is a match of the pattern and occurs in the text. */
  lemma {:induction false} FindAllFound(s: string, at: string -> Option<nat>, form: string -> bool)
    requires forall u :: at(u).Some? && at(u).value <= |u| ==> form(u[..at(u).value])
    ensures forall i :: 0 <= i < |FindAll(s, at)| ==> form(FindAll(s, at)[i]) && Contains(s, FindAll(s, at)[i])
    decreases |s|
  {
    if s != [] {
      match at(s)
      case Some(n) =>
        if 0 < n <= |s| {
          FindAllFound(s[n..], at, form);
          FoundInText(s, n, FindAll(s[n..], at));
        } else {
          FindAllFound(s[1..], at, form);
          FoundInText(s, 1, FindAll(s[1..], at));
        }
      case None =>
        FindAllFound(s[1..], at, form);
        FoundInText(s, 1, FindAll(s[1..], at));
    }
  }

  /** Every match in the text is found, when no match starts inside another:
      whatever the scan skips over holds no start of a match. `t` is the
      text from the match on and `c` the match. */
  lemma {:induction false} FindAllComplete(s: string, at: string -> Option<nat>, p: nat, t: string, m: nat, c: string)
    requires NoInnerMatch(at)
    requires 0 < m && p + m <= |s| && t == s[p..] && at(t) == Some(m) && c == s[p..p + m]
    ensures c in FindAll(s, at)
    decreases |s|, 1
  {
    if p == 0 {
      assert t == s;
      assert FindAll(s, at) == [c] + FindAll(s[m..], at);
    } else if at(s).Some? && 0 < at(s).value <= |s| {
      FindAllJump(s, at, p, t, m, c);
    } else {
      SliceShift(s, 1, p, m);
      FindAllComplete(s[1..], at, p - 1, t, m, c);
      assert FindAll(s, at) == FindAll(s[1..], at);
    }
  }

  /** A match later in the text lies after the match at the start. */
  lemma {:induction false} FindAllJump(s: string, at: string -> Option<nat>, p: nat, t: string, m: nat, c: string)
    requires NoInnerMatch(at)
    requires 0 < p && 0 < m && p + m <= |s| && t == s[p..] && at(t) == Some(m) && c == s[p..p + m]
    requires at(s).Some? && 0 < at(s).value <= |s|
    ensures c in FindAll(s, at)
    decreases |s|, 0
  {
    var n := at(s).value;
    assert p >= n;
    SliceShift(s, n, p, m);
    FindAllComplete(s[n..], at, p - n, t, m, c);
    assert FindAll(s, at) == [s[..n]] + FindAll(s[n..], at);
  }

  /** `re.findall(r'\[\d+\]', s)`. */
  function FindNumeric(s: string): seq<string> {
    FindAll(s, NumericAt)
  }

  /** `re.findall(r'\([A-Z][a-z]+,\s\d{4}\)', s)`. */
  function FindAuthor(s: string): seq<string> {
    FindAll(s, AuthorAt)
  }

  /** Every numeric citation found has the form `[digits]` and occurs in the text. */
  lemma FindNumericFound(s: string)
    ensures forall i :: 0 <= i < |FindNumeric(s)| ==>
      IsNumericCitation(FindNumeric(s)[i]) && Contains(s, FindNumeric(s)[i])
  {
    FindAllFound(s, NumericAt, IsNumericCitation);
  }

  /** Every author citation found has the form `(Name, 1999)` and occurs in the text. */
  lemma FindAuthorFound(s: string)
    ensures forall i :: 0 <= i < |FindAuthor(s)| ==>
      IsAuthorCitation(FindAuthor(s)[i]) && Contains(s, FindAuthor(s)[i])
  {
    FindAllFound(s, AuthorAt, IsAuthorCitation);
  }

  /** Every `[digits]` in the text is found: a match holds no `[` after its
      first character, so no match the scan skips over can start inside it. */
  lemma FindNumericComplete(s: string, p: nat)
    requires p < |s| && NumericAt(s[p..]).Some?
    ensures p + NumericAt(s[p..]).value <= |s|
    ensures s[p..p + NumericAt(s[p..]).value] in FindNumeric(s)
  {
    NumericNoInner();
    var m := NumericAt(s[p..]).value;
    FindAllComplete(s, NumericAt, p, s[p..], m, s[p..p + m]);
  }

  /** Every `(Name, 1999)` in the text is found: a match holds no `(` after
      its first character. */
  lemma FindAuthorComplete(s: string, p: nat)
    requires p < |s| && AuthorAt(s[p..]).Some?
    ensures p + AuthorAt(s[p..]).value <= |s|
    ensures s[p..p + AuthorAt(s[p..]).value] in FindAuthor(s)
  {
    AuthorNoInner();
    var m := AuthorAt(s[p..]).value;
    FindAllComplete(s, AuthorAt, p, s[p..], m, s[p..p + m]);
  }

  /** No numeric match starts inside another. */
  lemma NumericNoInner()
    ensures NoInnerMatch(NumericAt)
  {
    forall u: string, q: nat | NumericAt(u).Some? && 0 < q < NumericAt(u).value && q <= |u|
      ensures NumericAt(u[q..]).None?
    {
      NumericInterior(u, NumericAt(u).value, q);
      assert u[q..][0] == u[q];
    }
  }

  /** No author match starts inside another. */
  lemma AuthorNoInner()
    ensures NoInnerMatch(AuthorAt)
  {
    forall u: string, q: nat | AuthorAt(u).Some? && 0 < q < AuthorAt(u).value && q <= |u|
      ensures AuthorAt(u[q..]).None?
    {
      AuthorInterior(u, AuthorAt(u).value, q);
      assert u[q..][0] == u[q];
    }
  }

  /** No `[` follows the first character of a numeric match. */
  lemma NumericInterior(s: string, n: nat, p: nat)
    requires NumericAt(s) == Some(n) && 0 < p < n
    ensures s[p] != '['
  {
    assert s[..n][p] == s[p];
  }

  /** No `(` follows the first character of an author match. */
  lemma AuthorInterior(s: string, n: nat, p: nat)
    requires AuthorAt(s) == Some(n) && 0 < p < n
    ensures s[p] != '('
  {
    assert s[..n][p] == s[p];
  }

  /** What is found in a suffix, and the prefix itself, occur in the text. */
  lemma FoundInText(s: string, n: nat, rest: seq<string>)
    requires n <= |s|
    requires forall i :: 0 <= i < |rest| ==> Contains(s[n..], rest[i])
    ensures Contains(s, s[..n])
    ensures forall i :: 0 <= i < |rest| ==> Contains(s, rest[i])
  {
    assert StartsWith(s, s[..n]);
    forall i | 0 <= i < |rest|
      ensures Contains(s, rest[i])
    {
      assert s[n..|s|] == s[n..];
      ContainsSlice(s, n, |s|, rest[i]);
    }
  }

  /** A citation after text with no `[` is found, and the scan goes on after it. */
  lemma {:induction false} NumericCitationFound(x: string, digits: string, y: string)
    requires '[' !in x
    requires digits != [] && forall i :: 0 <= i < |digits| ==> IsDigit(digits[i])
    ensures FindNumeric(x + ("[" + digits + "]" + y)) == ["[" + digits + "]"] + FindNumeric(y)
    decreases |x|
  {
    var w := "[" + digits + "]" + y;
    if x == [] {
      assert x + w == w;
      CitationAtStart(digits, y);
    } else {
      assert x[0] in x;
      NumericSkip(x + w);
      assert (x + w)[1..] == x[1..] + w;
      NumericCitationFound(x[1..], digits, y);
    }
  }

  /** A citation at the very start is found first. */
  lemma {:induction false} CitationAtStart(digits: string, y: string)
    requires digits != [] && forall i :: 0 <= i < |digits| ==> IsDigit(digits[i])
    ensures FindNumeric("[" + digits + "]" + y) == ["[" + digits + "]"] + FindNumeric(y)
  {
    var c := "[" + digits + "]";
    var s := c + y;
    assert NumericAt(s) == Some(|digits| + 2) by {
      assert s[1..] == digits + ("]" + y);
      DigitRunOf(digits, "]" + y);
    }
    assert s[..|digits| + 2] == c && s[|digits| + 2..] == y by {
      Concat(c, y);
    }
  }

  /** A character other than `[` is skipped. */
  lemma {:induction false} NumericSkip(s: string)
    requires s != [] && s[0] != '['
    ensures FindNumeric(s) == FindNumeric(s[1..])
  {
  }



  lemma {:induction false} DigitRunOf(digits: string, y: string)
    requires forall i :: 0 <= i < |digits| ==> IsDigit(digits[i])
    requires y == [] || !IsDigit(y[0])
    ensures DigitRun(digits + y) == |digits|
    decreases |digits|
  {
    if digits == [] {
      assert digits + y == y;
    } else {
      assert (digits + y)[1..] == digits[1..] + y;
      DigitRunOf(digits[1..], y);
    }
  }

  // ------------------------------------------------------------ citations

  /** `_verify_citations`: the distinct matches of both patterns, in an
      unspecified order (`list(set(...))`), at most five, each flagged as a
      detected format. */
  method VerifyCitations(text: string) returns (results: seq<CitationCheck>)
    ensures var refs := set r | r in FindNumeric(text) + FindAuthor(text);
      |results| == if |refs| < 5 then |refs| else 5
    ensures forall i :: 0 <= i < |results| ==>
      results[i].status == "Checked" && results[i].note == "Format detected"
      && results[i].citation in FindNumeric(text) + FindAuthor(text)
      && (IsNumericCitation(results[i].citation) || IsAuthorCitation(results[i].citation))
      && Contains(text, results[i].citation)
    ensures forall i, j :: 0 <= i < j < |results| ==> results[i].citation != results[j].citation
    ensures var refs := set r | r in FindNumeric(text) + FindAuthor(text);
      |refs| <= 5 ==> forall r :: r in refs ==> exists i :: 0 <= i < |results| && results[i].citation == r
  {
    var all := FindNumeric(text) + FindAuthor(text);
    var refs := set r | r in all;
    var remaining := refs;
    results := [];
    while remaining != {} && |results| < 5
      invariant remaining <= refs
      invariant |results| + |remaining| == |refs|
      invariant |results| <= 5
      invariant forall i :: 0 <= i < |results| ==>
        results[i].status == "Checked" && results[i].note == "Format detected"
        && results[i].citation in refs && results[i].citation !in remaining
      invariant forall i, j :: 0 <= i < j < |results| ==> results[i].citation != results[j].citation
      invariant forall r :: r in refs && r !in remaining ==> exists i :: 0 <= i < |results| && results[i].citation == r
      decreases |remaining|
    {
      var r :| r in remaining;
      ghost var before, left := results, remaining;
      results := results + [CitationCheck(r, "Checked", "Format detected")];
      remaining := remaining - {r};
      forall q | q in refs && q !in remaining
        ensures exists i :: 0 <= i < |results| && results[i].citation == q
      {
        if q == r {
          assert results[|before|].citation == q;
        } else {
          assert q !in left;
          var i :| 0 <= i < |before| && before[i].citation == q;
          assert results[i] == before[i];
        }
      }
    }
    forall i | 0 <= i < |results|
      ensures IsNumericCitation(results[i].citation) || IsAuthorCitation(results[i].citation)
      ensures Contains(text, results[i].citation)
    {
      MatchSound(text, results[i].citation);
    }
  }

  /** A match of either pattern has that pattern's form and occurs in the text. */
  lemma MatchSound(text: string, c: string)
    requires c in FindNumeric(text) + FindAuthor(text)
    ensures IsNumericCitation(c) || IsAuthorCitation(c)
    ensures Contains(text, c)
  {
    FindNumericFound(text);
    FindAuthorFound(text);
    if c in FindNumeric(text) {
      var k :| 0 <= k < |FindNumeric(text)| && FindNumeric(text)[k] == c;
    } else {
      var k :| 0 <= k < |FindAuthor(text)| && FindAuthor(text)[k] == c;
    }
  }

  // ------------------------------------------------------------ the report

  /** `verify_content`: one verified claim per extracted claim, in order,
      the citation scan, the score and `is_reliable`. `outcomes[i]` is what
      checking `claims[i]` produced. */
  method VerifyContent(text: string, claims: seq<string>, outcomes: seq<Result<map<string, string>, string>>, minConfidence: real)
    returns (report: Report)
    requires |outcomes| == |claims|
    ensures |report.claims| == |claims|
    ensures forall i :: 0 <= i < |claims| ==> report.claims[i] == ShapeClaim(claims[i], outcomes[i])
    ensures report.trustScore == TrustScore(report.claims)
    ensures 0.0 <= report.trustScore <= 1.0
    ensures report.isReliable <==> report.trustScore >= minConfidence
    ensures |report.citations| <= 5
    ensures forall i :: 0 <= i < |report.citations| ==>
      report.citations[i].status == "Checked" && report.citations[i].note == "Format detected"
      && (IsNumericCitation(report.citations[i].citation) || IsAuthorCitation(report.citations[i].citation))
      && Contains(text, report.citations[i].citation)
    ensures forall i, j :: 0 <= i < j < |report.citations| ==> report.citations[i].citation != report.citations[j].citation
    ensures var refs := set r | r in FindNumeric(text) + FindAuthor(text);
      |refs| <= 5 ==> forall r :: r in refs ==> exists i :: 0 <= i < |report.citations| && report.citations[i].citation == r
  {
    var verified: seq<VerifiedClaim> := [];
    var i := 0;
    while i < |claims|
      invariant 0 <= i <= |claims|
      invariant |verified| == i
      invariant forall k :: 0 <= k < i ==> verified[k] == ShapeClaim(claims[k], outcomes[k])
    {
      verified := verified + [ShapeClaim(claims[i], outcomes[i])];
      i := i + 1;
    }
    var citations := VerifyCitations(text);
    var score := TrustScore(verified);
    TrustScoreBounds(verified);
    report := Report(score, verified, citations, score >= minConfidence);
  }
}
