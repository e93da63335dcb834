/** `SearchService`: the research call's fixed answer when no client is
    configured, the mapping of search hits to sources, and the text summary
    built from a search response. The search API itself is a parameter. */
module SearchService {
  import opened Results
  import opened Strings

  /** One hit of the search API; a missing key is `None`. */
  datatype SearchHit = SearchHit(title: Option<string>, url: Option<string>, content: Option<string>, score: Option<real>)

  /** The search API's response: the optional answer and result list. */
  datatype SearchResponse = SearchResponse(answer: Option<string>, results: Option<seq<SearchHit>>)

  datatype Source = Source(title: string, url: string, content: string, score: real)

  datatype ResearchResult = ResearchResult(query: string, answer: string, sources: seq<Source>, summary: string)

  /** Whether a search client was configured, and what its call produced. */
  datatype Client = Disabled | Enabled(outcome: Result<SearchResponse, string>)

  const DisabledAnswer := "Research functionality is currently disabled."
  const DisabledSummary := "Please configure the TAVILY_API_KEY " + "in your backend .env file " + "to enable live web research."

  const MaxEntries: nat := 3
  const MaxContent: nat := 200

  // ------------------------------------------------------------ summary

  /** `response.get("answer")` is truthy. */
  predicate HasAnswer(r: SearchResponse) {
    r.answer.Some? && r.answer.value != []
  }

  /** `response.get("results")` is truthy. */
  predicate HasResults(r: SearchResponse) {
    r.results.Some? && r.results.value != []
  }

  /** `s[:200]`. */
  function Truncate(s: string): (t: string)
    ensures |t| <= MaxContent && |t| <= |s|
    ensures t == s[..|t|]
    ensures |s| <= MaxContent ==> t == s
  {
    if |s| <= MaxContent then s else s[..MaxContent]
  }

  function TitleLine(i: nat, h: SearchHit): string {
    NatToString(i) + ". " + h.title.GetOr("N/A")
  }

  function ContentLine(h: SearchHit): string {
    "   " + Truncate(h.content.GetOr("")) + "..."
  }

  /** The two lines of each entry, numbered from 1 in result order. */
  function Entries(hits: seq<SearchHit>): (lines: seq<string>)
    ensures |lines| == 2 * |hits|
    decreases |hits|
  {
    if hits == [] then []
    else
      var n := |hits|;
      Entries(hits[..n - 1]) + [TitleLine(n, hits[n - 1]), ContentLine(hits[n - 1])]
  }

  /** Entry `k` (from 0) is numbered `k + 1` and shows hit `k`. */
  lemma {:induction false} EntriesAt(hits: seq<SearchHit>)
    ensures forall k :: 0 <= k < |hits| ==>
      Entries(hits)[2 * k] == TitleLine(k + 1, hits[k]) && Entries(hits)[2 * k + 1] == ContentLine(hits[k])
    decreases |hits|
  {
    if hits != [] {
      var init := hits[..|hits| - 1];
      EntriesAt(init);
      assert forall k :: 0 <= k < |init| ==> init[k] == hits[k];
    }
  }

  /** The first three results (`results[:3]`). */
  function Shown(hits: seq<SearchHit>): (shown: seq<SearchHit>)
    ensures |shown| == if |hits| < MaxEntries then |hits| else MaxEntries
    ensures shown == hits[..|shown|]
  {
    if |hits| <= MaxEntries then hits else hits[..MaxEntries]
  }

  /** The list `_create_summary` joins. */
  function SummaryParts(r: SearchResponse): seq<string> {
    (if HasAnswer(r) then ["Answer: " + r.answer.value + "\n"] else [])
    + (if HasResults(r) then ["Key Findings:"] + Entries(Shown(r.results.value)) else [])
  }

  function Summary(r: SearchResponse): string {
    JoinLines(SummaryParts(r))
  }

  /** `_create_summary`, appending to the list of parts in a loop. */
  method CreateSummary(r: SearchResponse) returns (summary: string)
    ensures summary == Summary(r)
  {
    var parts: seq<string> := [];
    if HasAnswer(r) {
      parts := parts + ["Answer: " + r.answer.value + "\n"];
    }
    ghost var head := parts;
    if HasResults(r) {
      parts := parts + ["Key Findings:"];
      ghost var prefix := parts;
      var shown := Shown(r.results.value);
      var i := 0;
      while i < |shown|
        invariant 0 <= i <= |shown|
        invariant parts == prefix + Entries(shown[..i])
      {
        var entry := [TitleLine(i + 1, shown[i]), ContentLine(shown[i])];
        assert Entries(shown[..i + 1]) == Entries(shown[..i]) + entry by {
          assert shown[..i + 1][..i] == shown[..i];
        }
        Regroup(prefix, Entries(shown[..i]), entry);
        parts := parts + entry;
        i := i + 1;
      }
      assert shown[..|shown|] == shown;
      Regroup(head, ["Key Findings:"], Entries(shown));
    } else {
      assert parts == parts + [];
    }
    assert parts == SummaryParts(r);
    summary := JoinLines(parts);
  }

  /** The summary opens with the answer exactly when the answer is truthy;
      otherwise it opens with the findings or is empty. */
  lemma SummaryAnswerFirst(r: SearchResponse)
    ensures HasAnswer(r) ==> StartsWith(Summary(r), "Answer: " + r.answer.value + "\n")
    ensures !HasAnswer(r) ==> !StartsWith(Summary(r), "Answer: ")
  {
    var parts := SummaryParts(r);
    if HasAnswer(r) {
      assert parts[0] == "Answer: " + r.answer.value + "\n";
      JoinLinesStartsWith(parts);
    } else if HasResults(r) {
      assert parts[0] == "Key Findings:";
      JoinLinesStartsWith(parts);
      var s := Summary(r);
      assert s[0] == 'K';
    } else {
      assert parts == [];
    }
  }

  /** The shape of the findings block: a heading, then at most three
      numbered entries of two lines each, in result order. */
  lemma SummaryFindings(r: SearchResponse)
    requires HasResults(r)
    ensures var parts := SummaryParts(r);
      var offset := if HasAnswer(r) then 1 else 0;
      var hits := r.results.value;
      var n := if |hits| < MaxEntries then |hits| else MaxEntries;
      |parts| == offset + 1 + 2 * n
      && parts[offset] == "Key Findings:"
      && forall k :: 0 <= k < n ==>
        parts[offset + 1 + 2 * k] == TitleLine(k + 1, hits[k])
        && parts[offset + 2 + 2 * k] == ContentLine(hits[k])
  {
    var hits := r.results.value;
    var shown := Shown(hits);
    var offset := if HasAnswer(r) then 1 else 0;
    var head: seq<string> := if HasAnswer(r) then ["Answer: " + r.answer.value + "\n"] else [];
    var entries := Entries(shown);
    var parts := SummaryParts(r);
    assert parts == (head + ["Key Findings:"]) + entries;
    assert |head + ["Key Findings:"]| == offset + 1;
    EntriesAt(shown);
    forall k | 0 <= k < |shown|
      ensures parts[offset + 1 + 2 * k] == TitleLine(k + 1, hits[k])
      ensures parts[offset + 2 + 2 * k] == ContentLine(hits[k])
    {
      assert parts[offset + 1 + 2 * k] == entries[2 * k];
      assert parts[offset + 2 + 2 * k] == entries[2 * k + 1];
      assert shown[k] == hits[k];
    }
  }

  /** An empty response gives the empty summary. */
  lemma EmptySummary(r: SearchResponse)
    ensures Summary(r) == "" <==> !HasAnswer(r) && !HasResults(r)
  {
    var parts := SummaryParts(r);
    if HasAnswer(r) || HasResults(r) {
      JoinLinesStartsWith(parts);
      assert |parts[0]| > 0;
    }
  }

  // ------------------------------------------------------------ research

  /** One result mapped to a source; missing fields default to "" and 0. */
  function ToSource(h: SearchHit): (s: Source)
    ensures h.title.None? ==> s.title == ""
    ensures h.url.None? ==> s.url == ""
    ensures h.content.None? ==> s.content == ""
    ensures h.score.None? ==> s.score == 0.0
    ensures h.title.Some? ==> s.title == h.title.value
    ensures h.url.Some? ==> s.url == h.url.value
    ensures h.content.Some? ==> s.content == h.content.value
    ensures h.score.Some? ==> s.score == h.score.value
  {
    Source(h.title.GetOr(""), h.url.GetOr(""), h.content.GetOr(""), h.score.GetOr(0.0))
  }

  function ToSources(hits: seq<SearchHit>): (sources: seq<Source>)
    ensures |sources| == |hits|
    ensures forall i :: 0 <= i < |hits| ==> sources[i] == ToSource(hits[i])
    decreases |hits|
  {
    if hits == [] then [] else [ToSource(hits[0])] + ToSources(hits[1..])
  }

  /** The answer when no client is configured: the query echoed, fixed
      messages, no sources. */
  function DisabledResult(query: string): (r: ResearchResult)
    ensures r.query == query && r.sources == []
    ensures r.answer == DisabledAnswer && r.summary == DisabledSummary
  {
    ResearchResult(query, DisabledAnswer, [], DisabledSummary)
  }

  /** `perform_research`: the disabled answer, or the mapped response and its
      summary, or the client's failure re-raised with the service prefix. */
  method PerformResearch(query: string, client: Client) returns (r: Result<ResearchResult, string>)
    ensures client.Disabled? ==> r == Success(DisabledResult(query))
    ensures client.Enabled? && client.outcome.Failure? ==>
      r == Failure("Search Service Error: " + client.outcome.error)
    ensures client.Enabled? && client.outcome.Success? ==>
      var resp := client.outcome.value;
      r.Success? && r.value.query == query
      && r.value.answer == resp.answer.GetOr("")
      && r.value.sources == ToSources(resp.results.GetOr([]))
      && r.value.summary == Summary(resp)
  {
    match client {
      case Disabled =>
        r := Success(DisabledResult(query));
      case Enabled(Failure(message)) =>
        r := Failure("Search Service Error: " + message);
      case Enabled(Success(resp)) =>
        var summary := CreateSummary(resp);
        r := Success(ResearchResult(query, resp.answer.GetOr(""), ToSources(resp.results.GetOr([])), summary));
    }
  }
}
