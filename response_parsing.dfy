/** Recovery of a JSON object from raw model output (`test_extraction`) and the
    plain-text document body assembled from it (`test_formatting`), as in
    backend/tests/test_parsing.py.

    `json.loads` is not modelled: it is the parameter `parse`, a partial
    function that gives `None` where Python raises `JSONDecodeError`. */
module ResponseParsing {
  import opened Results
  import opened Strings

  /** The outcome of the three-tier ladder, one constructor per line the
      source prints. */
  datatype Extraction<J> =
    | Direct(value: J)      // the cleaned text parsed
    | Recovered(value: J)   // the greedy brace span of the original text parsed
    | NoJsonFound           // the original text has no `{ ... }` span
    | RecoveryFailed        // the span exists but does not parse
  {
    /** What `test_extraction` returns: the parsed value, or None. */
    function ToOption(): (r: Option<J>)
      ensures r.Some? <==> (Direct? || Recovered?)
      ensures r.Some? ==> (Direct? || Recovered?) && r.value == value
    {
      if Direct? || Recovered? then Some(value) else None
    }
  }

  // ------------------------------------------------------------ step 1: fences

  /** `.replace("```json", "").replace("```", "")` */
  function StripFences(s: string): string {
    ReplaceAll(ReplaceAll(s, "```json", ""), "```", "")
  }

  /** The text handed to the direct parse: fences removed, then `strip()`. */
  function CleanResponse(s: string): string {
    Strip(StripFences(s))
  }

  /** Number of backticks the text starts with. */
  function LeadingTicks(s: string): nat
    decreases |s|
  {
    if s != [] && s[0] == '`' then 1 + LeadingTicks(s[1..]) else 0
  }

  lemma {:induction false} FenceIffTicks(s: string)
    ensures StartsWith(s, "```") <==> LeadingTicks(s) >= 3
  {
    if |s| >= 3 && s[0] == '`' && s[1] == '`' && s[2] == '`' {
      assert s[..3] == "```";
    }
    if s != [] && s[0] == '`' {
      var s1 := s[1..];
      if s1 != [] && s1[0] == '`' {
        var s2 := s1[1..];
        assert s2 == s[2..];
        assert LeadingTicks(s) == 1 + LeadingTicks(s1) == 2 + LeadingTicks(s2);
        if s2 != [] && s2[0] == '`' {
          assert LeadingTicks(s2) == 1 + LeadingTicks(s2[1..]);
        } else {
          assert LeadingTicks(s2) == 0;
        }
      }
    }
  }

  /** Removing every "```" leaves fewer than three leading backticks, keeps a
      run of one or two as it is, and never brings three backticks together. */
  lemma {:induction false} RemoveFencesTicks(x: string)
    ensures LeadingTicks(ReplaceAll(x, "```", "")) < 3
    ensures LeadingTicks(x) < 3 ==> LeadingTicks(ReplaceAll(x, "```", "")) == LeadingTicks(x)
    ensures !Contains(ReplaceAll(x, "```", ""), "```")
    decreases |x|
  {
    var r := ReplaceAll(x, "```", "");
    FenceIffTicks(x);
    FenceIffTicks(r);
    if StartsWith(x, "```") {
      RemoveFencesTicks(x[3..]);
      assert x[1..][1..][1..] == x[3..];
      assert x[0] == '`' && x[1..][0] == '`' && x[1..][1..][0] == '`' by { assert x[..3] == "```"; }
      assert LeadingTicks(x) == 1 + LeadingTicks(x[1..]);
      assert LeadingTicks(x[1..]) == 1 + LeadingTicks(x[1..][1..]);
      assert LeadingTicks(x[1..][1..]) == 1 + LeadingTicks(x[3..]);
      assert r == ReplaceAll(x[3..], "```", "");
    } else if x != [] {
      var y := ReplaceAll(x[1..], "```", "");
      RemoveFencesTicks(x[1..]);
      assert r == [x[0]] + y;
      assert r[1..] == y;
      if x[0] == '`' {
        assert LeadingTicks(r) == 1 + LeadingTicks(y);
      }
    }
  }

  /** Step 1 leaves no code fence behind, whatever the input. */
  lemma {:induction false} CleanedHasNoFence(s: string)
    ensures !Contains(CleanResponse(s), "```")
  {
    RemoveFencesTicks(ReplaceAll(s, "```json", ""));
    StripKeepsAbsent(StripFences(s), "```");
  }

  /** The fences are removed wherever they occur, not only around the text:
      a marker inside a JSON string value is dropped too, so a direct parse
      sees the value without it. */
  lemma {:induction false} FenceInsideTextRemoved(x: string, y: string)
    requires '`' !in x && '`' !in y && (y == [] || y[0] != 'j')
    ensures StripFences(x + "```" + y) == x + y
  {
    var t := "```" + y;
    assert x + "```" + y == x + t;
    assert ReplaceAll(x + t, "```json", "") == x + t by {
      TicksNotJsonFence(y);
      NotContainsPrefix(x, t, "```json");
    }
    assert ReplaceAll(t, "```", "") == y by {
      assert StartsWith(t, "```") && t[3..] == y;
      NotContainsChar(y, "```");
      assert ReplaceAll(t, "```", "") == "" + ReplaceAll(y, "```", "");
    }
    ReplaceAllAppend(x, t, "```", "");
  }

  /** A bare marker followed by text without backticks, not starting with
      `j`, holds no opening marker. */
  lemma {:induction false} TicksNotJsonFence(y: string)
    requires '`' !in y && (y == [] || y[0] != 'j')
    ensures !Contains("```" + y, "```json")
  {
    var t := "```" + y;
    assert !StartsWith(t, "```json") by {
      if |t| >= 7 { assert t[..7][3] == y[0]; }
    }
    assert !StartsWith(t[1..], "```json") by {
      if |t[1..]| >= 7 { assert t[1..][..7][2] == y[0]; }
    }
    assert !StartsWith(t[2..], "```json") by {
      if |t[2..]| >= 7 { assert t[2..][..7][1] == y[0]; }
    }
    assert t[1..][1..] == t[2..] && t[2..][1..] == y;
    NotContainsChar(y, "```json");
    assert !Contains(t[2..], "```json");
    assert !Contains(t[1..], "```json");
  }

  /** Text with no backtick and no surrounding whitespace is already clean. */
  lemma {:induction false} CleanUnchanged(t: string)
    requires '`' !in t
    requires t == [] || (!IsSpace(t[0]) && !IsSpace(t[|t| - 1]))
    ensures CleanResponse(t) == t
  {
    NotContainsChar(t, "```json");
    NotContainsChar(t, "```");
    StripTrimmed(t);
  }

  // ------------------------------------------------------------ step 3: brace span

  /** `re.search(r'\{.*\}', text, re.DOTALL)`: `.*` is greedy and crosses
      newlines, so the match runs from the first `{` to the last `}` of the
      text, provided that `}` comes after that `{`. The result is the slice
      bounds `[lo, hi)`. */
  function BraceSpan(s: string): (r: Option<(nat, nat)>)
    ensures r.Some? ==> r.value.0 < r.value.1 <= |s|
    ensures r.Some? ==> s[r.value.0] == '{' && s[r.value.1 - 1] == '}'
  {
    var first := FirstIndex(s, '{');
    var last := LastIndex(s, '}');
    if first.Some? && last.Some? && first.value < last.value then Some((first.value, last.value + 1))
    else None
  }

  /** The span runs from the first `{` to the last `}`. */
  lemma {:induction false} BraceSpanEnds(s: string)
    ensures BraceSpan(s).Some? ==> forall k :: 0 <= k < BraceSpan(s).value.0 ==> s[k] != '{'
    ensures BraceSpan(s).Some? ==> forall k :: BraceSpan(s).value.1 <= k < |s| ==> s[k] != '}'
  {
    FirstIndexSpec(s, '{');
    LastIndexSpec(s, '}');
  }

  /** A span is found exactly when some `{` comes before some `}`. */
  lemma {:induction false} BraceSpanExists(s: string)
    ensures BraceSpan(s).Some? <==> exists i, j :: 0 <= i < j < |s| && s[i] == '{' && s[j] == '}'
  {
    FirstIndexSpec(s, '{');
    LastIndexSpec(s, '}');
  }

  /** The span is pinned down by its two ends: a `{` with none before it and
      a `}` with none after it. */
  lemma {:induction false} SpanUnique(s: string, lo: nat, hi: nat)
    requires lo < hi <= |s| && s[lo] == '{' && s[hi - 1] == '}'
    requires forall k :: 0 <= k < lo ==> s[k] != '{'
    requires forall k :: hi <= k < |s| ==> s[k] != '}'
    ensures BraceSpan(s) == Some((lo, hi))
  {
    BraceSpanExists(s);
    BraceSpanEnds(s);
    assert BraceSpan(s).Some?;
  }

  /** The text the fallback tier hands to the parser. */
  function SpanText(s: string): (r: Option<string>)
    ensures r.Some? <==> BraceSpan(s).Some?
    ensures r.Some? ==> |r.value| >= 2 && r.value[0] == '{' && r.value[|r.value| - 1] == '}'
  {
    match BraceSpan(s)
    case Some((lo, hi)) => Some(s[lo..hi])
    case None => None
  }

  /** A brace-free prefix does not change the span. */
  lemma {:induction false} SpanAfterPrefix(p: string, u: string)
    requires '{' !in p && '}' !in p
    ensures SpanText(p + u) == SpanText(u)
  {
    FirstIndexAfter(p, u, '{');
    LastIndexAfter(p, u, '}');
    if BraceSpan(u).Some? {
      var (lo, hi) := BraceSpan(u).value;
      assert BraceSpan(p + u) == Some((lo + |p|, hi + |p|));
      SliceAfter(p, u, lo, hi);
    }
  }

  /** A brace-free suffix does not change the span. */
  lemma {:induction false} SpanBeforeSuffix(t: string, q: string)
    requires '{' !in q && '}' !in q
    ensures SpanText(t + q) == SpanText(t)
  {
    FirstIndexBefore(t, q, '{');
    LastIndexBefore(t, q, '}');
    if BraceSpan(t).Some? {
      var (lo, hi) := BraceSpan(t).value;
      assert (t + q)[lo..hi] == t[lo..hi];
    }
  }

  /** Prose without braces around a JSON text does not change the span: the
      fallback recovers exactly the braced part. */
  lemma {:induction false} SpanIgnoresBraceFreeContext(p: string, t: string, q: string)
    requires '{' !in p && '}' !in p && '{' !in q && '}' !in q
    ensures SpanText(p + t + q) == SpanText(t)
  {
    assert p + t + q == p + (t + q);
    SpanAfterPrefix(p, t + q);
    SpanBeforeSuffix(t, q);
  }

  /** A braced text is its own span. */
  lemma {:induction false} SpanOfBraced(t: string)
    requires |t| >= 2 && t[0] == '{' && t[|t| - 1] == '}'
    ensures SpanText(t) == Some(t)
  {
    SpanUnique(t, 0, |t|);
    assert t[0..|t|] == t;
  }

  // ------------------------------------------------------------ the ladder

  /** `test_extraction`: direct parse of the cleaned text, else parse of the
      brace span of the ORIGINAL text, else nothing. Total: every input gets
      one of the four outcomes. */
  function Extract<J>(parse: string -> Option<J>, text: string): (r: Extraction<J>)
    ensures r.Direct? <==> parse(CleanResponse(text)).Some?
    ensures r.Direct? ==> parse(CleanResponse(text)) == Some(r.value)
    ensures r.Recovered? ==> SpanText(text).Some? && parse(SpanText(text).value) == Some(r.value)
    ensures r.NoJsonFound? <==> parse(CleanResponse(text)).None? && SpanText(text).None?
    ensures r.RecoveryFailed? <==>
      parse(CleanResponse(text)).None? && SpanText(text).Some? && parse(SpanText(text).value).None?
  {
    match parse(CleanResponse(text))
    case Some(v) => Direct(v)
    case None =>
      match SpanText(text)
      case None => NoJsonFound
      case Some(span) =>
        match parse(span)
        case Some(v) => Recovered(v)
        case None => RecoveryFailed
  }

  /** The first replace removes the opening marker of a fenced block. */
  lemma {:induction false} OpeningFenceRemoved(body: string)
    requires '`' !in body
    ensures ReplaceAll("```json" + body + "```", "```json", "") == body + "```"
  {
    var fenced := "```json" + body + "```";
    assert StartsWith(fenced, "```json");
    assert fenced[7..] == body + "```";
    ReplaceAllAppend(body, "```", "```json", "");
    ShorterNotContains("```", "```json");
  }

  /** The second replace removes the closing marker. */
  lemma {:induction false} ClosingFenceRemoved(body: string)
    requires '`' !in body
    ensures ReplaceAll(body + "```", "```", "") == body
  {
    ReplaceAllAppend(body, "```", "```", "");
    assert ReplaceAll("```", "```", "") == "" + ReplaceAll("", "```", "");
  }

  /** Extraction looks at a text only through its cleaned form and its span. */
  lemma {:induction false} ExtractSameInputs<J>(parse: string -> Option<J>, a: string, b: string)
    requires CleanResponse(a) == CleanResponse(b) && SpanText(a) == SpanText(b)
    ensures Extract(parse, a) == Extract(parse, b)
  {
  }

  /** Cleaning a fenced block leaves exactly the trimmed JSON text. */
  lemma {:induction false} FencedCleans(t: string)
    requires '`' !in t && t != [] && !IsSpace(t[0]) && !IsSpace(t[|t| - 1])
    ensures CleanResponse("```json\n" + t + "\n```") == t
  {
    var body := "\n" + t + "\n";
    assert "```json\n" + t + "\n```" == "```json" + body + "```";
    OpeningFenceRemoved(body);
    ClosingFenceRemoved(body);
    StripPadded("\n", t, "\n");
  }

  /** A fenced response (```json ... ```) extracts exactly as its bare JSON
      text does, whichever tier fires. */
  lemma {:induction false} FencedSameAsClean<J>(parse: string -> Option<J>, t: string)
    requires '`' !in t && t != [] && !IsSpace(t[0]) && !IsSpace(t[|t| - 1])
    ensures Extract(parse, "```json\n" + t + "\n```") == Extract(parse, t)
  {
    FencedCleans(t);
    CleanUnchanged(t);
    SpanIgnoresBraceFreeContext("```json\n", t, "\n```");
    ExtractSameInputs(parse, "```json\n" + t + "\n```", t);
  }

  /** Prose before and after a JSON object is skipped by the fallback tier:
      the object is recovered when the whole text does not parse. */
  lemma {:induction false} ProseAroundJsonRecovered<J>(parse: string -> Option<J>, p: string, j: string, q: string, v: J)
    requires '{' !in p && '}' !in p && '{' !in q && '}' !in q
    requires |j| >= 2 && j[0] == '{' && j[|j| - 1] == '}'
    requires parse(CleanResponse(p + j + q)).None?
    requires parse(j) == Some(v)
    ensures Extract(parse, p + j + q) == Recovered(v)
  {
    SpanIgnoresBraceFreeContext(p, j, q);
    SpanOfBraced(j);
  }

  /** Without any `{ ... }` span, a text that does not parse gives None. */
  lemma {:induction false} NoBracesGivesNone<J>(parse: string -> Option<J>, text: string)
    requires '{' !in text
    requires parse(CleanResponse(text)).None?
    ensures Extract(parse, text).ToOption() == None
  {
    assert forall i :: 0 <= i < |text| ==> text[i] != '{';
  }

  // The inputs of the script's own checks, written in short pieces.

  const DirtyPrefix := "Here is the result:\n"
  const DirtyJson := "{\"title\": \"Dirty\", " + "\"answer\": \"Real Answer\", " + "\"question\": \"The Q\"}"
  const DirtySuffix := "\nHope this helps."
  const NestedJson := "{\"title\": \"Code\", " + "\"answer\": " + "\"function test() " + "{ return true; }\"}"

  /** Case 3 of the script: the JSON object inside the prose is recovered. */
  lemma {:induction false} DirtyExampleRecovered<J>(parse: string -> Option<J>, v: J)
    requires parse(CleanResponse(DirtyPrefix + DirtyJson + DirtySuffix)).None?
    requires parse(DirtyJson) == Some(v)
    ensures Extract(parse, DirtyPrefix + DirtyJson + DirtySuffix) == Recovered(v)
  {
    DirtyPieces();
    ProseAroundJsonRecovered(parse, DirtyPrefix, DirtyJson, DirtySuffix, v);
  }

  /** The prose of case 3 holds no brace; its JSON part is braced. */
  lemma DirtyPieces()
    ensures '{' !in DirtyPrefix && '}' !in DirtyPrefix && '{' !in DirtySuffix && '}' !in DirtySuffix
    ensures |DirtyJson| >= 2 && DirtyJson[0] == '{' && DirtyJson[|DirtyJson| - 1] == '}'
  {
  }

  /** Case 4 of the script: braces inside a string value do not stop the
      direct parse, since cleaning leaves the text as it is. */
  lemma {:induction false} NestedBracesDirect<J>(parse: string -> Option<J>, v: J)
    requires parse(NestedJson) == Some(v)
    ensures Extract(parse, NestedJson) == Direct(v)
  {
    assert '`' !in NestedJson;
    CleanUnchanged(NestedJson);
  }

  // ------------------------------------------------------------ test_formatting

  const DefaultTitle := "Assignment Submission"
  const DefaultAnswer := "Default Answer"
  /** `'-' * 20` */
  const Rule := "--------------------"
  const QuestionHeader := "\nQuestion / Topic:\n"

  function TitleOf(record: map<string, string>): string { Get(record, "title", DefaultTitle) }
  function AnswerOf(record: map<string, string>): string { Get(record, "answer", DefaultAnswer) }
  function QuestionOf(record: map<string, string>): string { Get(record, "question", "") }
  function SummaryOf(record: map<string, string>): string { Get(record, "summary", "") }

  function TitleLine(record: map<string, string>): string { "Title: " + TitleOf(record) + "\n" }
  function AnswerBlock(record: map<string, string>): string { "\nAnswer:\n\n" + AnswerOf(record) + "\n" }
  function SummaryBlock(record: map<string, string>): string { "\n" + Rule + "\nSummary:\n" + SummaryOf(record) + "\n" }

  /** `test_formatting`: the document body. It starts with the title line;
      the question section follows it exactly when a question is given; the
      answer block is always there; the summary closes the body exactly when
      one is given, and otherwise the answer does. */
  function FormatDocument(record: map<string, string>): (doc: string)
    ensures StartsWith(doc, TitleLine(record))
    ensures "title" !in record ==> StartsWith(doc, "Title: " + DefaultTitle + "\n")
    ensures QuestionOf(record) != "" <==> StartsWith(doc[|TitleLine(record)|..], QuestionHeader)
    ensures QuestionOf(record) != "" ==>
      StartsWith(doc[|TitleLine(record)|..], QuestionHeader + QuestionOf(record) + "\n")
    ensures Contains(doc, AnswerBlock(record))
    ensures "answer" !in record ==> Contains(doc, "\nAnswer:\n\n" + DefaultAnswer + "\n")
    ensures SummaryOf(record) != "" ==> EndsWith(doc, SummaryBlock(record))
    ensures SummaryOf(record) == "" ==> EndsWith(doc, AnswerBlock(record))
  {
    var question := QuestionOf(record);
    var summary := SummaryOf(record);
    var qpart := if question != "" then QuestionHeader + question + "\n" else "";
    var spart := if summary != "" then SummaryBlock(record) else "";
    var mid := "\n" + Rule + "\n";
    var head := TitleLine(record);
    var doc := head + qpart + mid + AnswerBlock(record) + spart;
    DocumentLayout(head, qpart, mid, AnswerBlock(record), spart);
    assert question != "" <==> StartsWith(doc[|head|..], QuestionHeader) by {
      QuestionOpens(doc[|head|..], question, mid + AnswerBlock(record) + spart);
    }
    doc
  }

  /** The text after the title line opens with the question header exactly
      when there is a question. */
  lemma {:induction false} QuestionOpens(rest: string, question: string, after: string)
    requires question != "" ==> rest == (QuestionHeader + question + "\n") + after
    requires question == "" ==> StartsWith(rest, "\n" + Rule + "\n")
    ensures question != "" <==> StartsWith(rest, QuestionHeader)
    ensures question != "" ==> StartsWith(rest, QuestionHeader + question + "\n")
  {
    if question != "" {
      var h := QuestionHeader;
      var q := QuestionHeader + question + "\n";
      Concat(q, after);
      Regroup(h, question, "\n");
      Concat(h, question + "\n");
      assert rest[..|h|] == q[..|h|];
    } else {
      assert rest[1] == '-';
    }
  }

  /** Where the five parts of the body end up. */
  lemma {:induction false} DocumentLayout(head: string, qpart: string, mid: string, answer: string, spart: string)
    requires mid != []
    ensures var doc := head + qpart + mid + answer + spart;
      && StartsWith(doc, head)
      && doc[|head|..] == qpart + mid + answer + spart
      && doc[|head|..] == qpart + (mid + answer + spart)
      && (qpart != [] ==> StartsWith(doc[|head|..], qpart))
      && (qpart == [] ==> StartsWith(doc[|head|..], mid))
      && Contains(doc, answer)
      && (spart != [] ==> EndsWith(doc, spart))
      && (spart == [] ==> EndsWith(doc, answer))
  {
    var front := head + qpart + mid;
    var body := front + answer;
    var doc := body + spart;
    var tail := qpart + mid + answer + spart;
    assert StartsWith(doc, head) && doc[|head|..] == tail by {
      Regroup(head, qpart, mid);
      Regroup(head, qpart + mid, answer);
      Regroup(head, qpart + mid + answer, spart);
      Concat(head, tail);
    }
    assert tail == qpart + (mid + answer + spart) by {
      Regroup(qpart, mid, answer);
      Regroup(qpart, mid + answer, spart);
    }
    assert qpart != [] ==> StartsWith(tail, qpart) by {
      Concat(qpart, mid + answer + spart);
    }
    assert qpart == [] ==> StartsWith(tail, mid) by {
      if qpart == [] {
        assert tail == mid + answer + spart;
        Regroup(mid, answer, spart);
        Concat(mid, answer + spart);
      }
    }
    assert Contains(doc, answer) && EndsWith(body, answer) by {
      Concat(front, answer);
      ContainsAt(body, answer, |front|);
      Concat(body, spart);
      assert doc[0..|body|] == body;
      ContainsSlice(doc, 0, |body|, answer);
    }
    assert EndsWith(doc, spart) by {
      Concat(body, spart);
    }
    if spart == [] {
      assert doc == body;
    }
  }
}
