# Assignment helper backend: the deterministic core, in Dafny

The backend takes a student's request, asks a language model for an answer,
optionally researches the topic on the web and fact-checks the result, and
exports the answer as a PDF or DOCX document. Most of it is glue around
external services. This project models the parts that are plain logic and
proves what they promise:

- **Recovery of JSON from model output** (`ResponseParsing`, after
  `backend/tests/test_parsing.py`). Code fences are stripped and the text is
  trimmed. Then comes a direct parse, then a parse of the greedy span from
  the first `{` to the last `}` of the original text. Failing both gives
  nothing. The module also covers the plain-text document body built from
  the parsed fields. `json.loads` is a parameter: a partial function
  `string -> Option<J>`.
- **The LaTeX artifact cleaner** (`LatexCleaner`). It applies four ordered
  rewrites: `$$…$$`, `\text{…}`, `\to` to `->`, and `\[…\]`. Each regular
  expression substitution is written as the left-to-right scan that `re.sub`
  performs: leftmost match, lazy group, resume after the match.
- **Uploads and exports** (`FileService`):
  - the size limit and content-type whitelist of `validate_file`;
  - the category mapping;
  - the output path (`os.path.join` on POSIX);
  - the error prefixes;
  - the DOCX conversion, which appends one paragraph per non-blank line to
    a document object (the class `Document`).
- **The download endpoint** (`Download`). It has a path-traversal guard,
  then an existence check against a set of existing paths.
- **Fact checking** (`FactCheck`):
  - shaping of each claim's verdict;
  - the trust score as an exact ratio;
  - the reliability flag;
  - the citation scan (two `re.findall` patterns, deduplication, at most five).
- **Research** (`SearchService`). This covers the fixed answer when no
  search client is configured, the mapping of hits to sources, and the
  summary text, which lists at most three numbered entries.
- **Prompt assembly** (`AiService`). Optional sections are joined in a fixed
  order.

Shared pieces: `Results` holds the `Option` and `Result` types. `Strings`
models the Python `str` operations these routines use:
- `strip` with Python's `isspace` set;
- `replace`;
- `split('\n')` and `'\n'.join`;
- `in` and the decimal rendering of an integer;
- the search for the first occurrence of a closer, which the lazy group of
  a regular expression performs.

Three behaviours of the code shape the model:
- **Fences.** `CleanResponse` removes every occurrence of the fence
  markers, including one inside a JSON string value
  (`ResponseParsing.FenceInsideTextRemoved`), not only a pair around the
  text.
- **Failed extraction.** When both tiers fail, `test_extraction` returns
  `None`; there is no fallback record.
- **DOCX rendering.** `generate_docx` writes each non-blank line as a plain
  paragraph, with no Markdown rendering.

Two loops of the source are methods proved against a function that
specifies them, and the lemmas speak about that function:
- `SearchService.CreateSummary` appends the parts of `_create_summary` and
  returns exactly `SearchService.Summary`;
- `FileService.GenerateDocx` adds one paragraph at a time to a `Document`
  and leaves in it exactly `FileService.Paragraphs` of the content.

## Model

| member | source | states |
|---|---|---|
| ResponseParsing.StripFences | backend/tests/test_parsing.py:9 | the two `replace` calls; its properties are `RemoveFencesTicks`, `OpeningFenceRemoved` and `ClosingFenceRemoved` |
| ResponseParsing.CleanResponse | backend/tests/test_parsing.py:9 | the fences removed, then `strip()`; its properties are `CleanedHasNoFence`, `CleanUnchanged` and `FencedCleans` |
| ResponseParsing.Extraction.ToOption | backend/tests/test_parsing.py:12-25 | a value is returned exactly for the two successful tiers; the two failures return None |
| ResponseParsing.RemoveFencesTicks | backend/tests/test_parsing.py:9 | removing every "```" leaves no "```" behind: it never brings three backticks together |
| ResponseParsing.CleanedHasNoFence | backend/tests/test_parsing.py:9 | the cleaned text contains no code fence, whatever the input |
| ResponseParsing.FenceInsideTextRemoved | backend/tests/test_parsing.py:9 | a marker in the middle of the text (inside a JSON string value) is removed too, not only one around the text |
| ResponseParsing.CleanUnchanged | backend/tests/test_parsing.py:9 | text without backticks and without surrounding white space is already clean |
| ResponseParsing.BraceSpan | backend/tests/test_parsing.py:15 | the span starts at the first `{` of the text and ends at its last `}` (DOTALL: across lines) |
| ResponseParsing.BraceSpanExists | backend/tests/test_parsing.py:15-16 | a match exists iff some `{` comes before some `}` |
| ResponseParsing.BraceSpanEnds | backend/tests/test_parsing.py:15 | greedy matching: no `{` lies before the span and no `}` after it |
| Strings.FirstIndexSpec | backend/tests/test_parsing.py:15 | the first `{` is found, and none is found only when the text has none |
| Strings.LastIndexSpec | backend/tests/test_parsing.py:15 | the last `}` is found, and none is found only when the text has none |
| ResponseParsing.SpanUnique | backend/tests/test_parsing.py:15 | a `{` with none before it and a `}` with none after it are exactly the span found |
| ResponseParsing.SpanText | backend/tests/test_parsing.py:15-17 | the text handed to the fallback parse starts with `{` and ends with `}`, and exists iff a span does |
| ResponseParsing.SpanAfterPrefix | backend/tests/test_parsing.py:15 | a prefix without braces does not change the span text |
| ResponseParsing.SpanBeforeSuffix | backend/tests/test_parsing.py:15 | a suffix without braces does not change the span text |
| ResponseParsing.SpanIgnoresBraceFreeContext | backend/tests/test_parsing.py:15 | prose without braces on both sides does not change the span text |
| ResponseParsing.SpanOfBraced | backend/tests/test_parsing.py:15 | a text that starts with `{` and ends with `}` is its own span |
| ResponseParsing.Extract | backend/tests/test_parsing.py:6-25 | the tier order: direct iff the cleaned text parses; otherwise recovered from the span of the ORIGINAL text; otherwise no span, or a span that does not parse |
| ResponseParsing.OpeningFenceRemoved | backend/tests/test_parsing.py:9 | the first replace removes a leading "```json" |
| ResponseParsing.ClosingFenceRemoved | backend/tests/test_parsing.py:9 | the second replace removes a trailing "```" |
| ResponseParsing.FencedCleans | backend/tests/test_parsing.py:9 | a "```json\n … \n```" block cleans to its trimmed content |
| ResponseParsing.FencedSameAsClean | backend/tests/test_parsing.py:49-54 | a fenced response extracts exactly as its bare JSON text does |
| ResponseParsing.ProseAroundJsonRecovered | backend/tests/test_parsing.py:13-19 | a braced object with brace-free prose on both sides is recovered by the fallback tier when the whole text does not parse |
| ResponseParsing.NoBracesGivesNone | backend/tests/test_parsing.py:15-22 | with no `{` and no direct parse the result is None |
| ResponseParsing.DirtyExampleRecovered | backend/tests/test_parsing.py:56-58 | the script's "Dirty" input is recovered from its braced part |
| ResponseParsing.NestedBracesDirect | backend/tests/test_parsing.py:62-64 | braces inside a string value do not stop the direct parse |
| ResponseParsing.FormatDocument | backend/tests/test_parsing.py:27-41 | the body starts with the title line (default "Assignment Submission"); the question section follows iff the question is non-empty; it contains the answer block (default "Default Answer"); it ends with the summary block iff the summary is non-empty, else with the answer block |
| LatexCleaner.CloseIndex | backend/verify_latex_cleaner.py:6-12 | the lazy group closes at the first closer; without DOTALL a line break before it means no match |
| LatexCleaner.Unwrap | backend/verify_latex_cleaner.py:6-12 | `re.sub` with a lazy group: text without the opener is unchanged, and the result is never longer |
| LatexCleaner.UnwrapKeeps | backend/verify_latex_cleaner.py:6-12 | any of the substitutions leaves text without its opener unchanged |
| Strings.IndexOfFirst | backend/verify_latex_cleaner.py:6-12 | the closer search succeeds exactly when the closer occurs, and finds its first occurrence (the lazy group) |
| LatexCleaner.UnwrapDisplayMath | backend/verify_latex_cleaner.py:6 | text without `$$` is unchanged |
| LatexCleaner.UnwrapText | backend/verify_latex_cleaner.py:8 | text without `\text{` is unchanged |
| LatexCleaner.Arrows | backend/verify_latex_cleaner.py:10 | text without `\to` is unchanged |
| LatexCleaner.UnwrapBracketMath | backend/verify_latex_cleaner.py:12 | text without `\[` is unchanged |
| LatexCleaner.Clean | backend/verify_latex_cleaner.py:3-14 | the four rewrites in order; text with none of the four triggers is returned unchanged |
| LatexCleaner.UnwrapPair | backend/verify_latex_cleaner.py:6-12 | opener + X + closer, with X up to the first closer, becomes X, and the scan resumes after the closer |
| LatexCleaner.UnwrapAppendFree | backend/verify_latex_cleaner.py:6-12 | a prefix without the opener's first character is copied through |
| LatexCleaner.UnwrapNoMatch | backend/verify_latex_cleaner.py:6-12 | where no match starts, the first character is kept and the scan moves on by one |
| LatexCleaner.NewlineBlocksClose | backend/verify_latex_cleaner.py:8 | without DOTALL a line break before the first `}` leaves no closer |
| LatexCleaner.TextStopsAtNewline | backend/verify_latex_cleaner.py:8 | a `\text{` whose `}` lies on a later line is left as it is |
| LatexCleaner.ArrowsGone | backend/verify_latex_cleaner.py:10 | right after the third rewrite no `\to` remains |
| LatexCleaner.ArrowTextPasses | backend/verify_latex_cleaner.py:8-10 | the backslash of ` \to ` opens no `\text{`, so the arrow survives the second rewrite for the third |
| LatexCleaner.StepMath | backend/verify_latex_cleaner.py:6 | `$$X$$` becomes X when X holds no `$` |
| LatexCleaner.StepText | backend/verify_latex_cleaner.py:8 | the three `\text{…}` words of the sample unwrap to their contents |
| LatexCleaner.StepArrows | backend/verify_latex_cleaner.py:10 | both ` \to ` separators of the sample become ` -> ` |
| LatexCleaner.ChainCleans | backend/verify_latex_cleaner.py:16-21 | `$$\text{a} \to \text{c} \to \text{e}$$` cleans to `a -> c -> e` for any plain words |
| LatexCleaner.SampleCleans | backend/verify_latex_cleaner.py:16-21 | the script's test vector cleans to `A -> C -> E`, also after `strip()` |
| FileService.ValidateFile | backend/app/services/file_service.py:31-55 | accepted iff size <= 10 MiB and the type is in image + pdf + word; every rejection is status 400, with the size message when too big, else the type message |
| FileService.SizeBoundary | backend/app/services/file_service.py:35-39 | exactly 10·1024·1024 bytes pass, one byte more is rejected |
| FileService.SizeReportedFirst | backend/app/services/file_service.py:31-53 | an oversized file of a bad type reports the size, and the two messages differ |
| FileService.GetFileCategory | backend/app/services/file_service.py:57-66 | image iff in the image list; pdf and word only from their lists; unknown iff in none of them |
| FileService.ListsDisjoint | backend/app/services/file_service.py:6-13 | the three type lists share no entry |
| FileService.CategoryUnique | backend/app/services/file_service.py:58-66 | a pdf type maps to pdf and a word type to word, whatever the test order |
| FileService.CategoryKnownIffAccepted | backend/app/services/file_service.py:43-66 | the category is not unknown iff the type passes validation (for an allowed size) |
| FileService.PathJoin | backend/app/services/file_service.py:87-90 | `os.path.join`: an absolute second part wins; otherwise the result starts with the first part and ends with the second |
| FileService.OutputPathShape | backend/app/services/file_service.py:87-90 | a relative file name is written to `<cwd>/outputs/<filename>` |
| FileService.OutputDir | backend/app/services/file_service.py:87 | `os.path.join(os.getcwd(), "outputs")`, the directory both exports write to |
| FileService.OutputPath | backend/app/services/file_service.py:87-90 | `os.path.join(os.path.join(os.getcwd(), "outputs"), filename)`; its shape is `OutputPathShape` |
| FileService.KeepNonBlank | backend/app/services/file_service.py:145 | the lines with `line.strip()` non-empty, as `Filter` with that test |
| FileService.Paragraphs | backend/app/services/file_service.py:144-146 | the non-blank lines of `content.split('\n')`; its properties are `ParagraphsAppend` and `ParagraphsOfLines` |
| FileService.Filter | backend/app/services/file_service.py:144-146 | only lines that pass the test are kept, never more than given; with the test `line.strip()` non-empty this is the paragraph loop |
| FileService.FilterAppend | backend/app/services/file_service.py:144-146 | the filter distributes over concatenation: order is kept and each line is judged on its own |
| FileService.FilterAll | backend/app/services/file_service.py:144-146 | lines that all pass the test (all non-blank) are all kept, in order and unchanged |
| FileService.FilterNone | backend/app/services/file_service.py:144-146 | lines that all fail the test (all blank) give no paragraph |
| Strings.SplitLinesNoBreak | backend/app/services/file_service.py:144 | `split('\n')` gives pieces with no line break in them |
| FileService.ParagraphsAppend | backend/app/services/file_service.py:144-146 | the paragraphs of two texts joined by a line break are the paragraphs of each, in order |
| FileService.ParagraphsOfLines | backend/app/services/file_service.py:144-146 | non-blank lines joined by line breaks come back as exactly those paragraphs, text unchanged |
| FileService.Document.constructor | backend/app/services/file_service.py:141 | a new document has no paragraphs |
| FileService.Document.AddParagraph | backend/app/services/file_service.py:146 | the paragraph is appended after the existing ones |
| FileService.GenerateDocx | backend/app/services/file_service.py:120-152 | the new document holds exactly the non-blank lines in order; the result is the output path, or the save failure with the "DOCX generation error: " prefix |
| FileService.GeneratePdf | backend/app/services/file_service.py:80-117 | fails iff the writing fails, with "PDF generation error: " followed by the cause's message; otherwise exactly the output path, which for a relative name ends in `outputs/<filename>` |
| Download.Traversal | backend/app/api/v1/endpoints/download.py:13 | the name holds `..`, `/` or `\` |
| Download.DownloadFile | backend/app/api/v1/endpoints/download.py:8-22 | `..`, `/` or `\` gives 400 "Invalid filename"; a missing file gives 404 "File not found"; success iff the name is valid and the file exists, served under the same name as `application/octet-stream` |
| Download.TraversalBeforeLookup | backend/app/api/v1/endpoints/download.py:13-19 | a rejected name gets the same answer whatever files exist |
| Download.AcceptedStaysInOutputs | backend/app/api/v1/endpoints/download.py:16-17 | an accepted name resolves to exactly `<outputs>/<filename>` and holds no separator and no `..` |
| FactCheck.ShapeClaim | backend/app/services/fact_check_service.py:91-99 | the claim is kept; a failure gives status "Unverified" with the error as reasoning; otherwise each field is taken from the answer or defaults ("Unverified", "", "") |
| Results.Get | backend/app/services/fact_check_service.py:93-95 | `dict.get` with a default: the stored value when the key is present, else the default; also the `.get` calls of backend/tests/test_parsing.py:28-31 |
| FactCheck.CountStatus | backend/app/services/fact_check_service.py:130-131 | a count never exceeds the number of claims |
| FactCheck.CountsDisjoint | backend/app/services/fact_check_service.py:130-132 | supported + contradicted <= total |
| FactCheck.CountAll | backend/app/services/fact_check_service.py:130-131 | a count equals the total iff every claim has that status, and is 0 iff none has it |
| FactCheck.FractionBounds | backend/app/services/fact_check_service.py:137 | points over a positive total lie in [0, 1], are 1 iff full and 0 iff none |
| FactCheck.TrustScore | backend/app/services/fact_check_service.py:126-138 | the exact ratio (supported + one half per other claim) / total, 1 for no claims; its properties are the `TrustScore*` lemmas |
| FactCheck.DefaultThreshold | backend/app/services/fact_check_service.py:11-35 | under the default `min_confidence` of 0.7, an all-supported list is reliable and a non-empty list without a supported claim is not |
| FactCheck.HalfBound | backend/app/services/fact_check_service.py:137 | points of at most one half per claim give a score of at most one half |
| FactCheck.TrustScoreBounds | backend/app/services/fact_check_service.py:126-137 | the score lies in [0, 1] |
| FactCheck.TrustScoreOne | backend/app/services/fact_check_service.py:126-137 | the score is 1 iff every claim is supported (so no claims give 1) |
| FactCheck.TrustScoreZero | backend/app/services/fact_check_service.py:130-137 | for a non-empty list the score is 0 iff every claim is contradicted |
| FactCheck.TrustScoreHalf | backend/app/services/fact_check_service.py:130-137 | claims with any other status count one half each |
| FactCheck.DigitRun | backend/app/services/fact_check_service.py:108 | the maximal run of leading digits |
| FactCheck.LowerRun | backend/app/services/fact_check_service.py:111 | the maximal run of leading lower-case letters |
| FactCheck.IsNumericCitation | backend/app/services/fact_check_service.py:108 | the shape `\[\d+\]`: `[`, at least one digit, `]` |
| FactCheck.IsAuthorCitation | backend/app/services/fact_check_service.py:111 | the shape `\([A-Z][a-z]+,\s\d{4}\)` |
| FactCheck.NumericAt | backend/app/services/fact_check_service.py:108 | a match at the start has the `[digits]` form |
| FactCheck.AuthorAt | backend/app/services/fact_check_service.py:111 | a match at the start has the `(Name, 1999)` form |
| FactCheck.FindAll | backend/app/services/fact_check_service.py:108-111 | `re.findall` for a pattern without groups: the match where it starts, then the scan resumes after it |
| FactCheck.FindAllFound | backend/app/services/fact_check_service.py:108-111 | everything found has the pattern's form and occurs in the text |
| FactCheck.FindAllComplete | backend/app/services/fact_check_service.py:108-111 | when no match starts inside another, every match in the text is found |
| FactCheck.FindNumeric | backend/app/services/fact_check_service.py:108 | `re.findall(r'\[\d+\]', text)`; sound by `FindNumericFound`, complete by `FindNumericComplete` |
| FactCheck.FindAuthor | backend/app/services/fact_check_service.py:111 | `re.findall` of the author pattern; sound by `FindAuthorFound`, complete by `FindAuthorComplete` |
| FactCheck.FindNumericFound | backend/app/services/fact_check_service.py:108 | every `[digits]` found has that form and occurs in the text |
| FactCheck.FindAuthorFound | backend/app/services/fact_check_service.py:111 | every `(Name, 1999)` found has that form and occurs in the text |
| FactCheck.FindNumericComplete | backend/app/services/fact_check_service.py:108 | every `[digits]` anywhere in the text is among the matches found |
| FactCheck.FindAuthorComplete | backend/app/services/fact_check_service.py:111 | every `(Name, 1999)` anywhere in the text is among the matches found |
| FactCheck.NumericNoInner | backend/app/services/fact_check_service.py:108 | no `[digits]` match starts inside another |
| FactCheck.AuthorNoInner | backend/app/services/fact_check_service.py:111 | no author match starts inside another |
| FactCheck.MatchSound | backend/app/services/fact_check_service.py:108-113 | a match of either pattern has that pattern's form and occurs in the text |
| FactCheck.NumericCitationFound | backend/app/services/fact_check_service.py:108 | a `[digits]` after text without `[` is found, and the scan resumes after it |
| FactCheck.VerifyCitations | backend/app/services/fact_check_service.py:101-124 | min(5, number of distinct matches) results, pairwise distinct, each a match of one pattern that occurs in the text, with status "Checked" and note "Format detected"; with at most five distinct matches, every one of them is reported |
| FactCheck.VerifyContent | backend/app/services/fact_check_service.py:11-36 | one verified claim per extracted claim, in order; the score is the trust score and lies in [0, 1]; reliable iff score >= min_confidence; the citation facts above, including that every match is reported when there are at most five |
| SearchService.Truncate | backend/app/services/search_service.py:74 | `[:200]`: a prefix of at most 200 characters, the whole text when shorter |
| SearchService.Entries | backend/app/services/search_service.py:72-74 | two lines per shown result |
| SearchService.EntriesAt | backend/app/services/search_service.py:72-74 | entry k is numbered k+1 and shows result k: its title (default "N/A"), then its truncated content followed by "..." |
| SearchService.Shown | backend/app/services/search_service.py:72 | the first min(3, n) results |
| SearchService.SummaryParts | backend/app/services/search_service.py:65-74 | the list `summary_parts`: the answer line iff the answer is truthy, then "Key Findings:" and two lines per shown result iff there are results |
| SearchService.Summary | backend/app/services/search_service.py:63-76 | the parts joined by line breaks; its properties are `SummaryAnswerFirst`, `SummaryFindings` and `EmptySummary` |
| Strings.NatToStringValue | backend/app/services/search_service.py:73 | the decimal text of the entry number reads back as that number |
| SearchService.CreateSummary | backend/app/services/search_service.py:63-76 | the appended parts, joined by line breaks, are the summary |
| SearchService.SummaryAnswerFirst | backend/app/services/search_service.py:67-68 | the summary starts with `Answer: <answer>\n` iff the answer is truthy |
| SearchService.SummaryFindings | backend/app/services/search_service.py:70-74 | with results, "Key Findings:" is followed by at most three entries numbered 1..n in result order |
| SearchService.EmptySummary | backend/app/services/search_service.py:65-76 | the summary is empty iff there is neither an answer nor results |
| SearchService.ToSource | backend/app/services/search_service.py:47-52 | each field is taken from the hit, with "" for missing text and 0 for a missing score |
| SearchService.ToSources | backend/app/services/search_service.py:46-54 | sources correspond one to one, in order, to the results |
| SearchService.DisabledResult | backend/app/services/search_service.py:26-32 | with no client: the query echoed, the fixed messages, no sources |
| SearchService.PerformResearch | backend/app/services/search_service.py:14-61 | the disabled answer without a client; a client failure re-raised with "Search Service Error: "; otherwise the answer (default ""), the mapped sources and the summary |
| AiService.BuildPrompt | backend/app/services/ai_service.py:43-60 | the instructions close the prompt; the research context opens it iff it is truthy; the exact layout in each of the four cases, sections in the order context, content, instructions |
| AiService.Layout | backend/app/services/ai_service.py:60 | joining one to three parts by line breaks: first character and closing part |
| Strings.Contains | backend/app/api/v1/endpoints/download.py:13 | Python's `p in s` for strings: `p` occurs at some position of `s` |
| Strings.NatToString | backend/app/services/search_service.py:73 | `str(i)` for the entry number: a non-empty run of decimal digits; read back by `NatToStringValue` |
| Strings.IndexOf | backend/verify_latex_cleaner.py:6-12 | where the lazy group closes: an occurrence of the closer; `IndexOfFirst` shows it is the first one |
| Strings.Strip | backend/tests/test_parsing.py:9 | `str.strip()` with Python's white-space set; used again at backend/app/services/file_service.py:145 |
| Strings.StripSlice | backend/tests/test_parsing.py:9 | `strip()` keeps a slice of the input, cuts only white space on either side, and leaves no white space at either end |
| Strings.StripEmptyIff | backend/app/services/file_service.py:145 | a line strips to nothing iff every character is white space |
| Strings.StripPadded | backend/tests/test_parsing.py:9 | white space around a trimmed text strips back to that text |
| Strings.ReplaceAll | backend/tests/test_parsing.py:9 | `str.replace`, every occurrence left to right; text without the pattern is unchanged |
| Strings.ReplaceAllAppend | backend/verify_latex_cleaner.py:10 | a prefix in which the pattern cannot start passes through `replace` unchanged |
| Strings.SplitLines | backend/app/services/file_service.py:144 | `split('\n')`: never an empty list |
| Strings.SplitLinesAppend | backend/app/services/file_service.py:144 | splitting distributes over a line break |
| Strings.JoinLines | backend/app/services/search_service.py:76 | `'\n'.join`; used again at backend/app/services/ai_service.py:60 |
| Strings.JoinSplit | backend/app/services/file_service.py:144 | joining the pieces of a split by line breaks gives back the text |
| Strings.SplitJoin | backend/app/services/file_service.py:144 | splitting lines without line breaks, joined by line breaks, gives back the lines |

## Left out

- `json.loads` is the parameter `parse`. Records in `FormatDocument` and verdicts in `ShapeClaim` are maps to strings, so non-string JSON values, and `null` read as absent, are not modelled.
- ResponseParsing.Extract: `None` from `parse` stands for `JSONDecodeError` only. Any other exception of the first tier, such as a `RecursionError` on deeply nested input, escapes `test_extraction` in the source and is not modelled.
- SearchService.ToSource: a key of a search hit or response is either present with a string or missing. A JSON `null` is not modelled: in the source, a hit with `"content": null` makes `[:200]` raise `TypeError` in `_create_summary`, which `perform_research` re-raises as a search service error, while the model reads the field as missing.
- `print` output and the `[DEBUG]` lines are not modelled: they are console output only.
- The language model call, the web search call and claim extraction are left out, because they are network services. This covers `generate_response`, `client.search` with its `max_results` and `_extract_claims`. Their outcomes are parameters: `outcomes` in `VerifyContent` and `Client` in `PerformResearch`.
- Reading the upload, `os.makedirs`, `os.path.exists`, `os.getcwd` and saving files are left out as file-system I/O. The file is its byte count, the file system a set of paths, the working directory a parameter, and a failed save its message.
- `generate_pdf` pagination and line wrapping are not modelled: they depend on reportlab font metrics and float coordinates. Only its output path and its error wrapping are modelled.
- Text extraction from PDF and DOCX is left out: it wraps third-party parsers.
- FactCheck.TrustScore: `round(score, 2)` is not modelled, because it is float rounding. The score is the exact ratio, and `is_reliable` compares the exact ratio.
- FactCheck.VerifyCitations: the order of the results is not stated, because `list(set(...))` leaves it unspecified. The loop picks them in an arbitrary order. With more than five distinct matches, which five are reported is left open for the same reason.
- FactCheck.DigitRun: `\d` is modelled as ASCII digits only, while Python's `str` regexes also match other Unicode decimal digits.
- The unused `citations` argument of `_calculate_trust_score` is not modelled: it has no effect.
- LatexCleaner.ArrowsGone: the claim holds right after the third rewrite only. The fourth rewrite can bring `\to` back: it deletes the `\[` and `\]` of a `\[\]`, so a `\` before it and `to` after it meet.
- ResponseParsing.FormatDocument: the contract states the opening title line, when the question section is present, that the answer block is there, and which block closes the body. It does not state the exact string: the rule line between question and answer is left unstated.
- The history, conversation, email and WhatsApp services, routing and configuration are not part of this model: they are database plumbing, stubs and orchestration over external calls. So are the frontend, the style and humanizer model wrappers, and the debugging scripts.
