/** `FileService`: upload validation, category mapping and the plain-text to
    DOCX conversion, plus the path and error wrapping shared with the PDF
    export. The document library's object is the class `Document`; the
    filesystem and the libraries' failures are parameters. */
module FileService {
  import opened Results
  import opened Strings

  // ------------------------------------------------------------ constants

  const ImageTypes: seq<string> := ["image/jpeg", "image/png", "image/gif", "image/webp"]
  const PdfTypes: seq<string> := ["application/pdf"]
  const WordTypes: seq<string> :=
    ["application/vnd.openxmlformats-" + "officedocument." + "wordprocessingml.document",
     "application/msword"]

  /** `image + pdf + word`, the whitelist of `validate_file`. */
  const AllAllowed: seq<string> := ImageTypes + PdfTypes + WordTypes

  const MaxFileSize: nat := 10 * 1024 * 1024

  /** The size message; `MAX_FILE_SIZE / (1024*1024)` is the float 10.0. */
  const SizeDetail := "File size exceeds maximum allowed size of " + "10.0MB"

  datatype HttpError = HttpError(status: int, detail: string)

  /** `str(content_type)`: an upload may carry no content type at all. */
  function ShowType(contentType: Option<string>): string {
    match contentType
    case Some(t) => t
    case None => "None"
  }

  function TypeDetail(contentType: Option<string>): string {
    "File type " + ShowType(contentType) + " not allowed. " + "Allowed types: images, PDF, Word documents"
  }

  predicate Allowed(contentType: Option<string>) {
    contentType.Some? && contentType.value in AllAllowed
  }

  // ------------------------------------------------------------ validation

  /** `validate_file` over the upload's byte count and content type:
      `Success(true)` or the `HTTPException` it raises. The size is checked
      first. */
  function ValidateFile(size: nat, contentType: Option<string>): (r: Result<bool, HttpError>)
    ensures r.Success? <==> size <= MaxFileSize && Allowed(contentType)
    ensures r.Success? ==> r.value
    ensures r.Failure? ==> r.error.status == 400
    ensures size > MaxFileSize ==> r.Failure? && r.error.detail == SizeDetail
    ensures size <= MaxFileSize && !Allowed(contentType) ==> r.Failure? && r.error.detail == TypeDetail(contentType)
  {
    if size > MaxFileSize then Failure(HttpError(400, SizeDetail))
    else if !Allowed(contentType) then Failure(HttpError(400, TypeDetail(contentType)))
    else Success(true)
  }

  /** The limit is inclusive: 10 MiB passes, one byte more does not. */
  lemma SizeBoundary(contentType: Option<string>)
    requires Allowed(contentType)
    ensures ValidateFile(10 * 1024 * 1024, contentType).Success?
    ensures ValidateFile(10 * 1024 * 1024 + 1, contentType) == Failure(HttpError(400, SizeDetail))
  {
  }

  /** An oversized file of a bad type reports the size, not the type. */
  lemma SizeReportedFirst(size: nat, contentType: Option<string>)
    requires size > MaxFileSize && !Allowed(contentType)
    ensures ValidateFile(size, contentType) == Failure(HttpError(400, SizeDetail))
    ensures SizeDetail != TypeDetail(contentType)
  {
    assert SizeDetail[5] == 's';
    assert TypeDetail(contentType)[5] == 't';
  }

  // ------------------------------------------------------------ categories

  datatype Category = Image | Pdf | Word | Unknown

  /** `get_file_category`: the first list that holds the type decides. */
  function GetFileCategory(contentType: string): (c: Category)
    ensures c == Image <==> contentType in ImageTypes
    ensures c == Pdf ==> contentType in PdfTypes
    ensures c == Word ==> contentType in WordTypes
    ensures c == Unknown <==> contentType !in AllAllowed
  {
    if contentType in ImageTypes then Image
    else if contentType in PdfTypes then Pdf
    else if contentType in WordTypes then Word
    else Unknown
  }

  /** The three lists share no type, so the order of the tests does not
      matter: each list maps to its own category. */
  lemma ListsDisjoint()
    ensures forall t :: t in ImageTypes ==> t !in PdfTypes && t !in WordTypes
    ensures forall t :: t in PdfTypes ==> t !in WordTypes
  {
    assert PdfTypes[0][0] == 'a' && PdfTypes[0][12] == 'p';
    assert WordTypes[0][0] == 'a' && WordTypes[0][12] == 'v';
    assert WordTypes[1][0] == 'a' && WordTypes[1][12] == 'm';
    forall t | t in ImageTypes
      ensures t !in PdfTypes && t !in WordTypes
    {
      assert t[0] == 'i';
    }
  }

  lemma CategoryUnique(contentType: string)
    ensures contentType in PdfTypes ==> GetFileCategory(contentType) == Pdf
    ensures contentType in WordTypes ==> GetFileCategory(contentType) == Word
  {
    ListsDisjoint();
  }

  /** A category other than unknown exactly for the types that pass the
      type check of `validate_file`. */
  lemma CategoryKnownIffAccepted(size: nat, contentType: string)
    requires size <= MaxFileSize
    ensures GetFileCategory(contentType) != Unknown <==> ValidateFile(size, Some(contentType)).Success?
  {
  }

  // ------------------------------------------------------------ paths

  /** `os.path.join(a, b)` for two components on a POSIX system. */
  function PathJoin(a: string, b: string): (r: string)
    ensures StartsWith(b, "/") ==> r == b
    ensures !StartsWith(b, "/") ==> EndsWith(r, b) && StartsWith(r, a)
  {
    if StartsWith(b, "/") then b
    else if a == [] || a[|a| - 1] == '/' then a + b
    else a + "/" + b
  }

  /** `os.path.join(os.getcwd(), "outputs")`. */
  function OutputDir(cwd: string): string {
    PathJoin(cwd, "outputs")
  }

  /** Where an export named `filename` is written. */
  function OutputPath(cwd: string, filename: string): string {
    PathJoin(OutputDir(cwd), filename)
  }

  /** A relative name lands directly in the `outputs` directory. */
  lemma OutputPathShape(cwd: string, filename: string)
    ensures !StartsWith(filename, "/") ==> OutputPath(cwd, filename) == OutputDir(cwd) + "/" + filename
    ensures !StartsWith(filename, "/") ==> EndsWith(OutputPath(cwd, filename), "outputs/" + filename)
  {
    if !StartsWith(filename, "/") {
      var d := OutputDir(cwd);
      var e := "outputs";
      var front := d[..|d| - 7];
      assert d[|d| - 1] == 's';
      assert d == front + e;
      assert d + "/" + filename == front + (e + "/" + filename) by {
        Regroup(front, e, "/");
        Regroup(front, e + "/", filename);
      }
      assert e + "/" == "outputs/";
      Concat(front, e + "/" + filename);
    }
  }

  // ------------------------------------------------------------ exports

  function DocxError(message: string): string { "DOCX generation error: " + message }
  function PdfError(message: string): string { "PDF generation error: " + message }

  /** Whether a line becomes a paragraph: `line.strip()` is non-empty. */
  predicate NonBlank(line: string) { Strip(line) != [] }

  /** The lines `keep` accepts, text unchanged and in order: the test of the
      paragraph loop, kept apart from the test itself. */
  function Filter(lines: seq<string>, keep: string -> bool): (kept: seq<string>)
    ensures |kept| <= |lines|
    ensures forall i :: 0 <= i < |kept| ==> keep(kept[i])
    decreases |lines|
  {
    if lines == [] then []
    else
      var last := lines[|lines| - 1];
      Filter(lines[..|lines| - 1], keep) + (if keep(last) then [last] else [])
  }

  /** The non-blank lines. */
  function KeepNonBlank(lines: seq<string>): seq<string> {
    Filter(lines, NonBlank)
  }

  /** The paragraphs `generate_docx` writes for `content`. */
  function Paragraphs(content: string): seq<string> {
    KeepNonBlank(SplitLines(content))
  }

  /** Filtering distributes over concatenation, so a line is kept or dropped
      on its own and the kept lines keep their order. */
  lemma {:induction false} FilterAppend(a: seq<string>, b: seq<string>, keep: string -> bool)
    ensures Filter(a + b, keep) == Filter(a, keep) + Filter(b, keep)
    decreases |b|
  {
    if b == [] {
      assert a + b == a;
    } else {
      var b', last := b[..|b| - 1], b[|b| - 1];
      var tail := if keep(last) then [last] else [];
      assert (a + b)[..|a + b| - 1] == a + b';
      assert (a + b)[|a + b| - 1] == last;
      assert Filter(a + b, keep) == Filter(a + b', keep) + tail;
      FilterAppend(a, b', keep);
      Regroup(Filter(a, keep), Filter(b', keep), tail);
    }
  }

  /** Lines that are all accepted are all kept. */
  lemma {:induction false} FilterAll(lines: seq<string>, keep: string -> bool)
    requires forall i :: 0 <= i < |lines| ==> keep(lines[i])
    ensures Filter(lines, keep) == lines
    decreases |lines|
  {
    if lines != [] {
      var init := lines[..|lines| - 1];
      assert forall i :: 0 <= i < |init| ==> init[i] == lines[i];
      FilterAll(init, keep);
      assert init + [lines[|lines| - 1]] == lines;
    }
  }

  /** Lines that are all refused give nothing. */
  lemma {:induction false} FilterNone(lines: seq<string>, keep: string -> bool)
    requires forall i :: 0 <= i < |lines| ==> !keep(lines[i])
    ensures Filter(lines, keep) == []
    decreases |lines|
  {
    if lines != [] {
      var init := lines[..|lines| - 1];
      assert forall i :: 0 <= i < |init| ==> init[i] == lines[i];
      FilterNone(init, keep);
    }
  }

  /** Blank text gives an empty document, and text split at a line break
      gives the paragraphs of each side. */
  lemma {:induction false} ParagraphsAppend(a: string, b: string)
    ensures Paragraphs(a + "\n" + b) == Paragraphs(a) + Paragraphs(b)
  {
    SplitLinesAppend(a, b);
    FilterAppend(SplitLines(a), SplitLines(b), NonBlank);
  }

  /** Lines that are all non-blank come back as exactly those paragraphs. */
  lemma {:induction false} ParagraphsOfLines(lines: seq<string>)
    requires lines != []
    requires forall i :: 0 <= i < |lines| ==> '\n' !in lines[i] && NonBlank(lines[i])
    ensures Paragraphs(JoinLines(lines)) == lines
  {
    SplitJoin(lines);
    FilterAll(lines, NonBlank);
  }

  /** A document object of the DOCX library: paragraphs appended in order. */
  class Document {
    var paragraphs: seq<string>

    constructor()
      ensures paragraphs == []
    {
      paragraphs := [];
    }

    method AddParagraph(text: string)
      modifies this
      ensures paragraphs == old(paragraphs) + [text]
    {
      paragraphs := paragraphs + [text];
    }
  }

  /** `generate_docx`: one paragraph per non-blank line, then the save, whose
      failure (`saveFailure`, the exception's text) is re-raised with the
      DOCX prefix. */
  method GenerateDocx(content: string, filename: string, cwd: string, saveFailure: Option<string>)
    returns (r: Result<string, string>, doc: Document)
    ensures fresh(doc)
    ensures doc.paragraphs == Paragraphs(content)
    ensures saveFailure.Some? ==> r == Failure(DocxError(saveFailure.value))
    ensures saveFailure.None? ==> r == Success(OutputPath(cwd, filename))
  {
    var path := OutputPath(cwd, filename);
    doc := new Document();
    var lines := SplitLines(content);
    var i := 0;
    while i < |lines|
      invariant 0 <= i <= |lines|
      invariant doc.paragraphs == KeepNonBlank(lines[..i])
    {
      assert lines[..i + 1][..i] == lines[..i];
      if Strip(lines[i]) != [] {
        doc.AddParagraph(lines[i]);
      }
      i := i + 1;
    }
    assert lines[..|lines|] == lines;
    match saveFailure {
      case Some(message) => r := Failure(DocxError(message));
      case None => r := Success(path);
    }
  }

  /** `generate_pdf`'s outcome: the path it writes, or the failure re-raised
      with the PDF prefix. */
  function GeneratePdf(filename: string, cwd: string, failure: Option<string>): (r: Result<string, string>)
    ensures r.Failure? <==> failure.Some?
    ensures r.Failure? ==> StartsWith(r.error, "PDF generation error: ")
    ensures r.Success? && !StartsWith(filename, "/") ==> EndsWith(r.value, "outputs/" + filename)
    ensures failure.Some? ==> r == Failure(PdfError(failure.value))
    ensures failure.None? ==> r == Success(OutputPath(cwd, filename))
  {
    OutputPathShape(cwd, filename);
    match failure
    case Some(message) => Failure(PdfError(message))
    case None => Success(OutputPath(cwd, filename))
  }
}
