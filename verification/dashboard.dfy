/**
 What the two dashboards share after the helpers: the three operations on a Word file, the
 text preview, the names and payloads of the offered downloads, and the outcome of one run
 of the page script for one uploaded file.
 */
module Dashboard {
  import opened Optional
  import opened Text
  import opened Paths
  import opened Helpers

  datatype Op = Read | Write | Append

  /** The suffix an operation adds to its download names: "_read", "_written" or
      "_appended". Each starts with an underscore and holds no dot, so it never changes the
      download's extension. */
  function Suffix(op: Op): (r: string)
    ensures |r| > 1 && r[0] == '_'
    ensures '.' !in r
  {
    match op
    case Read => "_read"
    case Write => "_written"
    case Append => "_appended"
  }

  /** Different operations never share a download name: their suffixes differ. */
  lemma SuffixesDistinct(a: Op, b: Op)
    ensures Suffix(a) == Suffix(b) <==> a == b
  {
    assert "_read"[1] == 'r' && "_written"[1] == 'w' && "_appended"[1] == 'a';
  }

  /** Which optional libraries could be imported: PyPDF2's `PdfReader` and python-docx. */
  datatype Libraries = Libraries(pdfReader: bool, docx: bool)

  /** An uploaded file: its name, what the PDF reader would return for each page, and the
      texts of the paragraphs python-docx would read. Only the one matching the file type
      is consulted. */
  datatype Upload = Upload(filename: string, pages: seq<Option<string>>, paragraphs: seq<string>)

  /** The widgets' values when the script runs: the chosen operation, the text box, and
      whether the page's action button (Convert or Process) was pressed. */
  datatype Request = Request(operation: Op, userText: string, pressed: bool)

  // ---------------------------------------------------------------------------
  // composing the new content

  /** The content an operation exports: the extracted text itself for Read,
      `user_text.strip()` for Write, and `text + "\n\n" + user_text.strip()` for Append.
      Write and Append refuse user text that is blank after stripping. */
  function NewContent(op: Op, text: string, userText: string): (r: Option<string>)
    ensures r == None <==> op != Read && IsBlank(userText)
    ensures op == Read ==> r == Some(text)
    ensures op == Write && r.Some? ==> r.value != [] && Trimmed(r.value) && |r.value| <= |userText|
    ensures op == Append && r.Some? ==>
      && |r.value| > |text| + 2
      && r.value[..|text|] == text
      && r.value[|text|..|text| + 2] == BlankLine
      && r.value[|text| + 2..] == Strip(userText)
      && Trimmed(r.value[|text| + 2..])
  {
    StripEmptyIffBlank(userText);
    match op
    case Read => Some(text)
    case Write =>
      if Strip(userText) == [] then None else Some(Strip(userText))
    case Append =>
      if Strip(userText) == [] then None
      else
        var c := text + BlankLine + Strip(userText);
        assert c[..|text|] == text;
        assert c[|text|..|text| + 2] == BlankLine;
        assert c[|text| + 2..] == Strip(userText);
        Some(c)
  }

  /** Writing whitespace-padded text exports exactly the text inside the padding. */
  lemma WriteKeepsCore(a: string, t: string, b: string, text: string)
    requires IsBlank(a) && IsBlank(b) && Trimmed(t) && t != []
    ensures NewContent(Write, text, a + t + b) == Some(t)
  {
    StripUnique(a, t, b);
  }

  /** Appending to an empty extraction leaves the blank-line separator in front:
      "  hi  " appended to "" is "\n\nhi". */
  lemma AppendToEmpty()
    ensures NewContent(Append, "", "  hi  ") == Some("\n\nhi")
  {
    assert [] + BlankLine + "hi" == "\n\nhi";
    assert "  " + "hi" + "  " == "  hi  ";
    StripUnique("  ", "hi", "  ");
  }

  // ---------------------------------------------------------------------------
  // preview

  const PreviewLimit := 2000
  const TruncationMarker := "\n\n... (truncated)"

  /** The preview text area: the whole text when the full preview is asked for; otherwise
      `text[:2000]`, followed by the truncation marker only when the text is longer than
      that. A text of at most 2000 characters is shown unchanged; a longer one is shown as
      its first 2000 characters and then the marker. */
  function Preview(text: string, showFull: bool): (r: string)
    ensures |text| <= PreviewLimit ==> r == text
    ensures showFull ==> r == text
    ensures !showFull && |text| > PreviewLimit ==>
      && |r| == PreviewLimit + |TruncationMarker|
      && r[..PreviewLimit] == text[..PreviewLimit]
      && EndsWith(r, TruncationMarker)
  {
    if showFull then text
    else
      var shown := if |text| <= PreviewLimit then text else text[..PreviewLimit];
      shown + (if |text| > PreviewLimit then TruncationMarker else [])
  }

  /** Previewing a preview changes nothing: a truncated preview is cut at the same place
      and gets the same marker. */
  lemma PreviewIdempotent(text: string)
    ensures Preview(Preview(text, false), false) == Preview(text, false)
  {
    var p := Preview(text, false);
    if |text| > PreviewLimit {
      assert p[..PreviewLimit] == text[..PreviewLimit];
    }
  }

  // ---------------------------------------------------------------------------
  // downloads

  datatype Mime = TextPlain | WordDocument

  /** The `mime` strings the download buttons pass. */
  const TextPlainType := "text/plain"
  const WordDocumentType := "application/vnd.openxmlformats-officedocument.wordprocessingml.document"

  function MimeType(m: Mime): string {
    match m
    case TextPlain => TextPlainType
    case WordDocument => WordDocumentType
  }

  function Extension(m: Mime): string {
    match m
    case TextPlain => ".txt"
    case WordDocument => ".docx"
  }

  /** A download's data: the text itself (its UTF-8 encoding is not modelled), or the
      paragraphs of the Word document built from it. */
  datatype Payload = Utf8Text(text: string) | WordParagraphs(paragraphs: seq<string>)

  datatype Export = Export(fileName: string, mime: Mime, payload: Payload)

  /** The export holds `content`: as text, verbatim; as a Word document, paragraphs free of
      line breaks that rejoin with "\n" to it. */
  predicate Carries(e: Export, content: string) {
    match e.payload
    case Utf8Text(t) => e.mime == TextPlain && t == content
    case WordParagraphs(ps) =>
      && e.mime == WordDocument
      && |ps| >= 1
      && (forall i :: 0 <= i < |ps| ==> '\n' !in ps[i])
      && Join("\n", ps) == content
  }

  /** `f"{os.path.splitext(filename)[0]}{suffix}{ext}"`. */
  function ExportName(filename: string, suffix: string, ext: string): (r: string)
    ensures SplitExt(filename).0 <= r
    ensures EndsWith(r, suffix + ext)
    ensures |r| == |SplitExt(filename).0| + |suffix| + |ext|
  {
    var root := SplitExt(filename).0;
    assert (root + suffix + ext)[|root|..] == suffix + ext;
    root + suffix + ext
  }

  /** With no operation suffix the download is the root followed directly by the new
      extension. */
  lemma ExportNameWithoutSuffix(filename: string, ext: string)
    ensures ExportName(filename, [], ext) == SplitExt(filename).0 + ext
  {
    var root := SplitExt(filename).0;
    assert root + [] == root;
  }

  /** For an ordinary base name the download is named after the upload with its extension
      replaced: "x.pdf" becomes "x" + suffix + ext. */
  lemma ExportNameOfBaseName(stem: string, ext: string, suffix: string, newExt: string)
    requires |stem| > 0 && stem[0] != '.' && '/' !in stem
    requires |ext| > 0 && ext[0] == '.' && '.' !in ext[1..] && '/' !in ext
    ensures ExportName(stem + ext, suffix, newExt) == stem + suffix + newExt
  {
    SplitExtOfBaseName(stem, ext);
  }

  /** The written text of "x.pdf" is "x_written.txt". */
  lemma WrittenNameOfPdf()
    ensures ExportName("x.pdf", "_written", ".txt") == "x_written.txt"
  {
    assert "x" + "_written" + ".txt" == "x_written.txt";
    assert "x" + ".pdf" == "x.pdf";
    assert ".pdf"[1..] == "pdf";
    ExportNameOfBaseName("x", ".pdf", "_written", ".txt");
  }

  /** A converted "notes.pdf" is "notes.docx". */
  lemma ConvertedNameOfPdf()
    ensures ExportName("notes.pdf", "", ".docx") == "notes.docx"
  {
    assert "notes" + ".docx" == "notes.docx";
    SplitExtNotes();
    ExportNameWithoutSuffix("notes.pdf", ".docx");
  }

  /** A name that is only an extension keeps it as its root: ".pdf" converts to
      ".pdf.docx". */
  lemma ConvertedNameOfDotFile()
    ensures ExportName(".pdf", "", ".docx") == ".pdf.docx"
  {
    SplitExtLeadingDot();
    ExportNameWithoutSuffix(".pdf", ".docx");
    assert SplitExt(".pdf").0 + ".docx" == ".pdf.docx";
  }

  /** Every download's name starts with the upload's root. */
  predicate NamedAfter(exports: seq<Export>, filename: string) {
    forall i :: 0 <= i < |exports| ==> SplitExt(filename).0 <= exports[i].fileName
  }

  /** A plain-text download of `content`. */
  function TextExport(filename: string, suffix: string, content: string): (e: Export)
    ensures e.mime == TextPlain && Carries(e, content)
    ensures MimeType(e.mime) == TextPlainType
    ensures e.fileName == ExportName(filename, suffix, Extension(e.mime))
  {
    Export(ExportName(filename, suffix, ".txt"), TextPlain, Utf8Text(content))
  }

  /** A Word download of `content`, one paragraph per line. */
  function WordExport(filename: string, suffix: string, content: string): (e: Export)
    ensures e.mime == WordDocument && Carries(e, content)
    ensures MimeType(e.mime) == WordDocumentType
    ensures e.fileName == ExportName(filename, suffix, Extension(e.mime))
  {
    Export(ExportName(filename, suffix, ".docx"), WordDocument, WordParagraphs(DocxParagraphs(content)))
  }

  // ---------------------------------------------------------------------------
  // outcome of one run

  datatype Outcome =
    | /** "Only PDF and Word files are accepted." */
      Rejected
    | /** "No extractable text found in PDF." */
      NoPdfText
    | /** "Write/Append operation requires non-empty text." */
      BlankInput(op: Op)
    | /** The Word builder was called while python-docx could not be imported, and raised. */
      WriterMissing
    | /** The preview shown, if any, and the downloads offered, in page order. */
      Shown(preview: Option<string>, exports: seq<Export>)
}
