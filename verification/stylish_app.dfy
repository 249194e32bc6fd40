/**
 One run of the styled dashboard's page script for an uploaded file. A PDF can only be
 previewed and converted to Word; a Word file can be read, written or appended to, and
 the sidebar chooses a full or truncated preview and which download formats are offered.
 */
module StylishApp {
  import opened Optional
  import opened Text
  import opened Paths
  import opened Helpers
  import opened Dashboard

  /** The sidebar checkboxes. */
  datatype Sidebar = Sidebar(showPreview: bool, downloadTxt: bool, downloadDocx: bool)

  /** The download buttons for `content` under a Word-file operation: a .txt download when
      its checkbox is on, then a .docx download when its checkbox is on and python-docx is
      present. Each carries the content and is named base + suffix + extension. */
  function Offers(bar: Sidebar, hasDocx: bool, filename: string, suffix: string, content: string): (r: seq<Export>)
    ensures |r| == (if bar.downloadTxt then 1 else 0) + (if bar.downloadDocx && hasDocx then 1 else 0)
    ensures forall i :: 0 <= i < |r| ==>
      && (r[i].mime == TextPlain ==> bar.downloadTxt)
      && (r[i].mime == WordDocument ==> bar.downloadDocx && hasDocx)
    ensures bar.downloadTxt <==> |r| > 0 && r[0].mime == TextPlain
    ensures bar.downloadDocx && hasDocx <==> |r| > 0 && r[|r| - 1].mime == WordDocument
    ensures forall i :: 0 <= i < |r| ==>
      Carries(r[i], content) && r[i].fileName == ExportName(filename, suffix, Extension(r[i].mime))
  {
    var txt := TextExport(filename, suffix, content);
    var word := WordExport(filename, suffix, content);
    if bar.downloadTxt then
      if bar.downloadDocx && hasDocx then [txt, word] else [txt]
    else
      if bar.downloadDocx && hasDocx then [word] else []
  }

  /** The PDF section: a warning when no text was extracted (or the reader is missing);
      otherwise the preview, and on Convert a single Word download named after the upload
      with ".docx" and no operation suffix. That builder call does not check for
      python-docx. */
  function PdfPage(libs: Libraries, bar: Sidebar, filename: string, pages: seq<Option<string>>, pressed: bool): (r: Outcome)
    ensures r == NoPdfText <==> !libs.pdfReader || forall i :: 0 <= i < |pages| ==> IsBlank(pages[i].GetOr([]))
    ensures r == WriterMissing <==> ExtractPdfText(libs.pdfReader, pages) != [] && pressed && !libs.docx
    ensures r.Shown? ==> r.preview == Some(Preview(ExtractPdfText(libs.pdfReader, pages), bar.showPreview))
    ensures r.Shown? ==> |r.exports| <= 1 && (|r.exports| == 1 <==> pressed)
    ensures r.Shown? && pressed ==> r.exports == [WordExport(filename, "", ExtractPdfText(libs.pdfReader, pages))]
    ensures !r.BlankInput? && r != Rejected
  {
    var text := ExtractPdfText(libs.pdfReader, pages);
    if text == [] then NoPdfText
    else
      var preview := Preview(text, bar.showPreview);
      if !pressed then Shown(Some(preview), [])
      else if !libs.docx then WriterMissing
      else Shown(Some(preview), [WordExport(filename, "", text)])
  }

  /** The Word section after Process: Read previews the extracted text and offers it;
      Write and Append refuse blank text and otherwise offer their new content. Every
      builder call here is guarded by the python-docx check. */
  function DocxPage(libs: Libraries, bar: Sidebar, filename: string, paragraphs: seq<string>, req: Request): (r: Outcome)
    ensures r.BlankInput? <==> req.pressed && req.operation != Read && IsBlank(req.userText)
    ensures r.BlankInput? ==> r.op == req.operation
    ensures r.Shown? || r.BlankInput?
    ensures r.Shown? ==> (r.preview.Some? <==> req.pressed && req.operation == Read)
    ensures r.Shown? && req.pressed && req.operation == Read ==>
      r.preview == Some(Preview(ExtractDocxText(libs.docx, paragraphs), bar.showPreview))
    ensures r.Shown? && req.pressed ==>
      var content := NewContent(req.operation, ExtractDocxText(libs.docx, paragraphs), req.userText);
      && content.Some?
      && r.exports == Offers(bar, libs.docx, filename, Suffix(req.operation), content.value)
    ensures r.Shown? && !req.pressed ==> r.exports == []
  {
    var text := ExtractDocxText(libs.docx, paragraphs);
    if !req.pressed then Shown(None, [])
    else
      var preview := if req.operation == Read then Some(Preview(text, bar.showPreview)) else None;
      match NewContent(req.operation, text, req.userText)
      case None => BlankInput(req.operation)
      case Some(content) => Shown(preview, Offers(bar, libs.docx, filename, Suffix(req.operation), content))
  }

  /** The page for an uploaded file. An unaccepted name is rejected whatever the file
      holds. A PDF with no extractable text (or no PDF reader) only warns. Write and Append
      with blank text are refused. Only the PDF conversion calls the Word builder without
      checking for python-docx. Every download is named after the upload's base name. */
  function Run(libs: Libraries, bar: Sidebar, upload: Upload, req: Request): (r: Outcome)
    ensures r == Rejected <==> !AllowedFiletype(upload.filename)
    ensures r == NoPdfText <==>
      IsPdf(upload.filename)
      && (!libs.pdfReader || forall i :: 0 <= i < |upload.pages| ==> IsBlank(upload.pages[i].GetOr([])))
    ensures r.BlankInput? <==>
      IsDocx(upload.filename) && req.pressed && req.operation != Read && IsBlank(req.userText)
    ensures r.BlankInput? ==> r.op == req.operation
    ensures r == WriterMissing <==>
      IsPdf(upload.filename) && ExtractPdfText(libs.pdfReader, upload.pages) != [] && req.pressed && !libs.docx
  {
    match Classify(upload.filename)
    case None => Rejected
    case Some(Pdf) => PdfPage(libs, bar, upload.filename, upload.pages, req.pressed)
    case Some(Docx) => DocxPage(libs, bar, upload.filename, upload.paragraphs, req)
  }

  /** A PDF upload runs the PDF section. */
  lemma RunPdf(libs: Libraries, bar: Sidebar, upload: Upload, req: Request)
    requires IsPdf(upload.filename)
    ensures Run(libs, bar, upload, req) == PdfPage(libs, bar, upload.filename, upload.pages, req.pressed)
  {
    assert Classify(upload.filename) == Some(Pdf);
  }

  /** A Word upload runs the Word section. */
  lemma RunDocx(libs: Libraries, bar: Sidebar, upload: Upload, req: Request)
    requires IsDocx(upload.filename)
    ensures Run(libs, bar, upload, req) == DocxPage(libs, bar, upload.filename, upload.paragraphs, req)
  {
    assert Classify(upload.filename) == Some(Docx);
  }

  /** Every download is named after the upload's root. */
  lemma DownloadsNamedAfterUpload(libs: Libraries, bar: Sidebar, upload: Upload, req: Request)
    ensures var r := Run(libs, bar, upload, req);
      r.Shown? ==> NamedAfter(r.exports, upload.filename)
  {
    if IsPdf(upload.filename) {
      RunPdf(libs, bar, upload, req);
      PdfPageNamed(libs, bar, upload.filename, upload.pages, req.pressed);
    } else if IsDocx(upload.filename) {
      RunDocx(libs, bar, upload, req);
      DocxPageNamed(libs, bar, upload.filename, upload.paragraphs, req);
    }
  }

  lemma PdfPageNamed(libs: Libraries, bar: Sidebar, filename: string, pages: seq<Option<string>>, pressed: bool)
    ensures var r := PdfPage(libs, bar, filename, pages, pressed);
      r.Shown? ==> NamedAfter(r.exports, filename)
  {
    var r := PdfPage(libs, bar, filename, pages, pressed);
    if r.Shown? && pressed {
      var text := ExtractPdfText(libs.pdfReader, pages);
      assert r.exports == [WordExport(filename, "", text)];
      WordNamed(filename, "", text);
    }
  }

  lemma DocxPageNamed(libs: Libraries, bar: Sidebar, filename: string, paragraphs: seq<string>, req: Request)
    ensures var r := DocxPage(libs, bar, filename, paragraphs, req);
      r.Shown? ==> NamedAfter(r.exports, filename)
  {
    var r := DocxPage(libs, bar, filename, paragraphs, req);
    if r.Shown? && req.pressed {
      var content := NewContent(req.operation, ExtractDocxText(libs.docx, paragraphs), req.userText);
      assert r.exports == Offers(bar, libs.docx, filename, Suffix(req.operation), content.value);
      OffersNamed(bar, libs.docx, filename, Suffix(req.operation), content.value);
    }
  }

  lemma WordNamed(filename: string, suffix: string, content: string)
    ensures NamedAfter([WordExport(filename, suffix, content)], filename)
  {
  }

  lemma OffersNamed(bar: Sidebar, hasDocx: bool, filename: string, suffix: string, content: string)
    ensures NamedAfter(Offers(bar, hasDocx, filename, suffix, content), filename)
  {
  }

  /** An unaccepted file is never extracted: the outcome is the same whatever its pages or
      paragraphs, libraries, sidebar or widgets. */
  lemma RejectedBeforeExtraction(libs: Libraries, bar: Sidebar, upload: Upload, req: Request,
                                 libs': Libraries, bar': Sidebar, upload': Upload, req': Request)
    requires !AllowedFiletype(upload.filename) && upload'.filename == upload.filename
    ensures Run(libs, bar, upload, req) == Run(libs', bar', upload', req') == Rejected
  {
  }

  /** Converting a PDF with text offers exactly one download: a Word document whose
      paragraphs are the extracted text's lines, named after the upload with ".docx" and no
      operation suffix. */
  lemma PdfConvert(libs: Libraries, bar: Sidebar, upload: Upload, req: Request)
    requires IsPdf(upload.filename) && req.pressed && libs.docx
    requires libs.pdfReader && exists i :: 0 <= i < |upload.pages| && !IsBlank(upload.pages[i].GetOr([]))
    ensures
      var text := ExtractPdfText(libs.pdfReader, upload.pages);
      var r := Run(libs, bar, upload, req);
      && r.Shown?
      && r.preview == Some(Preview(text, bar.showPreview))
      && |r.exports| == 1
      && r.exports[0].mime == WordDocument
      && r.exports[0].fileName == SplitExt(upload.filename).0 + ".docx"
      && Carries(r.exports[0], text)
  {
    RunPdf(libs, bar, upload, req);
    ExportNameWithoutSuffix(upload.filename, ".docx");
  }

  /** Read on a Word file previews the extracted text and offers it, unchanged, under the
      "_read" names the sidebar selects. */
  lemma DocxRead(libs: Libraries, bar: Sidebar, upload: Upload, req: Request)
    requires IsDocx(upload.filename) && req.pressed && req.operation == Read
    ensures
      var text := ExtractDocxText(libs.docx, upload.paragraphs);
      var r := Run(libs, bar, upload, req);
      && r.Shown?
      && r.preview == Some(Preview(text, bar.showPreview))
      && (forall i :: 0 <= i < |r.exports| ==>
            Carries(r.exports[i], text) && EndsWith(r.exports[i].fileName, "_read" + Extension(r.exports[i].mime)))
      && |r.exports| == (if bar.downloadTxt then 1 else 0) + (if bar.downloadDocx && libs.docx then 1 else 0)
      && (forall i :: 0 <= i < |r.exports| ==>
            && (r.exports[i].mime == TextPlain ==> bar.downloadTxt)
            && (r.exports[i].mime == WordDocument ==> bar.downloadDocx && libs.docx))
      && (bar.downloadTxt <==> |r.exports| > 0 && r.exports[0].mime == TextPlain)
      && (bar.downloadDocx && libs.docx <==> |r.exports| > 0 && r.exports[|r.exports| - 1].mime == WordDocument)
  {
    RunDocx(libs, bar, upload, req);
  }

  /** Write on a Word file with non-blank text offers the stripped text, and nothing in the
      uploaded file affects the outcome. */
  lemma DocxWrite(libs: Libraries, bar: Sidebar, upload: Upload, req: Request, paragraphs': seq<string>)
    requires IsDocx(upload.filename) && req.pressed && req.operation == Write && !IsBlank(req.userText)
    ensures
      var r := Run(libs, bar, upload, req);
      && r.Shown?
      && r.preview == None
      && (forall i :: 0 <= i < |r.exports| ==>
            Carries(r.exports[i], Strip(req.userText))
            && EndsWith(r.exports[i].fileName, "_written" + Extension(r.exports[i].mime)))
      && r == Run(libs, bar, upload.(paragraphs := paragraphs'), req)
  {
    var upload' := upload.(paragraphs := paragraphs');
    RunDocx(libs, bar, upload, req);
    RunDocx(libs, bar, upload', req);
    var content := Strip(req.userText);
    assert NewContent(Write, ExtractDocxText(libs.docx, upload.paragraphs), req.userText) == Some(content);
    assert NewContent(Write, ExtractDocxText(libs.docx, paragraphs'), req.userText) == Some(content);
  }

  /** Append on a Word file with non-blank text offers the extracted text, unmodified, then a
      blank line, then the stripped user text. */
  lemma DocxAppend(libs: Libraries, bar: Sidebar, upload: Upload, req: Request)
    requires IsDocx(upload.filename) && req.pressed && req.operation == Append && !IsBlank(req.userText)
    ensures
      var text := ExtractDocxText(libs.docx, upload.paragraphs);
      var r := Run(libs, bar, upload, req);
      && r.Shown?
      && r.preview == None
      && (forall i :: 0 <= i < |r.exports| ==>
            Carries(r.exports[i], text + "\n\n" + Strip(req.userText))
            && EndsWith(r.exports[i].fileName, "_appended" + Extension(r.exports[i].mime)))
  {
    RunDocx(libs, bar, upload, req);
  }
}
