/**
 One run of the plain dashboard's page script. It has no sidebar: previews are always
 truncated, a Word file's Read only previews, and Write and Append each offer a single
 Word download built without checking for python-docx.
 */
module AdvancedApp {
  import opened Optional
  import opened Text
  import opened Paths
  import opened Helpers
  import opened Dashboard
  import StylishApp

  /** The PDF section, where Read is the only operation: a warning when no text was
      extracted; otherwise the truncated preview, and on Convert one Word download named
      after the upload with ".docx". */
  function PdfPage(libs: Libraries, filename: string, pages: seq<Option<string>>, pressed: bool): (r: Outcome)
    ensures r == NoPdfText <==> !libs.pdfReader || forall i :: 0 <= i < |pages| ==> IsBlank(pages[i].GetOr([]))
    ensures r == WriterMissing <==> ExtractPdfText(libs.pdfReader, pages) != [] && pressed && !libs.docx
    ensures r.Shown? ==> r.preview == Some(Preview(ExtractPdfText(libs.pdfReader, pages), false))
    ensures r.Shown? ==> |r.exports| <= 1 && (|r.exports| == 1 <==> pressed)
    ensures r.Shown? && pressed ==> r.exports == [WordExport(filename, "", ExtractPdfText(libs.pdfReader, pages))]
    ensures !r.BlankInput? && r != Rejected
  {
    var text := ExtractPdfText(libs.pdfReader, pages);
    if text == [] then NoPdfText
    else
      var preview := Preview(text, false);
      if !pressed then Shown(Some(preview), [])
      else if !libs.docx then WriterMissing
      else Shown(Some(preview), [WordExport(filename, "", text)])
  }

  /** The Word section after Process: Read shows the truncated preview and offers nothing;
      Write and Append refuse blank text and otherwise offer exactly one Word download of
      their new content, named "_written" / "_appended". */
  function DocxPage(libs: Libraries, filename: string, paragraphs: seq<string>, req: Request): (r: Outcome)
    ensures r.BlankInput? <==> req.pressed && req.operation != Read && IsBlank(req.userText)
    ensures r.BlankInput? ==> r.op == req.operation
    ensures r == WriterMissing <==> req.pressed && req.operation != Read && !IsBlank(req.userText) && !libs.docx
    ensures r.Shown? ==> (r.preview.Some? <==> req.pressed && req.operation == Read)
    ensures r.Shown? && req.operation == Read ==> r.exports == []
    ensures r.Shown? && req.pressed && req.operation == Read ==>
      r.preview == Some(Preview(ExtractDocxText(libs.docx, paragraphs), false))
    ensures r.Shown? && req.pressed && req.operation != Read ==>
      var content := NewContent(req.operation, ExtractDocxText(libs.docx, paragraphs), req.userText);
      && content.Some?
      && r.exports == [WordExport(filename, Suffix(req.operation), content.value)]
    ensures !req.pressed ==> r == Shown(None, [])
    ensures r.Shown? ==> |r.exports| <= 1
    ensures r.Shown? && |r.exports| == 1 ==>
      && r.exports[0].mime == WordDocument
      && r.exports[0].fileName == ExportName(filename, Suffix(req.operation), ".docx")
    ensures r != Rejected && r != NoPdfText
  {
    var text := ExtractDocxText(libs.docx, paragraphs);
    if !req.pressed then Shown(None, [])
    else if req.operation == Read then Shown(Some(Preview(text, false)), [])
    else
      match NewContent(req.operation, text, req.userText)
      case None => BlankInput(req.operation)
      case Some(content) =>
        if !libs.docx then WriterMissing
        else Shown(None, [WordExport(filename, Suffix(req.operation), content)])
  }

  /** The page for an uploaded file: rejected unless its name is accepted, otherwise the
      PDF or Word section. Every download is a Word document named after the upload's base
      name, and at most one is offered. */
  function Run(libs: Libraries, upload: Upload, req: Request): (r: Outcome)
    ensures r == Rejected <==> !AllowedFiletype(upload.filename)
    ensures r == NoPdfText <==>
      IsPdf(upload.filename)
      && (!libs.pdfReader || forall i :: 0 <= i < |upload.pages| ==> IsBlank(upload.pages[i].GetOr([])))
    ensures r.BlankInput? <==>
      IsDocx(upload.filename) && req.pressed && req.operation != Read && IsBlank(req.userText)
    ensures r.Shown? ==> |r.exports| <= 1
  {
    match Classify(upload.filename)
    case None => Rejected
    case Some(Pdf) => PdfPage(libs, upload.filename, upload.pages, req.pressed)
    case Some(Docx) => DocxPage(libs, upload.filename, upload.paragraphs, req)
  }

  /** Every download this dashboard offers is a Word document named after the upload's
      base name. */
  lemma DownloadsAreWordDocuments(libs: Libraries, upload: Upload, req: Request)
    ensures var r := Run(libs, upload, req);
      r.Shown? ==> WordNamedAfter(r.exports, upload.filename)
  {
    if IsPdf(upload.filename) {
      PdfDownloadNamed(libs, upload.filename, upload.pages, req.pressed);
    } else if IsDocx(upload.filename) {
      DocxDownloadNamed(libs, upload.filename, upload.paragraphs, req);
    }
  }

  /** Every download is a Word document whose name starts with the upload's root. */
  predicate WordNamedAfter(exports: seq<Export>, filename: string) {
    && (forall i :: 0 <= i < |exports| ==> exports[i].mime == WordDocument)
    && NamedAfter(exports, filename)
  }

  lemma SingleWordNamed(e: Export, filename: string)
    requires e.mime == WordDocument && SplitExt(filename).0 <= e.fileName
    ensures WordNamedAfter([e], filename)
  {
  }

  /** An outcome offering nothing or only `e` is named after the upload when `e` is. */
  lemma AtMostWordNamed(r: Outcome, e: Export, filename: string)
    requires r.Shown? ==> r.exports == [] || r.exports == [e]
    requires e.mime == WordDocument && SplitExt(filename).0 <= e.fileName
    ensures r.Shown? ==> WordNamedAfter(r.exports, filename)
  {
    SingleWordNamed(e, filename);
  }

  lemma PdfDownloadNamed(libs: Libraries, filename: string, pages: seq<Option<string>>, pressed: bool)
    ensures var r := PdfPage(libs, filename, pages, pressed);
      r.Shown? ==> WordNamedAfter(r.exports, filename)
  {
    var e := WordExport(filename, "", ExtractPdfText(libs.pdfReader, pages));
    AtMostWordNamed(PdfPage(libs, filename, pages, pressed), e, filename);
  }

  lemma DocxDownloadNamed(libs: Libraries, filename: string, paragraphs: seq<string>, req: Request)
    ensures var r := DocxPage(libs, filename, paragraphs, req);
      r.Shown? ==> WordNamedAfter(r.exports, filename)
  {
    var content := NewContent(req.operation, ExtractDocxText(libs.docx, paragraphs), req.userText);
    var e := WordExport(filename, Suffix(req.operation), content.GetOr([]));
    AtMostWordNamed(DocxPage(libs, filename, paragraphs, req), e, filename);
  }

  /** With python-docx present, this dashboard behaves like the styled one with the full
      preview off, the .txt download off, and the .docx download on for Write and Append
      only. */
  lemma StylishVariant(libs: Libraries, upload: Upload, req: Request)
    requires libs.docx
    ensures Run(libs, upload, req)
         == StylishApp.Run(libs, StylishApp.Sidebar(false, false, req.operation != Read), upload, req)
  {
    var bar := StylishApp.Sidebar(false, false, req.operation != Read);
    if IsPdf(upload.filename) {
      assert Classify(upload.filename) == Some(Pdf);
      StylishApp.RunPdf(libs, bar, upload, req);
      PdfSectionsAgree(libs, upload.filename, upload.pages, req.pressed, req.operation != Read);
    } else if IsDocx(upload.filename) {
      assert Classify(upload.filename) == Some(Docx);
      StylishApp.RunDocx(libs, bar, upload, req);
      DocxSectionsAgree(libs, upload.filename, upload.paragraphs, req);
    }
  }

  /** The PDF sections agree whenever the styled page's full preview is off: the .txt and
      .docx checkboxes play no part there. */
  lemma PdfSectionsAgree(libs: Libraries, filename: string, pages: seq<Option<string>>, pressed: bool, docxBox: bool)
    ensures PdfPage(libs, filename, pages, pressed)
         == StylishApp.PdfPage(libs, StylishApp.Sidebar(false, false, docxBox), filename, pages, pressed)
  {
  }

  /** With python-docx present, the Word sections agree when the styled page offers only a
      .docx download, and only for Write and Append. */
  lemma DocxSectionsAgree(libs: Libraries, filename: string, paragraphs: seq<string>, req: Request)
    requires libs.docx
    ensures DocxPage(libs, filename, paragraphs, req)
         == StylishApp.DocxPage(libs, StylishApp.Sidebar(false, false, req.operation != Read), filename, paragraphs, req)
  {
  }

  /** Without python-docx, every Write or Append with non-blank text on a Word file fails in
      the builder here, while the styled dashboard offers no download instead. */
  lemma MissingWriterDiverges(libs: Libraries, bar: StylishApp.Sidebar, upload: Upload, req: Request)
    requires !libs.docx && IsDocx(upload.filename)
    requires req.pressed && req.operation != Read && !IsBlank(req.userText)
    ensures Run(libs, upload, req) == WriterMissing
    ensures StylishApp.Run(libs, bar, upload, req).Shown?
    ensures !bar.downloadTxt ==> StylishApp.Run(libs, bar, upload, req).exports == []
    ensures forall i :: 0 <= i < |StylishApp.Run(libs, bar, upload, req).exports| ==>
      StylishApp.Run(libs, bar, upload, req).exports[i].mime == TextPlain
  {
    StylishApp.RunDocx(libs, bar, upload, req);
  }
}
