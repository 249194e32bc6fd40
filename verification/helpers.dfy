/**
 The four helper functions both dashboards define identically: `allowed_filetype`,
 `extract_pdf_text`, `extract_docx_text` and `create_docx_bytes_from_text`, plus the
 `is_pdf` / `is_docx` dispatch that follows them.

 The PDF and Word libraries are not modelled: a PDF is the sequence of what each page's
 `extract_text()` returns (possibly `None`), a Word file is the sequence of its paragraphs'
 texts, and a built Word document is the sequence of paragraphs added to it. Whether each
 library could be imported is a boolean.
 */
module Helpers {
  import opened Optional
  import opened Text

  datatype Format = Pdf | Docx

  const PdfSuffix := ".pdf"
  const DocxSuffix := ".docx"

  // ---------------------------------------------------------------------------
  // file type

  /** `allowed_filetype`: the lowercased name ends with ".pdf" or ".docx". */
  predicate AllowedFiletype(filename: string): (r: bool)
    ensures r <==> IsPdf(filename) || IsDocx(filename)
    ensures r ==> |filename| >= 4 && filename[|filename| - 1] in "fFxX"
  {
    IsPdfIgnoringCase(filename);
    IsDocxIgnoringCase(filename);
    EndsWith(Lower(filename), PdfSuffix) || EndsWith(Lower(filename), DocxSuffix)
  }

  /** `is_pdf`. */
  predicate IsPdf(filename: string) {
    EndsWith(Lower(filename), PdfSuffix)
  }

  /** `is_docx`. */
  predicate IsDocx(filename: string) {
    EndsWith(Lower(filename), DocxSuffix)
  }

  /** The file-type test spelled out on the name's own characters: ".pdf" in any mix of cases. */
  lemma IsPdfIgnoringCase(filename: string)
    ensures IsPdf(filename) <==>
      var n := |filename|;
      && n >= 4
      && filename[n - 4] == '.'
      && (filename[n - 3] == 'p' || filename[n - 3] == 'P')
      && (filename[n - 2] == 'd' || filename[n - 2] == 'D')
      && (filename[n - 1] == 'f' || filename[n - 1] == 'F')
  {
    var n := |filename|;
    if n >= 4 {
      var tail := Lower(filename)[n - 4..];
      assert tail == [tail[0], tail[1], tail[2], tail[3]];
      assert tail[0] == LowerChar(filename[n - 4]);
      assert tail[1] == LowerChar(filename[n - 3]);
      assert tail[2] == LowerChar(filename[n - 2]);
      assert tail[3] == LowerChar(filename[n - 1]);
    }
  }

  /** The same for ".docx". */
  lemma IsDocxIgnoringCase(filename: string)
    ensures IsDocx(filename) <==>
      var n := |filename|;
      && n >= 5
      && filename[n - 5] == '.'
      && (filename[n - 4] == 'd' || filename[n - 4] == 'D')
      && (filename[n - 3] == 'o' || filename[n - 3] == 'O')
      && (filename[n - 2] == 'c' || filename[n - 2] == 'C')
      && (filename[n - 1] == 'x' || filename[n - 1] == 'X')
  {
    var n := |filename|;
    if n >= 5 {
      var tail := Lower(filename)[n - 5..];
      assert tail == [tail[0], tail[1], tail[2], tail[3], tail[4]];
      assert tail[0] == LowerChar(filename[n - 5]);
      assert tail[1] == LowerChar(filename[n - 4]);
      assert tail[2] == LowerChar(filename[n - 3]);
      assert tail[3] == LowerChar(filename[n - 2]);
      assert tail[4] == LowerChar(filename[n - 1]);
    }
  }

  /** No name passes both tests: one ends in 'f', the other in 'x'. */
  lemma PdfAndDocxExclusive(filename: string)
    ensures !(IsPdf(filename) && IsDocx(filename))
  {
    var n := |filename|;
    var l := Lower(filename);
    if IsPdf(filename) {
      assert l[n - 1] == l[n - 4..][3] == 'f';
      if n >= 5 {
        assert l[n - 5..][4] == 'f';
      }
    }
  }

  /** The dispatch after the upload: an unaccepted name is classified as nothing (the
      error branch, before any extraction); an accepted one is a PDF exactly when `is_pdf`
      holds, tested first, and a Word file exactly when `is_docx` holds. No name is both. */
  function Classify(filename: string): (r: Option<Format>)
    ensures r == None <==> !AllowedFiletype(filename)
    ensures r == Some(Pdf) <==> IsPdf(filename)
    ensures r == Some(Docx) <==> IsDocx(filename)
  {
    PdfAndDocxExclusive(filename);
    if !AllowedFiletype(filename) then None
    else if IsPdf(filename) then Some(Pdf)
    else if IsDocx(filename) then Some(Docx)
    else None
  }

  // ---------------------------------------------------------------------------
  // extraction

  /** The blank line that separates PDF pages, Word paragraphs, and the extracted text
      from appended text. */
  const BlankLine := "\n\n"

  lemma BlankLineIsBlank()
    ensures IsBlank(BlankLine)
  {
    assert BlankLine[0] == '\n' && BlankLine[1] == '\n';
  }

  /** `[p.extract_text() or "" for p in reader.pages]`: one entry per page, in order; a page
      without text contributes "" rather than being dropped. */
  function PageTexts(pages: seq<Option<string>>): (r: seq<string>)
    ensures |r| == |pages|
    ensures forall i :: 0 <= i < |pages| ==> r[i] == pages[i].GetOr([])
  {
    seq(|pages|, i requires 0 <= i < |pages| => pages[i].GetOr([]))
  }

  /** `extract_pdf_text`: the page texts joined by blank lines and stripped; "" when the PDF
      reader could not be imported. The result has no surrounding whitespace, and it is
      empty exactly when the reader is missing or every page has only whitespace or no text. */
  function ExtractPdfText(hasReader: bool, pages: seq<Option<string>>): (r: string)
    ensures Trimmed(r)
    ensures !hasReader ==> r == []
    ensures r == [] <==> !hasReader || forall i :: 0 <= i < |pages| ==> IsBlank(pages[i].GetOr([]))
  {
    if !hasReader then []
    else
      PagesEmptyIffBlank(pages);
      Strip(Join(BlankLine, PageTexts(pages)))
  }

  /** The joined pages strip to nothing exactly when every page is blank or textless. */
  lemma PagesEmptyIffBlank(pages: seq<Option<string>>)
    ensures Strip(Join(BlankLine, PageTexts(pages))) == []
        <==> forall i :: 0 <= i < |pages| ==> IsBlank(pages[i].GetOr([]))
  {
    var texts := PageTexts(pages);
    StripJoinEmptyIffBlank(texts);
    PageTextsBlank(pages);
  }

  lemma PageTextsBlank(pages: seq<Option<string>>)
    ensures (forall i :: 0 <= i < |PageTexts(pages)| ==> IsBlank(PageTexts(pages)[i]))
        <==> forall i :: 0 <= i < |pages| ==> IsBlank(pages[i].GetOr([]))
  {
    var texts := PageTexts(pages);
    forall i | 0 <= i < |pages| ensures IsBlank(texts[i]) == IsBlank(pages[i].GetOr([])) {
      assert texts[i] == pages[i].GetOr([]);
    }
  }

  /** Parts joined by blank lines strip to nothing exactly when every part is blank. */
  lemma StripJoinEmptyIffBlank(parts: seq<string>)
    ensures Strip(Join(BlankLine, parts)) == [] <==> forall i :: 0 <= i < |parts| ==> IsBlank(parts[i])
  {
    BlankLineIsBlank();
    StripEmptyIffBlank(Join(BlankLine, parts));
    JoinBlank(BlankLine, parts);
  }

  /** With the reader present the result is the stripped join of every page, empty pages
      included: a textless page between two others leaves two blank-line breaks. */
  lemma PdfKeepsEmptyPages(a: string, b: string)
    requires Trimmed(a) && Trimmed(b) && a != [] && b != []
    ensures ExtractPdfText(true, [Some(a), None, Some(b)]) == a + "\n\n\n\n" + b
  {
    var texts := PageTexts([Some(a), None, Some(b)]);
    assert texts == [a, [], b];
    var t := a + "\n\n\n\n" + b;
    JoinThree(a, b);
    assert t[0] == a[0] && t[|t| - 1] == b[|b| - 1];
    assert [] + t + [] == t;
    StripUnique([], t, []);
  }

  lemma JoinThree(a: string, b: string)
    ensures Join(BlankLine, [a, [], b]) == a + "\n\n\n\n" + b
  {
    var parts := [a, [], b];
    assert parts[1..] == [[], b] && parts[1..][1..] == [b];
    assert Join(BlankLine, parts[1..]) == [] + BlankLine + b;
  }

  /** Two pages of text, "Hello" and "World", read as "Hello\n\nWorld". */
  lemma PdfTwoPages()
    ensures ExtractPdfText(true, [Some("Hello"), Some("World")]) == "Hello\n\nWorld"
  {
    var texts := PageTexts([Some("Hello"), Some("World")]);
    assert texts == ["Hello", "World"];
    var t := "Hello\n\nWorld";
    assert Join(BlankLine, texts) == t;
    assert [] + t + [] == t;
    StripUnique([], t, []);
  }

  /** `[p.text for p in document.paragraphs if p.text]`: the non-empty paragraphs, in order. */
  function NonEmpty(paragraphs: seq<string>): (r: seq<string>)
    ensures forall i :: 0 <= i < |r| ==> r[i] != []
    ensures forall x :: x in r <==> x in paragraphs && x != []
    ensures (forall i :: 0 <= i < |paragraphs| ==> paragraphs[i] != []) ==> r == paragraphs
    decreases |paragraphs|
  {
    if |paragraphs| == 0 then []
    else
      assert paragraphs == [paragraphs[0]] + paragraphs[1..];
      (if paragraphs[0] != [] then [paragraphs[0]] else []) + NonEmpty(paragraphs[1..])
  }

  /** Each non-empty paragraph survives as often as it occurs; the empty ones all go. */
  lemma {:induction false} NonEmptyCounts(paragraphs: seq<string>)
    ensures multiset(NonEmpty(paragraphs)) == multiset(paragraphs)[[] := 0]
    decreases |paragraphs|
  {
    if |paragraphs| > 0 {
      NonEmptyCounts(paragraphs[1..]);
      assert paragraphs == [paragraphs[0]] + paragraphs[1..];
    }
  }

  /** Filtering keeps relative order: it distributes over concatenation. */
  lemma {:induction false} NonEmptyAppend(xs: seq<string>, ys: seq<string>)
    ensures NonEmpty(xs + ys) == NonEmpty(xs) + NonEmpty(ys)
    decreases |xs|
  {
    if |xs| == 0 {
      assert xs + ys == ys;
    } else {
      assert (xs + ys)[0] == xs[0];
      assert (xs + ys)[1..] == xs[1..] + ys;
      NonEmptyAppend(xs[1..], ys);
    }
  }

  /** `extract_docx_text`: the non-empty paragraphs joined by blank lines and stripped; ""
      when python-docx could not be imported. The result has no surrounding whitespace, and
      it is empty exactly when the library is missing or every paragraph is blank. */
  function ExtractDocxText(hasDocx: bool, paragraphs: seq<string>): (r: string)
    ensures Trimmed(r)
    ensures !hasDocx ==> r == []
    ensures r == [] <==> !hasDocx || forall i :: 0 <= i < |paragraphs| ==> IsBlank(paragraphs[i])
  {
    if !hasDocx then []
    else
      ParagraphsEmptyIffBlank(paragraphs);
      Strip(Join(BlankLine, NonEmpty(paragraphs)))
  }

  /** The joined non-empty paragraphs strip to nothing exactly when every paragraph is
      blank. */
  lemma ParagraphsEmptyIffBlank(paragraphs: seq<string>)
    ensures Strip(Join(BlankLine, NonEmpty(paragraphs))) == []
        <==> forall i :: 0 <= i < |paragraphs| ==> IsBlank(paragraphs[i])
  {
    StripJoinEmptyIffBlank(NonEmpty(paragraphs));
    NonEmptyBlank(paragraphs);
  }

  /** Dropping the empty paragraphs does not change whether all of them are blank. */
  lemma {:induction false} NonEmptyBlank(paragraphs: seq<string>)
    ensures (forall i :: 0 <= i < |NonEmpty(paragraphs)| ==> IsBlank(NonEmpty(paragraphs)[i]))
        <==> (forall i :: 0 <= i < |paragraphs| ==> IsBlank(paragraphs[i]))
    decreases |paragraphs|
  {
    if |paragraphs| > 0 {
      var x, xs := paragraphs[0], paragraphs[1..];
      assert paragraphs == [x] + xs;
      NonEmptyCons(x, xs);
      NonEmptyBlank(xs);
      var head := if x != [] then [x] else [];
      AllBlankConcat(head, NonEmpty(xs));
      AllBlankConcat([x], xs);
    }
  }

  /** A concatenation of parts is all blank exactly when both halves are. */
  lemma AllBlankConcat(a: seq<string>, b: seq<string>)
    ensures (forall i :: 0 <= i < |a + b| ==> IsBlank((a + b)[i]))
        <==> (forall i :: 0 <= i < |a| ==> IsBlank(a[i])) && (forall i :: 0 <= i < |b| ==> IsBlank(b[i]))
  {
    var ab := a + b;
    var whole := forall i :: 0 <= i < |ab| ==> IsBlank(ab[i]);
    var left := forall i :: 0 <= i < |a| ==> IsBlank(a[i]);
    var right := forall i :: 0 <= i < |b| ==> IsBlank(b[i]);
    if whole {
      forall i | 0 <= i < |a| ensures IsBlank(a[i]) {
        assert ab[i] == a[i];
      }
      forall i | 0 <= i < |b| ensures IsBlank(b[i]) {
        assert ab[|a| + i] == b[i];
      }
      assert left && right;
    }
    if left && right {
      forall i | 0 <= i < |ab| ensures IsBlank(ab[i]) {
        if i < |a| {
          assert ab[i] == a[i];
        } else {
          assert ab[i] == b[i - |a|];
        }
      }
      assert whole;
    }
  }

  /** One filtering step: the first paragraph is kept exactly when it is non-empty. */
  lemma NonEmptyCons(x: string, xs: seq<string>)
    ensures NonEmpty([x] + xs) == (if x != [] then [x] else []) + NonEmpty(xs)
  {
    assert ([x] + xs)[0] == x;
    assert ([x] + xs)[1..] == xs;
  }

  lemma NonEmptyExample()
    ensures NonEmpty(["A", "", "B"]) == ["A", "B"]
  {
    assert ["A", "", "B"] == ["A"] + ([""] + (["B"] + []));
    NonEmptyCons("B", []);
    NonEmptyCons("", ["B"]);
    NonEmptyCons("A", ["B"]);
  }

  /** The Word file with paragraphs "A", "" and "B" reads as "A", a blank line, "B". */
  lemma DocxDropsEmptyParagraphs()
    ensures ExtractDocxText(true, ["A", "", "B"]) == "A\n\nB"
  {
    var t := "A\n\nB";
    assert "A" + BlankLine + "B" == t;
    assert Join(BlankLine, ["A", "B"]) == t by {
      assert ["A", "B"][1..] == ["B"];
    }
    NonEmptyExample();
    assert t[0] == 'A' && t[3] == 'B';
    StripOfTrimmed(t);
  }

  // ---------------------------------------------------------------------------
  // Word builder

  /** `create_docx_bytes_from_text`, as the paragraphs it adds: `text.split("\n")`, one per
      line in order, empty lines kept. There is one more paragraph than line breaks, no
      paragraph holds a line break, and rejoining them with "\n" gives back the text. */
  function DocxParagraphs(text: string): (r: seq<string>)
    ensures |r| == Count(text, '\n') + 1
    ensures forall i :: 0 <= i < |r| ==> '\n' !in r[i]
    ensures Join("\n", r) == text
  {
    SplitThenJoin(text, '\n');
    Split(text, '\n')
  }

  /** The builder is also a left inverse of joining: lines without line breaks, rejoined
      with "\n", come back as exactly those paragraphs. */
  lemma DocxParagraphsOfLines(lines: seq<string>)
    requires |lines| >= 1
    requires forall i :: 0 <= i < |lines| ==> '\n' !in lines[i]
    ensures DocxParagraphs(Join("\n", lines)) == lines
  {
    JoinThenSplit(lines, '\n');
  }
}
