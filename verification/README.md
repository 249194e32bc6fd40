# File dashboard core, modelled in Dafny

The repository holds two Streamlit dashboards with the same purpose. A user uploads one
PDF or Word (.docx) file:

- A PDF can be previewed and converted into a Word document.
- A Word file can be Read (preview and re-download its text), Written (replaced by the user's
  text) or Appended to (the user's text added after its own), with the result offered for
  download.

`advanced_stylish_app.py` is the styled dashboard. Its sidebar chooses a full or truncated
preview and whether .txt and .docx downloads are offered. `advanced_app.py` is the plain
dashboard: the preview is always truncated, Read on a Word file only previews, and Write and
Append offer a single Word download.

This project models what one run of either page script computes from an upload. The model
covers:

- which file names are accepted and which section they reach
- the text extracted from a PDF's pages or a Word file's paragraphs
- the content each operation produces, and the preview shown
- the name, type and content of every download offered

The Python string operations involved (`strip`, `join`, `split`, `lower`, `endswith`,
`os.path.splitext`) are modelled exactly on ASCII text (see Left out for the Unicode
cases), so that the properties are stated about what the code really does.

Modules, in dependency order:

- `Optional` (optional.dfy): `Option`, with Python's `x or ""` as `GetOr`.
- `Text` (text.dfy): `str.strip`, `sep.join`, `str.split` on one character, ASCII
  `lower` and `endswith`, with their characterising lemmas.
- `Paths` (paths.dfy): POSIX `os.path.splitext`, including the rule that leading dots of
  the last component are not an extension.
- `Helpers` (helpers.dfy): the four helper functions, which both scripts define
  identically. They are `allowed_filetype` (with the `is_pdf`/`is_docx` dispatch),
  `extract_pdf_text`, `extract_docx_text` and `create_docx_bytes_from_text`.
- `Dashboard` (dashboard.dfy): what both pages share. That is the Read/Write/Append
  content, the 2000-character preview, download names and payloads, and the `Outcome` of
  one run.
- `StylishApp` (stylish_app.dfy): the styled page script, with its sidebar.
- `AdvancedApp` (advanced_app.dfy): the plain page script, and how it relates to the
  styled one.

The environment becomes parameters:

- whether PyPDF2's `PdfReader` and python-docx could be imported (`Libraries`)
- the text each PDF page yields, `None` when `extract_text()` gives nothing
- the text of each Word paragraph
- the selected operation, the text box, and whether the page's button was pressed
  (`Request`)
- the sidebar checkboxes (`StylishApp.Sidebar`)

A run that gets past the upload's parsing ends in one `Outcome` (a file the libraries
cannot parse is covered under Left out):

- `Rejected`: the name is not accepted.
- `NoPdfText`: the PDF warning.
- `BlankInput(op)`: Write or Append with blank text.
- `WriterMissing`: the Word builder was called while python-docx is missing, so
  `docx.Document()` raises.
- `Shown(preview, exports)`: the preview text, if any, and the downloads offered, in page
  order.

## Model

| member | source | states |
|---|---|---|
| Text.LStrip | advanced_stylish_app.py:59 | the result is a suffix of the input, what was dropped is all whitespace, and the result does not start with whitespace |
| Text.RStrip | advanced_stylish_app.py:59 | the result is a prefix of the input, what was dropped is all whitespace, and the result does not end with whitespace |
| Text.Strip | advanced_stylish_app.py:59 | `str.strip()` leaves no whitespace at either end and never lengthens the text |
| Text.LStripBlankPrefix | advanced_stylish_app.py:59 | stripping the left of blank padding followed by a non-blank start returns exactly the rest |
| Text.RStripBlankSuffix | advanced_stylish_app.py:59 | stripping the right of text ending in non-blank, followed by blank padding, returns exactly the text |
| Text.StripUnique | advanced_stylish_app.py:152 | whatever whitespace padding surrounds a trimmed core, `strip()` returns exactly that core |
| Text.StripIdempotent | advanced_stylish_app.py:152 | stripping twice is stripping once |
| Text.StripOfTrimmed | advanced_stylish_app.py:59 | text without surrounding whitespace is left unchanged by `strip()` |
| Text.StripEmptyIffBlank | advanced_stylish_app.py:149 | `not s.strip()` holds exactly when every character of `s` is whitespace (both directions) |
| Text.JoinBlank | advanced_stylish_app.py:59 | with a whitespace separator, `sep.join(parts)` is all whitespace exactly when every part is |
| Text.Split | advanced_stylish_app.py:70 | `text.split("\n")` has one more piece than line breaks and no piece contains a line break |
| Text.SplitThenJoin | advanced_stylish_app.py:70 | rejoining the pieces of `split(d)` with `d` gives back the text |
| Text.JoinThenSplit | advanced_stylish_app.py:70 | splitting the join of separator-free pieces gives back exactly those pieces |
| Text.Join | advanced_stylish_app.py:59 | `sep.join(parts)` is "" for no parts, and otherwise as long as all the parts plus one separator between each pair |
| Text.EndsWithConcat | advanced_stylish_app.py:51 | `s.endswith(t)` holds exactly when `s` is some text followed by `t` |
| Text.Lower | advanced_stylish_app.py:51 | `lower()` keeps the length, leaves no capital ASCII letter, and changes a character exactly when it is a capital letter |
| Optional.Option.GetOr | advanced_stylish_app.py:58 | `x or ""` on an optional page text: the text when there is one, "" otherwise |
| Paths.LastIndex | advanced_stylish_app.py:112 | the position of the last occurrence of a character, or -1, with no occurrence after it |
| Paths.SplitExt | advanced_stylish_app.py:112 | `os.path.splitext`: root and extension concatenate to the path, and the extension is empty or one dot followed by neither dots nor slashes; an extension is split off exactly when the last path component has a dot after a character that is not a dot, so leading dots never start one |
| Paths.SplitExtOfBaseName | advanced_stylish_app.py:138 | for a plain base name ending in a one-dot extension, the root is the name without that extension |
| Paths.SplitExtLeadingDot | advanced_stylish_app.py:112 | ".pdf" splits to root ".pdf" and an empty extension |
| Paths.SplitExtNotes | advanced_stylish_app.py:112 | "notes.pdf" splits to "notes" and ".pdf" |
| Helpers.AllowedFiletype | advanced_stylish_app.py:50-51 | a name is accepted exactly when it is a PDF or a Word name; an accepted name has at least four characters and ends in f or x, in either case |
| Helpers.IsPdfIgnoringCase | advanced_stylish_app.py:90 | `is_pdf` holds exactly when the name's last four characters are '.', then p, d, f, each in either case |
| Helpers.IsDocxIgnoringCase | advanced_stylish_app.py:91 | `is_docx` holds exactly when the name's last five characters are '.', then d, o, c, x, each in either case |
| Helpers.PdfAndDocxExclusive | advanced_stylish_app.py:90-91 | no name is both a PDF and a Word file |
| Helpers.Classify | advanced_stylish_app.py:90-97 | a name is refused exactly when `allowed_filetype` is false, reaches the PDF section exactly when it ends in ".pdf" ignoring case, and the Word section exactly when it ends in ".docx" |
| Helpers.PageTexts | advanced_stylish_app.py:58 | one entry per page, in order: the page's text or "" when it has none |
| Helpers.ExtractPdfText | advanced_stylish_app.py:53-59 | the text has no surrounding whitespace, is "" without the reader, and is "" exactly when the reader is missing or every page is blank or textless |
| Helpers.PagesEmptyIffBlank | advanced_stylish_app.py:58-59 | the stripped join of the pages is empty exactly when every page is blank or textless |
| Helpers.StripJoinEmptyIffBlank | advanced_stylish_app.py:59 | parts joined by blank lines strip to "" exactly when every part is blank |
| Helpers.PdfKeepsEmptyPages | advanced_stylish_app.py:58-59 | a textless page between two pages is kept: it leaves two page breaks, "\n\n\n\n", between them |
| Helpers.PdfTwoPages | advanced_stylish_app.py:58-59 | pages "Hello" and "World" read as "Hello\n\nWorld" |
| Helpers.NonEmpty | advanced_stylish_app.py:66 | the paragraph filter keeps no empty paragraph, keeps exactly the non-empty values, and changes nothing when none is empty |
| Helpers.NonEmptyCounts | advanced_stylish_app.py:66 | every non-empty paragraph survives as many times as it occurs, and every empty one goes |
| Helpers.NonEmptyAppend | advanced_stylish_app.py:66 | the filter keeps relative order: it distributes over concatenation |
| Helpers.ExtractDocxText | advanced_stylish_app.py:61-66 | the text has no surrounding whitespace, is "" without python-docx, and is "" exactly when python-docx is missing or every paragraph is blank |
| Helpers.ParagraphsEmptyIffBlank | advanced_stylish_app.py:66 | the stripped join of the kept paragraphs is empty exactly when every paragraph is blank |
| Helpers.NonEmptyBlank | advanced_stylish_app.py:66 | dropping empty paragraphs does not change whether all paragraphs are blank |
| Helpers.NonEmptyExample | advanced_stylish_app.py:66 | the paragraphs "A", "", "B" filter to "A", "B" |
| Helpers.DocxDropsEmptyParagraphs | advanced_stylish_app.py:66 | a Word file with paragraphs "A", "", "B" reads as "A\n\nB": an empty paragraph leaves no extra blank line |
| Helpers.DocxParagraphs | advanced_stylish_app.py:68-71 | the built document has one paragraph per line (line breaks + 1), no paragraph holds a line break, and the paragraphs rejoined with "\n" are the text |
| Helpers.DocxParagraphsOfLines | advanced_stylish_app.py:70 | lines without line breaks, joined with "\n", build a document with exactly those paragraphs |
| Dashboard.Suffix | advanced_stylish_app.py:138-178 | each operation's name suffix starts with '_', has at least one more character, and holds no dot, so it never adds an extension |
| Dashboard.SuffixesDistinct | advanced_stylish_app.py:138-178 | the suffixes "_read", "_written" and "_appended" are equal exactly when their operations are |
| Dashboard.NewContent | advanced_stylish_app.py:148-172 | Write and Append refuse exactly the user texts that are blank; Read keeps the extracted text; Write gives the non-empty, trimmed user text; Append gives the extracted text, a blank line, then the stripped user text |
| Dashboard.WriteKeepsCore | advanced_stylish_app.py:152 | writing whitespace-padded text exports exactly the text inside the padding |
| Dashboard.AppendToEmpty | advanced_stylish_app.py:172 | appending "  hi  " to an empty extraction gives "\n\nhi": the separator is kept |
| Dashboard.Preview | advanced_stylish_app.py:102-105 | the full preview is the text; a text of at most 2000 characters is shown unchanged; a longer one is shown as its first 2000 characters followed by the truncation marker |
| Dashboard.PreviewIdempotent | advanced_stylish_app.py:105 | previewing a truncated preview gives the same preview |
| Dashboard.ExportName | advanced_stylish_app.py:138 | a download name starts with the upload's root, ends with the suffix and extension, and is exactly as long as those three together, so it is root + suffix + extension |
| Dashboard.ExportNameWithoutSuffix | advanced_stylish_app.py:112 | the converted PDF is named root + ".docx" |
| Dashboard.ExportNameOfBaseName | advanced_stylish_app.py:158 | for a plain base name, the extension is replaced by suffix + new extension |
| Dashboard.WrittenNameOfPdf | advanced_stylish_app.py:158 | the written text of "x.pdf" is "x_written.txt" |
| Dashboard.ConvertedNameOfPdf | advanced_stylish_app.py:112 | "notes.pdf" converts to "notes.docx" |
| Dashboard.ConvertedNameOfDotFile | advanced_stylish_app.py:112 | ".pdf" converts to ".pdf.docx", because a leading dot is not an extension |
| Dashboard.TextExport | advanced_stylish_app.py:135-140 | a .txt download has MIME type "text/plain", carries the content verbatim, and is named root + suffix + ".txt" |
| Dashboard.WordExport | advanced_stylish_app.py:142-147 | a Word download has the wordprocessingml MIME type, carries the content as line-break-free paragraphs rejoining to it, and is named root + suffix + ".docx" |
| StylishApp.Offers | advanced_stylish_app.py:134-147 | exactly one download per offered type: a .txt when its checkbox is on, a .docx when its checkbox is on and python-docx is present, and no other; the .txt comes first and the .docx last; each carries the content under root + suffix + its extension |
| StylishApp.PdfPage | advanced_stylish_app.py:97-116 | the warning exactly when no text was extracted; the builder failure exactly on Convert without python-docx; otherwise the preview, and one Word download exactly when Convert was pressed |
| StylishApp.DocxPage | advanced_stylish_app.py:119-187 | refusal exactly for Write/Append with blank text; a preview exactly for Read, showing the extracted text in full or truncated as the sidebar asks; after Process, the downloads are those offered for the operation's content |
| StylishApp.Run | advanced_stylish_app.py:86-119 | rejection exactly for unaccepted names; the PDF warning, the blank-text refusal and the builder failure each exactly in their case |
| StylishApp.RunPdf | advanced_stylish_app.py:90-97 | a name ending in ".pdf", in any case, runs the PDF section |
| StylishApp.RunDocx | advanced_stylish_app.py:90-119 | a name ending in ".docx", in any case, runs the Word section |
| StylishApp.PdfPageNamed | advanced_stylish_app.py:109-114 | the PDF section's download is named after the upload's root |
| StylishApp.DocxPageNamed | advanced_stylish_app.py:134-187 | the Word section's downloads are named after the upload's root |
| StylishApp.DownloadsNamedAfterUpload | advanced_stylish_app.py:109-187 | every download's name starts with the upload's root |
| StylishApp.RejectedBeforeExtraction | advanced_stylish_app.py:93-94 | an unaccepted name is rejected whatever the file holds, the libraries, the sidebar or the widgets |
| StylishApp.PdfConvert | advanced_stylish_app.py:107-114 | Convert on a PDF with text offers exactly one Word download of the text, named root + ".docx" |
| StylishApp.DocxRead | advanced_stylish_app.py:127-147 | Read previews the extracted text and offers it unchanged under "_read" names: exactly one .txt when its checkbox is on, exactly one .docx when its checkbox is on and python-docx is present, and nothing else |
| StylishApp.DocxWrite | advanced_stylish_app.py:148-167 | Write with non-blank text offers the stripped text under "_written" names, with no preview, whatever the uploaded paragraphs are |
| StylishApp.DocxAppend | advanced_stylish_app.py:168-187 | Append with non-blank text offers the extracted text, a blank line and the stripped user text under "_appended" names |
| AdvancedApp.PdfPage | advanced_app.py:67-85 | the warning exactly when no text was extracted; the builder failure exactly on Convert without python-docx; otherwise the truncated preview, and one Word download named root + ".docx" exactly on Convert |
| AdvancedApp.DocxPage | advanced_app.py:88-122 | refusal exactly for Write/Append with blank text; Read shows the extracted text, cut to its first 2000 characters with the marker only when longer, and offers nothing; Write/Append offer exactly one Word download of their content, or fail without python-docx |
| AdvancedApp.Run | advanced_app.py:55-122 | rejection, the PDF warning and the blank-text refusal each exactly in their case; at most one download |
| AdvancedApp.DownloadsAreWordDocuments | advanced_app.py:76-122 | every download of this dashboard is a Word document named after the upload's root |
| AdvancedApp.PdfDownloadNamed | advanced_app.py:76-85 | the converted PDF's download is a Word document named after the upload's root |
| AdvancedApp.DocxDownloadNamed | advanced_app.py:99-122 | the Write and Append downloads are Word documents named after the upload's root |
| AdvancedApp.StylishVariant | advanced_app.py:55-122 | with python-docx present, the plain dashboard behaves exactly like the styled one with full preview off, .txt downloads off, and .docx downloads on only for Write and Append |
| AdvancedApp.PdfSectionsAgree | advanced_app.py:67-85 | the plain PDF section is the styled one with its full preview off, whatever the styled page's .docx checkbox says |
| AdvancedApp.DocxSectionsAgree | advanced_app.py:88-122 | with python-docx present, the plain Word section is the styled one with full preview and .txt downloads off and a .docx download only for Write and Append |
| AdvancedApp.MissingWriterDiverges | advanced_app.py:105-110 | without python-docx, Write/Append with non-blank text on a Word file fails in the plain dashboard but is shown in the styled one, where every download offered is plain text and none is offered with the .txt box off |

## Left out

- The Streamlit user interface is not modelled: page config, CSS, titles, info/success
  messages, text-area heights and button labels. Widget values are parameters.
- The `st.error` messages the extraction helpers print when a library is missing. Only
  their returned "" is modelled.
- A file that PyPDF2 or python-docx cannot parse is not modelled. In both scripts,
  `PdfReader(...)`, `extract_text()` and `docx.Document(...)` are called unguarded, so
  such a file raises out of the script; the model starts from the parsed pages or
  paragraphs, so it has no outcome for that case.
- PyPDF2 and python-docx parsing are left out. The page texts and paragraph texts they
  would return are inputs.
- Helpers.DocxParagraphs: models the paragraphs the Word builder adds, not the serialized
  .docx bytes, because the file format belongs to python-docx.
- Dashboard.TextExport: the `.encode("utf-8")` of text downloads is not modelled; the
  payload holds the text itself.
- Text.Lower and Text.Strip: only ASCII letters are lowered and only ASCII whitespace
  (including 0x1C-0x1F) is stripped. Python's full Unicode tables are not modelled.
- Paths.SplitExt: models the POSIX `os.path.splitext`. The Windows variant also treats
  `\` and drive letters as separators, and is not modelled.
- The uploader's own `type=["pdf", "docx"]` filter is left out. It is UI; the page checks
  the name itself with `allowed_filetype`, and that check is modelled.
- The traceback raised when the Word builder runs without python-docx is not modelled. It
  appears only as the outcome `WriterMissing`.
- The PDF section's Convert button and the Word section's Process button are one boolean,
  `pressed`, because a run reaches only one of the sections. Streamlit's reruns and session
  state are not modelled.
- `app (3).py` is a third variant of the page and is not modelled. It checks the
  upload's size, names its Read downloads "_extracted", and skips pages without text.
- In both modelled scripts, a PDF page without text contributes "" and is kept in the
  join, so it leaves an extra blank line. The Read downloads are suffixed "_read".
  Neither script checks the upload's size, so the model has no size limit.
