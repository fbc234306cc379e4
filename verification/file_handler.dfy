/** Turning an uploaded file into text: dispatch on the extension, and the
    one-line-per-part layout of PDF pages and Word paragraphs. The PDF and
    Word readers and the UTF-8 decoder are function parameters, each of which
    may fail (a corrupt file, bytes that are not UTF-8). */
module FileHandler {

  import opened Wrappers
  import Text
  import App

  type Bytes = seq<bv8>

  /** The libraries the extractors call: the text of each PDF page, the text
      of each Word paragraph, and UTF-8 decoding. `None` is the exception the
      library raises: `PdfReader` or `Document` on a corrupt file, `decode`
      with `UnicodeDecodeError` on invalid bytes. */
  datatype Readers = Readers(
    pdfPages: Bytes -> Option<seq<string>>,
    docxParagraphs: Bytes -> Option<seq<string>>,
    utf8Decode: Bytes -> Option<string>)

  /** How `parse_uploaded_file` ends: with the text, with the `ValueError` for
      an extension it does not handle, or with an exception a reader raised. */
  datatype Parsed = Extracted(text: string) | Unsupported(message: string) | ReaderRaised

  /** The sum of the lengths of `parts`. */
  function TotalLength(parts: seq<string>): nat
  {
    if |parts| == 0 then 0 else |parts[0]| + TotalLength(parts[1..])
  }

  /** Each part followed by a newline, concatenated: the text both the PDF and
      the Word extractor build. */
  function Lines(parts: seq<string>): (r: string)
    ensures |r| == TotalLength(parts) + |parts|
  {
    if |parts| == 0 then "" else parts[0] + "\n" + Lines(parts[1..])
  }

  /** The newline layout is a join with a final empty piece. */
  lemma {:induction false} LinesIsJoin(parts: seq<string>)
    ensures Lines(parts) == Text.Join(parts + [""], "\n")
    decreases |parts|
  {
    if |parts| > 0 {
      LinesIsJoin(parts[1..]);
      assert (parts + [""])[1..] == parts[1..] + [""];
      assert (parts + [""])[0] == parts[0];
    } else {
      assert parts + [""] == [""];
    }
  }

  /** Splitting an extracted text at newlines gives back the parts, plus the
      empty piece after the last newline, when no part holds a newline itself. */
  lemma LinesSplit(parts: seq<string>)
    requires forall k :: 0 <= k < |parts| ==> '\n' !in parts[k]
    ensures Text.Split(Lines(parts), '\n') == parts + [""]
  {
    LinesIsJoin(parts);
    var all := parts + [""];
    assert forall k :: 0 <= k < |all| ==> '\n' !in all[k] by {
      forall k | 0 <= k < |all|
        ensures '\n' !in all[k]
      {
        if k < |parts| {
          assert all[k] == parts[k];
        }
      }
    }
    Text.SplitJoin(all, '\n');
  }

  /** `extract_text_from_pdf`: `None` when the reader raises. */
  function PdfText(content: Bytes, rd: Readers): (r: Option<string>)
    ensures r.Some? <==> rd.pdfPages(content).Some?
    ensures r.Some? ==> var pages := rd.pdfPages(content).value;
      |r.value| == TotalLength(pages) + |pages|
  {
    match rd.pdfPages(content)
    case Some(pages) => Some(Lines(pages))
    case None => None
  }

  /** `extract_text_from_docx`: `None` when the reader raises. */
  function DocxText(content: Bytes, rd: Readers): (r: Option<string>)
    ensures r.Some? <==> rd.docxParagraphs(content).Some?
    ensures r.Some? ==> var paras := rd.docxParagraphs(content).value;
      |r.value| == TotalLength(paras) + |paras|
  {
    match rd.docxParagraphs(content)
    case Some(paras) => Some(Lines(paras))
    case None => None
  }

  /** The text an extractor returned, or the exception it raised, passed on. */
  function FromReader(o: Option<string>): (r: Parsed)
    ensures r.Extracted? <==> o.Some?
    ensures r.Extracted? ==> r.text == o.value
    ensures o.None? ==> r.ReaderRaised?
  {
    match o
    case Some(t) => Extracted(t)
    case None => ReaderRaised
  }

  /** `parse_uploaded_file`: PDF and Word files go to their extractors, text
      and Markdown files are decoded, and any other extension is refused with
      a message naming it. An exception of the extractor or decoder is not
      caught. */
  function ParseUploadedFile(name: string, content: Bytes, rd: Readers): (r: Parsed)
    ensures var ext := Text.Extension(name);
      r.Unsupported? <==> ext != "pdf" && ext != "docx" && ext != "txt" && ext != "md"
    ensures r.Unsupported? ==> r.message == "不支持的文件类型: " + Text.Extension(name)
    ensures Text.Extension(name) == "pdf" ==> r == FromReader(PdfText(content, rd))
    ensures Text.Extension(name) == "docx" ==> r == FromReader(DocxText(content, rd))
    ensures Text.Extension(name) in {"txt", "md"} ==> r == FromReader(rd.utf8Decode(content))
  {
    var ext := Text.Extension(name);
    if ext == "pdf" then FromReader(PdfText(content, rd))
    else if ext == "docx" then FromReader(DocxText(content, rd))
    else if ext == "txt" || ext == "md" then FromReader(rd.utf8Decode(content))
    else Unsupported("不支持的文件类型: " + ext)
  }

  /** A file the home page accepts for upload is never refused for its
      extension: it fails only when the Word reader or the UTF-8 decoder
      raises on its content. */
  lemma AcceptedUploadsParse(name: string, size: nat, content: Bytes, rd: Readers)
    requires App.ValidateUploadedFile(name, size).Accepted?
    ensures !ParseUploadedFile(name, content, rd).Unsupported?
    ensures ParseUploadedFile(name, content, rd).ReaderRaised? <==>
      if Text.Extension(name) == "docx" then rd.docxParagraphs(content).None?
      else rd.utf8Decode(content).None?
  {
  }

  /** A Word document's text is its paragraphs, one per line. */
  lemma DocxParagraphsRecovered(stem: string, content: Bytes, rd: Readers)
    requires rd.docxParagraphs(content).Some?
    requires var paras := rd.docxParagraphs(content).value;
      forall k :: 0 <= k < |paras| ==> '\n' !in paras[k]
    ensures ParseUploadedFile(stem + ".DOCX", content, rd).Extracted?
    ensures Text.Split(ParseUploadedFile(stem + ".DOCX", content, rd).text, '\n')
            == rd.docxParagraphs(content).value + [""]
  {
    assert stem + ".DOCX" == stem + "." + "DOCX";
    Text.ExtensionAfterDot(stem, "DOCX");
    assert Text.Lower("DOCX") == "docx" by {
      var l := Text.Lower("DOCX");
      assert l[0] == 'd' && l[1] == 'o' && l[2] == 'c' && l[3] == 'x';
    }
    LinesSplit(rd.docxParagraphs(content).value);
  }
}
