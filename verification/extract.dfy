/** Normalisation of one selected file into an `UploadedFile` record
    (components/FileUpload.tsx): the text preview, the passthrough reader, the
    word-processor, spreadsheet and PDF extractors, and the dispatch between
    them. The parsing libraries are not modelled: what they return for a file,
    or that they throw, is part of the file's description. */
module Extract {
  import opened Wrappers
  import opened Text
  import Seqs
  import Utf8
  import Base64
  import Transport

  const TextPlain: string := "text/plain"
  const PreviewMaxLength: nat := 120

  /** The `UploadedFile` record of types.ts: `data` is base64, `preview` is
      present only for extracted text. */
  datatype UploadedFile = UploadedFile(name: string, mimeType: string, data: string, preview: Option<string>)

  /** The outcome of a call into a library that may throw. */
  datatype Call<T> = Returned(value: T) | Threw

  /** A selected file as the browser and the libraries see it: its metadata;
      its bytes, or `None` when reading it fails; and what mammoth's raw-text
      extraction, SheetJS's per-sheet text export, and pdf.js's per-page text
      items give for it. An item without text is the empty string. */
  datatype RawFile = RawFile(
    name: string,
    mimeType: string,
    size: nat,
    lastModified: int,
    bytes: Option<seq<Utf8.byte>>,
    docxText: Call<string>,
    sheets: Call<seq<string>>,
    pdfPages: Call<seq<seq<string>>>)

  /** What the user is told with `alert`. */
  datatype Notice =
    | TooManyFiles
    | TooLarge(name: string)
    | Unsupported(name: string)
    | PdfUnreadable(name: string)
    | ProcessingFailed(name: string)

  /** How `processFile` settles: with a record, with `null` (and possibly an
      alert of its own), or by rejecting its promise. */
  datatype Processed = Produced(file: UploadedFile) | NoRecord(alert: Option<Notice>) | Rejected

  /** `createTextPreview`: whitespace runs collapsed and the ends trimmed;
      when that is longer than `maxLength`, its first `maxLength` characters,
      trimmed again, followed by `...`. */
  function CreateTextPreview(text: string, maxLength: nat): (r: string)
    ensures |r| <= maxLength + 3
    ensures |Normalize(text)| <= maxLength ==> r == Normalize(text)
    ensures |Normalize(text)| > maxLength ==>
      && |r| >= 3 && r[|r| - 3..] == "..."
      && r[..|r| - 3] <= Normalize(text)
      && maxLength - 1 <= |r| - 3 <= maxLength
    ensures var c := Normalize(text);
      |c| > maxLength ==>
        r[..|r| - 3] == (if maxLength == 0 then ""
                         else if c[maxLength - 1] == ' ' then c[..maxLength - 1]
                         else c[..maxLength])
  {
    var cleaned := Normalize(text);
    if |cleaned| <= maxLength then cleaned
    else
      var kept := Trim(cleaned[..maxLength]);
      NormalizeSpec(text);
      TrimNormalizedPrefix(cleaned, maxLength);
      var r := kept + "...";
      assert r[..|r| - 3] == kept && r[|r| - 3..] == "...";
      r
  }

  /** Cutting a normalized string and trimming again keeps a prefix that
      loses at most its one trailing space. */
  lemma {:induction false} TrimNormalizedPrefix(c: string, m: nat)
    requires IsNormalized(c) && m <= |c|
    ensures Trim(c[..m]) <= c && m - 1 <= |Trim(c[..m])| <= m
    ensures m == 0 ==> Trim(c[..m]) == []
    ensures m >= 1 ==> Trim(c[..m]) == (if c[m - 1] == ' ' then c[..m - 1] else c[..m])
  {
    var p := c[..m];
    if m > 0 {
      assert !IsWhitespace(p[0]);
      assert TrimStart(p) == p;
      assert SpaceIsolatedAt(c, m - 1);
      if c[m - 1] == ' ' {
        assert !IsWhitespace(c[0]);
        assert m >= 2;
        assert SpaceIsolatedAt(c, m - 2);
        var q := c[..m - 1];
        assert p == q + [' '];
        TrimEndBlank(q, [' ']);
      } else {
        TrimEndBlank(p, []);
        assert p + [] == p;
      }
    }
  }

  /** What is kept of a normalized string by cutting it is normalized
      again, once a trailing space is trimmed. */
  lemma {:induction false} PrefixOfNormalized(c: string, k: nat)
    requires IsNormalized(c) && k <= |c|
    requires k == 0 || !IsWhitespace(c[k - 1])
    ensures IsNormalized(c[..k])
  {
    var kept := c[..k];
    forall i | 0 <= i < |kept|
      ensures SpaceIsolatedAt(kept, i)
    {
      assert kept[i] == c[i];
      assert SpaceIsolatedAt(c, i);
      if i + 1 < |kept| {
        assert kept[i + 1] == c[i + 1];
      }
    }
  }

  /** Cutting a normalized string `c` at a non-space keeps a normalized
      prefix whose visible characters are a prefix of `c`'s. */
  lemma {:induction false} CutSummary(c: string, kept: string)
    requires IsNormalized(c) && kept <= c
    requires kept == [] || !IsWhitespace(kept[|kept| - 1])
    ensures IsNormalized(kept) && Visible(kept) <= Visible(c)
  {
    assert kept == c[..|kept|];
    PrefixOfNormalized(c, |kept|);
    assert c == kept + c[|kept|..];
    VisibleAppend(kept, c[|kept|..]);
  }

  /** A preview is a summary of its own text. When the normalized text
      fits, the preview is that text, normalized and with every visible
      character; otherwise what precedes the `...` is normalized and its
      visible characters are a prefix of the text's. */
  lemma {:induction false} PreviewIsPrefixSummary(text: string, maxLength: nat)
    ensures var r := CreateTextPreview(text, maxLength);
      |Normalize(text)| <= maxLength ==> IsNormalized(r) && Visible(r) == Visible(text)
    ensures var r := CreateTextPreview(text, maxLength);
      |Normalize(text)| > maxLength ==>
        IsNormalized(r[..|r| - 3]) && Visible(r[..|r| - 3]) <= Visible(text)
  {
    var c := Normalize(text);
    assert IsNormalized(c) && Visible(c) == Visible(text) by {
      NormalizeSpec(text);
    }
    if |c| > maxLength {
      var kept := Trim(c[..maxLength]);
      assert kept <= c by {
        TrimNormalizedPrefix(c, maxLength);
      }
      var r := CreateTextPreview(text, maxLength);
      assert r == kept + "...";
      assert r[..|r| - 3] == kept;
      CutSummary(c, kept);
    }
  }

  /** The lower-cased part of the name after its last dot (the whole name
      when it has none). Only ASCII letters are folded: no other character
      lower-cases to a letter of `docx`, `xlsx`, `xls` or `pdf`. */
  function Extension(name: string): string {
    LowerAscii(LastSegment(name, '.'))
  }

  /** The extractor `processFile` chooses. */
  datatype Kind = Passthrough | WordDocument | Spreadsheet | Pdf | UnsupportedKind

  /** The declared type wins for images and plain text; otherwise the
      extension decides. */
  function KindOf(f: RawFile): Kind {
    if StartsWith(f.mimeType, "image/") || f.mimeType == TextPlain then Passthrough
    else
      var ext := Extension(f.name);
      if ext == "docx" then WordDocument
      else if ext == "xlsx" || ext == "xls" then Spreadsheet
      else if ext == "pdf" then Pdf
      else UnsupportedKind
  }

  /** The text record an extractor publishes, or `None` when the encoded text
      is empty. */
  function TextRecord(name: string, text: string): (r: Option<UploadedFile>)
    ensures r.None? <==> text == ""
    ensures r.Some? ==> && r.value.name == name && r.value.mimeType == TextPlain
                        && Transport.FromBase64(r.value.data) == text
                        && r.value.preview == Some(CreateTextPreview(text, PreviewMaxLength))
  {
    var data := Transport.ToBase64(text);
    Transport.RoundTrip(text);
    if data != "" then Some(UploadedFile(name, TextPlain, data, Some(CreateTextPreview(text, PreviewMaxLength))))
    else None
  }

  function FromText(name: string, text: string): (r: Processed)
    ensures r.Produced? ==> r.file.name == name
  {
    match TextRecord(name, text)
    case Some(u) => Produced(u)
    case None => NoRecord(None)
  }

  /** `processImageOrTextFile`: the file's own bytes as base64, its declared
      type, and no preview. */
  function ProcessImageOrText(f: RawFile): (r: Processed)
    ensures r.Produced? ==> r.file.name == f.name
  {
    match f.bytes
    case None => Rejected
    case Some(bs) => Produced(UploadedFile(f.name, f.mimeType, Base64.Encode(bs), None))
  }

  /** `processDocxFile`. */
  function ProcessDocx(f: RawFile): (r: Processed)
    ensures r.Produced? ==> r.file.name == f.name
  {
    if f.bytes.None? then Rejected
    else match f.docxText
      case Threw => Rejected
      case Returned(text) => FromText(f.name, text)
  }

  /** Each sheet's text followed by a blank line, in workbook order. */
  function WorkbookText(sheets: seq<string>): string {
    if sheets == [] then "" else sheets[0] + "\n\n" + WorkbookText(sheets[1..])
  }

  /** `processXlsxFile`. */
  function ProcessXlsx(f: RawFile): (r: Processed)
    ensures r.Produced? ==> r.file.name == f.name
  {
    if f.bytes.None? then Rejected
    else match f.sheets
      case Threw => Rejected
      case Returned(sheets) => FromText(f.name, WorkbookText(sheets))
  }

  predicate NonEmpty(s: string) {
    s != ""
  }

  /** One page: its non-empty text items joined by single spaces. */
  function PageText(items: seq<string>): string {
    Join(Seqs.Filter(items, NonEmpty), " ")
  }

  /** All pages in order, each followed by a blank line. */
  function PdfText(pages: seq<seq<string>>): string {
    if pages == [] then "" else PageText(pages[0]) + "\n\n" + PdfText(pages[1..])
  }

  /** `processPdfFile`: reading the bytes happens outside its `try`, so a
      read failure rejects; a pdf.js failure is caught, alerted, and gives
      `null`. */
  function ProcessPdf(f: RawFile): (r: Processed)
    ensures r.Produced? ==> r.file.name == f.name
  {
    if f.bytes.None? then Rejected
    else match f.pdfPages
      case Threw => NoRecord(Some(PdfUnreadable(f.name)))
      case Returned(pages) => FromText(f.name, PdfText(pages))
  }

  /** The text an extractor of kind `k` produces from the libraries'
      output, or `None` when a library throws. */
  function ExtractedText(f: RawFile): Option<string> {
    match KindOf(f)
    case WordDocument => if f.docxText.Returned? then Some(f.docxText.value) else None
    case Spreadsheet => if f.sheets.Returned? then Some(WorkbookText(f.sheets.value)) else None
    case Pdf => if f.pdfPages.Returned? then Some(PdfText(f.pdfPages.value)) else None
    case _ => None
  }

  /** `processFile`. */
  function ProcessFile(f: RawFile): (r: Processed)
    ensures r.Produced? ==> r.file.name == f.name
  {
    match KindOf(f)
    case Passthrough => ProcessImageOrText(f)
    case WordDocument => ProcessDocx(f)
    case Spreadsheet => ProcessXlsx(f)
    case Pdf => ProcessPdf(f)
    case UnsupportedKind => NoRecord(Some(Unsupported(f.name)))
  }

  /** The invariant every record satisfies: a text record's payload decodes
      to non-empty text and its preview is that text's preview; a passthrough
      record has no preview. */
  ghost predicate WellFormedRecord(u: UploadedFile) {
    match u.preview
    case None => true
    case Some(p) =>
      && u.mimeType == TextPlain
      && Transport.FromBase64(u.data) != ""
      && p == CreateTextPreview(Transport.FromBase64(u.data), PreviewMaxLength)
  }

  /** Every record `processFile` publishes is well formed. */
  lemma {:induction false} ProcessFileWellFormed(f: RawFile)
    ensures ProcessFile(f).Produced? ==> WellFormedRecord(ProcessFile(f).file)
  {
    if ExtractedText(f).Some? && f.bytes.Some? {
      ExtractorSpec(f);
    } else {
      ExtractedTextDispatch(f);
    }
  }

  /** `processFile` hands every extracted text to the same record builder. */
  lemma {:induction false} ExtractedTextDispatch(f: RawFile)
    ensures ExtractedText(f).Some? && f.bytes.Some? ==>
      ProcessFile(f) == FromText(f.name, ExtractedText(f).value)
    ensures ExtractedText(f).None? && ProcessFile(f).Produced? ==> KindOf(f) == Passthrough
  {
    match KindOf(f)
    case Passthrough =>
    case WordDocument => DispatchDocx(f);
    case Spreadsheet => DispatchXlsx(f);
    case Pdf => DispatchPdf(f);
    case UnsupportedKind =>
  }

  lemma {:induction false} DispatchDocx(f: RawFile)
    requires KindOf(f) == WordDocument
    ensures ExtractedText(f).Some? && f.bytes.Some? ==> ProcessFile(f) == FromText(f.name, f.docxText.value)
    ensures ExtractedText(f).Some? ==> ExtractedText(f).value == f.docxText.value
    ensures ExtractedText(f).None? ==> !ProcessFile(f).Produced?
  {
    assert ProcessFile(f) == ProcessDocx(f);
    if f.docxText.Returned? {
      assert ExtractedText(f) == Some(f.docxText.value);
    } else {
      assert ExtractedText(f) == None;
      assert ProcessDocx(f) == Rejected;
    }
  }

  lemma {:induction false} DispatchXlsx(f: RawFile)
    requires KindOf(f) == Spreadsheet
    ensures ExtractedText(f).Some? && f.bytes.Some? ==> ProcessFile(f) == FromText(f.name, WorkbookText(f.sheets.value))
    ensures ExtractedText(f).Some? ==> ExtractedText(f).value == WorkbookText(f.sheets.value)
    ensures ExtractedText(f).None? ==> !ProcessFile(f).Produced?
  {
    assert ProcessFile(f) == ProcessXlsx(f);
    if f.sheets.Returned? {
      assert ExtractedText(f) == Some(WorkbookText(f.sheets.value));
    } else {
      assert ExtractedText(f) == None;
      assert ProcessXlsx(f) == Rejected;
    }
  }

  lemma {:induction false} DispatchPdf(f: RawFile)
    requires KindOf(f) == Pdf
    ensures ExtractedText(f).Some? && f.bytes.Some? ==> ProcessFile(f) == FromText(f.name, PdfText(f.pdfPages.value))
    ensures ExtractedText(f).Some? ==> ExtractedText(f).value == PdfText(f.pdfPages.value)
    ensures ExtractedText(f).None? ==> !ProcessFile(f).Produced?
  {
    assert ProcessFile(f) == ProcessPdf(f);
    if f.pdfPages.Returned? {
      assert ExtractedText(f) == Some(PdfText(f.pdfPages.value));
    } else {
      assert ExtractedText(f) == None;
      assert ProcessPdf(f) == (if f.bytes.None? then Rejected else NoRecord(Some(PdfUnreadable(f.name))));
    }
  }

  /** Images and plain text pass through: the declared type is kept, there
      is no preview, the payload decodes to the file's own bytes, and only a
      read failure stops it. */
  lemma {:induction false} PassthroughSpec(f: RawFile)
    requires KindOf(f) == Passthrough
    ensures f.bytes.None? <==> ProcessFile(f).Rejected?
    ensures var r := ProcessFile(f);
      r.Produced? ==> && r.file.mimeType == f.mimeType && r.file.preview == None
                      && Base64.Decode(r.file.data) == Some(f.bytes.value)
  {
    if f.bytes.Some? {
      Base64.DecodeEncode(f.bytes.value);
    }
  }

  /** An extractor publishes plain text whose payload decodes to exactly the
      extracted text and whose preview is computed from that text; it gives
      `null` without an alert exactly when that text is empty. */
  lemma {:induction false} ExtractorSpec(f: RawFile)
    requires ExtractedText(f).Some? && f.bytes.Some?
    ensures var r, text := ProcessFile(f), ExtractedText(f).value;
      && (r == NoRecord(None) <==> text == "")
      && (r.Produced? <==> text != "")
      && (r.Produced? ==> && r.file.mimeType == TextPlain
                          && Transport.FromBase64(r.file.data) == text
                          && r.file.preview == Some(CreateTextPreview(text, PreviewMaxLength)))
  {
    ExtractedTextDispatch(f);
    var text := ExtractedText(f).value;
    var t := TextRecord(f.name, text);
    assert ProcessFile(f) == FromText(f.name, text);
  }

  /** The failure outcomes: an unsupported kind is alerted and dropped, a
      PDF that pdf.js cannot read is alerted and dropped, and a library that
      throws elsewhere rejects. */
  lemma {:induction false} FailureSpec(f: RawFile)
    ensures KindOf(f) == UnsupportedKind ==> ProcessFile(f) == NoRecord(Some(Unsupported(f.name)))
    ensures KindOf(f) == Pdf && f.bytes.Some? && f.pdfPages.Threw? ==>
      ProcessFile(f) == NoRecord(Some(PdfUnreadable(f.name)))
    ensures KindOf(f) in {WordDocument, Spreadsheet, Pdf} && f.bytes.None? ==> ProcessFile(f).Rejected?
    ensures KindOf(f) == WordDocument && f.docxText.Threw? ==> ProcessFile(f).Rejected?
    ensures KindOf(f) == Spreadsheet && f.sheets.Threw? ==> ProcessFile(f).Rejected?
  {
  }

  /** The workbook text is built sheet by sheet: it is additive over the
      sheet list and a single sheet contributes its text and a blank line. */
  lemma {:induction false} WorkbookTextAppend(a: seq<string>, b: seq<string>)
    ensures WorkbookText(a + b) == WorkbookText(a) + WorkbookText(b)
    ensures WorkbookText([]) == "" && forall s :: WorkbookText([s]) == s + "\n\n"
  {
    if a != [] {
      assert (a + b)[1..] == a[1..] + b;
      WorkbookTextAppend(a[1..], b);
    } else {
      assert a + b == b;
    }
  }

  /** The same shape for PDF text, page by page. */
  lemma {:induction false} PdfTextAppend(a: seq<seq<string>>, b: seq<seq<string>>)
    ensures PdfText(a + b) == PdfText(a) + PdfText(b)
    ensures forall p :: PdfText([p]) == PageText(p) + "\n\n"
  {
    if a != [] {
      assert (a + b)[1..] == a[1..] + b;
      PdfTextAppend(a[1..], b);
    } else {
      assert a + b == b;
    }
  }

  lemma {:induction false} JoinEmpty(parts: seq<string>, sep: string)
    requires sep != ""
    ensures Join(parts, sep) == "" <==> parts == [] || (|parts| == 1 && parts[0] == "")
  {
  }

  /** A page's text is empty exactly when all its items are. */
  lemma {:induction false} PageTextEmpty(items: seq<string>)
    ensures PageText(items) == "" <==> forall i :: 0 <= i < |items| ==> items[i] == ""
  {
    var kept := Seqs.Filter(items, NonEmpty);
    JoinEmpty(kept, " ");
    if exists i :: 0 <= i < |items| && items[i] != "" {
      var i :| 0 <= i < |items| && items[i] != "";
      assert items[i] in kept;
      assert kept != [] && NonEmpty(kept[0]);
    } else {
      assert kept == [];
    }
  }

  /** Repeating a string `n` times. */
  function Repeat(s: string, n: nat): string {
    if n == 0 then "" else s + Repeat(s, n - 1)
  }

  /** A PDF that parses but holds no text still yields a record, one blank
      line per page; only a document without pages yields none. */
  lemma {:induction false} PdfWithoutText(pages: seq<seq<string>>)
    requires forall k, i :: 0 <= k < |pages| && 0 <= i < |pages[k]| ==> pages[k][i] == ""
    ensures PdfText(pages) == Repeat("\n\n", |pages|)
  {
    if pages != [] {
      PageTextEmpty(pages[0]);
      PdfWithoutText(pages[1..]);
    }
  }
}
