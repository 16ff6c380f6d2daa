/** The manifest scan endpoint: it reads the text of every page of an
    uploaded PDF, reports the page count, a preview of the text, and the
    shipping company found on the `1. Outbound Transporter` line. Reading
    the PDF is outside the model: the page texts, or the message of the
    exception reading them raised, are an input.
 */
module BuildScan {
  import opened Wrappers
  import opened Text
  import opened Seqs
  import opened LineCapture
  import Upload
  import PdfExtractor

  const AllowedExtensions: set<string> := {"pdf"}

  /** How many characters of the text the preview keeps. */
  const PreviewLimit: nat := 2500
  const Ellipsis := "..."

  /** `allowed_file` of the scan endpoint. */
  predicate AllowedPdf(name: string) {
    Upload.AllowedFile(name, AllowedExtensions)
  }

  /** A PDF name is accepted exactly when its last segment is "pdf" in any
      casing. */
  lemma AllowedPdfSpec(stem: string, ext: string)
    requires Upload.NoDot(ext)
    ensures AllowedPdf(stem + "." + ext) <==> Lower(ext) == "pdf"
  {
    Upload.AllowedIffLastSegment(stem, ext, AllowedExtensions);
  }

  /** `extract_outbound_transporter`: the case-sensitive search, its
      capture stripped. */
  function ExtractOutboundTransporter(text: string): (r: Option<string>)
    ensures r.None? <==> forall p :: 0 <= p < |text| ==> !OutboundAt(text, p, false)
    ensures r.Some? ==> PdfExtractor.OneLine(r.value)
    ensures r.Some? && r.value != [] ==> !IsSpace(r.value[0]) && !IsSpace(r.value[|r.value| - 1])
    ensures r.Some? ==> exists p :: 0 <= p < |text| && OutboundAt(text, p, false) && (forall q :: 0 <= q < p ==> !OutboundAt(text, q, false))
                                    && r.value == Trim(CaptureAt(text, p, false))
  {
    match OutboundTransporter(text, false)
    case None => None
    case Some(c) =>
      TrimAvoids(c, '\n');
      Some(Trim(c))
  }

  /** The scan and the older extractor read the same line: when no header
      in another casing comes before the first exactly-cased one (every
      header in any casing is at or after an exactly-cased one), the scan's
      answer is the older extractor's company, stripped; and when there is
      no header in any casing, the scan finds nothing and the older
      extractor says "Not found". */
  lemma ScanAgreesWithLegacyCompany(text: string)
    ensures ((forall q :: 0 <= q < |text| && OutboundAt(text, q, true) ==> exists p :: 0 <= p <= q && OutboundAt(text, p, false))
             && ExtractOutboundTransporter(text).Some?)
            ==> ExtractOutboundTransporter(text).value == Trim(PdfExtractor.Company(text))
    ensures (forall p :: 0 <= p < |text| ==> !OutboundAt(text, p, true))
            ==> ExtractOutboundTransporter(text).None? && PdfExtractor.Company(text) == PdfExtractor.NotFound
  {
    SensitiveFoundImpliesInsensitive(text);
    if forall p :: 0 <= p < |text| ==> !OutboundAt(text, p, true) {
      forall p | 0 <= p < |text| ensures !OutboundAt(text, p, false) {
        if OutboundAt(text, p, false) {
          SensitiveMatchIsInsensitiveMatch(text, p);
        }
      }
    }
  }

  /** `text_preview`: the text when it has at most 2500 characters,
      otherwise its first 2500 characters and "...". */
  function Preview(text: string): (r: string)
    ensures |r| <= PreviewLimit + |Ellipsis|
    ensures |text| <= PreviewLimit ==> r == text
    ensures |text| > PreviewLimit ==> |r| == PreviewLimit + |Ellipsis| && r[..PreviewLimit] == text[..PreviewLimit] && r[PreviewLimit..] == Ellipsis
  {
    if |text| > PreviewLimit then text[..PreviewLimit] + Ellipsis else text
  }

  /** Lines 39-42: the page count, and the pages' texts appended one after
      another with nothing between them. */
  method ReadPages(pages: seq<string>) returns (numPages: nat, text: string)
    ensures numPages == |pages|
    ensures text == Concat(pages)
  {
    numPages := |pages|;
    text := "";
    var i := 0;
    while i < |pages|
      invariant 0 <= i <= |pages|
      invariant text == Concat(pages[..i])
    {
      ConcatSnoc(pages[..i], pages[i]);
      assert pages[..i + 1] == pages[..i] + [pages[i]];
      text := text + pages[i];
      i := i + 1;
    }
    assert pages[..i] == pages;
  }

  /** The `results` object. */
  datatype ScanResult = ScanResult(numPages: nat, textPreview: string, outboundTransporter: Option<string>)

  /** The results for the pages' texts. */
  function Scan(pages: seq<string>): (r: ScanResult)
    ensures r.numPages == |pages|
    ensures |Concat(pages)| <= PreviewLimit ==> r.textPreview == Concat(pages)
    ensures |Concat(pages)| > PreviewLimit ==> r.textPreview == Concat(pages)[..PreviewLimit] + Ellipsis
    ensures r.outboundTransporter.None? <==> forall p :: 0 <= p < |Concat(pages)| ==> !OutboundAt(Concat(pages), p, false)
    ensures r.outboundTransporter.Some? ==>
              exists p :: 0 <= p < |Concat(pages)| && OutboundAt(Concat(pages), p, false)
                          && (forall q :: 0 <= q < p ==> !OutboundAt(Concat(pages), q, false))
                          && r.outboundTransporter.value == Trim(CaptureAt(Concat(pages), p, false))
    ensures pages == [] ==> r.outboundTransporter.None?
  {
    var text := Concat(pages);
    ScanResult(|pages|, Preview(text), ExtractOutboundTransporter(text))
  }

  /** What the client sent: whether there is a file part, its name, and
      the pages' texts or the message of the exception reading them
      raised. */
  datatype Request = Request(hasFile: bool, filename: string, pages: Result<seq<string>, string>)

  datatype Body = Results(result: ScanResult) | Error(message: string)

  datatype Response = Response(body: Body, status: int)

  /** `scan_pdf`, with the status of the exception path as a parameter. */
  function ScanPdfWith(req: Request, exceptionStatus: int): (r: Response)
    ensures !req.hasFile ==> r == Response(Error("No file part"), 400)
    ensures req.hasFile && req.filename == "" ==> r == Response(Error("No selected file"), 400)
    ensures r.body.Results? <==> req.hasFile && req.filename != "" && AllowedPdf(req.filename) && req.pages.Success?
    ensures r.body.Results? ==> r.status == 200 && r.body.result == Scan(req.pages.value)
    ensures req.hasFile && req.filename != "" && !AllowedPdf(req.filename) ==> r == Response(Error("Invalid file type"), 400)
  {
    if !req.hasFile then Response(Error("No file part"), 400)
    else if req.filename == "" then Response(Error("No selected file"), 400)
    else if AllowedPdf(req.filename) then
      match req.pages
      case Success(pages) => Response(Results(Scan(pages)), 200)
      case Failure(e) => Response(Error(e), exceptionStatus)
    else Response(Error("Invalid file type"), 400)
  }

  /** The endpoint as written: a failure while reading answers with status
      2500. */
  function ScanPdfAsWritten(req: Request): (r: Response)
    ensures (req.hasFile && req.filename != "" && AllowedPdf(req.filename) && req.pages.Failure?)
            ==> r == Response(Error(req.pages.error), 2500)
  {
    ScanPdfWith(req, 2500)
  }

  /** The endpoint with the evidently intended status 500. */
  function ScanPdf(req: Request): (r: Response)
    ensures r.status in {200, 400, 500}
    ensures r.body.Error? <==> r.status != 200
  {
    ScanPdfWith(req, 500)
  }

  predicate IsHttpStatus(code: int) {
    100 <= code <= 599
  }

  /** A manifest whose pages cannot be read gets status 2500, which is no
      HTTP status; the corrected endpoint answers 500 with the same body,
      and the two agree on every other request. */
  lemma ReadFailureStatus(req: Request)
    ensures var bad := req.hasFile && req.filename != "" && AllowedPdf(req.filename) && req.pages.Failure?;
      && (bad ==> !IsHttpStatus(ScanPdfAsWritten(req).status) && ScanPdf(req).status == 500)
      && ScanPdf(req).body == ScanPdfAsWritten(req).body
      && (!bad ==> ScanPdf(req) == ScanPdfAsWritten(req))
      && IsHttpStatus(ScanPdf(req).status)
  {
  }

  /** A concrete request that shows it: "m.pdf" whose reading fails. */
  lemma ReadFailureExample()
    ensures ScanPdfAsWritten(Request(true, "m.pdf", Failure("EOF marker not found"))).status == 2500
    ensures ScanPdf(Request(true, "m.pdf", Failure("EOF marker not found"))).status == 500
  {
    assert "m.pdf" == "m" + "." + "pdf";
    AllowedPdfSpec("m", "pdf");
  }
}
