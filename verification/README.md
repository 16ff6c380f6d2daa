# MorgoExcel manifest extraction, modelled in Dafny

MorgoExcel is a small web back end for a cannabis dispensary. Staff upload
METRC transport manifests (PDF) and spreadsheets. The back end reads
manifests in three ways, and this project models each of them:

- the builder `extract_data` (`backend/BuildComponent/PDFBuild.py`). It
  combines:
  - the OCR company locator (`OriginatingEntity.py`);
  - three driver-name readers: camelot tables, pdfplumber tables and
    Tesseract words (`Drivers.py`);
  - the package segmenter and field parser `extract_m_numbers`
    (`MNumber.py`);
- the older regex extractor `extract_data_from_pdf`
  (`backend/pdf_extractor.py`);
- the `/scan-pdf` endpoint (`backend/buildscan.py`).

The model also covers the pure parts of the spreadsheet service
(`backend/app.py`): the upload filter, the metric report's name, and the
download routing.

Every regular expression the code uses is written out as a deterministic
scanner over `string`. Whitespace, for `strip()` and for `\s` alike, is
the full set of characters Python's `str.isspace()` accepts
(`Text.IsSpace`). Next to each scanner, a comment records why Python's
backtracking reaches exactly that result: which greedy runs must
be taken whole, and where a lazy group stops. PDF parsing, OCR and table
detection are outside the model. What those libraries return is an input:

- page texts;
- OCR `Word` boxes;
- table cells;
- `None`, or a `Failure` holding the exception's message, when the library
  raised.

The modules are:

| module | file | models |
|---|---|---|
| `Wrappers`, `Text`, `Seqs`, `Policy`, `Ocr` | wrappers, text, seqs, policy, ocr `.dfy` | shared pieces: `Option`/`Result`, `str.strip`, `str.lower`, `str.replace`, `" ".join`, leftmost search, `dict.fromkeys` de-duplication, splitting at a look-ahead, `if/elif` keyword cascades, OCR word boxes |
| `MNumber` | mnumber.dfy | `extract_m_numbers` |
| `Drivers` | drivers.dfy | the three driver readers |
| `OriginatingEntity` | entity.dfy | `process_pdf` |
| `PDFBuild` | pdfbuild.dfy | `extract_data` |
| `LineCapture` | capture.dfy | the `\s*(.*?)\n` line capture and the `1. Outbound Transporter` header, shared by the two regex readers |
| `PdfExtractor` | legacy.dfy | `extract_data_from_pdf` |
| `Upload` | upload.dfy | `allowed_file` (both copies) |
| `BuildScan` | buildscan.dfy | `/scan-pdf` |
| `App` | app.dfy | `app.py`'s metric name and downloads |

Behaviours of the code, made explicit by the model:

- **Block splitting** (`MNumber.py:50`). `re.split` at a zero-width
  look-ahead cuts before every digit of a multi-digit item number. The
  first block is empty exactly when the text begins with a header.
- **Blank or unnumbered blocks.** A block that is blank, or that has no
  M-number, yields no record. The text before the first header is a block
  like any other.
- **Duplicate M-numbers.** Records are the parsed blocks, de-duplicated by
  M-number (first wins, order kept) and numbered from 1.
- **Empty driver line** (legacy extractor). A `Name of Person Transporting`
  line with no name on it swallows the following line as the name.
- **Last line** (legacy extractor). A last line that is not ended by a
  newline is never captured.
- **Page joining.** Both the legacy extractor and the scan endpoint join
  page texts with nothing between them.
- **Strain test** (legacy extractor). It is stated on `cell + " " +
  details`. None of the three words holds a space, so this equals the
  source's test on the two texts separately (`StrainSpec`).
- **Case.** The scan endpoint searches the transporter header
  case-sensitively; the legacy extractor ignores case. They agree whenever
  every header in any casing is at or after an exactly-cased one
  (`SensitiveFoundImpliesInsensitive`).
- **Short names.** camelot checks the name's length before removing badge
  numbers, so a cell holding only `CCE<digits>` yields an empty name.
  pdfplumber keeps names of three characters or fewer that camelot drops.

## Model

| member | source | states |
|---|---|---|
| MNumber.FindHeaderPage | backend/BuildComponent/MNumber.py:29-34 | the first page from `p` on whose text holds `PACKAGE [|] SHIPPED` in any case; none exactly when no page does |
| MNumber.StartPage | backend/BuildComponent/MNumber.py:28-39 | the 1-based header page, or 1 when no page has the header; every earlier page lacks it |
| MNumber.PageStream | backend/BuildComponent/MNumber.py:42-46 | the stream ends in a newline unless empty, and is empty exactly when every page is empty |
| MNumber.PageStreamSingle | backend/BuildComponent/MNumber.py:44-46 | one page contributes its text and a newline, or nothing when its text is empty |
| MNumber.PageStreamAppend | backend/BuildComponent/MNumber.py:43-46 | the stream of two runs of pages is the first run's stream followed by the second's |
| MNumber.BuildStream | backend/BuildComponent/MNumber.py:42-46 | the page loop builds exactly the stream: every non-empty page followed by a newline, in page order |
| MNumber.SplitBlocksPartition | backend/BuildComponent/MNumber.py:50 | the blocks concatenate back to the text; every later block starts at a header; no header lies inside a block; the first block is empty iff the text starts with a header |
| MNumber.FindMNumber | backend/BuildComponent/MNumber.py:67-71 | the twelve characters at the leftmost `M` followed by eleven digits; none exactly when there is no such position |
| MNumber.PackageId | backend/BuildComponent/MNumber.py:62-63 | "Unknown" exactly when no `1A` is followed by 19 alphanumerics; otherwise the greedy match at the leftmost such position |
| MNumber.PackageIdFrom | backend/BuildComponent/MNumber.py:62 | the greedy match at a match position: the slice of the text from there holding "1A" and 19 to 30 letters or digits, stopping only at 30 or at a character that is neither; never "Unknown" |
| MNumber.ItemDetails | backend/BuildComponent/MNumber.py:80-83 | none exactly when no `item details` tag (any case) occurs; otherwise the stripped text after the leftmost tag and its whitespace, up to the first place the look-ahead holds |
| MNumber.DetailsFrom | backend/BuildComponent/MNumber.py:80-83 | at a tag: the stripped slice from after the whitespace to the first position where `\nSource Harvest`, `\nSource Package`, `$` or a next header follows |
| MNumber.NameOf | backend/BuildComponent/MNumber.py:95-97 | matches exactly when the details start with `Brand:` or `Strain:` followed by a character other than `|`; the name is then the stripped text from after the label up to the next `|` or the end |
| MNumber.SupplyDays | backend/BuildComponent/MNumber.py:113-115 | none exactly when no `Supply: <n> day(s)` occurs (any case); otherwise the day count of the leftmost match |
| MNumber.DaysAt | backend/BuildComponent/MNumber.py:113-115 | the day count at a match is the whole run of digits right after `Supply:` and its whitespace |
| MNumber.LabelValue | backend/BuildComponent/MNumber.py:121-123 | none exactly when no tag (any case) is followed by a character other than `|`; otherwise the value after the leftmost such tag |
| MNumber.ValueFrom | backend/BuildComponent/MNumber.py:121-123 | the value after a tag is the stripped text up to the next `|` or the end, and holds no `|` |
| MNumber.NumericPrefix | backend/BuildComponent/MNumber.py:125 | a prefix of the value made of digits, a dot and digits, with maximal runs; none when the value holds no dot |
| MNumber.NumericPrefixFound | backend/BuildComponent/MNumber.py:125 | conversely, a value that starts with digits, a dot and a digit always yields a prefix that keeps that dot |
| MNumber.IntegerWeightNotFlower | backend/BuildComponent/MNumber.py:125-128 | a weight without a decimal point never makes a flower |
| MNumber.StrainPriority | backend/BuildComponent/MNumber.py:103-109 | strain is indica, then sativa, then hybrid, tested in the lower-cased details |
| MNumber.KeywordCategoryPriority | backend/BuildComponent/MNumber.py:135-144 | the fallback category's keyword priority: oil for oral, the topical words, edb oral, "vap " |
| MNumber.WeightCategoryPolicy | backend/BuildComponent/MNumber.py:120-161 | Flower with the `Wgt:` value exactly when that value starts with a listed decimal; otherwise the `Qty:` value (or "Not Specified") and the keyword category, whichever way `Wgt:` failed |
| MNumber.DetailFields | backend/BuildComponent/MNumber.py:88-161 | missing or empty details leave every sentinel in place; otherwise the name, strain, days, weight and category are those of `NameOf`, `StrainOf`, `SupplyDays` and `WeightAndCategory` on the details, with "Not Found" and "Not Specified" standing in for a missing name or day count |
| MNumber.NameNeedsLeadingLabel | backend/BuildComponent/MNumber.py:95-97 | details that do not begin with a tag give the name "Not Found" |
| MNumber.ParseBlock | backend/BuildComponent/MNumber.py:55-93 | no record exactly when the block is blank or has no M-number; otherwise the record carries the block's first M-number, its package id (`PackageId`), its item details (`ItemDetails`, or "Not Found") and the detail fields `DetailFields` reads from them |
| MNumber.ParsedMembers | backend/BuildComponent/MNumber.py:54-71 | every non-blank block with an M-number contributes its record |
| MNumber.CollectIsDedup | backend/BuildComponent/MNumber.py:54-77 | the block loop equals de-duplication by M-number of the parsed blocks, then numbering |
| MNumber.RecordsAreDedup | backend/BuildComponent/MNumber.py:54-173 | the record list is the numbered de-duplication, with the same M-numbers |
| MNumber.ExtractIndexed | backend/BuildComponent/MNumber.py:163-164 | `Index` runs 1..n in output order |
| MNumber.ExtractDistinct | backend/BuildComponent/MNumber.py:74-77 | output M-numbers are pairwise distinct |
| MNumber.ExtractFirstWins | backend/BuildComponent/MNumber.py:74-77 | each record is the one built from the first block carrying its M-number |
| MNumber.ExtractOrdered | backend/BuildComponent/MNumber.py:54-77 | records follow the order of the first blocks carrying their M-numbers |
| MNumber.ExtractComplete | backend/BuildComponent/MNumber.py:74-77 | every parsed block's M-number appears in the output |
| Seqs.DedupSpec | backend/BuildComponent/PDFBuild.py:51 | `dict.fromkeys` keeps each element once, keeps exactly the elements present, in order of first appearance |
| Seqs.SplitBeforePartition | backend/BuildComponent/MNumber.py:50 | splitting before every cut position partitions the text; only the first piece can be empty, and it is empty exactly when the text begins at a cut |
| Drivers.StripIdsWithoutBadges | backend/BuildComponent/Drivers.py:30 | without a `CCE` the substitution is plain removal of the employee label |
| Drivers.StripIdsDropsBadge | backend/BuildComponent/Drivers.py:30 | a `CCE` badge goes with its whole digit run |
| Drivers.CleanName | backend/BuildComponent/Drivers.py:30 | the cleaned name is stripped, and empty exactly when only whitespace is left after the substitution |
| Drivers.CamelotHitsFrom | backend/BuildComponent/Drivers.py:25-29 | the columns scanned are all anchor cells whose neighbour, stripped, is longer than three characters |
| Drivers.CamelotHitFound | backend/BuildComponent/Drivers.py:25-31 | every such column is scanned |
| Drivers.CamelotRowMembers | backend/BuildComponent/Drivers.py:24-31 | a name comes from a row exactly when some anchor cell of the row yields it |
| Drivers.CamelotNamesMembers | backend/BuildComponent/Drivers.py:19-33 | camelot's names are exactly the names yielded by anchor cells of rows of its tables |
| Drivers.FirstAnchorFrom | backend/BuildComponent/Drivers.py:56 | `next(...)`: the first anchor cell from `j`; none exactly when there is none |
| Drivers.PlumberRowName | backend/BuildComponent/Drivers.py:55-60 | a row yields a name exactly when its first anchor cell has a non-empty neighbour, and then the cleaned neighbour |
| Drivers.PlumberNamesMembers | backend/BuildComponent/Drivers.py:49-60 | pdfplumber's names are exactly the names of rows of tables on the first two pages |
| Drivers.TableReadersCompared | backend/BuildComponent/Drivers.py:26-60 | on a row with one anchor cell the readers agree for names longer than three characters; for shorter ones camelot drops the name and pdfplumber keeps any non-empty cell |
| Drivers.BadgeOnlyNameIsEmpty | backend/BuildComponent/Drivers.py:28-60 | a name cell holding only a badge number yields the empty name in both table readers |
| Drivers.OcrNames | backend/BuildComponent/Drivers.py:76-119 | a page past the end or a raised exception yields no names; a readable page yields the names of its word scan (`OcrFrom`) |
| Drivers.BandMembers | backend/BuildComponent/Drivers.py:112-114 | a word is in an anchor's band list exactly when some later word in the band reads it |
| Drivers.OcrMembers | backend/BuildComponent/Drivers.py:108-114 | OCR names are exactly the words right of an earlier anchor word and on its line |
| Drivers.BandScan | backend/BuildComponent/Drivers.py:112-114 | the inner loop computes the anchor's band |
| Drivers.OcrScan | backend/BuildComponent/Drivers.py:106-116 | the nested loops compute the reference list of names |
| OriginatingEntity.Classify | backend/BuildComponent/OriginatingEntity.py:43-47 | "originating" is tested before "entity" |
| OriginatingEntity.Locate | backend/BuildComponent/OriginatingEntity.py:42-48 | the scan stops at an "entity" word, and from an empty start the originating word it pairs with lies one or two words before it |
| OriginatingEntity.LocateFindsFirstStop | backend/BuildComponent/OriginatingEntity.py:40-48 | the scan returns the first entity word that has an originating word at most two words back, paired with the last such originating word; nothing exactly when there is no such word |
| OriginatingEntity.LocatedIffStop | backend/BuildComponent/OriginatingEntity.py:40-51 | the label is located exactly when some word ends the scan |
| OriginatingEntity.Band | backend/BuildComponent/OriginatingEntity.py:62-65 | the words kept are exactly those right of the edge and less than 15 pixels from the row's top |
| OriginatingEntity.BandAppend | backend/BuildComponent/OriginatingEntity.py:62-65 | the band keeps reading order: the band of `a + b` is the band of `a` followed by the band of `b` |
| OriginatingEntity.BandSingle | backend/BuildComponent/OriginatingEntity.py:63-65 | a single word is kept exactly when it lies in the band |
| OriginatingEntity.BandWords | backend/BuildComponent/OriginatingEntity.py:54-65 | the band measured from the entity word's right edge and the originating word's top; its words are exactly the page's words in that band |
| OriginatingEntity.CleanCompany | backend/BuildComponent/OriginatingEntity.py:69-75 | the cleaned text is no longer than the joined words and holds no bracket |
| OriginatingEntity.CleanCompanyStrips | backend/BuildComponent/OriginatingEntity.py:69-75 | a text holding none of the five removed literals is only stripped |
| OriginatingEntity.CleanCompanyDropsLlc | backend/BuildComponent/OriginatingEntity.py:69-75 | a name followed by ", LLC" cleans to the stripped name: the "LLC" and the ", " are both removed |
| OriginatingEntity.CleanCompanyDropsAgencyNote | backend/BuildComponent/OriginatingEntity.py:69-75 | a name followed by " For Agency Use Only" cleans to the stripped name, when the name does not end with a comma |
| OriginatingEntity.CleanCompanyOrder | backend/BuildComponent/OriginatingEntity.py:69-75 | the removals run in order: "L[LC" becomes "LLC", since dropping the bracket forms an "LLC" the earlier removal has passed |
| OriginatingEntity.CompanyNear | backend/BuildComponent/OriginatingEntity.py:68-78 | the cleaned band text when it is non-empty, and "No company name found" exactly when it is empty (an empty band included) |
| OriginatingEntity.CompanyFromWords | backend/BuildComponent/OriginatingEntity.py:40-78 | "Could not locate 'Originating Entity'" when the scan fails; otherwise the company read near the pair of words the scan found; never empty and never a bracket |
| OriginatingEntity.ProcessPdf | backend/BuildComponent/OriginatingEntity.py:18-37 | a missing file gives "PDF file not found: <path>"; a raised exception propagates; otherwise the answer is the company read from the recognised words |
| PDFBuild.ToItem | backend/BuildComponent/PDFBuild.py:56-69 | each item field comes from its record field, with item number and M-number both the record's M-number |
| PDFBuild.Items | backend/BuildComponent/PDFBuild.py:55-69 | one item per record, in order |
| PDFBuild.CompanyField | backend/BuildComponent/PDFBuild.py:40 | "Not Found" exactly when the locator could not locate the label (or answered "Not Found"); every other answer passes through unchanged |
| PDFBuild.ExtractData | backend/BuildComponent/PDFBuild.py:26-75 | a missing file gives only the error; an exception from the locator empties the fields and sets the error; otherwise the company field is the locator's answer with "could not locate" read as "Not Found", and the drivers and items fields are those of the readers |
| PDFBuild.CompanyNotLocated | backend/BuildComponent/PDFBuild.py:39-40 | an unlocated label reads "Not Found" |
| PDFBuild.DriversFieldSpec | backend/BuildComponent/PDFBuild.py:43-52 | every reported name once, in order of first appearance, joined by " / "; "Not Found" only when no name was reported or the one distinct name is "Not Found" |
| PDFBuild.DriversFieldEmpty | backend/BuildComponent/PDFBuild.py:51-52 | the field is empty exactly when every reported name is empty |
| PDFBuild.ItemsDistinct | backend/BuildComponent/PDFBuild.py:55-69 | item M-numbers are pairwise distinct |
| LineCapture.LineAfter | backend/pdf_extractor.py:15 | `\s*(.*?)\n` matches exactly when a newline follows; the group holds no newline; it starts right after the whole whitespace run when a newline follows that run, and is otherwise empty at the last newline of the run |
| LineCapture.FirstOutbound | backend/pdf_extractor.py:11 | the leftmost transporter header; none exactly when there is none |
| LineCapture.OutboundTransporter | backend/pdf_extractor.py:11-12 | nothing exactly when the header pattern matches nowhere; otherwise the group of the leftmost match, one line |
| LineCapture.TransporterAt | backend/pdf_extractor.py:11-12 | a leftmost match at `p` gives the group captured at `p` |
| LineCapture.CaseSearchesAgree | backend/buildscan.py:17-18 | when the first exactly-cased header is at `p` and no header in any casing comes before it, both searches give the group at `p` |
| LineCapture.SensitiveFoundImpliesInsensitive | backend/buildscan.py:17-18 | a case-sensitive hit implies a case-insensitive one; the results coincide whenever every header in any casing is at or after an exactly-cased one |
| PdfExtractor.Company | backend/pdf_extractor.py:11-12 | "Not found" when no header matches in any casing; otherwise the group of the leftmost case-insensitive match |
| PdfExtractor.NextDriverIffMatch | backend/pdf_extractor.py:15 | the scan finds a driver exactly when the driver pattern matches from there on |
| PdfExtractor.DriverCaptures | backend/pdf_extractor.py:15 | `findall` resuming after each match; every capture is one line |
| PdfExtractor.DriverCapturesFirst | backend/pdf_extractor.py:15 | the captures from `i` begin with the group of the first driver match at or after `i` and continue behind the newline that ended it |
| PdfExtractor.NextDriverFirst | backend/pdf_extractor.py:15 | the scan from `i` stops at the first driver match at or after `i`, with its group and the position behind its newline |
| PdfExtractor.LabelBeforeDriver | backend/pdf_extractor.py:15 | a label before a driver match is itself a match |
| PdfExtractor.NoCapturesIffNoDriver | backend/pdf_extractor.py:15-16 | no captures exactly when the pattern matches nowhere |
| PdfExtractor.Drivers | backend/pdf_extractor.py:15-16 | "Not found" when the pattern matches nowhere; otherwise every capture of `findall`, in order, joined with " / " |
| PdfExtractor.DriversRoundTrip | backend/pdf_extractor.py:15 | text written as driver lines reads back as exactly its names, in order |
| PdfExtractor.DriverLineRead | backend/pdf_extractor.py:15 | a driver line is read back as its name, and the search resumes after it |
| PdfExtractor.ItemHeader | backend/pdf_extractor.py:19 | a header match is a digit run, a dot and the rest of the header, within the text |
| PdfExtractor.MatchTokens | backend/pdf_extractor.py:19 | the literal and `\s*` tokens matched in turn; a leading literal is consumed |
| PdfExtractor.NextHeader | backend/pdf_extractor.py:19 | the first header from `from`; none exactly when there is none |
| PdfExtractor.Spans | backend/pdf_extractor.py:19 | no item exactly when no header follows; the first item starts at the first header |
| PdfExtractor.SpansMatch | backend/pdf_extractor.py:19 | each item starts at a header, and no header lies inside its text |
| PdfExtractor.ItemSpans | backend/pdf_extractor.py:19 | items are ordered, well-formed and adjacent, the last ending at the end of the text |
| PdfExtractor.ItemSpansAreMatches | backend/pdf_extractor.py:19 | each item is the header match at its start; the lazy text stops at the next header or the end; no item exactly when no header |
| PdfExtractor.ItemsTileText | backend/pdf_extractor.py:19 | the items' texts concatenate to the text from the first header on |
| PdfExtractor.PackageId | backend/pdf_extractor.py:23-27 | "Not found" exactly when no digit-A-digit occurs; otherwise the slice at the leftmost one, digit run taken whole |
| PdfExtractor.MNumberMatch | backend/pdf_extractor.py:24 | none exactly when no `M` + 11 digits + `:` occurs; otherwise the match at the leftmost one; the cell holds no `(` |
| PdfExtractor.MatchAt | backend/pdf_extractor.py:24 | the number is the twelve characters at the match; the cell is the slice after the colon and its whitespace up to the first position where `\s*\(` or `$` holds |
| PdfExtractor.CellEnd | backend/pdf_extractor.py:24 | the lazy cell group stops at the first position where the closing group holds, and before any `(` |
| PdfExtractor.Details | backend/pdf_extractor.py:25-28 | "Not found" exactly when no tag occurs; otherwise the line from the leftmost tag |
| PdfExtractor.DetailsLine | backend/pdf_extractor.py:25-28 | from a tag, the slice of the text up to the next newline or the end |
| PdfExtractor.NameIsByDash | backend/pdf_extractor.py:33-35 | the name is the stripped text between the first usable dash and the next `-` or `|`, whichever alternative matched |
| PdfExtractor.Days | backend/pdf_extractor.py:57-58 | "Not found" exactly when no `Supply:` is followed by digits; otherwise the digits of the leftmost such match |
| PdfExtractor.SupplyDigits | backend/pdf_extractor.py:57-58 | at a match, the whole digit run after `Supply:` and its whitespace |
| PdfExtractor.WeightIn | backend/pdf_extractor.py:60-63 | the first of the four gram values in list order that occurs; "Not found" exactly when none does |
| PdfExtractor.StrainSpec | backend/pdf_extractor.py:37-45 | the strain is Indica, then Sativa, then Hybrid, found in the cell or the details |
| PdfExtractor.FlowerIffWeighed | backend/pdf_extractor.py:47-63 | on the same text the type is Flower exactly when the weight test finds a gram value |
| PdfExtractor.Parse | backend/pdf_extractor.py:22-58 | the item keeps its number; package id and days are those of the item text and its details; with an M-number match, name, strain and combined text come from the stripped cell; without one, name and strain are "Not found" |
| PdfExtractor.ParsedItems | backend/pdf_extractor.py:19-22 | one parsed item per item match, parsed from that match's number and text |
| PdfExtractor.ParseSpans | backend/pdf_extractor.py:19-22 | each span is parsed from its own number and item text, in span order |
| PdfExtractor.ItemsAsWritten | backend/pdf_extractor.py:47-74 | the loop as written: the weight test reads whatever `combined_text` was set last |
| PdfExtractor.AsWrittenRaises | backend/pdf_extractor.py:47-61 | the loop as written raises exactly when the first item has no M-number |
| PdfExtractor.StaleWeight | backend/pdf_extractor.py:47-63 | an item without an M-number gets the previous item's weight as written, and none when corrected |
| PdfExtractor.ItemCorrected | backend/pdf_extractor.py:47-63 | corrected: only the weight changes; an item without an M-number has no weight; Flower exactly when weighed |
| PdfExtractor.AsWrittenAgrees | backend/pdf_extractor.py:22-74 | when every item has an M-number, the loop as written and the corrected one agree |
| PdfExtractor.Extract | backend/pdf_extractor.py:4-76 | the company and drivers are those of `Company` and `Drivers` on the joined pages; one item per header match, each the corrected parse of its span; type Flower exactly when weighed; no weight without an M-number |
| PdfExtractor.ExtractAgrees | backend/pdf_extractor.py:4-76 | the extractor as written and the corrected one agree when every item has an M-number |
| Upload.Extension | backend/buildscan.py:13 | none exactly when the name has no dot; otherwise the dot-free text after the last dot |
| Upload.AllowedIffLastSegment | backend/buildscan.py:12-13 | accepted exactly when the lower-cased last segment is allowed |
| Upload.DotRequired | backend/app.py:36-37 | a name without a dot is refused; a name ending in a dot has the empty extension |
| Upload.CaseIgnored | backend/app.py:36-37 | lower-casing the name does not change the verdict |
| App.AllowedSheetSpec | backend/app.py:24-37 | a sheet is accepted exactly when its extension is csv or xlsx in any case |
| App.MetricNameAsWritten | backend/app.py:85 | `filename[:-4]`: four characters dropped whatever the extension |
| App.MetricNameKeepsDotOnFourLetters | backend/app.py:85 | on a four-letter extension the dot stays and differs from the corrected name |
| App.MetricNamesAgreeOnThreeLetters | backend/app.py:85 | on a three-letter extension the name as written and the corrected one agree |
| App.MetricNameExample | backend/app.py:85 | "a.xlsx" becomes "METRIC-a..xlsx" as written and "METRIC-a.xlsx" corrected |
| App.MetricNameSpec | backend/app.py:85 | corrected: `<stem>.<ext>` becomes `METRIC-<stem>.xlsx` |
| App.DownloadFile | backend/app.py:124-135 | sent exactly for the four folder names, keeping the file name; otherwise "Invalid folder" with 400 |
| App.DownloadMatchesTable | backend/app.py:124-135 | the chain of tests is the folder table |
| BuildScan.AllowedPdfSpec | backend/buildscan.py:10-13 | a name is accepted exactly when its extension is pdf in any case |
| BuildScan.ExtractOutboundTransporter | backend/buildscan.py:15-19 | none exactly when the case-sensitive pattern matches nowhere; otherwise the stripped group of the leftmost match |
| BuildScan.ScanAgreesWithLegacyCompany | backend/buildscan.py:15-19 | the scan's transporter is the legacy extractor's company, stripped, whenever every header in any casing is at or after an exactly-cased one; both report none when no header matches |
| BuildScan.Preview | backend/buildscan.py:51 | the text when it has at most 2500 characters, else its first 2500 and "..." |
| BuildScan.ReadPages | backend/buildscan.py:38-42 | the page count and the pages appended with nothing between them |
| BuildScan.Scan | backend/buildscan.py:44-54 | the page count; the text or its first 2500 characters and "..." as preview; the stripped group of the leftmost case-sensitive header, none exactly when there is none |
| BuildScan.ScanPdfWith | backend/buildscan.py:22-59 | the 400 answers for a missing part, an empty name and a wrong type; results with 200 exactly for an accepted, readable file |
| BuildScan.ScanPdfAsWritten | backend/buildscan.py:56-57 | a read failure is answered with status 2500 |
| BuildScan.ScanPdf | backend/buildscan.py:22-59 | corrected: every answer is 200, 400 or 500, and an error exactly when not 200 |
| BuildScan.ReadFailureStatus | backend/buildscan.py:56-57 | 2500 is no HTTP status; the corrected endpoint answers 500 with the same body and agrees everywhere else |
| BuildScan.ReadFailureExample | backend/buildscan.py:56-57 | a failing "m.pdf" gets 2500 as written and 500 corrected |

## Left out

- Reading PDFs, rendering pages and running Tesseract, camelot and pdfplumber. These are library calls; their results are inputs to the model.
- File-system effects: `os.path.exists`, saving uploads, `os.remove`, temporary images. File existence is a boolean input.
- Logging, and the warning filter in `PDFBuild.py`.
- The `try/except` inside `extract_m_numbers`'s block loop. Every step of a block is modelled as total, so no exception can occur there.
- `secure_filename`. The model applies the name checks to the name the client sent.
- Flask routing and JSON encoding. Responses are modelled as a body and a status.
- The morning, weekly and dutchie upload endpoints. They call spreadsheet processors outside this model, and they return nothing (a Flask 500) for a refused extension.
- The dutchie output name. It depends on today's date and on which file exists.
- Unicode case folding. `lower()`, `\d` and `re.IGNORECASE` are modelled on ASCII letters and digits only.
- PDFBuild.ExtractData: does not model an exception raised by the driver readers or the package extractor after the company was found. Each of those catches its own exceptions and returns an empty list.

## Findings

| source | as written | input that shows it | evidently intended | confidence | as-written member | corrected member |
|---|---|---|---|---|---|---|
| backend/pdf_extractor.py:49-61 | the weight test reads `combined_text`, which only an item with an M-number sets | a first item without an M-number raises `UnboundLocalError`; a later one gets the previous item's weight ("2.83") | an item without an M-number gets no weight | not executed | PdfExtractor.ItemsAsWritten, PdfExtractor.AsWrittenRaises, PdfExtractor.StaleWeight | PdfExtractor.ItemCorrected, PdfExtractor.Extract |
| backend/buildscan.py:57 | a read failure is answered with status 2500 | an accepted "m.pdf" whose reading raises | status 500 | not executed | BuildScan.ScanPdfAsWritten, BuildScan.ReadFailureExample | BuildScan.ScanPdf, BuildScan.ReadFailureStatus |
| backend/app.py:85 | `filename[:-4]` cuts four characters whatever the extension | "a.xlsx" gives "METRIC-a..xlsx" | "METRIC-a.xlsx" | not executed | App.MetricNameAsWritten, App.MetricNameExample | App.MetricName, App.MetricNameSpec |
