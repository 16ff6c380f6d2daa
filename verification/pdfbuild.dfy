/** The builder that turns one manifest PDF into the record the scanning
    screen shows: the shipping company, the drivers, and one item per
    package. It calls the company locator, the three driver readers (OCR on
    pages 0 and 1) and the package extractor, and wraps them in one error
    handler. What each library reports about the file is gathered in a
    `Document`.
 */
module PDFBuild {
  import opened Wrappers
  import opened Text
  import opened Seqs
  import opened Ocr
  import MNumber
  import Drivers
  import OriginatingEntity

  /** What the libraries report about one PDF file. */
  datatype Document = Document(
    fileExists: bool,
    path: string,
    /** The first page's OCR words for the company locator, or the message
        of the exception it raised. */
    entityWords: Result<seq<Word>, string>,
    camelotTables: Option<seq<Drivers.Table>>,
    plumberPages: Option<seq<Drivers.CellPage>>,
    pageCount: nat,
    /** OCR words of pages 0 and 1 for the driver reader. */
    driverWords0: Option<seq<Word>>,
    driverWords1: Option<seq<Word>>,
    /** The text of every page for the package extractor, or `None` when
        the file could not be opened. */
    pageTexts: Option<seq<string>>)

  /** One row of the items table. */
  datatype Item = Item(
    itemNumber: string,
    packageId: string,
    mNumber: string,
    name: string,
    itemType: string,
    strain: string,
    days: string,
    weight: string,
    itemDetails: string)

  /** The dictionary `extract_data` returns; `error` is the optional
      "error" key. */
  datatype Outcome = Outcome(company: string, drivers: string, items: seq<Item>, error: Option<string>)

  const DriversNotFound := "Not Found"
  const CompanyNotFound := "Not Found"
  const DriverSeparator := " / "
  const ErrorPrefix := "Error processing PDF: "

  function ToItem(r: MNumber.PackageRecord): (it: Item)
    ensures it.itemNumber == it.mNumber == r.mNumber
    ensures it.packageId == r.packageId && it.name == r.name && it.itemDetails == r.itemDetails
    ensures it.itemType == MNumber.CategoryName(r.category) && it.strain == MNumber.StrainName(r.strain)
    ensures it.days == r.days && it.weight == r.weight
  {
    Item(r.mNumber, r.packageId, r.mNumber, r.name, MNumber.CategoryName(r.category),
         MNumber.StrainName(r.strain), r.days, r.weight, r.itemDetails)
  }

  function Items(doc: Document): (items: seq<Item>)
    ensures var rs := MNumber.ExtractMNumbers(doc.pageTexts);
      |items| == |rs| && forall k :: 0 <= k < |rs| ==> items[k] == ToItem(rs[k])
  {
    var rs := MNumber.ExtractMNumbers(doc.pageTexts);
    seq(|rs|, k requires 0 <= k < |rs| => ToItem(rs[k]))
  }

  /** Every name the readers report, in the order they run. */
  function DriverNames(doc: Document): (r: seq<string>) {
    Drivers.CamelotNames(doc.camelotTables)
      + Drivers.PlumberNames(doc.plumberPages)
      + Drivers.OcrNames(doc.pageCount, 0, doc.driverWords0)
      + Drivers.OcrNames(doc.pageCount, 1, doc.driverWords1)
  }

  /** The drivers field: the distinct names in order of first appearance,
      joined with " / ", or "Not Found" when there are none. */
  function DriversField(names: seq<string>): (r: string) {
    var unique := Dedup(names);
    if |unique| == 0 then DriversNotFound else Join(unique, DriverSeparator)
  }

  /** The company field: the locator's answer, with its "could not
      locate" message replaced by "Not Found". */
  function CompanyField(c: string): (r: string)
    requires forall k :: 0 <= k < |c| ==> c[k] != '[' && c[k] != ']'
    requires c != []
    ensures r != []
    ensures forall k :: 0 <= k < |r| ==> r[k] != '[' && r[k] != ']'
    ensures r == CompanyNotFound <==> c == OriginatingEntity.NotLocated || c == CompanyNotFound
    ensures c != OriginatingEntity.NotLocated ==> r == c
  {
    if c == OriginatingEntity.NotLocated then CompanyNotFound else c
  }

  /** `extract_data`. */
  function ExtractData(doc: Document): (r: Outcome)
    ensures !doc.fileExists ==> r == Outcome("", "", [], Some(OriginatingEntity.NotFoundPrefix + doc.path))
    ensures r.error.Some? ==> r.company == "" && r.drivers == "" && r.items == []
    ensures r.error.None? ==> r.company != []
    ensures r.error.None? ==> forall k :: 0 <= k < |r.company| ==> r.company[k] != '[' && r.company[k] != ']'
    ensures doc.fileExists && doc.entityWords.Failure? ==> r.error == Some(ErrorPrefix + doc.entityWords.error)
    ensures doc.fileExists && doc.entityWords.Success? ==>
              r.error.None? && r.drivers == DriversField(DriverNames(doc)) && r.items == Items(doc)
    ensures doc.fileExists && doc.entityWords.Success? ==>
              r.company == CompanyField(OriginatingEntity.CompanyFromWords(doc.entityWords.value))
  {
    if !doc.fileExists then Outcome("", "", [], Some(OriginatingEntity.NotFoundPrefix + doc.path))
    else match OriginatingEntity.ProcessPdf(true, doc.path, doc.entityWords)
      case Failure(e) => Outcome("", "", [], Some(ErrorPrefix + e))
      case Success(c) => Outcome(CompanyField(c), DriversField(DriverNames(doc)), Items(doc), None)
  }

  /** When the label is not located, the company reads "Not Found". */
  lemma CompanyNotLocated(doc: Document)
    requires doc.fileExists && doc.entityWords.Success?
    requires OriginatingEntity.Locate(OriginatingEntity.Marks(doc.entityWords.value), 0, None).None?
    ensures ExtractData(doc).company == CompanyNotFound
  {
  }

  /** The drivers field lists every reported name exactly once, in order of
      first appearance, and reads "Not Found" only when no reader reported
      a name or the one distinct name is "Not Found" itself. */
  lemma DriversFieldSpec(names: seq<string>)
    ensures names == [] ==> DriversField(names) == DriversNotFound
    ensures names != [] ==> DriversField(names) == Join(Dedup(names), DriverSeparator)
    ensures NoDup(Dedup(names)) && forall n :: n in Dedup(names) <==> n in names
    ensures DriversField(names) == DriversNotFound ==> names == [] || Dedup(names) == [DriversNotFound]
  {
    DedupSpec(names);
    if names != [] {
      assert names[0] in Dedup(names);
    }
    var u := Dedup(names);
    if |u| >= 2 {
      var j := Join(u, DriverSeparator);
      assert j[|u[0]|..|u[0]| + 3] == " / ";
      assert j[|u[0]| + 1] == '/';
      assert forall k :: 0 <= k < |DriversNotFound| ==> DriversNotFound[k] != '/';
    }
  }

  lemma FirstTwoDiffer(u: seq<string>)
    requires NoDup(u) && |u| >= 2
    ensures u[0] != u[1]
  {
  }

  /** The drivers field is empty exactly when every reported name is
      empty (and there is at least one). */
  lemma DriversFieldEmpty(names: seq<string>)
    ensures DriversField(names) == "" <==> names != [] && forall k :: 0 <= k < |names| ==> names[k] == ""
  {
    DedupSpec(names);
    var u := Dedup(names);
    if names != [] && forall k :: 0 <= k < |names| ==> names[k] == "" {
      assert names[0] in u;
      assert forall i :: 0 <= i < |u| ==> u[i] == "" by {
        forall i | 0 <= i < |u| ensures u[i] == "" {
          assert u[i] in names;
        }
      }
      if |u| >= 2 {
        FirstTwoDiffer(u);
      }
      assert u == [""];
    }
    if DriversField(names) == "" {
      assert names != [];
      assert names[0] in u;
      assert |u| == 1;
      forall k | 0 <= k < |names| ensures names[k] == "" {
        assert names[k] in u;
      }
    }
  }

  /** The items are the extractor's records in order, and their M-numbers
      are pairwise distinct. */
  lemma ItemsDistinct(doc: Document)
    ensures var items := Items(doc);
      forall i, j :: 0 <= i < j < |items| ==> items[i].mNumber != items[j].mNumber
  {
    match doc.pageTexts
    case None =>
    case Some(pages) =>
      var blocks := MNumber.Blocks(pages);
      MNumber.ExtractDistinct(blocks);
      var rs := MNumber.RecordsOf(blocks);
      var ks := Keys(rs, MNumber.MNumberOf);
      forall i, j | 0 <= i < j < |rs|
        ensures rs[i].mNumber != rs[j].mNumber
      {
        assert ks[i] == rs[i].mNumber && ks[j] == rs[j].mNumber;
      }
  }
}
