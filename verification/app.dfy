/** The pure parts of the spreadsheet web service: the upload filter, the
    name of the converted metric report, and the routing of downloads to
    the folders where finished reports are written.
 */
module App {
  import opened Text
  import Upload

  const AllowedExtensions: set<string> := {"csv", "xlsx"}

  /** `allowed_file` of the spreadsheet endpoints. */
  predicate AllowedSheet(name: string) {
    Upload.AllowedFile(name, AllowedExtensions)
  }

  /** A sheet name is accepted exactly when its last segment is "csv" or
      "xlsx" in any casing; a name ending in a dot is refused. */
  lemma AllowedSheetSpec(stem: string, ext: string)
    requires Upload.NoDot(ext)
    ensures AllowedSheet(stem + "." + ext) <==> Lower(ext) == "csv" || Lower(ext) == "xlsx"
    ensures !AllowedSheet(stem + ".")
  {
    Upload.AllowedIffLastSegment(stem, ext, AllowedExtensions);
    assert stem + "." == stem + "." + "";
    Upload.AllowedIffLastSegment(stem, "", AllowedExtensions);
  }

  // ---------------------------------------------------------------------
  // The metric report's name
  // ---------------------------------------------------------------------

  const MetricPrefix := "METRIC-"
  const MetricSuffix := ".xlsx"

  /** Python's `s[:-n]`: all but the last `n` characters, or nothing when
      there are no more than `n`. */
  function DropLast(s: string, n: nat): (r: string)
    ensures |s| <= n ==> r == []
    ensures |s| > n ==> |r| == |s| - n && s == r + s[|s| - n..]
  {
    if |s| <= n then [] else s[..|s| - n]
  }

  /** Line 85 as written: the last four characters are cut off, whatever
      the extension is. */
  function MetricNameAsWritten(filename: string): (r: string)
    ensures |r| == |MetricPrefix| + |MetricSuffix| + (if |filename| <= 4 then 0 else |filename| - 4)
  {
    MetricPrefix + DropLast(filename, 4) + MetricSuffix
  }

  /** The name without its last extension (`os.path.splitext`'s first
      part for names whose stem has no leading dot). */
  function Stem(name: string): (r: string)
    ensures Upload.NoDot(name) ==> r == name
    ensures !Upload.NoDot(name) ==> |r| < |name| && name[|r|] == '.' && Upload.NoDot(name[|r| + 1..])
  {
    match Upload.Extension(name)
    case None => name
    case Some(e) => name[..|name| - |e| - 1]
  }

  /** The report name with the whole extension replaced by ".xlsx". */
  function MetricName(filename: string): (r: string)
    ensures |r| >= |MetricPrefix| + |MetricSuffix|
    ensures r[..|MetricPrefix|] == MetricPrefix
    ensures r[|r| - |MetricSuffix|..] == MetricSuffix
  {
    MetricPrefix + Stem(filename) + MetricSuffix
  }

  /** For `<stem>.<ext>` the corrected name is `METRIC-<stem>.xlsx`, for
      either accepted extension. */
  lemma MetricNameSpec(stem: string, ext: string)
    requires Upload.NoDot(ext)
    ensures MetricName(stem + "." + ext) == MetricPrefix + stem + MetricSuffix
  {
    Upload.ExtensionOfJoin(stem, ext);
    assert (stem + "." + ext)[..|stem|] == stem;
  }

  /** Cutting four characters strips ".csv" (and any other three-letter
      extension) exactly, so on such names the two agree. */
  lemma MetricNamesAgreeOnThreeLetters(stem: string, ext: string)
    requires Upload.NoDot(ext) && |ext| == 3
    ensures MetricNameAsWritten(stem + "." + ext) == MetricName(stem + "." + ext)
  {
    MetricNameSpec(stem, ext);
    assert DropLast(stem + "." + ext, 4) == stem;
  }

  /** On a four-letter extension such as "xlsx" the dot stays in, and the
      name as written ends in "..xlsx". */
  lemma MetricNameKeepsDotOnFourLetters(stem: string, ext: string)
    requires Upload.NoDot(ext) && |ext| == 4
    ensures MetricNameAsWritten(stem + "." + ext) == MetricPrefix + stem + "." + MetricSuffix
    ensures MetricNameAsWritten(stem + "." + ext) != MetricName(stem + "." + ext)
  {
    MetricNameSpec(stem, ext);
    assert DropLast(stem + "." + ext, 4) == stem + ".";
    var w := MetricNameAsWritten(stem + "." + ext);
    assert |w| == |MetricName(stem + "." + ext)| + 1;
  }

  /** The upload "a.xlsx" is converted into "METRIC-a..xlsx". */
  lemma MetricNameExample()
    ensures MetricNameAsWritten("a.xlsx") == "METRIC-a..xlsx"
    ensures MetricName("a.xlsx") == "METRIC-a.xlsx"
  {
    assert "a.xlsx" == "a" + "." + "xlsx";
    MetricNameKeepsDotOnFourLetters("a", "xlsx");
    MetricNameSpec("a", "xlsx");
  }

  // ---------------------------------------------------------------------
  // Downloads
  // ---------------------------------------------------------------------

  const MorningComplete := "MORNINGCOMPLETE"
  const WeeklyComplete := "WEEKLYCOMPLETE"
  const MetricComplete := "METRIC-OUT"
  const DutchieComplete := "DUTCHIE-OUT"

  /** The folders a download may name, and where each one's files live. */
  const CompleteFolders: map<string, string> := map[
    "morning" := MorningComplete,
    "weekly" := WeeklyComplete,
    "metric" := MetricComplete,
    "dutchie" := DutchieComplete
  ]

  /** A file sent from a directory, or an error body with its status. */
  datatype Download = SendFile(directory: string, filename: string) | Refused(message: string, status: int)

  /** `download_file`. */
  function DownloadFile(folder: string, filename: string): (r: Download)
    ensures r.SendFile? <==> folder in {"morning", "weekly", "metric", "dutchie"}
    ensures r.SendFile? ==> r.filename == filename
    ensures r.Refused? ==> r == Refused("Invalid folder", 400)
  {
    if folder == "morning" then SendFile(MorningComplete, filename)
    else if folder == "weekly" then SendFile(WeeklyComplete, filename)
    else if folder == "metric" then SendFile(MetricComplete, filename)
    else if folder == "dutchie" then SendFile(DutchieComplete, filename)
    else Refused("Invalid folder", 400)
  }

  /** The chain of tests is the table: each folder name is sent from its
      own directory, and every other name is refused. */
  lemma DownloadMatchesTable(folder: string, filename: string)
    ensures DownloadFile(folder, filename)
            == if folder in CompleteFolders then SendFile(CompleteFolders[folder], filename)
               else Refused("Invalid folder", 400)
  {
  }
}
