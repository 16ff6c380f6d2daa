/** The manifest segmenter and field parser (`extract_m_numbers`).
    The PDF is given as the list of its pages' extracted texts (an empty
    string for a page without text); `None` stands for a file that cannot be
    opened. Every regular expression of the source is written out below as a
    scanner over `string`, with the backtracking argument that makes the
    scanner deterministic recorded next to it.
 */
module MNumber {
  import opened Wrappers
  import opened Text
  import opened Seqs
  import opened Policy

  datatype Strain = Indica | Sativa | Hybrid | NotSpecified

  datatype Category = Flower | Tincture | Topical | Edible | Vape | Unspecified

  function StrainName(s: Strain): (r: string) {
    match s
    case Indica => "Indica"
    case Sativa => "Sativa"
    case Hybrid => "Hybrid"
    case NotSpecified => "Not Specified"
  }

  function CategoryName(c: Category): (r: string) {
    match c
    case Flower => "Flower"
    case Tincture => "Tincture"
    case Topical => "Topical"
    case Edible => "Edible"
    case Vape => "Vape"
    case Unspecified => "Unspecified"
  }

  /** One dictionary of the returned list. */
  datatype PackageRecord = PackageRecord(
    index: nat,
    name: string,
    strain: Strain,
    days: string,
    weight: string,
    category: Category,
    mNumber: string,
    packageId: string,
    itemDetails: string)

  function MNumberOf(r: PackageRecord): (m: string) {
    r.mNumber
  }

  /** Gram values that make a package a flower sale. */
  const FlowerWeights: set<string> := {"2.83", "5.66", "14.13", "8.49", "11.32", "14.15"}

  // ---------------------------------------------------------------------
  // Step 1: the page where the package table starts

  /** `\s*[|]?\s*` matched from `i`. Neither whitespace nor `|` can begin the
      word that must follow, so only the greedy reading can succeed. */
  function SepEnd(s: string, i: nat): (j: nat)
    requires i <= |s|
    ensures i <= j <= |s|
  {
    var k := SkipSpace(s, i);
    if k < |s| && s[k] == '|' then SkipSpace(s, k + 1) else k
  }

  /** `PACKAGE\s*[|]?\s*SHIPPED`, case-insensitive, matches at `i`. */
  predicate TableHeaderAt(s: string, i: nat) {
    PrefixAtCi(s, i, "package") && PrefixAtCi(s, SepEnd(s, i + 7), "shipped")
  }

  predicate HasTableHeader(s: string) {
    exists i :: 0 <= i < |s| && TableHeaderAt(s, i)
  }

  /** The first page, from `p` on, whose text contains the table header. */
  function FindHeaderPage(pages: seq<string>, p: nat): (r: Option<nat>)
    requires p <= |pages|
    ensures r.Some? ==> p <= r.value < |pages| && HasTableHeader(pages[r.value])
    ensures r.Some? ==> forall q :: p <= q < r.value ==> !HasTableHeader(pages[q])
    ensures r.None? <==> forall q :: p <= q < |pages| ==> !HasTableHeader(pages[q])
    decreases |pages| - p
  {
    if p == |pages| then None
    else if HasTableHeader(pages[p]) then Some(p)
    else FindHeaderPage(pages, p + 1)
  }

  /** The 1-based number of the first page carrying the table header, or 1
      when no page does (fail open). */
  function StartPage(pages: seq<string>): (n: nat)
    ensures 1 <= n <= |pages| + 1
    ensures (forall q :: 0 <= q < |pages| ==> !HasTableHeader(pages[q])) ==> n == 1
    ensures (exists q :: 0 <= q < |pages| && HasTableHeader(pages[q])) ==>
              n <= |pages| && HasTableHeader(pages[n - 1])
              && forall q :: 0 <= q < n - 1 ==> !HasTableHeader(pages[q])
  {
    match FindHeaderPage(pages, 0)
    case None => 1
    case Some(k) => k + 1
  }

  // ---------------------------------------------------------------------
  // Step 2: the text stream

  /** Each page text that is not empty, followed by a newline. */
  function PageStream(pages: seq<string>): (r: string)
    ensures r == "" || r[|r| - 1] == '\n'
    ensures (forall q :: 0 <= q < |pages| ==> pages[q] == "") <==> r == ""
    decreases |pages|
  {
    if |pages| == 0 then ""
    else
      var rest := PageStream(pages[1..]);
      assert forall q :: 1 <= q < |pages| ==> pages[q] == pages[1..][q - 1];
      (if pages[0] == "" then "" else pages[0] + "\n") + rest
  }

  /** The stream of a list of pages is the stream of its first part
      followed by the stream of the rest. */
  lemma {:induction false} PageStreamAppend(a: seq<string>, b: seq<string>)
    ensures PageStream(a + b) == PageStream(a) + PageStream(b)
    decreases |a|
  {
    if a == [] {
      assert a + b == b;
    } else {
      assert (a + b)[0] == a[0];
      assert (a + b)[1..] == a[1..] + b;
      PageStreamAppend(a[1..], b);
    }
  }

  /** A single page contributes its text and a newline, or nothing when
      its text is empty. */
  lemma PageStreamSingle(p: string)
    ensures PageStream([p]) == (if p == "" then "" else p + "\n")
  {
    assert [p][1..] == [];
  }

  /** One more page adds its text and a newline at the end, or nothing. */
  lemma PageStreamSnoc(pages: seq<string>, p: string)
    ensures PageStream(pages + [p]) == PageStream(pages) + (if p == "" then "" else p + "\n")
  {
    PageStreamAppend(pages, [p]);
    PageStreamSingle(p);
  }

  /** Lines 42-46: the loop that appends each non-empty page's text and a
      newline computes the page stream. */
  method BuildStream(pages: seq<string>) returns (text: string)
    ensures text == PageStream(pages)
  {
    text := "";
    var i := 0;
    while i < |pages|
      invariant 0 <= i <= |pages|
      invariant text == PageStream(pages[..i])
    {
      PageStreamSnoc(pages[..i], pages[i]);
      assert pages[..i + 1] == pages[..i] + [pages[i]];
      if pages[i] != "" {
        text := text + pages[i] + "\n";
      }
      i := i + 1;
    }
    assert pages[..i] == pages;
  }

  function DocumentStream(pages: seq<string>): (r: string) {
    PageStream(pages[StartPage(pages) - 1..])
  }

  // ---------------------------------------------------------------------
  // Step 3: package blocks

  /** The look-ahead `\d+\.\s*Package\s*[|]?\s*Shipped` (case-insensitive)
      holds at `i`. `\d+` must take the whole digit run to reach the `.`,
      and `\s*` must take the whole whitespace run to reach `P`. A run of
      several digits therefore satisfies the look-ahead at each of its
      digits. */
  predicate BlockHeaderAt(s: string, i: nat) {
    && i < |s|
    && IsDigit(s[i])
    && var d := SkipDigits(s, i);
    && d < |s|
    && s[d] == '.'
    && TableHeaderAt(s, SkipSpace(s, d + 1))
  }

  function SplitBlocks(s: string): (r: seq<string>) {
    SplitBefore(s, BlockHeaderAt)
  }

  /** Splitting at the header look-ahead is a partition of the stream: the
      blocks concatenate back to it, every block after the first begins at a
      header position, no header position lies inside a block, and the
      first block is empty exactly when the stream itself begins with a
      header. */
  lemma SplitBlocksPartition(s: string)
    ensures var r := SplitBlocks(s);
      && Concat(r) == s
      && (forall k :: 1 <= k < |r| ==> BlockHeaderAt(s, Offset(r, k)))
      && (forall k :: 0 <= k < |r| ==> forall j :: Offset(r, k) < j < Offset(r, k) + |r[k]| ==> !BlockHeaderAt(s, j))
      && (|s| > 0 ==> (r[0] == "" <==> BlockHeaderAt(s, 0)))
  {
    SplitBeforePartition(s, BlockHeaderAt);
  }

  // ---------------------------------------------------------------------
  // Step 4: fields of one block

  /** `M\d{11}` matches at `i`. */
  predicate MNumberAt(s: string, i: nat) {
    i < |s| && s[i] == 'M' && i + 12 <= |s| && SkipDigits(s, i + 1) >= i + 12
  }

  /** The first `M` followed by eleven digits: the twelve characters at the
      leftmost position where the pattern matches. */
  function FindMNumber(s: string): (r: Option<string>)
    ensures r.None? <==> forall q :: 0 <= q < |s| ==> !MNumberAt(s, q)
    ensures r.Some? ==> exists i :: 0 <= i < |s| && MNumberAt(s, i) && (forall q :: 0 <= q < i ==> !MNumberAt(s, q))
                                    && r.value == s[i..i + 12]
    ensures r.Some? ==> |r.value| == 12 && r.value[0] == 'M'
                        && forall k :: 1 <= k < 12 ==> IsDigit(r.value[k])
  {
    match Leftmost(s, 0, MNumberAt)
    case None => None
    case Some(i) =>
      assert MNumberAt(s, i);
      Some(s[i..i + 12])
  }

  /** `1A[A-Za-z0-9]{19,30}` matches at `i`. */
  predicate PackageIdAt(s: string, i: nat) {
    PrefixAt(s, i, "1A") && SkipAlnum(s, i + 2) >= i + 2 + 19
  }

  /** The first package-identifier match, greedy up to 30 characters after
      `1A`, or "Unknown". */
  function PackageId(s: string): (r: string)
    ensures r == "Unknown" <==> forall q :: 0 <= q < |s| ==> !PackageIdAt(s, q)
    ensures r != "Unknown" ==> exists i :: 0 <= i < |s| && PackageIdAt(s, i) && (forall q :: 0 <= q < i ==> !PackageIdAt(s, q))
                                          && r == PackageIdFrom(s, i)
    ensures r != "Unknown" ==>
              21 <= |r| <= 32 && r[..2] == "1A" && forall k :: 2 <= k < |r| ==> IsAlnum(r[k])
  {
    match Leftmost(s, 0, PackageIdAt)
    case None => "Unknown"
    case Some(i) =>
      assert PackageIdAt(s, i);
      PackageIdFrom(s, i)
  }

  /** The tag matched at `i`: the text at `i`, "1A" and the letters and
      digits after it, taken greedily: all of them, or 30 when the run is
      longer. */
  function PackageIdFrom(s: string, i: nat): (r: string)
    requires PackageIdAt(s, i)
    ensures r != "Unknown"
    ensures 21 <= |r| <= 32 && r[..2] == "1A" && forall k :: 2 <= k < |r| ==> IsAlnum(r[k])
    ensures i + |r| <= |s| && r == s[i..i + |r|]
    ensures |r| == 32 || i + |r| == |s| || !IsAlnum(s[i + |r|])
  {
    var run := SkipAlnum(s, i + 2) - (i + 2);
    var n := if run > 30 then 30 else run;
    var r := s[i..i + 2 + n];
    assert s[i] == s[i..i + 2][0] == '1' && s[i + 1] == s[i..i + 2][1] == 'A';
    assert r[0] == s[i] && r[1] == s[i + 1];
    assert r[..2] == "1A";
    r
  }

  /** `\nSource\s*(Harvest|Package)` (case-insensitive) matches at `p`,
      less its leading newline. */
  predicate SourceLabelAt(s: string, p: nat) {
    && PrefixAtCi(s, p, "source")
    && (PrefixAtCi(s, SkipSpace(s, p + 6), "harvest") || PrefixAtCi(s, SkipSpace(s, p + 6), "package"))
  }

  /** The look-ahead that ends the lazy item-details capture holds at `e`:
      `\nSource…`, `$` (end of text, or just before a final newline), or
      `\n<digits>. Package … Shipped`. */
  predicate DetailsEndAt(s: string, e: nat) {
    || e == |s|
    || (e + 1 == |s| && s[e] == '\n')
    || (e < |s| && s[e] == '\n' && (SourceLabelAt(s, e + 1) || BlockHeaderAt(s, e + 1)))
  }

  predicate DetailsLabelAt(s: string, i: nat) {
    PrefixAtCi(s, i, "item details")
  }

  /** `Item Details\s*(.*?)(?=…)` with DOTALL, stripped: the details of the
      first tag. */
  function ItemDetails(s: string): (r: Option<string>)
    ensures r.None? <==> forall q :: 0 <= q < |s| ==> !DetailsLabelAt(s, q)
    ensures r.Some? ==> exists i :: 0 <= i < |s| && DetailsLabelAt(s, i) && (forall q :: 0 <= q < i ==> !DetailsLabelAt(s, q))
                                    && r.value == DetailsFrom(s, i)
    ensures r.Some? ==> r.value == Trim(r.value)
  {
    match Leftmost(s, 0, DetailsLabelAt)
    case None => None
    case Some(i) =>
      assert DetailsLabelAt(s, i);
      Some(DetailsFrom(s, i))
  }

  /** The stripped capture of the tag at `i`. It starts after the
      whitespace that follows the tag (a greedy `\s*` always leaves a
      match, since `$` holds at the end) and stops at the first position
      where the look-ahead holds. */
  function DetailsFrom(s: string, i: nat): (r: string)
    requires DetailsLabelAt(s, i)
    ensures exists e :: SkipSpace(s, i + 12) <= e <= |s| && DetailsEndAt(s, e)
                        && (forall q :: SkipSpace(s, i + 12) <= q < e ==> !DetailsEndAt(s, q))
                        && r == Trim(s[SkipSpace(s, i + 12)..e])
    ensures r == Trim(r)
  {
    var a := SkipSpace(s, i + 12);
    var e := DetailsEnd(s, a);
    TrimIdempotent(s[a..e]);
    Trim(s[a..e])
  }

  /** The first position from `a` on where the look-ahead holds; it holds
      at the end of the text at the latest. */
  function DetailsEnd(s: string, a: nat): (e: nat)
    requires a <= |s|
    ensures a <= e <= |s| && DetailsEndAt(s, e)
    ensures forall q :: a <= q < e ==> !DetailsEndAt(s, q)
  {
    match Leftmost(s, a, DetailsEndAt)
    case Some(e) => e
    case None => |s|
  }

  lemma TrimIdempotent(s: string)
    ensures Trim(Trim(s)) == Trim(s)
  {
    var t := Trim(s);
    if t != [] {
      assert !IsSpace(t[0]) && !IsSpace(t[|t| - 1]);
      assert SkipSpace(t, 0) == 0;
      assert BackSkipSpace(t, 0, |t|) == |t|;
      assert t[0..|t|] == t;
    }
  }

  // ---------------------------------------------------------------------
  // Step 5: fields of the item details

  /** `re.match(r"(?:Brand|Strain):\s*([^|]+)", d)`. The capture runs from
      the first non-space after the tag to the next `|`; if only spaces
      precede the `|`, backtracking hands one space to `[^|]+`, which strips
      to "". So the match exists exactly when some character other than `|`
      follows the tag, and the stripped capture is the stripped text up
      to the next `|`. */
  function NameOf(d: string): (r: Option<string>)
    ensures r.Some? <==>
              || (PrefixAt(d, 0, "Brand:") && 6 < |d| && d[6] != '|')
              || (PrefixAt(d, 0, "Strain:") && 7 < |d| && d[7] != '|')
    ensures r.Some? && PrefixAt(d, 0, "Brand:") ==> exists e: nat :: BarEnd(d, 6, e) && r.value == Trim(d[6..e])
    ensures r.Some? && PrefixAt(d, 0, "Strain:") ==> exists e: nat :: BarEnd(d, 7, e) && r.value == Trim(d[7..e])
    ensures r.Some? ==> forall k :: 0 <= k < |r.value| ==> r.value[k] != '|'
  {
    assert PrefixAt(d, 0, "Strain:") ==> d[0] == 'S' && !PrefixAt(d, 0, "Brand:");
    if PrefixAt(d, 0, "Brand:") then
      if 6 < |d| && d[6] != '|' then Some(ValueFrom(d, 6)) else None
    else if PrefixAt(d, 0, "Strain:") then
      if 7 < |d| && d[7] != '|' then Some(ValueFrom(d, 7)) else None
    else None
  }

  /** `e` is where a run of `[^|]` that starts at `p` ends: at the next `|`,
      or at the end of the text. */
  predicate BarEnd(d: string, p: nat, e: nat) {
    p <= e <= |d| && (e == |d| || d[e] == '|') && forall k :: p <= k < e ==> d[k] != '|'
  }

  /** `Supply:\s*(\d+)\s*day\(s\)` (case-insensitive) matches at `i`; both
      runs are maximal because a digit is not a space and `d` is neither. */
  predicate SupplyAt(d: string, i: nat) {
    && PrefixAtCi(d, i, "supply:")
    && var a := SkipSpace(d, i + 7);
    && var b := SkipDigits(d, a);
    && b > a
    && PrefixAtCi(d, SkipSpace(d, b), "day(s)")
  }

  /** The day count of the first `Supply: <n> day(s)`. */
  function SupplyDays(d: string): (r: Option<string>)
    ensures r.None? <==> forall q :: 0 <= q < |d| ==> !SupplyAt(d, q)
    ensures r.Some? ==> exists i :: 0 <= i < |d| && SupplyAt(d, i) && (forall q :: 0 <= q < i ==> !SupplyAt(d, q))
                                    && r.value == DaysAt(d, i)
    ensures r.Some? ==> |r.value| > 0 && forall k :: 0 <= k < |r.value| ==> IsDigit(r.value[k])
  {
    match Leftmost(d, 0, SupplyAt)
    case None => None
    case Some(i) =>
      assert SupplyAt(d, i);
      Some(DaysAt(d, i))
  }

  /** The digit run of the match at `i`: the whole run of digits that
      starts after the whitespace following the tag. */
  function DaysAt(d: string, i: nat): (r: string)
    requires SupplyAt(d, i)
    ensures |r| > 0 && forall k :: 0 <= k < |r| ==> IsDigit(r[k])
    ensures SkipSpace(d, i + 7) + |r| <= |d| && r == d[SkipSpace(d, i + 7)..SkipSpace(d, i + 7) + |r|]
    ensures SkipSpace(d, i + 7) + |r| == |d| || !IsDigit(d[SkipSpace(d, i + 7) + |r|])
  {
    var a := SkipSpace(d, i + 7);
    d[a..SkipDigits(d, a)]
  }

  /** `<tag>\s*([^|]+)` (case-insensitive) matches at `i`: as for the
      name, exactly when a character other than `|` follows the tag. */
  predicate LabelValueAt(d: string, i: nat, tag: string) {
    PrefixAtCi(d, i, tag) && i + |tag| < |d| && d[i + |tag|] != '|'
  }

  /** The stripped value of the first `<tag>` field, up to the next `|`. */
  function LabelValue(d: string, tag: string): (r: Option<string>)
    ensures r.None? <==> forall q :: 0 <= q < |d| ==> !LabelValueAt(d, q, tag)
    ensures r.Some? ==> exists i :: 0 <= i < |d| && LabelValueAt(d, i, tag) && (forall q :: 0 <= q < i ==> !LabelValueAt(d, q, tag))
                                    && r.value == ValueFrom(d, i + |tag|)
    ensures r.Some? ==> forall k :: 0 <= k < |r.value| ==> r.value[k] != '|'
  {
    match FirstLabel(d, tag, 0)
    case None => None
    case Some(i) =>
      assert LabelValueAt(d, i, tag);
      Some(ValueFrom(d, i + |tag|))
  }

  /** The leftmost position from `from` on where a tag is followed by a
      character other than `|`. */
  function FirstLabel(d: string, tag: string, from: nat): (r: Option<nat>)
    requires from <= |d|
    ensures r.Some? ==> from <= r.value < |d| && LabelValueAt(d, r.value, tag)
    ensures r.Some? ==> forall q :: from <= q < r.value ==> !LabelValueAt(d, q, tag)
    ensures r.None? <==> forall q :: from <= q < |d| ==> !LabelValueAt(d, q, tag)
    decreases |d| - from
  {
    if from == |d| then None
    else if LabelValueAt(d, from, tag) then Some(from)
    else FirstLabel(d, tag, from + 1)
  }

  /** The `[^|]+` capture from `p`, stripped: the text up to the next `|`
      or the end, without surrounding whitespace. */
  function ValueFrom(d: string, p: nat): (r: string)
    requires p <= |d|
    ensures exists e: nat :: BarEnd(d, p, e) && r == Trim(d[p..e])
    ensures forall k :: 0 <= k < |r| ==> r[k] != '|'
  {
    var bar := FindChar(d, p, '|');
    assert BarEnd(d, p, bar);
    assert forall k :: 0 <= k < |d[p..bar]| ==> d[p..bar][k] != '|';
    TrimAvoids(d[p..bar], '|');
    Trim(d[p..bar])
  }

  /** `re.match(r"(\d+\.\d+)", v)`: both digit runs are maximal. */
  function NumericPrefix(v: string): (r: Option<string>)
    ensures r.Some? ==> |r.value| <= |v| && r.value == v[..|r.value|]
    ensures r.Some? ==> |r.value| == |v| || !IsDigit(v[|r.value|])
    ensures r.Some? ==> exists a :: 0 < a < |r.value| - 1 && r.value[a] == '.'
                          && (forall k :: 0 <= k < a ==> IsDigit(r.value[k]))
                          && (forall k :: a < k < |r.value| ==> IsDigit(r.value[k]))
    ensures (forall k :: 0 <= k < |v| ==> v[k] != '.') ==> r.None?
  {
    var a := SkipDigits(v, 0);
    if 0 < a < |v| && v[a] == '.' then
      var b := SkipDigits(v, a + 1);
      if b > a + 1 then Some(v[..b]) else None
    else None
  }

  /** Conversely, a value that starts with digits, a dot and a digit has a
      numeric prefix, whose dot is that dot. */
  lemma NumericPrefixFound(v: string, a: nat)
    requires 0 < a < |v| - 1 && v[a] == '.' && IsDigit(v[a + 1])
    requires forall k :: 0 <= k < a ==> IsDigit(v[k])
    ensures NumericPrefix(v).Some?
    ensures a + 1 < |NumericPrefix(v).value| && NumericPrefix(v).value[a] == '.'
  {
    assert SkipDigits(v, 0) == a;
  }

  /** The leading decimal of a `Wgt:` value is one of the flower weights. */
  predicate IsFlowerWeight(v: string) {
    NumericPrefix(v).Some? && NumericPrefix(v).value in FlowerWeights
  }

  const StrainRules: seq<Rule<Strain>> :=
    [Rule(["indica"], Indica), Rule(["sativa"], Sativa), Rule(["hybrid"], Hybrid)]

  const CategoryRules: seq<Rule<Category>> :=
    [ Rule(["oil for oral"], Tincture),
      Rule(["balm", "lotion", "cream", "topical", "gel"], Topical),
      Rule(["edb oral"], Edible),
      Rule(["vap "], Vape) ]

  function StrainOf(d: string): (r: Strain) {
    FirstFiring(Lower(d), StrainRules, NotSpecified)
  }

  /** The keyword fallback, applied to the lower-cased item details. */
  function KeywordCategory(d: string): (r: Category) {
    FirstFiring(Lower(d), CategoryRules, Unspecified)
  }

  /** The weight/category decision: a flower weight under `Wgt:` wins;
      otherwise the `Qty:` value and the keyword category. The source writes
      the fallback twice (for a non-flower `Wgt:` and for a missing one);
      both copies are the same. */
  function WeightAndCategory(d: string): (string, Category) {
    match LabelValue(d, "wgt:")
    case Some(w) =>
      if IsFlowerWeight(w) then (w, Flower)
      else (LabelValue(d, "qty:").GetOr("Not Specified"), KeywordCategory(d))
    case None => (LabelValue(d, "qty:").GetOr("Not Specified"), KeywordCategory(d))
  }

  datatype Fields = Fields(name: string, strain: Strain, days: string, weight: string, category: Category)

  const DefaultFields := Fields("Not Found", NotSpecified, "Not Specified", "Not Specified", Unspecified)

  /** Sub-fields of the item details; the sentinels stay when the details
      are missing (the "Not Found" sentinel) or empty after stripping. */
  function DetailFields(itemDetails: string): (f: Fields)
    ensures itemDetails == "" || itemDetails == "Not Found" ==> f == DefaultFields
    ensures f.category == Flower ==> f.weight != "Not Specified" || itemDetails != "Not Found"
    ensures itemDetails != "" && itemDetails != "Not Found" ==>
              && f.name == NameOf(itemDetails).GetOr("Not Found")
              && f.strain == StrainOf(itemDetails)
              && f.days == SupplyDays(itemDetails).GetOr("Not Specified")
              && (f.weight, f.category) == WeightAndCategory(itemDetails)
  {
    if itemDetails == "" || itemDetails == "Not Found" then DefaultFields
    else
      var wc := WeightAndCategory(itemDetails);
      Fields(NameOf(itemDetails).GetOr("Not Found"), StrainOf(itemDetails),
             SupplyDays(itemDetails).GetOr("Not Specified"), wc.0, wc.1)
  }

  /** One block's record (its index still unset), or None for a block that
      is blank or carries no M-number. */
  function ParseBlock(b: string): (r: Option<PackageRecord>)
    ensures r.None? <==> AllSpace(b) || forall q :: 0 <= q < |b| ==> !MNumberAt(b, q)
    ensures r.Some? ==> FindMNumber(b) == Some(r.value.mNumber)
    ensures r.Some? ==> r.value.packageId == PackageId(b) && r.value.itemDetails == ItemDetails(b).GetOr("Not Found")
    ensures r.Some? ==>
              Fields(r.value.name, r.value.strain, r.value.days, r.value.weight, r.value.category) == DetailFields(r.value.itemDetails)
  {
    if AllSpace(b) then None
    else
      match FindMNumber(b)
      case None => None
      case Some(m) =>
        var details := ItemDetails(b).GetOr("Not Found");
        var f := DetailFields(details);
        Some(PackageRecord(0, f.name, f.strain, f.days, f.weight, f.category, m, PackageId(b), details))
  }

  // ---------------------------------------------------------------------
  // The document loop

  /** The source loop over blocks: skip a block without a record, skip an
      M-number already in `seen`, otherwise append with the next index. */
  function Collect(blocks: seq<string>, seen: set<string>, count: nat): (r: seq<PackageRecord>)
    decreases |blocks|
  {
    if |blocks| == 0 then []
    else
      match ParseBlock(blocks[0])
      case None => Collect(blocks[1..], seen, count)
      case Some(p) =>
        if p.mNumber in seen then Collect(blocks[1..], seen, count)
        else [p.(index := count + 1)] + Collect(blocks[1..], seen + {p.mNumber}, count + 1)
  }

  /** The `(filename, records)` result's record list. */
  function ExtractMNumbers(pdf: Option<seq<string>>): (r: seq<PackageRecord>) {
    match pdf
    case None => []
    case Some(pages) => RecordsOf(Blocks(pages))
  }

  /** The record list built from the package blocks of a document. */
  function RecordsOf(blocks: seq<string>): (r: seq<PackageRecord>) {
    Collect(blocks, {}, 0)
  }

  // ---------------------------------------------------------------------
  // Reference pipeline and its properties

  /** The records of the blocks that yield one, in block order. */
  function Parsed(blocks: seq<string>): (r: seq<PackageRecord>)
    ensures |r| <= |blocks|
    decreases |blocks|
  {
    if |blocks| == 0 then []
    else
      match ParseBlock(blocks[0])
      case None => Parsed(blocks[1..])
      case Some(p) => [p] + Parsed(blocks[1..])
  }

  /** Give the records consecutive indices starting at `n`. */
  function Number(rs: seq<PackageRecord>, n: nat): (r: seq<PackageRecord>)
    ensures |r| == |rs|
    ensures forall k :: 0 <= k < |rs| ==> r[k] == rs[k].(index := n + k)
  {
    seq(|rs|, k requires 0 <= k < |rs| => rs[k].(index := n + k))
  }

  lemma NumberCons(p: PackageRecord, rs: seq<PackageRecord>, n: nat)
    ensures Number([p] + rs, n) == [p.(index := n)] + Number(rs, n + 1)
  {
  }

  /** The source loop is order-preserving de-duplication by M-number of the
      parsed blocks, followed by numbering. */
  lemma {:induction false} CollectIsDedup(blocks: seq<string>, seen: set<string>, count: nat)
    ensures Collect(blocks, seen, count) == Number(DedupBy(Parsed(blocks), MNumberOf, seen), count + 1)
    decreases |blocks|
  {
    if |blocks| > 0 {
      match ParseBlock(blocks[0])
      case None =>
        CollectIsDedup(blocks[1..], seen, count);
      case Some(p) =>
        var ps := Parsed(blocks);
        assert ps == [p] + Parsed(blocks[1..]);
        assert ps[1..] == Parsed(blocks[1..]);
        if p.mNumber in seen {
          CollectIsDedup(blocks[1..], seen, count);
        } else {
          CollectIsDedup(blocks[1..], seen + {p.mNumber}, count + 1);
          NumberCons(p, DedupBy(Parsed(blocks[1..]), MNumberOf, seen + {p.mNumber}), count + 1);
        }
    }
  }

  lemma KeysNumber(rs: seq<PackageRecord>, n: nat)
    ensures Keys(Number(rs, n), MNumberOf) == Keys(rs, MNumberOf)
  {
  }

  function Blocks(pages: seq<string>): (r: seq<string>) {
    SplitBlocks(DocumentStream(pages))
  }

  lemma RecordsAreDedup(blocks: seq<string>)
    ensures RecordsOf(blocks) == Number(DedupBy(Parsed(blocks), MNumberOf, {}), 1)
    ensures Keys(RecordsOf(blocks), MNumberOf) == Keys(DedupBy(Parsed(blocks), MNumberOf, {}), MNumberOf)
  {
    var d := DedupBy(Parsed(blocks), MNumberOf, {});
    CollectIsDedup(blocks, {}, 0);
    assert RecordsOf(blocks) == Number(d, 1);
    KeysNumber(d, 1);
  }

  /** `Index` runs 1..n in output order. */
  lemma ExtractIndexed(blocks: seq<string>)
    ensures var rs := RecordsOf(blocks);
      forall k :: 0 <= k < |rs| ==> rs[k].index == k + 1
  {
    RecordsAreDedup(blocks);
  }

  /** M-numbers in the output are pairwise distinct. */
  lemma ExtractDistinct(blocks: seq<string>)
    ensures NoDup(Keys(RecordsOf(blocks), MNumberOf))
  {
    RecordsAreDedup(blocks);
    DedupByDistinct(Parsed(blocks), MNumberOf, {});
  }

  /** Each record is the one built from the first block carrying its
      M-number; later blocks with the same M-number are dropped. */
  lemma ExtractFirstWins(blocks: seq<string>)
    ensures var ps := Parsed(blocks);
      var rs := RecordsOf(blocks);
      forall k :: 0 <= k < |rs| ==>
        FirstIndex(Keys(ps, MNumberOf), rs[k].mNumber) < |ps|
        && rs[k] == ps[FirstIndex(Keys(ps, MNumberOf), rs[k].mNumber)].(index := k + 1)
  {
    var ps := Parsed(blocks);
    var d := DedupBy(ps, MNumberOf, {});
    RecordsAreDedup(blocks);
    DedupByFirstWins(ps, MNumberOf, {});
    var rs := RecordsOf(blocks);
    forall k | 0 <= k < |rs|
      ensures FirstIndex(Keys(ps, MNumberOf), rs[k].mNumber) < |ps|
              && rs[k] == ps[FirstIndex(Keys(ps, MNumberOf), rs[k].mNumber)].(index := k + 1)
    {
      assert rs[k] == d[k].(index := k + 1);
      assert rs[k].mNumber == MNumberOf(d[k]);
    }
  }

  /** Records follow the order of the first blocks carrying their
      M-numbers. */
  lemma ExtractOrdered(blocks: seq<string>)
    ensures var ps := Parsed(blocks);
      var rs := RecordsOf(blocks);
      forall i, j :: 0 <= i < j < |rs| ==>
        FirstIndex(Keys(ps, MNumberOf), rs[i].mNumber) < FirstIndex(Keys(ps, MNumberOf), rs[j].mNumber)
  {
    var ps := Parsed(blocks);
    var d := DedupBy(ps, MNumberOf, {});
    RecordsAreDedup(blocks);
    DedupByOrdered(ps, MNumberOf, {});
    var rs := RecordsOf(blocks);
    forall i, j | 0 <= i < j < |rs|
      ensures FirstIndex(Keys(ps, MNumberOf), rs[i].mNumber) < FirstIndex(Keys(ps, MNumberOf), rs[j].mNumber)
    {
      assert rs[i].mNumber == MNumberOf(d[i]) && rs[j].mNumber == MNumberOf(d[j]);
    }
  }

  /** Every block that yields a record has its M-number in the output. */
  lemma ExtractComplete(blocks: seq<string>)
    ensures var ps := Parsed(blocks);
      forall j :: 0 <= j < |ps| ==> ps[j].mNumber in Keys(RecordsOf(blocks), MNumberOf)
  {
    var ps := Parsed(blocks);
    RecordsAreDedup(blocks);
    DedupByComplete(ps, MNumberOf, {});
    forall j | 0 <= j < |ps|
      ensures ps[j].mNumber in Keys(RecordsOf(blocks), MNumberOf)
    {
      assert MNumberOf(ps[j]) in Keys(DedupBy(ps, MNumberOf, {}), MNumberOf);
    }
  }

  /** A block yields a record exactly when it is not blank and contains an
      M-number; text before the first header is a block like any other. */
  lemma ParsedMembers(blocks: seq<string>, j: nat)
    requires j < |blocks|
    requires !AllSpace(blocks[j]) && exists q :: 0 <= q < |blocks[j]| && MNumberAt(blocks[j], q)
    ensures ParseBlock(blocks[j]).value in Parsed(blocks)
    decreases |blocks|
  {
    if j > 0 {
      ParsedMembers(blocks[1..], j - 1);
      assert blocks[1..][j - 1] == blocks[j];
    }
  }

  // ---------------------------------------------------------------------
  // The decision policies

  /** Strain priority: indica, then sativa, then hybrid, case-insensitive. */
  lemma StrainPriority(d: string)
    ensures var l := Lower(d);
      StrainOf(d) == (if Contains(l, "indica") then Indica
                      else if Contains(l, "sativa") then Sativa
                      else if Contains(l, "hybrid") then Hybrid
                      else NotSpecified)
  {
    var l := Lower(d);
    FiresSingle(l, "indica", Indica);
    FiresSingle(l, "sativa", Sativa);
    FiresSingle(l, "hybrid", Hybrid);
    assert StrainRules[0] == Rule(["indica"], Indica);
    assert StrainRules[1] == Rule(["sativa"], Sativa);
    assert StrainRules[2] == Rule(["hybrid"], Hybrid);
  }

  lemma FiresTopical(l: string)
    ensures Fires(l, CategoryRules[1]) <==>
      Contains(l, "balm") || Contains(l, "lotion") || Contains(l, "cream") || Contains(l, "topical") || Contains(l, "gel")
  {
    var kw := CategoryRules[1].keywords;
    assert kw == ["balm", "lotion", "cream", "topical", "gel"];
    if Contains(l, "balm") { assert Contains(l, kw[0]); }
    if Contains(l, "lotion") { assert Contains(l, kw[1]); }
    if Contains(l, "cream") { assert Contains(l, kw[2]); }
    if Contains(l, "topical") { assert Contains(l, kw[3]); }
    if Contains(l, "gel") { assert Contains(l, kw[4]); }
  }

  /** Keyword category priority: oil for oral, then the topical words, then
      edb oral, then "vap " (with its trailing space). */
  lemma KeywordCategoryPriority(d: string)
    ensures var l := Lower(d);
      KeywordCategory(d) == (if Contains(l, "oil for oral") then Tincture
                             else if Contains(l, "balm") || Contains(l, "lotion") || Contains(l, "cream")
                                     || Contains(l, "topical") || Contains(l, "gel") then Topical
                             else if Contains(l, "edb oral") then Edible
                             else if Contains(l, "vap ") then Vape
                             else Unspecified)
  {
    var l := Lower(d);
    FiresSingle(l, "oil for oral", Tincture);
    FiresTopical(l);
    FiresSingle(l, "edb oral", Edible);
    FiresSingle(l, "vap ", Vape);
    assert CategoryRules[0] == Rule(["oil for oral"], Tincture);
    assert CategoryRules[2] == Rule(["edb oral"], Edible);
    assert CategoryRules[3] == Rule(["vap "], Vape);
  }

  /** Flower exactly when the first `Wgt:` value starts with a listed
      decimal; its weight is then that value. Otherwise the weight is the
      `Qty:` value (or the sentinel) and the category comes from keywords,
      whether `Wgt:` was absent or not a flower weight. */
  lemma WeightCategoryPolicy(d: string)
    ensures var wc := WeightAndCategory(d);
      var wgt := LabelValue(d, "wgt:");
      && (wgt.Some? && IsFlowerWeight(wgt.value) ==> wc == (wgt.value, Flower))
      && (!(wgt.Some? && IsFlowerWeight(wgt.value)) ==>
            wc == (LabelValue(d, "qty:").GetOr("Not Specified"), KeywordCategory(d)))
      && (wc.1 == Flower <==> wgt.Some? && IsFlowerWeight(wgt.value))
  {
    KeywordCategoryPriority(d);
  }

  /** A weight without a decimal point never makes a flower. */
  lemma IntegerWeightNotFlower(v: string)
    requires forall k :: 0 <= k < |v| ==> v[k] != '.'
    ensures !IsFlowerWeight(v)
  {
  }

  /** The name is read only when the details begin with a tag. */
  lemma NameNeedsLeadingLabel(d: string)
    requires !PrefixAt(d, 0, "Brand:") && !PrefixAt(d, 0, "Strain:")
    ensures DetailFields(d).name == "Not Found"
  {
  }
}
