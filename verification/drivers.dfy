/** Driver names on a manifest. The cell labelled "Name of Person
    Transporting" is followed by the driver's name, often with an employee
    label or a `CCE` badge number glued on. Three independent readers look
    for it, and the builder merges what they find:
    - camelot's stream tables for pages 1 and 2 (every anchor cell counts,
      the name must be longer than three characters);
    - pdfplumber's tables for the first two pages (only the first anchor
      cell of a row counts, and any non-empty neighbour is taken);
    - Tesseract's words on one page (every word right of an anchor word and
      on its line).
    The libraries themselves are outside the model: each reader takes what
    its library returns, and `None` stands for an exception, which every
    reader turns into an empty list.
 */
module Drivers {
  import opened Wrappers
  import opened Text
  import opened Seqs
  import opened Ocr

  /** The label of the cell that precedes the driver's name. */
  const Anchor := "Name of Person Transporting"

  /** A label the name cell sometimes carries. */
  const EmployeeLabel := "Employee ID of Driver"

  /** How far, in pixels, a word's top may be from the anchor word's top. */
  const LineTolerance: nat := 30

  // ---------------------------------------------------------------------
  // Cleaning a name cell
  // ---------------------------------------------------------------------

  /** The alternative `CCE\d+` matches at `i`. */
  predicate BadgeAt(s: string, i: nat) {
    PrefixAt(s, i, "CCE") && i + 3 < |s| && IsDigit(s[i + 3])
  }

  /** `re.sub(r"Employee ID of Driver|CCE\d+", "", s)`: scanning left to
      right, the label is tried first, a badge takes its whole digit run, and
      a character where neither matches is kept. */
  function StripIds(s: string): (r: string)
    ensures |r| <= |s|
    decreases |s|
  {
    if |s| == 0 then []
    else if PrefixAt(s, 0, EmployeeLabel) then StripIds(s[|EmployeeLabel|..])
    else if BadgeAt(s, 0) then StripIds(s[SkipDigits(s, 3)..])
    else [s[0]] + StripIds(s[1..])
  }

  /** The cleanup every reader applies to a name: remove labels and badge
      numbers, then strip. */
  function CleanName(s: string): (r: string)
    ensures |r| <= |s|
    ensures r == [] || (!IsSpace(r[0]) && !IsSpace(r[|r| - 1]))
    ensures r == [] <==> AllSpace(StripIds(s))
  {
    Trim(StripIds(s))
  }

  /** Without a badge number, the cleanup is exactly the removal of the
      employee label (`str.replace` of that literal). */
  lemma {:induction false} StripIdsWithoutBadges(s: string)
    requires !Contains(s, "CCE")
    ensures StripIds(s) == RemoveAll(s, EmployeeLabel)
    decreases |s|
  {
    if |s| == 0 {
    } else if PrefixAt(s, 0, EmployeeLabel) {
      if Contains(s[|EmployeeLabel|..], "CCE") {
        ContainsSuffix(s, |EmployeeLabel|, "CCE");
      }
      StripIdsWithoutBadges(s[|EmployeeLabel|..]);
    } else {
      assert PrefixAt(s, 0, "CCE") ==> Contains(s, "CCE");
      if Contains(s[1..], "CCE") {
        ContainsSuffix(s, 1, "CCE");
      }
      StripIdsWithoutBadges(s[1..]);
      if |s| < |EmployeeLabel| {
        assert RemoveAll(s[1..], EmployeeLabel) == s[1..];
        assert [s[0]] + s[1..] == s;
      }
    }
  }

  /** A badge followed by a non-digit disappears whole: its entire digit run
      goes with it. */
  lemma StripIdsDropsBadge(digits: string, t: string)
    requires |digits| > 0 && forall k :: 0 <= k < |digits| ==> IsDigit(digits[k])
    requires t == [] || !IsDigit(t[0])
    ensures StripIds("CCE" + digits + t) == StripIds(t)
  {
    var s := "CCE" + digits + t;
    assert s[0] == 'C';
    assert EmployeeLabel[0] == 'E';
    assert s[..3] == "CCE";
    BadgeDigitsEnd(digits, t);
    StripIdsAtBadge(s);
  }

  /** The digit run after "CCE" is exactly `digits`. */
  lemma BadgeDigitsEnd(digits: string, t: string)
    requires |digits| > 0 && forall k :: 0 <= k < |digits| ==> IsDigit(digits[k])
    requires t == [] || !IsDigit(t[0])
    ensures BadgeAt("CCE" + digits + t, 0)
    ensures ("CCE" + digits + t)[SkipDigits("CCE" + digits + t, 3)..] == t
  {
    var s := "CCE" + digits + t;
    assert s[..3] == "CCE";
    assert s[3] == digits[0];
    assert forall k :: 3 <= k < 3 + |digits| ==> s[k] == digits[k - 3];
    assert 3 + |digits| < |s| ==> s[3 + |digits|] == t[0];
    assert SkipDigits(s, 3) == 3 + |digits|;
  }

  /** A badge that is not the employee label is removed with its digit run. */
  lemma StripIdsAtBadge(s: string)
    requires BadgeAt(s, 0) && s[0] != EmployeeLabel[0]
    ensures StripIds(s) == StripIds(s[SkipDigits(s, 3)..])
  {
    assert !PrefixAt(s, 0, EmployeeLabel);
  }

  // ---------------------------------------------------------------------
  // camelot
  // ---------------------------------------------------------------------

  /** camelot renders every cell of its data frame as text. */
  type Row = seq<string>
  type Table = seq<Row>

  /** Cell `j` holds the anchor and its right neighbour, stripped, is longer
      than three characters. */
  predicate CamelotHit(row: Row, j: nat) {
    j + 1 < |row| && Contains(row[j], Anchor) && |Trim(row[j + 1])| > 3
  }

  /** The columns from `j` on where the cell scan appends a name, left to
      right; each is a hit. */
  function CamelotHitsFrom(row: Row, j: nat): (r: seq<nat>)
    requires j <= |row|
    ensures forall i :: 0 <= i < |r| ==> j <= r[i] && CamelotHit(row, r[i])
    decreases |row| - j
  {
    if j + 1 >= |row| then []
    else (if CamelotHit(row, j) then [j] else []) + CamelotHitsFrom(row, j + 1)
  }

  /** The cleaned name right of an anchor cell. */
  function NeighbourName(row: Row, k: nat): (r: string)
    requires k + 1 < |row|
  {
    CleanName(Trim(row[k + 1]))
  }

  /** The names one row contributes, in column order. */
  function CamelotRowNames(row: Row): (r: seq<string>)
    ensures |r| == |CamelotHitsFrom(row, 0)|
  {
    var hs := CamelotHitsFrom(row, 0);
    seq(|hs|, i requires 0 <= i < |hs| => NeighbourName(row, hs[i]))
  }

  /** `extract_driver_names_with_camelot`: the tables camelot found on pages
      1 and 2, or `None` when it raised. */
  function CamelotNames(tables: Option<seq<Table>>): (r: seq<string>) {
    match tables
    case None => []
    case Some(ts) => FlatMap(Concat(ts), CamelotRowNames)
  }

  /** Cell `k` of `row` is an anchor whose neighbour yields the name `n`. */
  ghost predicate CamelotPair(row: Row, k: nat, n: string) {
    CamelotHit(row, k) && n == NeighbourName(row, k)
  }

  /** Every hit at or after `j` is scanned. */
  lemma {:induction false} CamelotHitFound(row: Row, j: nat, k: nat)
    requires j <= k && CamelotHit(row, k)
    ensures k in CamelotHitsFrom(row, j)
    decreases k - j
  {
    if j < k {
      CamelotHitFound(row, j + 1, k);
      HitsKeep(row, j, k);
    } else {
      HitsHere(row, k);
    }
  }

  /** A hit found from `j + 1` on is found from `j` on. */
  lemma HitsKeep(row: Row, j: nat, k: nat)
    requires j + 1 < |row| && k in CamelotHitsFrom(row, j + 1)
    ensures k in CamelotHitsFrom(row, j)
  {
    var head := if CamelotHit(row, j) then [j] else [];
    assert CamelotHitsFrom(row, j) == head + CamelotHitsFrom(row, j + 1);
    InAppend(head, CamelotHitsFrom(row, j + 1), k);
  }

  /** A hit at `j` is the first column found from `j` on. */
  lemma HitsHere(row: Row, j: nat)
    requires CamelotHit(row, j)
    ensures j in CamelotHitsFrom(row, j)
  {
    assert CamelotHitsFrom(row, j) == [j] + CamelotHitsFrom(row, j + 1);
  }

  /** A name is in the row's list exactly when some anchor cell yields it. */
  lemma CamelotRowMembers(row: Row, n: string)
    ensures n in CamelotRowNames(row) <==> exists k :: CamelotPair(row, k, n)
  {
    if n in CamelotRowNames(row) {
      CamelotNameSound(row, n);
    }
    if exists k :: CamelotPair(row, k, n) {
      var k :| CamelotPair(row, k, n);
      CamelotNameFound(row, k, n);
    }
  }

  lemma CamelotNameSound(row: Row, n: string)
    requires n in CamelotRowNames(row)
    ensures exists k :: CamelotPair(row, k, n)
  {
    var hs := CamelotHitsFrom(row, 0);
    var names := CamelotRowNames(row);
    var i :| 0 <= i < |names| && names[i] == n;
    assert CamelotPair(row, hs[i], n);
  }

  lemma CamelotNameFound(row: Row, k: nat, n: string)
    requires CamelotPair(row, k, n)
    ensures n in CamelotRowNames(row)
  {
    var hs := CamelotHitsFrom(row, 0);
    CamelotHitFound(row, 0, k);
    var i :| 0 <= i < |hs| && hs[i] == k;
    assert CamelotRowNames(row)[i] == n;
  }

  /** A row belongs to the concatenated tables exactly when it belongs to
      one of them. */
  lemma RowOfTables<R>(ts: seq<seq<R>>, row: R)
    ensures row in Concat(ts) <==> exists t :: 0 <= t < |ts| && row in ts[t]
  {
    InConcat(ts, row);
  }

  /** Every name camelot reports comes from an anchor cell of some row of
      some table, and every such anchor yields its name. */
  lemma CamelotNamesMembers(ts: seq<Table>, n: string)
    ensures n in CamelotNames(Some(ts)) <==>
              exists t, row, k :: 0 <= t < |ts| && row in ts[t] && CamelotPair(row, k, n)
  {
    InFlatMap(Concat(ts), CamelotRowNames, n);
    if n in CamelotNames(Some(ts)) {
      var row :| row in Concat(ts) && n in CamelotRowNames(row);
      CamelotRowMembers(row, n);
      var k :| CamelotPair(row, k, n);
      RowOfTables(ts, row);
      var t :| 0 <= t < |ts| && row in ts[t];
      assert CamelotPair(row, k, n);
    }
    if exists t, row, k :: 0 <= t < |ts| && row in ts[t] && CamelotPair(row, k, n) {
      var t, row, k :| 0 <= t < |ts| && row in ts[t] && CamelotPair(row, k, n);
      RowOfTables(ts, row);
      CamelotRowMembers(row, n);
    }
  }

  // ---------------------------------------------------------------------
  // pdfplumber
  // ---------------------------------------------------------------------

  /** pdfplumber reports an empty cell as `None`. */
  type Cell = Option<string>
  type CellTable = seq<seq<Cell>>
  type CellPage = seq<CellTable>

  /** `cell and "Name of Person Transporting" in str(cell)`. */
  predicate AnchorCell(c: Cell) {
    c.Some? && Contains(c.value, Anchor)
  }

  /** The first anchor cell at or after `j`. */
  function FirstAnchorFrom(row: seq<Cell>, j: nat): (r: Option<nat>)
    requires j <= |row|
    ensures r.Some? ==> j <= r.value < |row| && AnchorCell(row[r.value])
    ensures r.Some? ==> forall k :: j <= k < r.value ==> !AnchorCell(row[k])
    ensures r.None? <==> forall k :: j <= k < |row| ==> !AnchorCell(row[k])
    decreases |row| - j
  {
    if j == |row| then None
    else if AnchorCell(row[j]) then Some(j)
    else FirstAnchorFrom(row, j + 1)
  }

  /** Cell `idx` is the first anchor cell of the row. */
  predicate FirstAnchorAt(row: seq<Cell>, idx: nat) {
    idx < |row| && AnchorCell(row[idx]) && forall k :: 0 <= k < idx ==> !AnchorCell(row[k])
  }

  /** The cell right of `idx` exists and is a non-empty string. */
  predicate FilledNeighbour(row: seq<Cell>, idx: nat) {
    idx + 1 < |row| && row[idx + 1].Some? && row[idx + 1].value != ""
  }

  /** The name one row yields: the neighbour of its first anchor cell, when
      that neighbour is a non-empty cell. Later anchor cells are ignored. */
  function PlumberRowName(row: seq<Cell>): (r: Option<string>)
    ensures r.Some? <==> exists idx :: FirstAnchorAt(row, idx) && FilledNeighbour(row, idx)
    ensures r.Some? ==> exists idx :: FirstAnchorAt(row, idx) && FilledNeighbour(row, idx)
                                      && r.value == CleanName(Trim(row[idx + 1].value))
  {
    match FirstAnchorFrom(row, 0)
    case None => None
    case Some(idx) =>
      assert FirstAnchorAt(row, idx);
      assert forall i :: FirstAnchorAt(row, i) ==> i == idx;
      if FilledNeighbour(row, idx) then Some(CleanName(Trim(row[idx + 1].value)))
      else None
  }

  /** The rows of every table on the first two pages, in order. */
  function PlumberRows(ps: seq<CellPage>): (r: seq<seq<Cell>>) {
    Concat(Concat(Take(ps, 2)))
  }

  /** `extract_driver_names_with_pdfplumber`: the tables of every page, or
      `None` when the library raised; only the first two pages are read. */
  function PlumberNames(pages: Option<seq<CellPage>>): (r: seq<string>) {
    match pages
    case None => []
    case Some(ps) => FlatMap(PlumberRows(ps), (row: seq<Cell>) => PlumberRowName(row).ToSeq())
  }

  /** The rows read are exactly the rows of the tables on pages one and
      two. */
  lemma PlumberRowsMembers(ps: seq<CellPage>, row: seq<Cell>)
    ensures row in PlumberRows(ps) <==> exists p, t :: 0 <= p < |ps| && p < 2 && t in ps[p] && row in t
  {
    var pages := Take(ps, 2);
    RowOfTables(Concat(pages), row);
    if row in PlumberRows(ps) {
      var ti :| 0 <= ti < |Concat(pages)| && row in Concat(pages)[ti];
      RowOfTables(pages, Concat(pages)[ti]);
      var p :| 0 <= p < |pages| && Concat(pages)[ti] in pages[p];
      assert pages[p] == ps[p];
    }
    if exists p, t :: 0 <= p < |ps| && p < 2 && t in ps[p] && row in t {
      var p, t :| 0 <= p < |ps| && p < 2 && t in ps[p] && row in t;
      assert pages[p] == ps[p];
      RowOfTables(pages, t);
    }
  }

  /** Every name pdfplumber reports is the name of some row on the first two
      pages, and every such row's name is reported. */
  lemma PlumberNamesMembers(ps: seq<CellPage>, n: string)
    ensures n in PlumberNames(Some(ps)) <==>
              exists p, t, row :: 0 <= p < |ps| && p < 2 && t in ps[p] && row in t && PlumberRowName(row) == Some(n)
  {
    var f := (row: seq<Cell>) => PlumberRowName(row).ToSeq();
    InFlatMap(PlumberRows(ps), f, n);
    if n in PlumberNames(Some(ps)) {
      var row :| row in PlumberRows(ps) && n in f(row);
      PlumberRowsMembers(ps, row);
      assert PlumberRowName(row) == Some(n);
    }
    if exists p, t, row :: 0 <= p < |ps| && p < 2 && t in ps[p] && row in t && PlumberRowName(row) == Some(n) {
      var p, t, row :| 0 <= p < |ps| && p < 2 && t in ps[p] && row in t && PlumberRowName(row) == Some(n);
      PlumberRowsMembers(ps, row);
      assert n in f(row);
    }
  }

  // ---------------------------------------------------------------------
  // The two table readers compared
  // ---------------------------------------------------------------------

  /** A camelot row seen as pdfplumber cells. */
  function Lift(row: Row): (r: seq<Cell>)
    ensures |r| == |row|
    ensures forall k :: 0 <= k < |row| ==> r[k] == Some(row[k])
  {
    seq(|row|, k requires 0 <= k < |row| => Some(row[k]))
  }

  /** camelot finds nothing in cells `j..` of a row without hits there. */
  lemma {:induction false} CamelotRowNoHits(row: Row, j: nat)
    requires j <= |row|
    requires forall k :: j <= k ==> !CamelotHit(row, k)
    ensures CamelotHitsFrom(row, j) == []
    decreases |row| - j
  {
    if j + 1 < |row| {
      CamelotRowNoHits(row, j + 1);
    }
  }

  /** In a row whose only anchor cell is `idx`, camelot's only possible hit
      is `idx`, and only when the neighbour is longer than three
      characters. */
  lemma {:induction false} CamelotRowSingle(row: Row, j: nat, idx: nat)
    requires j <= idx && idx + 1 < |row|
    requires forall k :: 0 <= k < |row| && k != idx ==> !Contains(row[k], Anchor)
    ensures CamelotHitsFrom(row, j) == if CamelotHit(row, idx) then [idx] else []
    decreases idx - j
  {
    if j < idx {
      assert !CamelotHit(row, j);
      CamelotRowSingle(row, j + 1, idx);
    } else {
      CamelotRowNoHits(row, j + 1);
    }
  }

  /** On a row with a single anchor cell, the two table readers agree when
      the name is longer than three characters; for a shorter, non-empty
      name, camelot drops it and pdfplumber keeps it. */
  lemma TableReadersCompared(row: Row, idx: nat)
    requires idx + 1 < |row| && Contains(row[idx], Anchor)
    requires forall k :: 0 <= k < |row| && k != idx ==> !Contains(row[k], Anchor)
    ensures |Trim(row[idx + 1])| > 3 ==>
              CamelotRowNames(row) == [NeighbourName(row, idx)] &&
              PlumberRowName(Lift(row)) == Some(NeighbourName(row, idx))
    ensures |Trim(row[idx + 1])| <= 3 ==>
              CamelotRowNames(row) == [] &&
              (PlumberRowName(Lift(row)).Some? <==> row[idx + 1] != "")
  {
    CamelotRowSingle(row, 0, idx);
    PlumberSingle(row, idx);
  }

  /** pdfplumber's reading of a row with a single anchor cell. */
  lemma PlumberSingle(row: Row, idx: nat)
    requires idx + 1 < |row| && Contains(row[idx], Anchor)
    requires forall k :: 0 <= k < |row| && k != idx ==> !Contains(row[k], Anchor)
    ensures PlumberRowName(Lift(row)) == if row[idx + 1] == "" then None else Some(NeighbourName(row, idx))
    ensures row[idx + 1] == "" ==> |Trim(row[idx + 1])| <= 3
  {
    var lifted := Lift(row);
    assert FirstAnchorFrom(lifted, 0) == Some(idx) by {
      assert AnchorCell(lifted[idx]);
      assert forall k :: 0 <= k < idx ==> !AnchorCell(lifted[k]);
    }
  }

  /** A cell holding only a badge number cleans to the empty name. */
  lemma BadgeCellCleansToEmpty(digits: string)
    requires |digits| > 0 && forall k :: 0 <= k < |digits| ==> IsDigit(digits[k])
    ensures |Trim("CCE" + digits)| > 3
    ensures CleanName(Trim("CCE" + digits)) == ""
  {
    var cell := "CCE" + digits;
    assert !IsSpace(cell[0]) && !IsSpace(cell[|cell| - 1]);
    TrimUnchanged(cell);
    StripIdsDropsBadge(digits, "");
    assert cell + "" == cell;
  }

  /** A badge cell is not an anchor cell: the anchor starts with `N`. */
  lemma BadgeCellIsNoAnchor(digits: string)
    requires forall k :: 0 <= k < |digits| ==> IsDigit(digits[k])
    ensures !Contains("CCE" + digits, Anchor)
  {
    var cell := "CCE" + digits;
    forall i | 0 <= i <= |cell| - |Anchor|
      ensures !PrefixAt(cell, i, Anchor)
    {
      assert cell[i] != 'N';
      assert Anchor[0] == 'N';
    }
  }

  /** The length check comes before the cleanup: a name cell holding only a
      badge number passes it and yields an empty name, in both table
      readers. */
  lemma BadgeOnlyNameIsEmpty(digits: string)
    requires |digits| > 0 && forall k :: 0 <= k < |digits| ==> IsDigit(digits[k])
    ensures CamelotRowNames([Anchor, "CCE" + digits]) == [""]
    ensures PlumberRowName(Lift([Anchor, "CCE" + digits])) == Some("")
  {
    var row := [Anchor, "CCE" + digits];
    assert PrefixAt(Anchor, 0, Anchor);
    assert Contains(row[0], Anchor);
    BadgeCellIsNoAnchor(digits);
    BadgeCellCleansToEmpty(digits);
    TableReadersCompared(row, 0);
  }

  // ---------------------------------------------------------------------
  // OCR
  // ---------------------------------------------------------------------

  /** A word that, stripped, is exactly the anchor text. */
  predicate OcrAnchor(w: Word) {
    Trim(w.text) == Anchor
  }

  /** The stripped words from `j` on that lie right of anchor word `i` and
      on its line. */
  function BandFrom(ws: seq<Word>, i: nat, j: nat): (r: seq<string>)
    requires i < |ws| && j <= |ws|
    ensures |r| <= |ws| - j
    decreases |ws| - j
  {
    if j >= |ws| then [] else BandWord(ws, i, j) + BandFrom(ws, i, j + 1)
  }

  /** Word `j`, stripped, when it lies in the band of anchor word `i`. */
  function BandWord(ws: seq<Word>, i: nat, j: nat): (r: seq<string>)
    requires i < |ws| && j < |ws|
    ensures |r| <= 1
  {
    if InBand(ws[j], RightEdge(ws[i]), ws[i].top, LineTolerance) then [Trim(ws[j].text)] else []
  }

  /** The names the anchor words from `i` on contribute, in order. */
  function OcrFrom(ws: seq<Word>, i: nat): (r: seq<string>)
    decreases |ws| - i
  {
    if i >= |ws| then []
    else (if OcrAnchor(ws[i]) then BandFrom(ws, i, i + 1) else []) + OcrFrom(ws, i + 1)
  }

  /** `extract_driver_names_with_ocr(pdf_path, page)`: the document has
      `pageCount` pages; `words` are Tesseract's words on that page, or
      `None` when rendering or recognition raised. */
  function OcrNames(pageCount: nat, page: nat, words: Option<seq<Word>>): (r: seq<string>)
    ensures page >= pageCount ==> r == []
    ensures words.None? ==> r == []
    ensures page < pageCount && words.Some? ==> r == OcrFrom(words.value, 0)
  {
    if page >= pageCount then []
    else match words
      case None => []
      case Some(ws) => OcrFrom(ws, 0)
  }

  /** Word `b` lies in the band of word `a` and reads `n`. */
  ghost predicate BandPair(ws: seq<Word>, a: nat, b: nat, n: string) {
    a < |ws| && b < |ws| && InBand(ws[b], RightEdge(ws[a]), ws[a].top, LineTolerance) && n == Trim(ws[b].text)
  }

  /** Word `b` follows anchor word `a` on its line and reads `n`. */
  ghost predicate OcrPair(ws: seq<Word>, a: nat, b: nat, n: string) {
    a < b < |ws| && OcrAnchor(ws[a]) && BandPair(ws, a, b, n)
  }

  /** A word is in the band list from `j` exactly when some word from `j`
      on lies in the band and reads it. */
  lemma BandMembers(ws: seq<Word>, i: nat, j: nat, n: string)
    requires i < |ws| && j <= |ws|
    ensures n in BandFrom(ws, i, j) <==> exists b :: j <= b && BandPair(ws, i, b, n)
  {
    if n in BandFrom(ws, i, j) {
      BandSound(ws, i, j, n);
    }
    if exists b :: j <= b && BandPair(ws, i, b, n) {
      var b :| j <= b && BandPair(ws, i, b, n);
      BandFound(ws, i, j, b, n);
    }
  }

  lemma {:induction false} BandSound(ws: seq<Word>, i: nat, j: nat, n: string)
    requires i < |ws| && j <= |ws| && n in BandFrom(ws, i, j)
    ensures exists b :: j <= b && BandPair(ws, i, b, n)
    decreases |ws| - j
  {
    var w, rest := BandWord(ws, i, j), BandFrom(ws, i, j + 1);
    assert BandFrom(ws, i, j) == w + rest;
    InAppend(w, rest, n);
    if n in w {
      assert BandPair(ws, i, j, n);
    } else {
      BandSound(ws, i, j + 1, n);
    }
  }

  lemma {:induction false} BandFound(ws: seq<Word>, i: nat, j: nat, b: nat, n: string)
    requires i < |ws| && j <= b && BandPair(ws, i, b, n)
    ensures n in BandFrom(ws, i, j)
    decreases b - j
  {
    var w, rest := BandWord(ws, i, j), BandFrom(ws, i, j + 1);
    assert BandFrom(ws, i, j) == w + rest;
    if b == j {
      assert w == [n];
    } else {
      BandFound(ws, i, j + 1, b, n);
    }
    InAppend(w, rest, n);
  }

  /** One step of the word scan: the band of word `i` when it is an
      anchor, then the rest. */
  lemma OcrStep(ws: seq<Word>, i: nat)
    requires i < |ws|
    ensures OcrFrom(ws, i) == (if OcrAnchor(ws[i]) then BandFrom(ws, i, i + 1) else []) + OcrFrom(ws, i + 1)
  {
  }

  lemma {:induction false} OcrFound(ws: seq<Word>, i: nat, a: nat, b: nat, n: string)
    requires i <= a && OcrPair(ws, a, b, n)
    ensures n in OcrFrom(ws, i)
    decreases a - i
  {
    OcrStep(ws, i);
    var head := if OcrAnchor(ws[i]) then BandFrom(ws, i, i + 1) else [];
    if i < a {
      OcrFound(ws, i + 1, a, b, n);
    } else {
      BandFound(ws, i, i + 1, b, n);
      assert head == BandFrom(ws, i, i + 1);
    }
    InAppend(head, OcrFrom(ws, i + 1), n);
  }

  lemma {:induction false} OcrSound(ws: seq<Word>, i: nat, n: string)
    requires n in OcrFrom(ws, i)
    ensures exists a, b :: i <= a && OcrPair(ws, a, b, n)
    decreases |ws| - i
  {
    OcrStep(ws, i);
    if OcrAnchor(ws[i]) && n in BandFrom(ws, i, i + 1) {
      BandSound(ws, i, i + 1, n);
      var b :| i + 1 <= b && BandPair(ws, i, b, n);
      assert OcrPair(ws, i, b, n);
    } else {
      OcrSound(ws, i + 1, n);
      var a, b :| i + 1 <= a && OcrPair(ws, a, b, n);
      assert i <= a;
    }
  }

  /** Every OCR name is a word right of some earlier anchor word on its
      line, and every such word is reported. */
  lemma OcrMembers(ws: seq<Word>, n: string)
    ensures n in OcrFrom(ws, 0) <==> exists a, b :: OcrPair(ws, a, b, n)
  {
    if n in OcrFrom(ws, 0) {
      OcrSound(ws, 0, n);
    }
    if exists a, b :: OcrPair(ws, a, b, n) {
      var a, b :| OcrPair(ws, a, b, n);
      OcrFound(ws, 0, a, b, n);
    }
  }

  /** Appending word `j`'s contribution advances the inner loop by one. */
  lemma BandAdvance(ws: seq<Word>, i: nat, j: nat, band: seq<string>)
    requires i < |ws| && i + 1 <= j < |ws|
    requires band + BandFrom(ws, i, j) == BandFrom(ws, i, i + 1)
    ensures (band + BandWord(ws, i, j)) + BandFrom(ws, i, j + 1) == BandFrom(ws, i, i + 1)
  {
    var w, rest := BandWord(ws, i, j), BandFrom(ws, i, j + 1);
    assert BandFrom(ws, i, j) == w + rest;
    assert band + (w + rest) == (band + w) + rest;
  }

  /** Appending anchor word `i`'s band advances the outer loop by one. */
  lemma OcrAdvance(ws: seq<Word>, i: nat, found: seq<string>, names: seq<string>)
    requires i < |ws|
    requires found == if OcrAnchor(ws[i]) then BandFrom(ws, i, i + 1) else []
    requires names + OcrFrom(ws, i) == OcrFrom(ws, 0)
    ensures (names + found) + OcrFrom(ws, i + 1) == OcrFrom(ws, 0)
  {
    OcrStep(ws, i);
  }

  /** The inner loop of the OCR reader: the words after anchor word `i`
      that lie in its band, in order. */
  method BandScan(ws: seq<Word>, i: nat) returns (band: seq<string>)
    requires i < |ws|
    ensures band == BandFrom(ws, i, i + 1)
  {
    band := [];
    var j := i + 1;
    while j < |ws|
      invariant i + 1 <= j <= |ws|
      invariant band + BandFrom(ws, i, j) == BandFrom(ws, i, i + 1)
    {
      BandAdvance(ws, i, j, band);
      band := band + BandWord(ws, i, j);
      j := j + 1;
    }
    assert band + [] == band;
  }

  /** The nested loops of the OCR reader, as written: for every anchor word,
      every later word in its band is appended. */
  method OcrScan(ws: seq<Word>) returns (names: seq<string>)
    ensures names == OcrFrom(ws, 0)
  {
    names := [];
    var i := 0;
    while i < |ws|
      invariant 0 <= i <= |ws|
      invariant names + OcrFrom(ws, i) == OcrFrom(ws, 0)
    {
      var found: seq<string> := [];
      if OcrAnchor(ws[i]) {
        found := BandScan(ws, i);
      }
      OcrAdvance(ws, i, found, names);
      names := names + found;
      i := i + 1;
    }
    assert names + [] == names;
  }
}
