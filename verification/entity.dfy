/** The shipper's company name, read by OCR from the first page: the words
    to the right of the "Originating Entity" label and on its line.
    Rendering the page and running Tesseract are outside the model; the
    recognised words are an input, and a raised exception is a `Failure`
    carrying its message (the locator does not catch it).
 */
module OriginatingEntity {
  import opened Wrappers
  import opened Text
  import opened Seqs
  import opened Ocr

  /** The messages the locator reports in place of a company name. */
  const NotFoundPrefix := "PDF file not found: "
  const NotLocated := "Could not locate 'Originating Entity'"
  const NoCompany := "No company name found"

  /** How far, in pixels, a word's top may be from the label's top. */
  const RowTolerance: nat := 15

  /** The stripped, lower-cased word contains "originating". */
  predicate IsOriginating(w: Word) {
    Contains(Lower(Trim(w.text)), "originating")
  }

  /** The stripped, lower-cased word contains "entity". */
  predicate IsEntity(w: Word) {
    Contains(Lower(Trim(w.text)), "entity")
  }

  // ---------------------------------------------------------------------
  // Locating the label
  // ---------------------------------------------------------------------

  /** What the loop's `if`/`elif` sees in a word: "originating" wins over
      "entity" when a word holds both. */
  datatype Mark = Originating | Entity | Other

  function Classify(w: Word): (m: Mark)
    ensures m == Originating <==> IsOriginating(w)
    ensures m == Entity <==> !IsOriginating(w) && IsEntity(w)
  {
    if IsOriginating(w) then Originating else if IsEntity(w) then Entity else Other
  }

  function Marks(ws: seq<Word>): (ms: seq<Mark>)
    ensures |ms| == |ws|
    ensures forall k :: 0 <= k < |ws| ==> ms[k] == Classify(ws[k])
  {
    seq(|ws|, k requires 0 <= k < |ws| => Classify(ws[k]))
  }

  /** The scan for the label, as the source writes it: `orig` is the last
      "originating" word seen so far; an "entity" word at most two words
      after `orig` ends the scan. The result is the pair (originating word,
      entity word). */
  function Locate(ms: seq<Mark>, i: nat, orig: Option<nat>): (r: Option<(nat, nat)>)
    requires i <= |ms|
    ensures r.Some? ==> i <= r.value.1 < |ms| && ms[r.value.1] == Entity
    ensures r.Some? && (orig.Some? ==> orig.value < i) ==> r.value.1 - 2 <= r.value.0 < r.value.1
    decreases |ms| - i
  {
    if i == |ms| then None
    else if ms[i] == Originating then Locate(ms, i + 1, Some(i))
    else if ms[i] == Entity && orig.Some? && i - orig.value <= 2 then Some((orig.value, i))
    else Locate(ms, i + 1, orig)
  }

  /** The last "originating" word before position `k`. */
  function LastOriginating(ms: seq<Mark>, k: nat): (r: Option<nat>)
    requires k <= |ms|
    ensures r.Some? ==> r.value < k && ms[r.value] == Originating
    ensures r.Some? ==> forall m :: r.value < m < k ==> ms[m] != Originating
    ensures r.None? ==> forall m :: 0 <= m < k ==> ms[m] != Originating
  {
    if k == 0 then None
    else if ms[k - 1] == Originating then Some(k - 1)
    else LastOriginating(ms, k - 1)
  }

  /** Word `k` ends the scan: it is an "entity" word and the last
      "originating" word before it is at most two words back. */
  predicate EntityStop(ms: seq<Mark>, k: nat)
    requires k < |ms|
  {
    && ms[k] == Entity
    && LastOriginating(ms, k).Some?
    && k - LastOriginating(ms, k).value <= 2
  }

  /** The scan finds the first word that ends it, paired with the last
      "originating" word before that one; it finds nothing exactly when no
      word ends it. */
  lemma LocateFindsFirstStop(ms: seq<Mark>, i: nat)
    requires i <= |ms|
    ensures Locate(ms, i, LastOriginating(ms, i)).None? <==> forall k :: i <= k < |ms| ==> !EntityStop(ms, k)
    ensures Locate(ms, i, LastOriginating(ms, i)).Some? ==>
              && i <= Locate(ms, i, LastOriginating(ms, i)).value.1 < |ms|
              && EntityStop(ms, Locate(ms, i, LastOriginating(ms, i)).value.1)
              && (forall k :: i <= k < Locate(ms, i, LastOriginating(ms, i)).value.1 ==> !EntityStop(ms, k))
              && Some(Locate(ms, i, LastOriginating(ms, i)).value.0) == LastOriginating(ms, Locate(ms, i, LastOriginating(ms, i)).value.1)
  {
    LocateNoneIffNoStop(ms, i);
    LocateSomeIsFirstStop(ms, i);
  }

  lemma {:induction false} LocateNoneIffNoStop(ms: seq<Mark>, i: nat)
    requires i <= |ms|
    ensures Locate(ms, i, LastOriginating(ms, i)).None? <==> forall k :: i <= k < |ms| ==> !EntityStop(ms, k)
    decreases |ms| - i
  {
    if i < |ms| {
      var last := LastOriginating(ms, i);
      LocateNoneIffNoStop(ms, i + 1);
      if ms[i] == Originating {
        assert LastOriginating(ms, i + 1) == Some(i);
        assert !EntityStop(ms, i);
      } else {
        assert LastOriginating(ms, i + 1) == last;
        if !EntityStop(ms, i) {
          assert Locate(ms, i, last) == Locate(ms, i + 1, last);
        }
      }
    }
  }

  lemma {:induction false} LocateSomeIsFirstStop(ms: seq<Mark>, i: nat)
    requires i <= |ms|
    ensures Locate(ms, i, LastOriginating(ms, i)).Some? ==>
              && EntityStop(ms, Locate(ms, i, LastOriginating(ms, i)).value.1)
              && (forall k :: i <= k < Locate(ms, i, LastOriginating(ms, i)).value.1 ==> !EntityStop(ms, k))
              && Some(Locate(ms, i, LastOriginating(ms, i)).value.0) == LastOriginating(ms, Locate(ms, i, LastOriginating(ms, i)).value.1)
    decreases |ms| - i
  {
    if i < |ms| {
      var last := LastOriginating(ms, i);
      LocateSomeIsFirstStop(ms, i + 1);
      if ms[i] == Originating {
        assert LastOriginating(ms, i + 1) == Some(i);
        assert !EntityStop(ms, i);
      } else {
        assert LastOriginating(ms, i + 1) == last;
        if EntityStop(ms, i) {
          assert Locate(ms, i, last) == Some((last.value, i));
        } else {
          assert Locate(ms, i, last) == Locate(ms, i + 1, last);
        }
      }
    }
  }

  /** The label is located exactly when some word ends the scan. */
  lemma LocatedIffStop(ws: seq<Word>)
    ensures Locate(Marks(ws), 0, None).Some? <==> exists k :: 0 <= k < |ws| && EntityStop(Marks(ws), k)
  {
    LocateFindsFirstStop(Marks(ws), 0);
  }

  // ---------------------------------------------------------------------
  // Reading the company name
  // ---------------------------------------------------------------------

  /** The words of `ws` right of `edge` and within the row tolerance of
      `rowTop`, in the order `ws` gives them. */
  function Band(ws: seq<Word>, edge: int, rowTop: int): (r: seq<Word>)
    ensures forall w :: w in r <==> w in ws && InBand(w, edge, rowTop, RowTolerance)
  {
    var inBand := (w: Word) => InBand(w, edge, rowTop, RowTolerance);
    var r := Filter(ws, inBand);
    forall w
      ensures w in r <==> w in ws && InBand(w, edge, rowTop, RowTolerance)
    {
      InFilter(ws, inBand, w);
    }
    r
  }

  /** The band keeps reading order: the band of a concatenation is the
      band of the first part followed by the band of the second. */
  lemma BandAppend(a: seq<Word>, b: seq<Word>, edge: int, rowTop: int)
    ensures Band(a + b, edge, rowTop) == Band(a, edge, rowTop) + Band(b, edge, rowTop)
  {
    FilterAppend(a, b, (w: Word) => InBand(w, edge, rowTop, RowTolerance));
  }

  /** A single word is kept exactly when it lies in the band. */
  lemma BandSingle(w: Word, edge: int, rowTop: int)
    ensures Band([w], edge, rowTop) == if InBand(w, edge, rowTop, RowTolerance) then [w] else []
  {
  }

  /** The words right of the entity word and on the originating word's line,
      taken from the whole page in reading order, unstripped. */
  function BandWords(ws: seq<Word>, orig: nat, entity: nat): (r: seq<Word>)
    requires orig < |ws| && entity < |ws|
    ensures forall w :: w in r <==> w in ws && InBand(w, RightEdge(ws[entity]), ws[orig].top, RowTolerance)
    ensures r == Band(ws, RightEdge(ws[entity]), ws[orig].top)
  {
    Band(ws, RightEdge(ws[entity]), ws[orig].top)
  }

  function Texts(ws: seq<Word>): (r: seq<string>)
    ensures |r| == |ws|
    ensures forall k :: 0 <= k < |ws| ==> r[k] == ws[k].text
  {
    seq(|ws|, k requires 0 <= k < |ws| => ws[k].text)
  }

  /** The note the cleanup removes from the joined words. */
  const AgencyNote := "For Agency Use Only"

  /** The text holds none of the five literals the cleanup removes. */
  predicate Plain(t: string) {
    && !Contains(t, "LLC") && !Contains(t, AgencyNote) && !Contains(t, ", ")
    && !Contains(t, "[") && !Contains(t, "]")
  }

  /** The cleanup of the joined words: the literals "LLC", "For Agency Use
      Only", ", ", "[" and "]" are removed in that order, then the text is
      stripped. */
  function CleanCompany(s: string): (r: string)
    ensures |r| <= |s|
    ensures forall k :: 0 <= k < |r| ==> r[k] != '[' && r[k] != ']'
  {
    var a := RemoveAll(s, "LLC");
    var b := RemoveAll(a, AgencyNote);
    var c := RemoveAll(b, ", ");
    var d := RemoveAll(c, "[");
    var e := RemoveAll(d, "]");
    RemoveAllOmitsChar(c, '[');
    RemoveAllKeepsAbsent(d, "]", '[');
    RemoveAllOmitsChar(d, ']');
    TrimAvoids(e, '[');
    TrimAvoids(e, ']');
    Trim(e)
  }

  /** A text holding none of the five literals is only stripped. */
  lemma CleanCompanyStrips(s: string)
    requires Plain(s)
    ensures CleanCompany(s) == Trim(s)
  {
    RemoveAllAbsent(s, "LLC");
    RemoveAllAbsent(s, AgencyNote);
    RemoveAllAbsent(s, ", ");
    RemoveAllAbsent(s, "[");
    RemoveAllAbsent(s, "]");
  }

  /** A trailing ", LLC" is removed: the comma, the space and the suffix go,
      and the name before them is only stripped. */
  lemma CleanCompanyDropsLlc(t: string)
    requires Plain(t)
    ensures CleanCompany(t + ", LLC") == Trim(t)
  {
    var u := t + ", ";
    assert t + [','] + [' '] == u;
    assert t + [','] + [' '] + "LLC" == u + "LLC" == t + ", LLC";
    NotContainsSnoc(t, ',', "LLC");
    NoOccurrenceBefore(t + [','], ' ', "LLC");
    RemoveAllAtEnd(u, "LLC");
    NotContainsSnoc(t, ',', AgencyNote);
    NotContainsSnoc(t + [','], ' ', AgencyNote);
    RemoveAllAbsent(u, AgencyNote);
    forall i | 0 <= i < |t| ensures !PrefixAt(u, i, ", ") {
      if i + 2 <= |t| {
        assert u[i..i + 2] == t[i..i + 2];
        assert !PrefixAt(t, i, ", ");
      } else {
        assert u[i..i + 2][1] == ',';
      }
    }
    RemoveAllAtEnd(t, ", ");
    RemoveAllAbsent(t, "[");
    RemoveAllAbsent(t, "]");
  }

  /** A trailing " For Agency Use Only" is removed, and the name before it is
      only stripped, provided the name does not end with a comma (which
      the ", " removal would then take). */
  lemma CleanCompanyDropsAgencyNote(t: string)
    requires Plain(t)
    requires t == [] || t[|t| - 1] != ','
    ensures CleanCompany(t + " " + AgencyNote) == Trim(t)
  {
    var u := t + " ";
    assert t + [' '] + AgencyNote == u + AgencyNote == t + " " + AgencyNote;
    NoLlcBeforeNote(t);
    RemoveAllAbsent(u + AgencyNote, "LLC");
    NoteSpacesNotBeforeF();
    NoOccurrenceBefore(t, ' ', AgencyNote);
    RemoveAllAtEnd(u, AgencyNote);
    NoCommaBeforeSpace(t);
    RemoveAllAbsent(u, ", ");
    NotContainsSnoc(t, ' ', "[");
    NotContainsSnoc(t, ' ', "]");
    RemoveAllAbsent(u, "[");
    RemoveAllAbsent(u, "]");
    TrimDropsTrailingSpace(t, ' ');
  }

  lemma NoLlcBeforeNote(t: string)
    requires !Contains(t, "LLC")
    ensures !Contains(t + " " + AgencyNote, "LLC")
  {
    var s := t + " " + AgencyNote;
    var llc := "LLC";
    assert llc[0] == 'L' && llc[1] == 'L' && llc[2] == 'C';
    forall i | 0 <= i <= |s| - 3 ensures !PrefixAt(s, i, llc) {
      var w := s[i..i + 3];
      if i + 3 <= |t| {
        assert w == t[i..i + 3];
        assert !PrefixAt(t, i, llc);
      } else if i <= |t| {
        assert w[|t| - i] == s[|t|] == ' ';
        assert w[|t| - i] != llc[|t| - i];
      } else {
        NoLInNote(i - |t| - 1);
        assert w[0] == s[i] == AgencyNote[i - |t| - 1];
        assert w[0] != llc[0];
      }
    }
  }

  lemma NoteSpacesNotBeforeF()
    ensures forall j :: 0 <= j < |AgencyNote| - 1 && AgencyNote[j] == ' ' ==> AgencyNote[j + 1] != AgencyNote[0]
  {
  }

  lemma NoLInNote(k: nat)
    requires k < |AgencyNote|
    ensures AgencyNote[k] != 'L'
  {
  }

  lemma NoCommaBeforeSpace(t: string)
    requires !Contains(t, ", ")
    requires t == [] || t[|t| - 1] != ','
    ensures !Contains(t + " ", ", ")
  {
    var u := t + " ";
    forall i | 0 <= i <= |u| - 2 ensures !PrefixAt(u, i, ", ") {
      if i + 2 <= |t| {
        assert u[i..i + 2] == t[i..i + 2];
        assert !PrefixAt(t, i, ", ");
      } else {
        assert i == |t| - 1 && u[i..i + 2][0] == t[|t| - 1];
        assert ", "[0] == ',';
      }
    }
  }

  /** The removals run one after the other, so a literal that a later
      removal brings together is kept: "L[LC" loses its bracket and keeps
      the "LLC" that appears. */
  lemma CleanCompanyOrder()
    ensures CleanCompany("L[LC") == "LLC"
  {
    KeepsL();
    assert RemoveAll("L[LC", "For Agency Use Only") == "L[LC";
    KeepsComma();
    DropsBracket();
    assert RemoveAll("LLC", "]") == "LLC" by {
      assert RemoveAll("C", "]") == "C";
      assert RemoveAll("LC", "]") == "LC";
    }
    TrimUnchanged("LLC");
  }

  lemma KeepsL()
    ensures RemoveAll("L[LC", "LLC") == "L[LC"
  {
    assert RemoveAll("LC", "LLC") == "LC";
    assert "[LC"[0..3][0] == '[';
    assert RemoveAll("[LC", "LLC") == "[LC";
    assert "L[LC"[0..3][1] == '[';
    assert "L[LC"[1..] == "[LC";
  }

  lemma KeepsComma()
    ensures RemoveAll("L[LC", ", ") == "L[LC"
  {
    assert RemoveAll("C", ", ") == "C";
    assert RemoveAll("LC", ", ") == "LC";
    assert RemoveAll("[LC", ", ") == "[LC";
  }

  lemma DropsBracket()
    ensures RemoveAll("L[LC", "[") == "LLC"
  {
    assert "C"[0..1][0] == 'C' && "C"[1..] == [];
    assert RemoveAll("C", "[") == "C";
    assert RemoveAll("LC", "[") == "LC";
    assert RemoveAll("[LC", "[") == "LC";
  }

  /** The company name on a page whose words are `ws`, or the message that
      stands in for it. */
  function CompanyFromWords(ws: seq<Word>): (r: string)
    ensures r != []
    ensures forall k :: 0 <= k < |r| ==> r[k] != '[' && r[k] != ']'
    ensures Locate(Marks(ws), 0, None).None? ==> r == NotLocated
    ensures Locate(Marks(ws), 0, None).Some? ==>
              r == CompanyNear(ws, Locate(Marks(ws), 0, None).value.0, Locate(Marks(ws), 0, None).value.1)
  {
    match Locate(Marks(ws), 0, None)
    case None => NotLocated
    case Some((o, e)) => CompanyNear(ws, o, e)
  }

  /** The company read from the band right of word `e` and on word `o`'s
      line, or the message saying there is none. */
  function CompanyNear(ws: seq<Word>, o: nat, e: nat): (r: string)
    requires o < |ws| && e < |ws|
    ensures r != []
    ensures forall k :: 0 <= k < |r| ==> r[k] != '[' && r[k] != ']'
    ensures r == NoCompany || r == CleanCompany(Join(Texts(BandWords(ws, o, e)), " "))
    ensures CleanCompany(Join(Texts(BandWords(ws, o, e)), " ")) != [] ==>
              r == CleanCompany(Join(Texts(BandWords(ws, o, e)), " "))
    ensures CleanCompany(Join(Texts(BandWords(ws, o, e)), " ")) == [] ==> r == NoCompany
  {
    var band := BandWords(ws, o, e);
    if |band| == 0 then NoCompany
    else
      var cleaned := CleanCompany(Join(Texts(band), " "));
      if cleaned != [] then cleaned else NoCompany
  }

  /** Both words the scan returns are words of the page. */
  lemma {:induction false} LocateBounds(ms: seq<Mark>, i: nat, orig: Option<nat>)
    requires i <= |ms|
    requires orig.Some? ==> orig.value < |ms|
    ensures Locate(ms, i, orig).Some? ==> Locate(ms, i, orig).value.0 < |ms| && Locate(ms, i, orig).value.1 < |ms|
    decreases |ms| - i
  {
    if i < |ms| {
      if ms[i] == Originating {
        LocateBounds(ms, i + 1, Some(i));
      } else {
        LocateBounds(ms, i + 1, orig);
      }
    }
  }

  /** `process_pdf`: `fileExists` tells whether the file is there; `words` are
      the first page's words, or the message of the exception rendering or
      recognition raised. */
  function ProcessPdf(fileExists: bool, path: string, words: Result<seq<Word>, string>): (r: Result<string, string>)
    ensures !fileExists ==> r == Success(NotFoundPrefix + path)
    ensures fileExists && words.Failure? ==> r == Failure(words.error)
    ensures r.Success? ==> r.value != []
    ensures fileExists && words.Success? ==> r == Success(CompanyFromWords(words.value))
    ensures fileExists && r.Success? ==> forall k :: 0 <= k < |r.value| ==> r.value[k] != '[' && r.value[k] != ']'
  {
    if !fileExists then Success(NotFoundPrefix + path)
    else match words
      case Failure(e) => Failure(e)
      case Success(ws) => Success(CompanyFromWords(ws))
  }
}
