/** The older regex extractor, `extract_data_from_pdf`: company, drivers
    and one record per package, read straight from the text of all pages
    joined together. Each pattern is written out as a scanner, with the
    backtracking argument that makes it deterministic next to it. The
    extractor reuses a weight test from the previous package when the
    current one has no M-number; `ExtractAsWritten` keeps that behaviour,
    `Extract` gives such a package no weight.
 */
module PdfExtractor {
  import opened Wrappers
  import opened Text
  import opened Seqs
  import opened Policy
  import opened LineCapture
  import MNumber

  const NotFound := "Not found"
  const Separator := " / "
  const DriverLabel := "Name of Person Transporting"
  const Undetermined := "Undetermined"

  /** The gram values, in the order the weight test tries them. */
  const Weights: seq<string> := ["2.83", "5.66", "14.15", "28.3"]

  /** The priority order of the strain test (case-sensitive). */
  const StrainRules: seq<Rule<string>> := [
    Rule(["Indica"], "Indica"),
    Rule(["Sativa"], "Sativa"),
    Rule(["Hybrid"], "Hybrid")
  ]

  /** The priority order of the type test, on lower-cased text. */
  const TypeRules: seq<Rule<string>> := [
    Rule(Weights, "Flower"),
    Rule(["gummies", "edibles", "drink"], "Edibles"),
    Rule(["distillate", "cart", "cartridge"], "Cartridge")
  ]

  predicate OneLine(x: string) {
    forall k :: 0 <= k < |x| ==> x[k] != '\n'
  }

  // ---------------------------------------------------------------------
  // Company and drivers
  // ---------------------------------------------------------------------

  /** The company: the first `1. Outbound Transporter` line, case ignored. */
  function Company(text: string): (r: string)
    ensures (forall p :: 0 <= p < |text| ==> !OutboundAt(text, p, true)) ==> r == NotFound
    ensures forall p :: 0 <= p < |text| && OutboundAt(text, p, true) && (forall q :: 0 <= q < p ==> !OutboundAt(text, q, true))
              ==> r == CaptureAt(text, p, true)
    ensures r == NotFound || OneLine(r)
  {
    match OutboundTransporter(text, true)
    case None => NotFound
    case Some(c) => c
  }

  /** The label the driver pattern starts with, at `p`. */
  predicate LabelAt(s: string, p: nat) {
    PrefixAt(s, p, DriverLabel)
  }

  /** `Name of Person Transporting\s*(.*?)\n` matches at `p`: the label,
      and a newline somewhere after it (see `LineAfter`). */
  predicate DriverAt(s: string, p: nat) {
    LabelAt(s, p) && FindChar(s, p + |DriverLabel|, '\n') < |s|
  }

  /** The group of a capture never holds a newline. */
  lemma GroupOneLine(s: string, cap: Capture)
    requires cap.from <= cap.to <= |s|
    requires forall k :: cap.from <= k < cap.to ==> s[k] != '\n'
    ensures OneLine(Group(s, cap))
  {
    assert forall k :: 0 <= k < cap.to - cap.from ==> Group(s, cap)[k] == s[cap.from + k];
  }

  /** The next match of the driver pattern at or after `i`: its group
      and the position behind the newline that ended it. The scan looks for
      the label; when no newline follows the first label, none follows any
      later one either, and there is no match. */
  function NextDriver(s: string, i: nat): (r: Option<(string, nat)>)
    requires i <= |s|
    ensures r.Some? ==> i < r.value.1 <= |s| && OneLine(r.value.0)
    decreases |s| - i
  {
    if i == |s| then None
    else if LabelAt(s, i) then
      match LineAfter(s, i + |DriverLabel|)
      case None => None
      case Some(cap) =>
        GroupOneLine(s, cap);
        Some((Group(s, cap), cap.to + 1))
    else NextDriver(s, i + 1)
  }

  /** `re.findall` of the driver pattern from position `i`: after each
      match the search resumes behind the newline that ended it. */
  function DriverCaptures(s: string, i: nat): (r: seq<string>)
    requires i <= |s|
    ensures forall k :: 0 <= k < |r| ==> OneLine(r[k])
    decreases |s| - i
  {
    match NextDriver(s, i)
    case None => []
    case Some((g, j)) =>
      var rest := DriverCaptures(s, j);
      ConsAll(g, rest, OneLine);
      [g] + rest
  }

  /** The scan finds a match exactly when the driver pattern matches
      somewhere from `i` on. */
  lemma {:induction false} NextDriverIffMatch(s: string, i: nat)
    requires i <= |s|
    ensures NextDriver(s, i).None? <==> forall q :: i <= q < |s| ==> !DriverAt(s, q)
    decreases |s| - i
  {
    if i < |s| {
      var c := i + |DriverLabel|;
      if LabelAt(s, i) {
        if LineAfter(s, c).None? {
          NoLineNoDriver(s, i);
        } else {
          LineMeansDriver(s, i);
        }
      } else {
        NextDriverIffMatch(s, i + 1);
      }
    }
  }

  /** With no newline after a label, no later label ends a line either. */
  lemma NoLineNoDriver(s: string, i: nat)
    requires LabelAt(s, i) && LineAfter(s, i + |DriverLabel|).None?
    ensures forall q :: i <= q < |s| ==> !DriverAt(s, q)
  {
    forall q | i <= q < |s| ensures !DriverAt(s, q) {
      if LabelAt(s, q) {
        assert FindChar(s, q + |DriverLabel|, '\n') == |s|;
      }
    }
  }

  /** A label whose line can be captured is a driver match. */
  lemma LineMeansDriver(s: string, i: nat)
    requires LabelAt(s, i) && LineAfter(s, i + |DriverLabel|).Some?
    ensures DriverAt(s, i)
  {
    var cap := LineAfter(s, i + |DriverLabel|).value;
    assert FindChar(s, i + |DriverLabel|, '\n') <= cap.to;
  }

  /** The capture of the driver match at `p`. */
  function DriverMatch(s: string, p: nat): (cap: Capture)
    requires DriverAt(s, p)
    ensures p + |DriverLabel| <= cap.from <= cap.to < |s| && s[cap.to] == '\n'
    ensures AllSpace(s[p + |DriverLabel|..cap.from])
    ensures forall k :: cap.from <= k < cap.to ==> s[k] != '\n'
  {
    LineAfter(s, p + |DriverLabel|).value
  }

  /** The scan from `i` finds the first driver match at or after `i`. */
  lemma {:induction false} NextDriverFirst(s: string, i: nat, p: nat)
    requires i <= p < |s| && DriverAt(s, p)
    requires forall q :: i <= q < p ==> !DriverAt(s, q)
    ensures NextDriver(s, i) == Some((Group(s, DriverMatch(s, p)), DriverMatch(s, p).to + 1))
    decreases p - i
  {
    if i < p {
      if LabelAt(s, i) {
        LabelBeforeDriver(s, i, p);
      }
      NextDriverFirst(s, i + 1, p);
    }
  }

  /** A label before a driver match is a driver match too: the newline
      that ends the later one also follows the earlier label. */
  lemma LabelBeforeDriver(s: string, i: nat, p: nat)
    requires i <= p && LabelAt(s, i) && DriverAt(s, p)
    ensures DriverAt(s, i)
  {
    var k := FindChar(s, p + |DriverLabel|, '\n');
    assert FindChar(s, i + |DriverLabel|, '\n') <= k;
  }

  /** `re.findall` from `i` starts with the group of the first driver match
      at or after `i`, and resumes behind the newline that ended it. */
  lemma DriverCapturesFirst(s: string, i: nat, p: nat)
    requires i <= p < |s| && DriverAt(s, p)
    requires forall q :: i <= q < p ==> !DriverAt(s, q)
    ensures DriverMatch(s, p).to + 1 <= |s|
    ensures DriverCaptures(s, i) == [Group(s, DriverMatch(s, p))] + DriverCaptures(s, DriverMatch(s, p).to + 1)
  {
    var cap := DriverMatch(s, p);
    var g, j := Group(s, cap), cap.to + 1;
    NextDriverFirst(s, i, p);
    CapturesUnfold(s, i, g, j);
  }

  /** One step of `findall`: the next match's group, then the rest. */
  lemma CapturesUnfold(s: string, i: nat, g: string, j: nat)
    requires i <= |s| && NextDriver(s, i) == Some((g, j))
    ensures j <= |s| && DriverCaptures(s, i) == [g] + DriverCaptures(s, j)
  {
  }

  /** There is nothing to capture exactly when the driver pattern matches
      nowhere. */
  lemma NoCapturesIffNoDriver(s: string, i: nat)
    requires i <= |s|
    ensures DriverCaptures(s, i) == [] <==> forall q :: i <= q < |s| ==> !DriverAt(s, q)
  {
    NextDriverIffMatch(s, i);
  }

  /** The drivers joined with " / ", or "Not found". */
  function Drivers(text: string): (r: string)
    ensures r == NotFound <== forall q :: 0 <= q < |text| ==> !DriverAt(text, q)
    ensures (exists q :: 0 <= q < |text| && DriverAt(text, q)) ==> r == Join(DriverCaptures(text, 0), Separator)
  {
    NoCapturesIffNoDriver(text, 0);
    var caps := DriverCaptures(text, 0);
    if caps == [] then NotFound else Join(caps, Separator)
  }

  /** One driver line as the manifest prints it. */
  function DriverLine(name: string): (r: string) {
    DriverLabel + " " + name + "\n"
  }

  /** A name that is one line and does not begin with whitespace. */
  predicate PlainName(name: string) {
    name != [] && OneLine(name) && !IsSpace(name[0])
  }

  /** Where the label, the name and the newline of a driver line at `i`
      are. */
  lemma DriverLineShape(s: string, i: nat, name: string)
    requires i + |DriverLine(name)| <= |s| && s[i..i + |DriverLine(name)|] == DriverLine(name)
    ensures PrefixAt(s, i, DriverLabel)
    ensures s[i + |DriverLabel|] == ' '
    ensures s[i + |DriverLabel| + 1..i + |DriverLabel| + 1 + |name|] == name
    ensures s[i + |DriverLabel| + 1 + |name|] == '\n'
  {
    var n := |DriverLabel|;
    var line := DriverLine(name);
    assert forall k :: 0 <= k < |line| ==> s[i + k] == line[k];
    assert s[i..i + n] == DriverLabel by {
      assert forall k :: 0 <= k < n ==> s[i + k] == line[k] == DriverLabel[k];
    }
    assert s[i + n] == line[n];
    assert s[i + n + 1 + |name|] == line[n + 1 + |name|];
    assert forall k :: 0 <= k < |name| ==> s[i + n + 1 + k] == line[n + 1 + k] == name[k];
  }

  /** The driver pattern matches a driver line at its start and captures
      the name. */
  lemma DriverLineMatch(s: string, i: nat, name: string)
    requires PlainName(name)
    requires i + |DriverLine(name)| <= |s| && s[i..i + |DriverLine(name)|] == DriverLine(name)
    ensures LabelAt(s, i)
    ensures LineAfter(s, i + |DriverLabel|) == Some(Capture(i + |DriverLabel| + 1, i + |DriverLabel| + 1 + |name|))
    ensures Group(s, Capture(i + |DriverLabel| + 1, i + |DriverLabel| + 1 + |name|)) == name
  {
    var n := |DriverLabel|;
    DriverLineShape(s, i, name);
    var e := i + n + 1 + |name|;
    assert s[i + n + 1] == name[0];
    assert forall k :: i + n + 1 <= k < e ==> s[k] == name[k - (i + n + 1)];
    var w := SkipSpace(s, i + n);
    assert w == i + n + 1;
    var nl := FindChar(s, w, '\n');
    assert nl == e;
  }

  /** A driver line at position `i` is read back as its name, and the search
      resumes right after it. */
  lemma DriverLineRead(s: string, i: nat, name: string)
    requires PlainName(name)
    requires i + |DriverLine(name)| <= |s| && s[i..i + |DriverLine(name)|] == DriverLine(name)
    ensures DriverCaptures(s, i) == [name] + DriverCaptures(s, i + |DriverLine(name)|)
  {
    DriverLineMatch(s, i, name);
    CapturesAtLabel(s, i);
  }

  /** A label at the search position with a line after it gives the first
      capture. */
  lemma CapturesAtLabel(s: string, i: nat)
    requires i <= |s| && LabelAt(s, i) && LineAfter(s, i + |DriverLabel|).Some?
    ensures var cap := LineAfter(s, i + |DriverLabel|).value;
      DriverCaptures(s, i) == [Group(s, cap)] + DriverCaptures(s, cap.to + 1)
  {
  }

  /** The driver lines of a list of names. */
  function DriverLines(names: seq<string>): (lines: seq<string>)
    ensures |lines| == |names|
    ensures forall k :: 0 <= k < |names| ==> lines[k] == DriverLine(names[k])
  {
    seq(|names|, k requires 0 <= k < |names| => DriverLine(names[k]))
  }

  /** Lines written by `DriverLine` are read back as exactly their names,
      in order. */
  lemma DriversRoundTrip(names: seq<string>)
    requires forall k :: 0 <= k < |names| ==> PlainName(names[k])
    ensures DriverCaptures(Concat(DriverLines(names)), 0) == names
  {
    var s := Concat(DriverLines(names));
    ReadLines(s, 0, names);
  }

  /** The same, for driver lines that fill the text from position `i` to
      its end. */
  lemma {:induction false} ReadLines(s: string, i: nat, names: seq<string>)
    requires forall k :: 0 <= k < |names| ==> PlainName(names[k])
    requires i <= |s| && s[i..] == Concat(DriverLines(names))
    ensures DriverCaptures(s, i) == names
    decreases |names|
  {
    var lines := DriverLines(names);
    if names == [] {
      assert s[i..] == [];
      NextDriverIffMatch(s, i);
    } else {
      var line := DriverLine(names[0]);
      assert Concat(lines) == line + Concat(lines[1..]);
      assert lines[1..] == DriverLines(names[1..]);
      var j := i + |line|;
      assert s[i..j] == line && s[j..] == Concat(lines[1..]) by {
        assert s[i..] == line + Concat(lines[1..]);
        assert s[i..][..|line|] == s[i..j];
        assert s[i..][|line|..] == s[j..];
      }
      ReadLines(s, j, names[1..]);
      DriverLineRead(s, i, names[0]);
    }
  }

  // ---------------------------------------------------------------------
  // Splitting the text into items
  // ---------------------------------------------------------------------

  /** A piece of a fixed pattern: a literal, or a greedy `\s*`. */
  datatype Token = Lit(w: string) | Spaces

  /** What follows the number in an item header: `\.\s*Package\s*\|\s*Shipped`. */
  const HeaderTail: seq<Token> := [Lit("."), Spaces, Lit("Package"), Spaces, Lit("|"), Spaces, Lit("Shipped")]

  /** The tokens matched in turn from `p`: the position after them. Every
      greedy `\s*` takes its whole run, because no literal of the pattern
      begins with whitespace, so nothing is ever given back. */
  function MatchTokens(s: string, p: nat, toks: seq<Token>): (r: Option<nat>)
    requires p <= |s|
    ensures r.Some? ==> p <= r.value <= |s|
    ensures r.Some? && toks != [] && toks[0].Lit? ==> p + |toks[0].w| <= r.value && PrefixAt(s, p, toks[0].w)
    decreases |toks|
  {
    if toks == [] then Some(p)
    else match toks[0]
      case Spaces => MatchTokens(s, SkipSpace(s, p), toks[1..])
      case Lit(w) => if PrefixAt(s, p, w) then MatchTokens(s, p + |w|, toks[1..]) else None
  }

  /** `(\d+)\.\s*Package\s*\|\s*Shipped` at `p`: the end of the digit run
      and the end of the header. The digit run is maximal because `.` is
      not a digit. */
  function ItemHeader(s: string, p: nat): (r: Option<(nat, nat)>)
    ensures r.Some? ==> p < r.value.0 < r.value.1 <= |s|
    ensures r.Some? ==> forall k :: p <= k < r.value.0 ==> IsDigit(s[k])
    ensures r.Some? ==> s[r.value.0] == '.'
  {
    if p >= |s| then None
    else
      var d := SkipDigits(s, p);
      if d == p then None
      else
        match TailAt(s, d)
        case None => None
        case Some(e) => Some((d, e))
  }

  /** `HeaderTail` matched at `d`, which must then hold the dot. */
  function TailAt(s: string, d: nat): (r: Option<nat>)
    requires d <= |s|
    ensures r.Some? ==> d < r.value <= |s| && s[d] == '.'
  {
    var t := MatchTokens(s, d, HeaderTail);
    if t.Some? then
      assert HeaderTail[0] == Lit(".");
      assert s[d..d + 1] == ".";
      t
    else None
  }

  /** A header test: `hdr(s, q)`, when present, gives the end of the
      leading number and the end of the header matched at `q`. The item
      scanners below are written for any such test; the extractor uses
      `ItemHeader`. */
  ghost predicate Shaped(s: string, hdr: (string, nat) -> Option<(nat, nat)>) {
    forall q: nat :: hdr(s, q).Some? ==> q < hdr(s, q).value.0 < hdr(s, q).value.1 <= |s|
  }

  lemma HeaderShaped(s: string)
    ensures Shaped(s, ItemHeader)
  {
  }

  /** The first header at or after `from`. */
  function NextHeader(s: string, from: nat, hdr: (string, nat) -> Option<(nat, nat)>): (r: Option<nat>)
    requires from <= |s|
    ensures r.Some? ==> from <= r.value < |s| && hdr(s, r.value).Some?
    ensures r.Some? ==> forall q :: from <= q < r.value ==> hdr(s, q).None?
    ensures r.None? <==> forall q :: from <= q < |s| ==> hdr(s, q).None?
    decreases |s| - from
  {
    if from == |s| then None
    else if hdr(s, from).Some? then Some(from)
    else NextHeader(s, from + 1, hdr)
  }

  /** Where the lazy, DOTALL item text stops: the first position from `h`
      on where the look-ahead `(?=<header>|\Z)` holds. */
  function BodyEnd(s: string, h: nat, hdr: (string, nat) -> Option<(nat, nat)>): (e: nat)
    requires h <= |s|
    ensures h <= e <= |s|
    ensures forall q :: h <= q < e ==> hdr(s, q).None?
    ensures e == |s| || hdr(s, e).Some?
  {
    match NextHeader(s, h, hdr)
    case None => |s|
    case Some(e) => e
  }

  /** One match of the item pattern: number `s[start..digitsEnd]`, item
      text `s[bodyStart..end]`. */
  datatype Span = Span(start: nat, digitsEnd: nat, bodyStart: nat, end: nat)

  /** The positions of a span lie in order inside the text. */
  predicate Bounded(s: string, sp: Span) {
    sp.start < sp.digitsEnd < sp.bodyStart <= sp.end <= |s|
  }

  /** Each span ends where the next starts, and the last ends at `n`. */
  predicate Tiles(r: seq<Span>, n: nat) {
    && (forall k :: 0 <= k < |r| - 1 ==> r[k].end == r[k + 1].start)
    && (r != [] ==> r[|r| - 1].end == n)
  }

  /** A header at `start`, and no header inside the item text. */
  predicate SpanOk(s: string, hdr: (string, nat) -> Option<(nat, nat)>, sp: Span) {
    && Bounded(s, sp)
    && hdr(s, sp.start) == Some((sp.digitsEnd, sp.bodyStart))
    && forall q :: sp.bodyStart <= q < sp.end ==> hdr(s, q).None?
  }

  /** `re.findall` of `<header>(.*?)(?=<header>|\Z)` with DOTALL, from
      position `i`: the first match, then the search resumes where its item
      text stopped. There is a match exactly when a header follows, and no
      header is skipped before the first. */
  function Spans(s: string, i: nat, hdr: (string, nat) -> Option<(nat, nat)>): (r: seq<Span>)
    requires i <= |s| && Shaped(s, hdr)
    ensures r == [] <==> forall q :: i <= q < |s| ==> hdr(s, q).None?
    ensures r != [] ==> i <= r[0].start && forall q :: i <= q < r[0].start ==> hdr(s, q).None?
    decreases |s| - i
  {
    match NextSpan(s, i, hdr)
    case None => []
    case Some(x) => [x] + Spans(s, x.end, hdr)
  }

  /** The first match of the item pattern at or after `i`. */
  function NextSpan(s: string, i: nat, hdr: (string, nat) -> Option<(nat, nat)>): (r: Option<Span>)
    requires i <= |s| && Shaped(s, hdr)
    ensures r.Some? ==> i <= r.value.start && SpanOk(s, hdr, r.value)
    ensures r.Some? ==> forall q :: i <= q < r.value.start ==> hdr(s, q).None?
    ensures r.Some? ==> r.value.end == |s| || hdr(s, r.value.end).Some?
    ensures r.None? <==> forall q :: i <= q < |s| ==> hdr(s, q).None?
  {
    match NextHeader(s, i, hdr)
    case None => None
    case Some(p) =>
      ShapedAt(s, hdr, p);
      var hd := hdr(s, p).value;
      Some(Span(p, hd.0, hd.1, BodyEnd(s, hd.1, hdr)))
  }

  lemma ShapedAt(s: string, hdr: (string, nat) -> Option<(nat, nat)>, q: nat)
    requires Shaped(s, hdr) && hdr(s, q).Some?
    ensures q < hdr(s, q).value.0 < hdr(s, q).value.1 <= |s|
  {
  }

  /** Every span is a match: a header at its start, and no header inside
      its item text. */
  lemma {:induction false} SpansMatch(s: string, i: nat, hdr: (string, nat) -> Option<(nat, nat)>)
    requires i <= |s| && Shaped(s, hdr)
    ensures forall k :: 0 <= k < |Spans(s, i, hdr)| ==> i <= Spans(s, i, hdr)[k].start && SpanOk(s, hdr, Spans(s, i, hdr)[k])
    decreases |s| - i
  {
    match NextSpan(s, i, hdr)
    case None =>
    case Some(x) =>
      SpansMatch(s, x.end, hdr);
      var rest := Spans(s, x.end, hdr);
      assert Spans(s, i, hdr) == [x] + rest;
      OkCons(s, hdr, i, x, rest);
  }

  lemma OkCons(s: string, hdr: (string, nat) -> Option<(nat, nat)>, i: nat, x: Span, rest: seq<Span>)
    requires i <= x.start && SpanOk(s, hdr, x)
    requires forall k :: 0 <= k < |rest| ==> x.end <= rest[k].start && SpanOk(s, hdr, rest[k])
    ensures var r := [x] + rest;
      forall k :: 0 <= k < |r| ==> i <= r[k].start && SpanOk(s, hdr, r[k])
  {
    var r := [x] + rest;
    forall k | 0 <= k < |r|
      ensures i <= r[k].start && SpanOk(s, hdr, r[k])
    {
      if k > 0 {
        assert r[k] == rest[k - 1];
      }
    }
  }

  /** The positions of every span lie in order inside the text. */
  lemma SpansBounded(s: string, i: nat, hdr: (string, nat) -> Option<(nat, nat)>)
    requires i <= |s| && Shaped(s, hdr)
    ensures forall k :: 0 <= k < |Spans(s, i, hdr)| ==> Bounded(s, Spans(s, i, hdr)[k])
  {
    SpansMatch(s, i, hdr);
  }

  /** The spans follow one another without a gap, and the last one runs to
      the end of the text. */
  lemma {:induction false} SpansTile(s: string, i: nat, hdr: (string, nat) -> Option<(nat, nat)>)
    requires i <= |s| && Shaped(s, hdr)
    ensures Tiles(Spans(s, i, hdr), |s|)
    decreases |s| - i
  {
    match NextSpan(s, i, hdr)
    case None =>
    case Some(x) =>
      SpansTile(s, x.end, hdr);
      var rest := Spans(s, x.end, hdr);
      assert Spans(s, i, hdr) == [x] + rest;
      TileCons(x, rest, |s|);
  }

  /** Spans that follow one another up to `n` still do with one more in
      front that ends where they start. */
  lemma TileCons(x: Span, rest: seq<Span>, n: nat)
    requires rest == [] ==> x.end == n
    requires rest != [] ==> rest[0].start == x.end
    requires Tiles(rest, n)
    ensures Tiles([x] + rest, n)
  {
    var r := [x] + rest;
    assert forall k :: 1 <= k < |r| ==> r[k] == rest[k - 1];
  }

  /** The items of the extractor's text. */
  function ItemSpans(s: string): (r: seq<Span>)
    ensures forall k :: 0 <= k < |r| ==> Bounded(s, r[k])
    ensures Tiles(r, |s|)
  {
    HeaderShaped(s);
    SpansBounded(s, 0, ItemHeader);
    SpansTile(s, 0, ItemHeader);
    Spans(s, 0, ItemHeader)
  }

  /** Each item starts at a header `<n>. Package | Shipped`, with `n` its
      number and the item text right after the header; no header occurs
      inside an item's text or before the first item; and there are no
      items exactly when the text holds no header. */
  lemma ItemSpansAreMatches(s: string, r: seq<Span>)
    requires r == ItemSpans(s)
    ensures forall k :: 0 <= k < |r| ==> ItemHeader(s, r[k].start) == Some((r[k].digitsEnd, r[k].bodyStart))
    ensures forall k, q :: 0 <= k < |r| && r[k].bodyStart <= q < r[k].end ==> ItemHeader(s, q).None?
    ensures r != [] ==> forall q :: 0 <= q < r[0].start ==> ItemHeader(s, q).None?
    ensures r == [] <==> forall q :: 0 <= q < |s| ==> ItemHeader(s, q).None?
  {
    HeaderShaped(s);
    SpansMatch(s, 0, ItemHeader);
  }

  /** The text of each item, header included. */
  function Pieces(s: string, r: seq<Span>): (ps: seq<string>)
    requires forall k :: 0 <= k < |r| ==> r[k].start <= r[k].end <= |s|
    ensures |ps| == |r|
    ensures forall k :: 0 <= k < |r| ==> ps[k] == s[r[k].start..r[k].end]
    decreases |r|
  {
    if r == [] then [] else [s[r[0].start..r[0].end]] + Pieces(s, r[1..])
  }

  /** The items, headers included, put back together give the text from
      the first header to the end: nothing is skipped or repeated. */
  lemma ItemsTileText(s: string)
    ensures ItemSpans(s) != [] ==> Concat(Pieces(s, ItemSpans(s))) == s[ItemSpans(s)[0].start..]
  {
    var r := ItemSpans(s);
    if r != [] {
      TileFrom(s, r);
    }
  }

  lemma {:induction false} TileFrom(s: string, r: seq<Span>)
    requires r != []
    requires forall k :: 0 <= k < |r| ==> r[k].start <= r[k].end <= |s|
    requires Tiles(r, |s|)
    ensures Concat(Pieces(s, r)) == s[r[0].start..]
    decreases |r|
  {
    var a, b := r[0].start, r[0].end;
    var rest := Pieces(s, r[1..]);
    assert Pieces(s, r) == [s[a..b]] + rest;
    ConcatCons(s[a..b], rest);
    if |r| == 1 {
      assert rest == [];
      assert b == |s|;
    } else {
      TilesTail(r, |s|);
      TileFrom(s, r[1..]);
      SliceJoin(s, a, b);
    }
  }

  lemma TilesTail(r: seq<Span>, n: nat)
    requires |r| > 1 && Tiles(r, n)
    ensures Tiles(r[1..], n) && r[1..][0].start == r[0].end
  {
    assert forall k :: 0 <= k < |r| - 2 ==> r[1..][k] == r[k + 1];
  }

  // ---------------------------------------------------------------------
  // Fields of one item
  // ---------------------------------------------------------------------

  /** `\dA\d+` at `p`. */
  predicate PackageIdAt(t: string, p: nat) {
    p + 3 <= |t| && IsDigit(t[p]) && t[p + 1] == 'A' && IsDigit(t[p + 2])
  }

  /** The first package identifier, its digit run taken whole, or
      "Not found". */
  function PackageId(t: string): (r: string)
    ensures r == NotFound <==> forall q :: 0 <= q < |t| ==> !PackageIdAt(t, q)
    ensures r != NotFound ==> |r| >= 3 && IsDigit(r[0]) && r[1] == 'A' && forall k :: 2 <= k < |r| ==> IsDigit(r[k])
    ensures r != NotFound ==> exists p :: 0 <= p < |t| && PackageIdAt(t, p) && (forall q :: 0 <= q < p ==> !PackageIdAt(t, q))
                                 && p + |r| <= |t| && r == t[p..p + |r|] && (p + |r| == |t| || !IsDigit(t[p + |r|]))
  {
    match Leftmost(t, 0, PackageIdAt)
    case None => NotFound
    case Some(p) =>
      assert PackageIdAt(t, p);
      var r := t[p..SkipDigits(t, p + 2)];
      assert IsDigit(r[0]) && !IsDigit(NotFound[0]);
      r
  }

  /** `M\d{11}:` at `p`. */
  predicate MNumberColonAt(t: string, p: nat) {
    MNumber.MNumberAt(t, p) && p + 12 < |t| && t[p + 12] == ':'
  }

  /** The closing group `(?:\s*\(|$)` holds at `e`: optional whitespace
      then `(`, or the end of the text, or a final newline. */
  predicate CellStopAt(t: string, e: nat) {
    e <= |t| && (|| (SkipSpace(t, e) < |t| && t[SkipSpace(t, e)] == '(')
                 || e == |t|
                 || (e + 1 == |t| && t[e] == '\n'))
  }

  /** The M-number and the raw text after it. */
  datatype MMatch = MMatch(number: string, cell: string)

  /** `(M\d{11}):\s*(.*?)(?:\s*\(|$)` with DOTALL. The greedy `\s*` keeps
      its whole run, since `$` always lets the lazy group succeed; the group
      stops at the first position where the closing group holds. So the
      group never holds a `(`. */
  function MNumberMatch(t: string): (r: Option<MMatch>)
    ensures r.None? <==> forall q :: 0 <= q < |t| ==> !MNumberColonAt(t, q)
    ensures r.Some? ==> |r.value.number| == 12 && r.value.number[0] == 'M'
                        && forall k :: 1 <= k < 12 ==> IsDigit(r.value.number[k])
    ensures r.Some? ==> forall k :: 0 <= k < |r.value.cell| ==> r.value.cell[k] != '('
    ensures r.Some? ==> exists p :: 0 <= p < |t| && MNumberColonAt(t, p) && (forall q :: 0 <= q < p ==> !MNumberColonAt(t, q))
                                    && r.value == MatchAt(t, p)
  {
    match Leftmost(t, 0, MNumberColonAt)
    case None => None
    case Some(p) =>
      assert MNumberColonAt(t, p);
      Some(MatchAt(t, p))
  }

  /** The match that starts at `p`. */
  function MatchAt(t: string, p: nat): (r: MMatch)
    requires MNumberColonAt(t, p)
    ensures |r.number| == 12 && r.number[0] == 'M' && forall k :: 1 <= k < 12 ==> IsDigit(r.number[k])
    ensures r.number == t[p..p + 12]
    ensures forall k :: 0 <= k < |r.cell| ==> r.cell[k] != '('
    ensures var w := SkipSpace(t, p + 13);
      && w + |r.cell| <= |t| && r.cell == t[w..w + |r.cell|]
      && CellStopAt(t, w + |r.cell|) && forall q :: w <= q < w + |r.cell| ==> !CellStopAt(t, q)
  {
    var w := SkipSpace(t, p + 13);
    var e := CellEnd(t, w);
    MMatch(t[p..p + 12], t[w..e])
  }

  /** Where the lazy cell group that starts at `w` stops: the first
      position where the closing group holds. No `(` comes before it. */
  function CellEnd(t: string, w: nat): (e: nat)
    requires w <= |t|
    ensures w <= e <= |t|
    ensures CellStopAt(t, e) && forall q :: w <= q < e ==> !CellStopAt(t, q)
    ensures forall k :: w <= k < e ==> t[k] != '('
  {
    var e := match Leftmost(t, w, CellStopAt) case Some(e) => e case None => |t|;
    assert forall q :: w <= q < e ==> !CellStopAt(t, q);
    forall k | w <= k < e
      ensures t[k] != '('
    {
      if t[k] == '(' {
        assert SkipSpace(t, k) == k;
        assert CellStopAt(t, k);
      }
    }
    e
  }

  /** `(?:Brand|Wet|Qty)` at `p`, case ignored. */
  predicate DetailsAt(t: string, p: nat) {
    PrefixAtCi(t, p, "brand") || PrefixAtCi(t, p, "wet") || PrefixAtCi(t, p, "qty")
  }

  /** A case-insensitive match of a lower-case word holds no newline. */
  lemma CiWordOneLine(t: string, p: nat, w: string)
    requires PrefixAtCi(t, p, w)
    requires forall k :: 0 <= k < |w| ==> w[k] != '\n'
    ensures forall k :: p <= k < p + |w| ==> t[k] != '\n'
  {
    forall k | p <= k < p + |w|
      ensures t[k] != '\n'
    {
      assert Lower(t[p..p + |w|])[k - p] == ToLower(t[k]) == w[k - p];
    }
  }

  /** `(?:Brand|Wet|Qty).*` (case ignored, no DOTALL): from the first tag to
      the end of its line, or "Not found". */
  function Details(t: string): (r: string)
    ensures r == NotFound <==> forall q :: 0 <= q < |t| ==> !DetailsAt(t, q)
    ensures r != NotFound ==> OneLine(r) && DetailsAt(r, 0)
    ensures r != NotFound ==> exists p :: 0 <= p < |t| && DetailsAt(t, p) && (forall q :: 0 <= q < p ==> !DetailsAt(t, q))
                                 && r == DetailsLine(t, p)
  {
    match Leftmost(t, 0, DetailsAt)
    case None => NotFound
    case Some(p) =>
      assert DetailsAt(t, p);
      DetailsLine(t, p)
  }

  /** The rest of the line from a tag at `p`. */
  function DetailsLine(t: string, p: nat): (r: string)
    requires DetailsAt(t, p)
    ensures r != NotFound && OneLine(r) && DetailsAt(r, 0)
    ensures p + |r| <= |t| && r == t[p..p + |r|] && (p + |r| == |t| || t[p + |r|] == '\n')
  {
    var w := if PrefixAtCi(t, p, "brand") then "brand" else if PrefixAtCi(t, p, "wet") then "wet" else "qty";
    CiWordOneLine(t, p, w);
    var e := FindChar(t, p, '\n');
    CiWordKept(t, p, e, w);
    t[p..e]
  }

  /** A tag matched at `p` is still matched at the start of any slice from
      `p` that holds it, and such a slice is not "Not found", whose first
      letter is no tag's. */
  lemma CiWordKept(t: string, p: nat, e: nat, w: string)
    requires PrefixAtCi(t, p, w) && p + |w| <= e <= |t|
    requires w == "brand" || w == "wet" || w == "qty"
    ensures PrefixAtCi(t[p..e], 0, w) && t[p..e] != NotFound
  {
    assert t[p..e][0..|w|] == t[p..p + |w|];
    assert ToLower(t[p]) == w[0];
  }

  predicate DashOrBar(c: char) {
    c == '-' || c == '|'
  }

  /** The end of the run of `[^-|]` that starts at `g`. */
  function RunEnd(c: string, g: nat): (e: nat)
    requires g <= |c|
    ensures g <= e <= |c|
    ensures forall k :: g <= k < e ==> !DashOrBar(c[k])
    ensures e == |c| || DashOrBar(c[e])
    decreases |c| - g
  {
    if g < |c| && !DashOrBar(c[g]) then RunEnd(c, g + 1) else g
  }

  /** `(?:- |-)([^-|]+)` can start at `p`. The closing
      `(?:\s*-|\s*\||$)` always holds where the greedy group stops (at a
      `-`, at a `|`, or at the end), so this is the whole condition. */
  predicate NameAt(c: string, p: nat) {
    p + 1 < |c| && c[p] == '-' && !DashOrBar(c[p + 1])
  }

  /** Where the group starts: after "- " when the first alternative
      succeeds, else right after the dash. */
  function GroupStart(c: string, p: nat): (g: nat)
    requires NameAt(c, p)
    ensures p < g <= |c|
  {
    if p + 2 < |c| && c[p + 1] == ' ' && !DashOrBar(c[p + 2]) then p + 2 else p + 1
  }

  /** The stripped group of the first name match in the stripped cell. */
  function Name(cell: string): (r: string) {
    match Leftmost(cell, 0, NameAt)
    case None => NotFound
    case Some(p) =>
      var g := GroupStart(cell, p);
      Trim(cell[g..RunEnd(cell, g)])
  }

  /** The name read without regard to which alternative matched: the
      stripped text between the first dash that is followed by a character
      other than `-` and `|`, and the next `-` or `|`. */
  function NameByDash(cell: string): (r: string) {
    match Leftmost(cell, 0, NameAt)
    case None => NotFound
    case Some(p) => Trim(cell[p + 1..RunEnd(cell, p + 1)])
  }

  /** Whether "- " or "-" introduced the name makes no difference once the
      name is stripped. */
  lemma NameIsByDash(cell: string)
    ensures Name(cell) == NameByDash(cell)
  {
    match Leftmost(cell, 0, NameAt)
    case None =>
    case Some(p) => DashNameSame(cell, p);
  }

  lemma DashNameSame(cell: string, p: nat)
    requires NameAt(cell, p)
    ensures Trim(cell[GroupStart(cell, p)..RunEnd(cell, GroupStart(cell, p))]) == Trim(cell[p + 1..RunEnd(cell, p + 1)])
  {
    if GroupStart(cell, p) == p + 2 {
      var e := RunEnd(cell, p + 1);
      assert RunEnd(cell, p + 2) == e;
      var x := cell[p + 1..e];
      assert x[1..] == cell[p + 2..e];
      TrimDropsLeadingSpace(x);
    }
  }

  /** `Supply:\s*(\d+)` at `p`, case ignored. */
  predicate SupplyAt(d: string, p: nat) {
    PrefixAtCi(d, p, "supply:") && SkipSpace(d, p + 7) < |d| && IsDigit(d[SkipSpace(d, p + 7)])
  }

  /** The digits after the first `Supply:`, or "Not found". */
  function Days(d: string): (r: string)
    ensures r == NotFound <==> forall q :: 0 <= q < |d| ==> !SupplyAt(d, q)
    ensures r != NotFound ==> |r| > 0 && forall k :: 0 <= k < |r| ==> IsDigit(r[k])
    ensures r != NotFound ==> exists p :: 0 <= p < |d| && SupplyAt(d, p) && (forall q :: 0 <= q < p ==> !SupplyAt(d, q))
                                 && r == SupplyDigits(d, p)
  {
    match Leftmost(d, 0, SupplyAt)
    case None => NotFound
    case Some(p) =>
      assert SupplyAt(d, p);
      SupplyDigits(d, p)
  }

  /** The digit run of the match at `p`. */
  function SupplyDigits(d: string, p: nat): (r: string)
    requires SupplyAt(d, p)
    ensures r != NotFound && |r| > 0 && forall k :: 0 <= k < |r| ==> IsDigit(r[k])
    ensures var a := SkipSpace(d, p + 7);
      && a + |r| <= |d| && r == d[a..a + |r|] && (a + |r| == |d| || !IsDigit(d[a + |r|]))
  {
    var a := SkipSpace(d, p + 7);
    var r := d[a..SkipDigits(d, a)];
    assert IsDigit(r[0]) && !IsDigit(NotFound[0]);
    r
  }

  /** The index of the first value, in list order, that occurs in `text`. */
  function FirstListed(text: string, values: seq<string>, i: nat): (r: Option<nat>)
    requires i <= |values|
    ensures r.None? <==> forall k :: i <= k < |values| ==> !Contains(text, values[k])
    ensures r.Some? ==> i <= r.value < |values| && Contains(text, values[r.value])
    ensures r.Some? ==> forall k :: i <= k < r.value ==> !Contains(text, values[k])
    decreases |values| - i
  {
    if i == |values| then None
    else if Contains(text, values[i]) then Some(i)
    else FirstListed(text, values, i + 1)
  }

  /** The weight test on a combined text: the first of the four gram
      values in list order, not in text order. */
  function WeightIn(combined: string): (r: string)
    ensures r == NotFound <==> forall k :: 0 <= k < |Weights| ==> !Contains(combined, Weights[k])
    ensures r != NotFound ==> exists k :: 0 <= k < |Weights| && r == Weights[k] && Contains(combined, Weights[k])
                                 && forall m :: 0 <= m < k ==> !Contains(combined, Weights[m])
  {
    match FirstListed(combined, Weights, 0)
    case None => NotFound
    case Some(k) => Weights[k]
  }

  /** The stripped cell and the details, joined by a space and lower-cased:
      the text of the type and weight tests. */
  function Combined(cell: string, details: string): (r: string) {
    Lower(cell + " " + details)
  }

  /** The strain: the first of Indica, Sativa, Hybrid found in the stripped
      cell or the details, or "Not found". */
  function Strain(cell: string, details: string): (r: string) {
    FirstFiring(cell + " " + details, StrainRules, NotFound)
  }

  /** The strain test on the joined text is the source's test on the two
      texts separately: none of the three words has a space, so none can
      straddle the joint. */
  lemma StrainSpec(cell: string, details: string)
    ensures var r := Strain(cell, details);
      var indica := Contains(cell, "Indica") || Contains(details, "Indica");
      var sativa := Contains(cell, "Sativa") || Contains(details, "Sativa");
      var hybrid := Contains(cell, "Hybrid") || Contains(details, "Hybrid");
      && (r == "Indica" <==> indica)
      && (r == "Sativa" <==> !indica && sativa)
      && (r == "Hybrid" <==> !indica && !sativa && hybrid)
      && (r == NotFound <==> !indica && !sativa && !hybrid)
  {
    var text := cell + " " + details;
    ContainsAroundSpace(cell, details, "Indica");
    ContainsAroundSpace(cell, details, "Sativa");
    ContainsAroundSpace(cell, details, "Hybrid");
    FiresSingle(text, "Indica", "Indica");
    FiresSingle(text, "Sativa", "Sativa");
    FiresSingle(text, "Hybrid", "Hybrid");
    assert StrainRules[0] == Rule(["Indica"], "Indica");
    assert StrainRules[1] == Rule(["Sativa"], "Sativa");
    assert StrainRules[2] == Rule(["Hybrid"], "Hybrid");
  }

  /** On the same text, the type test says Flower exactly when the weight
      test finds a gram value. */
  lemma FlowerIffWeighed(c: string)
    ensures FirstFiring(c, TypeRules, Undetermined) == "Flower" <==> WeightIn(c) != NotFound
  {
    var r := FirstFiring(c, TypeRules, Undetermined);
    assert TypeRules[0].keywords == Weights;
    if WeightIn(c) != NotFound {
      var k :| 0 <= k < |Weights| && Contains(c, Weights[k]);
      assert Fires(c, TypeRules[0]);
    } else {
      assert !Fires(c, TypeRules[0]);
      if Fires(c, TypeRules[1]) {
        assert r == "Edibles";
      } else if Fires(c, TypeRules[2]) {
        assert r == "Cartridge";
      } else {
        assert r == Undetermined;
      }
    }
  }

  // ---------------------------------------------------------------------
  // Items
  // ---------------------------------------------------------------------

  /** One dictionary of the returned item list. */
  datatype LegacyItem = LegacyItem(
    itemNumber: string,
    packageId: string,
    mNumber: string,
    name: string,
    strain: string,
    itemType: string,
    days: string,
    weight: string)

  /** An item read from its number and text, with "Not found" as its
      weight so far, and the combined text that the weight test reads when
      the item has an M-number. */
  datatype Parsed = Parsed(item: LegacyItem, combined: Option<string>)

  /** What every parsed item satisfies: the combined text is there exactly
      when the M-number is, and the type was read from it. */
  predicate WellParsed(p: Parsed) {
    && p.item.weight == NotFound
    && (p.combined.None? <==> p.item.mNumber == NotFound)
    && (p.combined.None? ==> p.item.itemType == Undetermined)
    && (p.combined.Some? ==> p.item.itemType == FirstFiring(p.combined.value, TypeRules, Undetermined))
  }

  /** Every field but the weight. Name, strain and type are read only when
      the item has an M-number; otherwise they keep their defaults. */
  function Parse(number: string, body: string): (p: Parsed)
    ensures WellParsed(p)
    ensures p.item.itemNumber == number
    ensures p.combined.None? <==> MNumberMatch(body).None?
    ensures p.combined.None? ==> p.item.name == NotFound && p.item.strain == NotFound
    ensures p.item.packageId == PackageId(body) && p.item.days == Days(Details(body))
    ensures MNumberMatch(body).Some? ==>
              var cell := Trim(MNumberMatch(body).value.cell);
              && p.item.mNumber == MNumberMatch(body).value.number
              && p.item.name == Name(cell)
              && p.item.strain == Strain(cell, Details(body))
              && p.combined == Some(Combined(cell, Details(body)))
  {
    var details := Details(body);
    match MNumberMatch(body)
    case None =>
      Parsed(LegacyItem(number, PackageId(body), NotFound, NotFound, NotFound, Undetermined, Days(details), NotFound), None)
    case Some(m) =>
      var cell := Trim(m.cell);
      var c := Combined(cell, details);
      assert m.number[0] == 'M' != NotFound[0];
      Parsed(LegacyItem(number, PackageId(body), m.number, Name(cell), Strain(cell, details),
                        FirstFiring(c, TypeRules, Undetermined), Days(details), NotFound), Some(c))
  }

  /** The exception the loop raises when `combined_text` was never bound. */
  datatype Raised = UnboundCombinedText

  /** The item loop as written. The weight test reads `combined_text`,
      which only an item with an M-number sets: `stale` is what earlier
      items left behind. */
  function ItemsAsWritten(ps: seq<Parsed>, stale: Option<string>): (r: Result<seq<LegacyItem>, Raised>)
    ensures r.Success? ==> |r.value| == |ps|
    decreases |ps|
  {
    if ps == [] then Success([])
    else
      var combined := if ps[0].combined.Some? then ps[0].combined else stale;
      if combined.None? then Failure(UnboundCombinedText)
      else
        match ItemsAsWritten(ps[1..], combined)
        case Failure(e) => Failure(e)
        case Success(rest) => Success([ps[0].item.(weight := WeightIn(combined.value))] + rest)
  }

  /** The loop as written raises exactly when no M-number has been seen
      before an item without one, that is, when the first item has none. */
  lemma {:induction false} AsWrittenRaises(ps: seq<Parsed>, stale: Option<string>)
    ensures ItemsAsWritten(ps, stale).Failure? <==> stale.None? && ps != [] && ps[0].combined.None?
    decreases |ps|
  {
    if ps != [] {
      var combined := if ps[0].combined.Some? then ps[0].combined else stale;
      if combined.Some? {
        AsWrittenRaises(ps[1..], combined);
      }
    }
  }

  /** One item with the weight test guarded like the type test: an item
      without an M-number has no weight. */
  function ItemCorrected(p: Parsed): (it: LegacyItem)
    ensures it == p.item.(weight := it.weight)
    ensures WellParsed(p) && it.mNumber == NotFound ==> it.weight == NotFound && it.itemType == Undetermined
    ensures WellParsed(p) ==> (it.itemType == "Flower" <==> it.weight != NotFound)
  {
    match p.combined
    case None => p.item
    case Some(c) =>
      FlowerIffWeighed(c);
      p.item.(weight := WeightIn(c))
  }

  function ItemsCorrected(ps: seq<Parsed>): (r: seq<LegacyItem>)
    ensures |r| == |ps|
    ensures forall k :: 0 <= k < |ps| ==> r[k] == ItemCorrected(ps[k])
  {
    seq(|ps|, k requires 0 <= k < |ps| => ItemCorrected(ps[k]))
  }

  /** When every item has an M-number, the loop as written and the
      corrected one agree. */
  lemma {:induction false} AsWrittenAgrees(ps: seq<Parsed>, stale: Option<string>)
    requires forall k :: 0 <= k < |ps| ==> ps[k].combined.Some?
    ensures ItemsAsWritten(ps, stale) == Success(ItemsCorrected(ps))
    decreases |ps|
  {
    if ps != [] {
      AsWrittenAgrees(ps[1..], ps[0].combined);
      CorrectedCons(ps);
    }
  }

  /** The corrected list is the first item's correction before the rest's. */
  lemma CorrectedCons(ps: seq<Parsed>)
    requires ps != [] && ps[0].combined.Some?
    ensures ItemsCorrected(ps) == [ps[0].item.(weight := WeightIn(ps[0].combined.value))] + ItemsCorrected(ps[1..])
  {
    CorrectedSplit(ps);
  }

  lemma CorrectedSplit(ps: seq<Parsed>)
    requires ps != []
    ensures ItemsCorrected(ps) == [ItemCorrected(ps[0])] + ItemsCorrected(ps[1..])
  {
    var r := ItemsCorrected(ps);
    var t := [ItemCorrected(ps[0])] + ItemsCorrected(ps[1..]);
    assert |r| == |t|;
    forall k | 0 <= k < |r| ensures r[k] == t[k] {
      if k > 0 {
        assert t[k] == ItemsCorrected(ps[1..])[k - 1];
      }
    }
  }

  /** The loop as written gives an item without an M-number the weight of
      the item before it; the corrected loop gives it none. */
  lemma StaleWeight(p1: Parsed, p2: Parsed)
    requires WellParsed(p2)
    requires p1.combined.Some? && Contains(p1.combined.value, "2.83") && p2.combined.None?
    ensures ItemsAsWritten([p1, p2], None).Success?
    ensures ItemsAsWritten([p1, p2], None).value[1].weight == "2.83"
    ensures ItemsCorrected([p1, p2])[1].weight == NotFound
  {
    var c := p1.combined.value;
    assert FirstListed(c, Weights, 0) == Some(0);
    assert [p2][1..] == [];
    assert ItemsAsWritten([p2][1..], p1.combined) == Success([]);
    var x := p2.item.(weight := WeightIn(c));
    assert [x] + [] == [x];
    assert ItemsAsWritten([p2], p1.combined) == Success([x]);
    assert [p1, p2][1..] == [p2];
  }

  // ---------------------------------------------------------------------
  // The whole extractor
  // ---------------------------------------------------------------------

  /** The returned triple (company, drivers, items). */
  datatype Extraction = Extraction(company: string, drivers: string, items: seq<LegacyItem>)

  /** The parsed `(item_num, item_text)` of every match of the item
      pattern. */
  function ParsedItems(s: string): (ps: seq<Parsed>)
    ensures |ps| == |ItemSpans(s)|
    ensures forall k :: 0 <= k < |ps| ==> WellParsed(ps[k])
    ensures forall k :: 0 <= k < |ps| ==> var sp := ItemSpans(s)[k];
              Bounded(s, sp) && ps[k] == Parse(s[sp.start..sp.digitsEnd], s[sp.bodyStart..sp.end])
  {
    ParseSpans(s, ItemSpans(s), Parse)
  }

  /** Each span parsed by `parse` from its number and its item text. */
  function ParseSpans(s: string, r: seq<Span>, parse: (string, string) -> Parsed): (ps: seq<Parsed>)
    requires forall k :: 0 <= k < |r| ==> Bounded(s, r[k])
    requires forall number, body :: WellParsed(parse(number, body))
    ensures |ps| == |r|
    ensures forall k :: 0 <= k < |ps| ==> WellParsed(ps[k])
    ensures forall k :: 0 <= k < |r| ==> Bounded(s, r[k]) && ps[k] == parse(s[r[k].start..r[k].digitsEnd], s[r[k].bodyStart..r[k].end])
    decreases |r|
  {
    if r == [] then []
    else
      assert Bounded(s, r[0]);
      [parse(s[r[0].start..r[0].digitsEnd], s[r[0].bodyStart..r[0].end])] + ParseSpans(s, r[1..], parse)
  }

  /** `extract_data_from_pdf` as written, over the pages' texts. */
  function ExtractAsWritten(pages: seq<string>): (r: Result<Extraction, Raised>)
    ensures r.Success? ==> |r.value.items| == |ItemSpans(Concat(pages))|
  {
    var text := Concat(pages);
    match ItemsAsWritten(ParsedItems(text), None)
    case Failure(e) => Failure(e)
    case Success(items) => Success(Extraction(Company(text), Drivers(text), items))
  }

  /** The extractor with the weight test guarded by the M-number. */
  function Extract(pages: seq<string>): (r: Extraction)
    ensures |r.items| == |ItemSpans(Concat(pages))|
    ensures forall k :: 0 <= k < |r.items| ==> (r.items[k].itemType == "Flower" <==> r.items[k].weight != NotFound)
    ensures forall k :: 0 <= k < |r.items| ==> r.items[k].mNumber == NotFound ==> r.items[k].weight == NotFound
    ensures r.company == Company(Concat(pages)) && r.drivers == Drivers(Concat(pages))
    ensures forall k :: 0 <= k < |r.items| ==> r.items[k] == ItemCorrected(ParsedItems(Concat(pages))[k])
  {
    var text := Concat(pages);
    Extraction(Company(text), Drivers(text), ItemsCorrected(ParsedItems(text)))
  }

  /** The two agree whenever every item has an M-number. */
  lemma ExtractAgrees(pages: seq<string>)
    requires forall k :: 0 <= k < |ParsedItems(Concat(pages))| ==> ParsedItems(Concat(pages))[k].combined.Some?
    ensures ExtractAsWritten(pages) == Success(Extract(pages))
  {
    AsWrittenAgrees(ParsedItems(Concat(pages)), None);
  }
}
