/** The pattern tail `\s*(.*?)\n` (no DOTALL), which the legacy extractor and
    the scan endpoint both use to grab "the rest of the line" after a label,
    and the `1\.\s*Outbound\s*Transporter` header they both look for.
 */
module LineCapture {
  import opened Wrappers
  import opened Text

  /** A capture `s[from..to]`; the newline that ends the match is at `to`. */
  datatype Capture = Capture(from: nat, to: nat)

  /** The last newline in `s[lo..hi]`. */
  function LastNewline(s: string, lo: nat, hi: nat): (r: Option<nat>)
    requires lo <= hi <= |s|
    ensures r.Some? ==> lo <= r.value < hi && s[r.value] == '\n'
    ensures r.Some? ==> forall k :: r.value < k < hi ==> s[k] != '\n'
    ensures r.None? <==> forall k :: lo <= k < hi ==> s[k] != '\n'
    decreases hi
  {
    if hi == lo then None
    else if s[hi - 1] == '\n' then Some(hi - 1)
    else LastNewline(s, lo, hi - 1)
  }

  /** `\s*(.*?)\n` matched from position `c`. The greedy `\s*` first takes
      the whole run of whitespace; the lazy group then runs to the first
      newline, which `.` cannot cross. If no newline follows the run, `\s*`
      gives characters back one at a time, and the first success is at the
      last newline inside the run, with an empty group. The match exists
      exactly when some newline follows `c`; the group never holds a
      newline, and when it is not empty it starts after all the leading
      whitespace. */
  function LineAfter(s: string, c: nat): (r: Option<Capture>)
    requires c <= |s|
    ensures r.None? <==> forall k :: c <= k < |s| ==> s[k] != '\n'
    ensures r.Some? ==> c <= r.value.from <= r.value.to < |s| && s[r.value.to] == '\n'
    ensures r.Some? ==> AllSpace(s[c..r.value.from])
    ensures r.Some? ==> forall k :: r.value.from <= k < r.value.to ==> s[k] != '\n'
    ensures r.Some? && r.value.from < r.value.to ==> !IsSpace(s[r.value.from])
    ensures r.Some? && (exists k :: SkipSpace(s, c) <= k < |s| && s[k] == '\n') ==> r.value.from == SkipSpace(s, c)
    ensures r.Some? && (forall k :: SkipSpace(s, c) <= k < |s| ==> s[k] != '\n') ==>
              r.value.from == r.value.to && forall k :: r.value.to < k < |s| ==> s[k] != '\n'
  {
    var w := SkipSpace(s, c);
    var nl := FindChar(s, w, '\n');
    if nl < |s| then
      assert AllSpace(s[c..w]);
      Some(Capture(w, nl))
    else
      match LastNewline(s, c, w)
      case None => None
      case Some(l) =>
        assert AllSpace(s[c..l]);
        Some(Capture(l, l))
  }

  /** The text of a capture. */
  function Group(s: string, cap: Capture): (r: string)
    requires cap.from <= cap.to <= |s|
  {
    s[cap.from..cap.to]
  }

  /** A literal word, compared exactly or, under `re.IGNORECASE`, after
      lower-casing both sides. */
  predicate WordAt(s: string, i: nat, w: string, ci: bool) {
    if ci then i + |w| <= |s| && Lower(s[i..i + |w|]) == Lower(w) else PrefixAt(s, i, w)
  }

  /** `1\.\s*Outbound\s*Transporter` at `p`: the position after it. Neither
      word begins with whitespace, so each greedy `\s*` takes its whole
      run. */
  function HeaderEnd(s: string, p: nat, ci: bool): (r: Option<nat>)
    ensures r.Some? ==> p + 21 <= r.value <= |s|
  {
    if !PrefixAt(s, p, "1.") then None
    else
      var a := SkipSpace(s, p + 2);
      if !WordAt(s, a, "Outbound", ci) then None
      else
        var b := SkipSpace(s, a + 8);
        if !WordAt(s, b, "Transporter", ci) then None
        else Some(b + 11)
  }

  /** The whole pattern `1\.\s*Outbound\s*Transporter\s*(.*?)\n` matches at
      `p`. */
  predicate OutboundAt(s: string, p: nat, ci: bool) {
    HeaderEnd(s, p, ci).Some? && LineAfter(s, HeaderEnd(s, p, ci).value).Some?
  }

  predicate OutboundCiAt(s: string, p: nat) {
    OutboundAt(s, p, true)
  }

  predicate OutboundCsAt(s: string, p: nat) {
    OutboundAt(s, p, false)
  }

  /** The leftmost position where the pattern matches; `ci` is the
      `re.IGNORECASE` flag. */
  function FirstOutbound(s: string, ci: bool): (r: Option<nat>)
    ensures r.None? <==> forall p :: 0 <= p < |s| ==> !OutboundAt(s, p, ci)
    ensures r.Some? ==> r.value < |s| && OutboundAt(s, r.value, ci)
    ensures r.Some? ==> forall p :: 0 <= p < r.value ==> !OutboundAt(s, p, ci)
  {
    if ci then
      assert forall p :: OutboundCiAt(s, p) == OutboundAt(s, p, true);
      Leftmost(s, 0, OutboundCiAt)
    else
      assert forall p :: OutboundCsAt(s, p) == OutboundAt(s, p, false);
      Leftmost(s, 0, OutboundCsAt)
  }

  /** The group of the match at `p`. */
  function CaptureAt(s: string, p: nat, ci: bool): (g: string)
    requires OutboundAt(s, p, ci)
    ensures forall k :: 0 <= k < |g| ==> g[k] != '\n'
    ensures g != [] ==> !IsSpace(g[0])
  {
    var cap := LineAfter(s, HeaderEnd(s, p, ci).value).value;
    Group(s, cap)
  }

  /** `re.search(...)` for the pattern, `group(1)`. */
  function OutboundTransporter(s: string, ci: bool): (r: Option<string>)
    ensures r.None? <==> forall p :: 0 <= p < |s| ==> !OutboundAt(s, p, ci)
    ensures r.Some? ==> exists p :: 0 <= p < |s| && OutboundAt(s, p, ci) && (forall q :: 0 <= q < p ==> !OutboundAt(s, q, ci))
                                    && r.value == CaptureAt(s, p, ci)
    ensures r.Some? ==> forall k :: 0 <= k < |r.value| ==> r.value[k] != '\n'
    ensures r.Some? && r.value != [] ==> !IsSpace(r.value[0])
  {
    match FirstOutbound(s, ci)
    case None => None
    case Some(p) =>
      assert OutboundAt(s, p, ci);
      Some(CaptureAt(s, p, ci))
  }

  /** The search at a given first match: when the leftmost match is at
      `p`, the group is the one captured there. */
  lemma TransporterAt(s: string, p: nat, ci: bool)
    requires p < |s| && OutboundAt(s, p, ci)
    requires forall q :: 0 <= q < p ==> !OutboundAt(s, q, ci)
    ensures OutboundTransporter(s, ci) == Some(CaptureAt(s, p, ci))
  {
    var f := FirstOutbound(s, ci);
    assert f.Some?;
    assert f.value == p;
  }

  /** A header written in the exact case also matches when case is
      ignored, at the same place and with the same capture. */
  lemma SensitiveMatchIsInsensitiveMatch(s: string, p: nat)
    requires OutboundAt(s, p, false)
    ensures OutboundAt(s, p, true)
    ensures HeaderEnd(s, p, true) == HeaderEnd(s, p, false)
  {
    var a := SkipSpace(s, p + 2);
    assert WordAt(s, a, "Outbound", true);
    var b := SkipSpace(s, a + 8);
    assert WordAt(s, b, "Transporter", true);
  }

  /** When the first exactly-cased header is at `p` and no header in any
      casing comes before it, both searches capture the line at `p`. */
  lemma CaseSearchesAgree(s: string, p: nat)
    requires p < |s| && OutboundAt(s, p, false)
    requires forall q :: 0 <= q < p ==> !OutboundAt(s, q, true)
    ensures OutboundTransporter(s, true) == OutboundTransporter(s, false) == Some(CaptureAt(s, p, false))
  {
    SensitiveMatchIsInsensitiveMatch(s, p);
    forall q | 0 <= q < p
      ensures !OutboundAt(s, q, false)
    {
      if OutboundAt(s, q, false) {
        SensitiveMatchIsInsensitiveMatch(s, q);
      }
    }
    TransporterAt(s, p, true);
    TransporterAt(s, p, false);
  }

  /** So a case-sensitive search that succeeds implies a case-insensitive
      one that succeeds; and the two results coincide whenever no header in
      another casing comes first, that is, every header in any casing is at
      or after an exactly-cased one. */
  lemma SensitiveFoundImpliesInsensitive(s: string)
    ensures OutboundTransporter(s, false).Some? ==> OutboundTransporter(s, true).Some?
    ensures (forall q :: 0 <= q < |s| && OutboundAt(s, q, true) ==> exists p :: 0 <= p <= q && OutboundAt(s, p, false))
              ==> OutboundTransporter(s, true) == OutboundTransporter(s, false)
  {
    var cs := FirstOutbound(s, false);
    if cs.Some? {
      SensitiveMatchIsInsensitiveMatch(s, cs.value);
    }
    if forall q :: 0 <= q < |s| && OutboundAt(s, q, true) ==> exists p :: 0 <= p <= q && OutboundAt(s, p, false) {
      SearchesAgreeWhenNoneComesFirst(s);
    }
  }

  lemma SearchesAgreeWhenNoneComesFirst(s: string)
    requires forall q :: 0 <= q < |s| && OutboundAt(s, q, true) ==> exists p :: 0 <= p <= q && OutboundAt(s, p, false)
    ensures OutboundTransporter(s, true) == OutboundTransporter(s, false)
  {
    var cs := FirstOutbound(s, false);
    if cs.Some? {
      var c := cs.value;
      forall q | 0 <= q < c
        ensures !OutboundAt(s, q, true)
      {
      }
      CaseSearchesAgree(s, c);
    } else {
      forall q | 0 <= q < |s|
        ensures !OutboundAt(s, q, true)
      {
      }
    }
  }
}
