/** The upload filter shared by the spreadsheet endpoints and the manifest
    scan: a file name is accepted when it holds a dot and the lower-cased
    text after its last dot is one of the allowed extensions. Each endpoint
    module passes its own set of extensions.
 */
module Upload {
  import opened Wrappers
  import opened Text

  predicate NoDot(s: string) {
    forall k :: 0 <= k < |s| ==> s[k] != '.'
  }

  /** The last dot in `s[..hi]`. */
  function LastDot(s: string, hi: nat): (r: Option<nat>)
    requires hi <= |s|
    ensures r.Some? ==> r.value < hi && s[r.value] == '.'
    ensures r.Some? ==> forall k :: r.value < k < hi ==> s[k] != '.'
    ensures r.None? <==> forall k :: 0 <= k < hi ==> s[k] != '.'
    decreases hi
  {
    if hi == 0 then None
    else if s[hi - 1] == '.' then Some(hi - 1)
    else LastDot(s, hi - 1)
  }

  /** `name.rsplit('.', 1)[1]`, guarded by `'.' in name`: the text after
      the last dot, or `None` when there is no dot. */
  function Extension(name: string): (r: Option<string>)
    ensures r.None? <==> NoDot(name)
    ensures r.Some? ==> NoDot(r.value) && |r.value| < |name|
    ensures r.Some? ==> name[|name| - |r.value| - 1] == '.' && name[|name| - |r.value|..] == r.value
  {
    match LastDot(name, |name|)
    case None => None
    case Some(d) => Some(name[d + 1..])
  }

  /** `allowed_file`. */
  predicate AllowedFile(name: string, exts: set<string>) {
    match Extension(name)
    case None => false
    case Some(e) => Lower(e) in exts
  }

  /** Only the segment after the last dot counts: whatever stands before
      it, including further dots, does not matter. */
  lemma ExtensionOfJoin(a: string, b: string)
    requires NoDot(b)
    ensures Extension(a + "." + b) == Some(b)
  {
    var name := a + "." + b;
    assert name[|a|] == '.';
    assert name[|a| + 1..] == b;
  }

  /** A name is accepted exactly when it splits at some dot into a part
      before and a dot-free part after whose lower-cased form is allowed. */
  lemma AllowedIffLastSegment(a: string, b: string, exts: set<string>)
    requires NoDot(b)
    ensures AllowedFile(a + "." + b, exts) <==> Lower(b) in exts
  {
    ExtensionOfJoin(a, b);
  }

  /** A name without a dot is never accepted, and a name ending in a dot
      has the empty extension. */
  lemma DotRequired(name: string, exts: set<string>)
    ensures NoDot(name) ==> !AllowedFile(name, exts)
    ensures name != [] && name[|name| - 1] == '.' ==> (AllowedFile(name, exts) <==> "" in exts)
  {
    if name != [] && name[|name| - 1] == '.' {
      assert name == name[..|name| - 1] + "." + "";
      AllowedIffLastSegment(name[..|name| - 1], "", exts);
    }
  }

  lemma LowerIdempotent(s: string)
    ensures Lower(Lower(s)) == Lower(s)
  {
  }

  lemma LowerSplitsAtDot(a: string, b: string)
    ensures Lower(a + "." + b) == Lower(a) + "." + Lower(b)
  {
  }

  /** The extension is compared without regard to case: lower-casing the
      whole name changes nothing. */
  lemma CaseIgnored(name: string, exts: set<string>)
    ensures AllowedFile(Lower(name), exts) <==> AllowedFile(name, exts)
  {
    match Extension(name)
    case None =>
      assert NoDot(Lower(name));
    case Some(e) =>
      var a := name[..|name| - |e| - 1];
      assert name == a + "." + e;
      LowerSplitsAtDot(a, e);
      assert NoDot(Lower(e));
      AllowedIffLastSegment(a, e, exts);
      AllowedIffLastSegment(Lower(a), Lower(e), exts);
      LowerIdempotent(e);
  }
}
