/** Character classes and string primitives shared by every scanner.
    They stand for the pieces of Python's `str` API and `re` syntax that the
    manifest code uses: `strip()`, `lower()`, `in`, `str.replace(x, "")`,
    `sep.join(...)`, and the classes `\s`, `\d`, `[A-Za-z0-9]`.
 */
module Text {
  import opened Wrappers

  /** Python's `str.isspace()` set: the characters `strip()` removes and the
      regex class `\s` matches in a `str` pattern. */
  predicate IsSpace(c: char) {
    || c == ' '
    || ('\t' <= c <= '\r')
    || ('\U{1c}' <= c <= '\U{1f}')
    || c == '\U{85}' || c == '\U{a0}' || c == '\U{1680}'
    || ('\U{2000}' <= c <= '\U{200a}')
    || c == '\U{2028}' || c == '\U{2029}' || c == '\U{202f}' || c == '\U{205f}' || c == '\U{3000}'
  }

  /** `\d`, restricted to ASCII digits. */
  predicate IsDigit(c: char) {
    '0' <= c <= '9'
  }

  /** The class `[A-Za-z0-9]`. */
  predicate IsAlnum(c: char) {
    ('a' <= c <= 'z') || ('A' <= c <= 'Z') || IsDigit(c)
  }

  predicate AllSpace(s: string) {
    forall k :: 0 <= k < |s| ==> IsSpace(s[k])
  }

  /** `c.lower()` on ASCII letters; every other character is unchanged. */
  function ToLower(c: char): char {
    if 'A' <= c <= 'Z' then (c as int + 32) as char else c
  }

  function Lower(s: string): (r: string)
    ensures |r| == |s|
    ensures forall k :: 0 <= k < |s| ==> r[k] == ToLower(s[k])
  {
    seq(|s|, k requires 0 <= k < |s| => ToLower(s[k]))
  }

  /** The literal `p` occurs in `s` at position `i`. */
  predicate PrefixAt(s: string, i: nat, p: string) {
    i + |p| <= |s| && s[i..i + |p|] == p
  }

  /** The lower-case literal `p` occurs at `i` when case is ignored
      (the `re.IGNORECASE` flag on an ASCII literal). */
  predicate PrefixAtCi(s: string, i: nat, p: string) {
    i + |p| <= |s| && Lower(s[i..i + |p|]) == p
  }

  /** Python's `p in s`. */
  predicate Contains(s: string, p: string) {
    exists i :: 0 <= i <= |s| - |p| && PrefixAt(s, i, p)
  }

  /** `re.search` for a pattern that cannot match the empty string: the
      leftmost position at or after `from` where `at` holds. */
  function Leftmost(s: string, from: nat, at: (string, nat) -> bool): (r: Option<nat>)
    requires from <= |s|
    ensures r.Some? ==> from <= r.value < |s| && at(s, r.value)
    ensures r.Some? ==> forall q :: from <= q < r.value ==> !at(s, q)
    ensures r.None? <==> forall q :: from <= q < |s| ==> !at(s, q)
    decreases |s| - from
  {
    if from == |s| then None
    else if at(s, from) then Some(from)
    else Leftmost(s, from + 1, at)
  }

  /** The end of the maximal run of `\s` that starts at `i` (what a greedy
      `\s*` consumes). */
  function SkipSpace(s: string, i: nat): (j: nat)
    requires i <= |s|
    ensures i <= j <= |s|
    ensures forall k :: i <= k < j ==> IsSpace(s[k])
    ensures j == |s| || !IsSpace(s[j])
    decreases |s| - i
  {
    if i < |s| && IsSpace(s[i]) then SkipSpace(s, i + 1) else i
  }

  /** The end of the maximal run of `\d` that starts at `i`. */
  function SkipDigits(s: string, i: nat): (j: nat)
    requires i <= |s|
    ensures i <= j <= |s|
    ensures forall k :: i <= k < j ==> IsDigit(s[k])
    ensures j == |s| || !IsDigit(s[j])
    decreases |s| - i
  {
    if i < |s| && IsDigit(s[i]) then SkipDigits(s, i + 1) else i
  }

  /** The end of the maximal run of `[A-Za-z0-9]` that starts at `i`. */
  function SkipAlnum(s: string, i: nat): (j: nat)
    requires i <= |s|
    ensures i <= j <= |s|
    ensures forall k :: i <= k < j ==> IsAlnum(s[k])
    ensures j == |s| || !IsAlnum(s[j])
    decreases |s| - i
  {
    if i < |s| && IsAlnum(s[i]) then SkipAlnum(s, i + 1) else i
  }

  /** The first position at or after `i` holding `c`, or `|s|` when there is
      none. */
  function FindChar(s: string, i: nat, c: char): (j: nat)
    requires i <= |s|
    ensures i <= j <= |s|
    ensures forall k :: i <= k < j ==> s[k] != c
    ensures j == |s| || s[j] == c
    decreases |s| - i
  {
    if i == |s| || s[i] == c then i else FindChar(s, i + 1, c)
  }

  /** The start of the trailing run of `\s` in `s[lo..hi]`. */
  function BackSkipSpace(s: string, lo: nat, hi: nat): (j: nat)
    requires lo <= hi <= |s|
    ensures lo <= j <= hi
    ensures forall k :: j <= k < hi ==> IsSpace(s[k])
    ensures j == lo || !IsSpace(s[j - 1])
    decreases hi
  {
    if hi > lo && IsSpace(s[hi - 1]) then BackSkipSpace(s, lo, hi - 1) else hi
  }

  /** Python's `s.strip()`: the text left after removing leading and trailing
      whitespace. */
  function Trim(s: string): (r: string)
    ensures |r| <= |s|
    ensures r == [] || (!IsSpace(r[0]) && !IsSpace(r[|r| - 1]))
    ensures r == [] <==> AllSpace(s)
  {
    var a := SkipSpace(s, 0);
    var b := BackSkipSpace(s, a, |s|);
    s[a..b]
  }

  /** What `strip()` removes is whitespace on either side: the result is a
      slice of the text with only whitespace before and after it. */
  lemma TrimSlice(s: string)
    ensures var r := Trim(s);
      exists a :: 0 <= a <= |s| - |r| && s[a..a + |r|] == r && AllSpace(s[..a]) && AllSpace(s[a + |r|..])
  {
    var a := SkipSpace(s, 0);
    var b := BackSkipSpace(s, a, |s|);
    assert AllSpace(s[..a]) && AllSpace(s[b..]);
    assert Trim(s) == s[a..b];
  }

  /** Text without leading or trailing whitespace is left as it is. */
  lemma TrimUnchanged(s: string)
    requires s == [] || (!IsSpace(s[0]) && !IsSpace(s[|s| - 1]))
    ensures Trim(s) == s
  {
    var a := SkipSpace(s, 0);
    var b := BackSkipSpace(s, a, |s|);
    assert Trim(s) == s[a..b];
    if s != [] {
      assert a == 0;
      assert b == |s|;
    }
  }

  /** `strip()` is determined by any split of the text into whitespace, a
      core that neither begins nor ends with whitespace, and whitespace. */
  lemma TrimUnique(s: string, a: nat, b: nat)
    requires a <= b <= |s|
    requires AllSpace(s[..a]) && AllSpace(s[b..])
    requires a == b || (!IsSpace(s[a]) && !IsSpace(s[b - 1]))
    ensures Trim(s) == s[a..b]
  {
    var a' := SkipSpace(s, 0);
    var b' := BackSkipSpace(s, a', |s|);
    if a == b {
      assert forall k :: 0 <= k < |s| ==> IsSpace(s[k]) by {
        forall k | 0 <= k < |s| ensures IsSpace(s[k]) {
          if k < a { assert s[..a][k] == s[k]; } else { assert s[b..][k - b] == s[k]; }
        }
      }
    } else {
      assert a' == a;
      assert b' == b;
    }
  }

  /** Stripping ignores one leading whitespace character. */
  lemma TrimDropsLeadingSpace(s: string)
    requires |s| > 0 && IsSpace(s[0])
    ensures Trim(s) == Trim(s[1..])
  {
    var t := s[1..];
    var a := SkipSpace(t, 0);
    var b := BackSkipSpace(t, a, |t|);
    assert s[a + 1..b + 1] == t[a..b];
    SpacesAfterHead(s, a);
    SpacesAfterShift(s, b);
    TrimUnique(s, a + 1, b + 1);
  }

  lemma SpacesAfterHead(s: string, a: nat)
    requires a < |s| && IsSpace(s[0])
    requires forall k :: 0 <= k < a ==> IsSpace(s[1..][k])
    ensures AllSpace(s[..a + 1])
  {
    forall k | 0 <= k < a + 1 ensures IsSpace(s[k]) {
      if k > 0 { assert s[k] == s[1..][k - 1]; }
    }
  }

  lemma SpacesAfterShift(s: string, b: nat)
    requires b < |s|
    requires forall k :: b <= k < |s| - 1 ==> IsSpace(s[1..][k])
    ensures AllSpace(s[b + 1..])
  {
    forall k | b + 1 <= k < |s| ensures IsSpace(s[k]) {
      assert s[k] == s[1..][k - 1];
    }
  }

  lemma NoSpaceInWindow(s: string, i: nat, w: string)
    requires PrefixAt(s, i, w)
    requires forall k :: 0 <= k < |w| ==> w[k] != ' '
    ensures forall m :: i <= m < i + |w| ==> s[m] != ' '
  {
    forall m | i <= m < i + |w| ensures s[m] != ' ' {
      assert s[i..i + |w|][m - i] == s[m];
    }
  }

  /** A word without spaces occurs in `a + " " + b` exactly when it occurs
      in `a` or in `b`. */
  lemma ContainsAroundSpace(a: string, b: string, w: string)
    requires |w| > 0 && forall k :: 0 <= k < |w| ==> w[k] != ' '
    ensures Contains(a + " " + b, w) <==> Contains(a, w) || Contains(b, w)
  {
    if Contains(a + " " + b, w) {
      ContainsSplitsAtSpace(a, b, w);
    }
    if Contains(a, w) {
      ContainsInLeft(a, " " + b, w);
      assert a + (" " + b) == a + " " + b;
    }
    if Contains(b, w) {
      ContainsSuffix(a + " " + b, |a| + 1, w) by {
        assert (a + " " + b)[|a| + 1..] == b;
      }
    }
  }

  /** An occurrence that cannot straddle the space lies on one side of it. */
  lemma ContainsSplitsAtSpace(a: string, b: string, w: string)
    requires |w| > 0 && forall k :: 0 <= k < |w| ==> w[k] != ' '
    requires Contains(a + " " + b, w)
    ensures Contains(a, w) || Contains(b, w)
  {
    var s := a + " " + b;
    var i :| 0 <= i <= |s| - |w| && PrefixAt(s, i, w);
    NoSpaceInWindow(s, i, w);
    assert s[|a|] == ' ';
    if i + |w| <= |a| {
      assert s[i..i + |w|] == a[i..i + |w|];
      assert PrefixAt(a, i, w);
    } else {
      assert s[i..i + |w|] == b[i - |a| - 1..i - |a| - 1 + |w|];
      assert PrefixAt(b, i - |a| - 1, w);
    }
  }

  /** An occurrence in a prefix is an occurrence in the whole text. */
  lemma ContainsInLeft(a: string, b: string, w: string)
    requires Contains(a, w)
    ensures Contains(a + b, w)
  {
    var i :| 0 <= i <= |a| - |w| && PrefixAt(a, i, w);
    assert (a + b)[i..i + |w|] == a[i..i + |w|];
    assert PrefixAt(a + b, i, w);
  }

  /** A character absent from the text is absent from its stripped form. */
  lemma TrimAvoids(s: string, c: char)
    requires forall k :: 0 <= k < |s| ==> s[k] != c
    ensures forall k :: 0 <= k < |Trim(s)| ==> Trim(s)[k] != c
  {
    var a := SkipSpace(s, 0);
    var b := BackSkipSpace(s, a, |s|);
    assert Trim(s) == s[a..b];
  }

  /** Python's `s.replace(pat, "")`: every non-overlapping occurrence of
      `pat`, found left to right, is removed. `re.sub` with a literal
      alternative behaves the same way. */
  function RemoveAll(s: string, pat: string): (r: string)
    requires |pat| > 0
    ensures |r| <= |s|
    decreases |s|
  {
    if |s| < |pat| then s
    else if PrefixAt(s, 0, pat) then RemoveAll(s[|pat|..], pat)
    else [s[0]] + RemoveAll(s[1..], pat)
  }

  /** Python's `sep.join(xs)`. */
  function Join(xs: seq<string>, sep: string): (r: string)
    ensures |xs| == 0 ==> r == ""
    ensures |xs| == 1 ==> r == xs[0]
    ensures |xs| >= 2 ==> |r| >= |sep| + |xs[0]| && r[|xs[0]|..|xs[0]| + |sep|] == sep
    decreases |xs|
  {
    if |xs| == 0 then ""
    else if |xs| == 1 then xs[0]
    else xs[0] + sep + Join(xs[1..], sep)
  }

  /** Removing a one-character literal leaves no occurrence of it. */
  lemma {:induction false} RemoveAllOmitsChar(s: string, c: char)
    ensures forall k :: 0 <= k < |RemoveAll(s, [c])| ==> RemoveAll(s, [c])[k] != c
    decreases |s|
  {
    if |s| < 1 {
    } else if PrefixAt(s, 0, [c]) {
      RemoveAllOmitsChar(s[1..], c);
    } else {
      RemoveAllOmitsChar(s[1..], c);
      assert s[0] != c by { assert s[0..1] == [s[0]]; }
    }
  }

  /** An occurrence in a suffix is an occurrence in the whole text. */
  lemma ContainsSuffix(s: string, k: nat, p: string)
    requires k <= |s|
    requires Contains(s[k..], p)
    ensures Contains(s, p)
  {
    var i :| 0 <= i <= |s[k..]| - |p| && PrefixAt(s[k..], i, p);
    assert s[k..][i..i + |p|] == s[k + i..k + i + |p|];
    assert PrefixAt(s, k + i, p);
  }

  /** Removal never introduces a character: what the result holds, the text
      held. */
  lemma {:induction false} RemoveAllKeepsAbsent(s: string, pat: string, c: char)
    requires |pat| > 0
    requires forall k :: 0 <= k < |s| ==> s[k] != c
    ensures forall k :: 0 <= k < |RemoveAll(s, pat)| ==> RemoveAll(s, pat)[k] != c
    decreases |s|
  {
    if |s| < |pat| {
    } else if PrefixAt(s, 0, pat) {
      RemoveAllKeepsAbsent(s[|pat|..], pat, c);
    } else {
      RemoveAllKeepsAbsent(s[1..], pat, c);
    }
  }

  /** A literal that does not occur is not removed: the text is unchanged. */
  lemma {:induction false} RemoveAllAbsent(s: string, pat: string)
    requires |pat| > 0
    requires !Contains(s, pat)
    ensures RemoveAll(s, pat) == s
    decreases |s|
  {
    if |s| < |pat| {
    } else {
      assert !PrefixAt(s, 0, pat);
      assert !Contains(s[1..], pat) by {
        forall i | 0 <= i <= |s[1..]| - |pat|
          ensures !PrefixAt(s[1..], i, pat)
        {
          assert s[1..][i..i + |pat|] == s[i + 1..i + 1 + |pat|];
          assert !PrefixAt(s, i + 1, pat);
        }
      }
      RemoveAllAbsent(s[1..], pat);
    }
  }

  /** Removing a literal from a text that ends with it, when no occurrence
      starts earlier, drops just that ending. */
  lemma {:induction false} RemoveAllAtEnd(u: string, pat: string)
    requires |pat| > 0
    requires forall i :: 0 <= i < |u| ==> !PrefixAt(u + pat, i, pat)
    ensures RemoveAll(u + pat, pat) == u
    decreases |u|
  {
    var s := u + pat;
    if |u| == 0 {
      assert s == pat && s[|pat|..] == [];
      assert PrefixAt(s, 0, pat);
    } else {
      assert !PrefixAt(s, 0, pat);
      assert s[1..] == u[1..] + pat;
      forall i | 0 <= i < |u[1..]| ensures !PrefixAt(u[1..] + pat, i, pat) {
        assert (u[1..] + pat)[i..i + |pat|] == s[i + 1..i + 1 + |pat|];
        assert !PrefixAt(s, i + 1, pat);
      }
      RemoveAllAtEnd(u[1..], pat);
      assert [u[0]] + u[1..] == u;
    }
  }

  /** Appending a character that differs from a literal's last character
      creates no occurrence of the literal. */
  lemma NotContainsSnoc(t: string, c: char, pat: string)
    requires |pat| > 0 && !Contains(t, pat)
    requires pat[|pat| - 1] != c
    ensures !Contains(t + [c], pat)
  {
    var s := t + [c];
    forall i | 0 <= i <= |s| - |pat| ensures !PrefixAt(s, i, pat) {
      if i + |pat| <= |t| {
        assert s[i..i + |pat|] == t[i..i + |pat|];
        assert !PrefixAt(t, i, pat);
      } else {
        assert s[i..i + |pat|][|pat| - 1] == c;
      }
    }
  }

  /** In `t + [c] + pat`, no occurrence of `pat` starts inside `t` or at
      `c` when `t` holds none, `pat` does not end with `c`, and wherever
      `pat` holds `c` the next character differs from `pat`'s first one. */
  lemma NoOccurrenceBefore(t: string, c: char, pat: string)
    requires |pat| > 0 && !Contains(t, pat)
    requires pat[|pat| - 1] != c
    requires forall j :: 0 <= j < |pat| - 1 && pat[j] == c ==> pat[j + 1] != pat[0]
    ensures forall i :: 0 <= i <= |t| ==> !PrefixAt(t + [c] + pat, i, pat)
  {
    var s := t + [c] + pat;
    forall i | 0 <= i <= |t| ensures !PrefixAt(s, i, pat) {
      var w := s[i..i + |pat|];
      if i + |pat| <= |t| {
        assert w == t[i..i + |pat|];
        assert !PrefixAt(t, i, pat);
      } else {
        var j := |t| - i;
        assert w[j] == c;
        if pat[j] == c {
          assert w[j + 1] == pat[0];
          assert pat[j + 1] != pat[0];
        }
      }
    }
  }

  /** Stripping ignores one trailing whitespace character. */
  lemma TrimDropsTrailingSpace(t: string, c: char)
    requires IsSpace(c)
    ensures Trim(t + [c]) == Trim(t)
  {
    var s := t + [c];
    var a := SkipSpace(t, 0);
    var b := BackSkipSpace(t, a, |t|);
    assert Trim(t) == t[a..b] == s[a..b];
    assert AllSpace(s[..a]) by {
      assert s[..a] == t[..a];
    }
    var tail := s[b..];
    assert AllSpace(tail) by {
      forall k | 0 <= k < |tail| ensures IsSpace(tail[k]) {
        assert tail[k] == s[b + k];
      }
    }
    if a < b {
      assert s[a] == t[a] && s[b - 1] == t[b - 1];
    }
    TrimUnique(s, a, b);
  }
}
