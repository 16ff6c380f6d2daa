/** Sequence utilities shared by the segmenter and the aggregator:
    concatenation of text pieces and order-preserving de-duplication, which
    the source writes twice, once as a `seen` set over M-numbers and once as
    `list(dict.fromkeys(names))`.
 */
module Seqs {

  /** `"".join(ss)` on text pieces; on lists of lists, the items of every
      list in turn (what nested `for ...: out.append(...)` loops build). */
  function Concat<T>(ss: seq<seq<T>>): (r: seq<T>)
    decreases |ss|
  {
    if |ss| == 0 then [] else ss[0] + Concat(ss[1..])
  }

  /** Python's `xs[:n]` for `n >= 0`: the first `n` items, or all of them
      when there are fewer. */
  function Take<T>(xs: seq<T>, n: nat): (r: seq<T>)
    ensures |r| == if |xs| <= n then |xs| else n
    ensures r == xs[..|r|]
  {
    if |xs| <= n then xs else xs[..n]
  }

  /** The key of every element, in order. */
  function Keys<T, K>(xs: seq<T>, key: T -> K): (ks: seq<K>)
    ensures |ks| == |xs|
    ensures forall i :: 0 <= i < |xs| ==> ks[i] == key(xs[i])
  {
    seq(|xs|, i requires 0 <= i < |xs| => key(xs[i]))
  }

  predicate NoDup<K(==)>(ks: seq<K>) {
    forall i, j :: 0 <= i < j < |ks| ==> ks[i] != ks[j]
  }

  /** The position of the first occurrence of `k` in `ks`, or `|ks|`. */
  function FirstIndex<K(==)>(ks: seq<K>, k: K): (n: nat)
    ensures n <= |ks|
    ensures n < |ks| <==> k in ks
    ensures n < |ks| ==> ks[n] == k
    ensures forall i :: 0 <= i < n ==> ks[i] != k
    decreases |ks|
  {
    if |ks| == 0 then 0
    else if ks[0] == k then 0
    else 1 + FirstIndex(ks[1..], k)
  }

  /** Keep, in order, each element whose key is neither in `seen` nor the
      key of an element kept before it: the loop
      `if key(x) in seen: continue; seen.add(key(x)); out.append(x)`. */
  function DedupBy<T, K(==)>(xs: seq<T>, key: T -> K, seen: set<K>): (r: seq<T>)
    ensures |r| <= |xs|
    decreases |xs|
  {
    if |xs| == 0 then []
    else if key(xs[0]) in seen then DedupBy(xs[1..], key, seen)
    else [xs[0]] + DedupBy(xs[1..], key, seen + {key(xs[0])})
  }

  function Id<T>(x: T): T {
    x
  }

  /** `list(dict.fromkeys(xs))`. */
  function Dedup<T(==)>(xs: seq<T>): (r: seq<T>) {
    DedupBy(xs, Id, {})
  }

  lemma KeysTail<T, K>(xs: seq<T>, key: T -> K)
    requires |xs| > 0
    ensures Keys(xs[1..], key) == Keys(xs, key)[1..]
  {
  }

  lemma KeysCons<T, K>(x: T, xs: seq<T>, key: T -> K)
    ensures Keys([x] + xs, key) == [key(x)] + Keys(xs, key)
  {
  }

  /** No kept element carries a key of `seen`. */
  lemma {:induction false} DedupByAvoidsSeen<T, K>(xs: seq<T>, key: T -> K, seen: set<K>)
    ensures forall i :: 0 <= i < |DedupBy(xs, key, seen)| ==> key(DedupBy(xs, key, seen)[i]) !in seen
    decreases |xs|
  {
    if |xs| > 0 {
      if key(xs[0]) in seen {
        DedupByAvoidsSeen(xs[1..], key, seen);
      } else {
        DedupByAvoidsSeen(xs[1..], key, seen + {key(xs[0])});
      }
    }
  }

  /** No key is kept twice. */
  lemma {:induction false} DedupByDistinct<T, K>(xs: seq<T>, key: T -> K, seen: set<K>)
    ensures NoDup(Keys(DedupBy(xs, key, seen), key))
    decreases |xs|
  {
    if |xs| > 0 {
      var k0 := key(xs[0]);
      if k0 in seen {
        DedupByDistinct(xs[1..], key, seen);
      } else {
        var r' := DedupBy(xs[1..], key, seen + {k0});
        DedupByDistinct(xs[1..], key, seen + {k0});
        DedupByAvoidsSeen(xs[1..], key, seen + {k0});
        KeysCons(xs[0], r', key);
        var ks := Keys([xs[0]] + r', key);
        forall i, j | 0 <= i < j < |ks|
          ensures ks[i] != ks[j]
        {
          assert ks[j] == key(r'[j - 1]);
        }
      }
    }
  }

  /** Every element of `r` is the first element of `xs` carrying its key. */
  ghost predicate KeptFirst<T, K>(xs: seq<T>, key: T -> K, r: seq<T>) {
    forall i :: 0 <= i < |r| ==>
      FirstIndex(Keys(xs, key), key(r[i])) < |xs| && r[i] == xs[FirstIndex(Keys(xs, key), key(r[i]))]
  }

  /** The elements of `r` follow the order of their keys' first occurrences
      in `xs`. */
  ghost predicate KeptInOrder<T, K>(xs: seq<T>, key: T -> K, r: seq<T>) {
    forall i, j :: 0 <= i < j < |r| ==>
      FirstIndex(Keys(xs, key), key(r[i])) < FirstIndex(Keys(xs, key), key(r[j]))
  }

  /** Each kept element is the first element of the input carrying its key. */
  lemma {:induction false} DedupByFirstWins<T, K>(xs: seq<T>, key: T -> K, seen: set<K>)
    ensures KeptFirst(xs, key, DedupBy(xs, key, seen))
    decreases |xs|
  {
    if |xs| > 0 {
      var ks := Keys(xs, key);
      KeysTail(xs, key);
      var k0 := key(xs[0]);
      if k0 in seen {
        DedupByFirstWins(xs[1..], key, seen);
        DedupByAvoidsSeen(xs[1..], key, seen);
        var r := DedupBy(xs[1..], key, seen);
        forall i | 0 <= i < |r|
          ensures FirstIndex(ks, key(r[i])) < |xs| && r[i] == xs[FirstIndex(ks, key(r[i]))]
        {
          assert key(r[i]) != k0;
          var n := FirstIndex(ks[1..], key(r[i]));
          assert n < |xs| - 1 && r[i] == xs[1..][n];
          assert FirstIndex(ks, key(r[i])) == 1 + n;
        }
      } else {
        var r' := DedupBy(xs[1..], key, seen + {k0});
        DedupByFirstWins(xs[1..], key, seen + {k0});
        DedupByAvoidsSeen(xs[1..], key, seen + {k0});
        var r := [xs[0]] + r';
        forall i | 0 <= i < |r'|
          ensures FirstIndex(ks, key(r'[i])) == 1 + FirstIndex(ks[1..], key(r'[i]))
        {
          assert key(r'[i]) != k0;
        }
        forall i | 0 <= i < |r|
          ensures FirstIndex(ks, key(r[i])) < |xs| && r[i] == xs[FirstIndex(ks, key(r[i]))]
        {
          if i > 0 {
            assert r[i] == r'[i - 1];
            assert key(r'[i - 1]) != k0;
            var n := FirstIndex(ks[1..], key(r'[i - 1]));
            assert n < |xs| - 1 && r'[i - 1] == xs[1..][n];
            assert FirstIndex(ks, key(r[i])) == 1 + n;
          } else {
            assert FirstIndex(ks, key(r[0])) == 0;
          }
        }
      }
    }
  }

  /** Kept elements appear in the order of their keys' first occurrences. */
  lemma {:induction false} DedupByOrdered<T, K>(xs: seq<T>, key: T -> K, seen: set<K>)
    ensures KeptInOrder(xs, key, DedupBy(xs, key, seen))
    decreases |xs|
  {
    if |xs| > 0 {
      var k0 := key(xs[0]);
      if k0 in seen {
        DedupByOrdered(xs[1..], key, seen);
        DedupByAvoidsSeen(xs[1..], key, seen);
        InOrderShift(xs, key, DedupBy(xs[1..], key, seen));
      } else {
        DedupByOrdered(xs[1..], key, seen + {k0});
        DedupByAvoidsSeen(xs[1..], key, seen + {k0});
        InOrderCons(xs, key, DedupBy(xs[1..], key, seen + {k0}));
      }
    }
  }

  /** A key other than the first element's is first found one place later
      in the whole sequence than in its tail. */
  lemma FirstIndexShift<T, K>(xs: seq<T>, key: T -> K, r: seq<T>)
    requires |xs| > 0
    requires forall i :: 0 <= i < |r| ==> key(r[i]) != key(xs[0])
    ensures forall i :: 0 <= i < |r| ==>
      FirstIndex(Keys(xs, key), key(r[i])) == 1 + FirstIndex(Keys(xs[1..], key), key(r[i]))
  {
    KeysTail(xs, key);
  }

  lemma InOrderShift<T, K>(xs: seq<T>, key: T -> K, r: seq<T>)
    requires |xs| > 0 && KeptInOrder(xs[1..], key, r)
    requires forall i :: 0 <= i < |r| ==> key(r[i]) != key(xs[0])
    ensures KeptInOrder(xs, key, r)
  {
    FirstIndexShift(xs, key, r);
  }

  lemma InOrderCons<T, K>(xs: seq<T>, key: T -> K, r': seq<T>)
    requires |xs| > 0 && KeptInOrder(xs[1..], key, r')
    requires forall i :: 0 <= i < |r'| ==> key(r'[i]) != key(xs[0])
    ensures KeptInOrder(xs, key, [xs[0]] + r')
  {
    FirstIndexShift(xs, key, r');
    var ks := Keys(xs, key);
    var r := [xs[0]] + r';
    assert FirstIndex(ks, key(r[0])) == 0;
    forall i, j | 0 <= i < j < |r|
      ensures FirstIndex(ks, key(r[i])) < FirstIndex(ks, key(r[j]))
    {
      assert r[j] == r'[j - 1];
      if i > 0 {
        assert r[i] == r'[i - 1];
      }
    }
  }

  /** Every key of the input outside `seen` is represented in the output. */
  lemma {:induction false} DedupByComplete<T, K>(xs: seq<T>, key: T -> K, seen: set<K>)
    ensures forall j :: 0 <= j < |xs| && key(xs[j]) !in seen ==> key(xs[j]) in Keys(DedupBy(xs, key, seen), key)
    decreases |xs|
  {
    if |xs| > 0 {
      var k0 := key(xs[0]);
      if k0 in seen {
        DedupByComplete(xs[1..], key, seen);
        var r := DedupBy(xs[1..], key, seen);
        forall j | 0 <= j < |xs| && key(xs[j]) !in seen
          ensures key(xs[j]) in Keys(r, key)
        {
          assert xs[j] == xs[1..][j - 1];
        }
      } else {
        var r' := DedupBy(xs[1..], key, seen + {k0});
        DedupByComplete(xs[1..], key, seen + {k0});
        KeysCons(xs[0], r', key);
        forall j | 0 <= j < |xs| && key(xs[j]) !in seen
          ensures key(xs[j]) in Keys([xs[0]] + r', key)
        {
          if j > 0 && key(xs[j]) != k0 {
            assert xs[j] == xs[1..][j - 1];
          }
        }
      }
    }
  }

  lemma KeysIdentity<T>(xs: seq<T>)
    ensures Keys(xs, Id) == xs
  {
  }

  /** `list(dict.fromkeys(xs))` has no duplicates, holds exactly the values of
      `xs`, and lists them in the order of their first occurrence. */
  lemma DedupSpec<T>(xs: seq<T>)
    ensures NoDup(Dedup(xs))
    ensures forall x :: x in Dedup(xs) <==> x in xs
    ensures forall i, j :: 0 <= i < j < |Dedup(xs)| ==> FirstIndex(xs, Dedup(xs)[i]) < FirstIndex(xs, Dedup(xs)[j])
  {
    var id := Id;
    var r := Dedup(xs);
    DedupByDistinct(xs, id, {});
    DedupByFirstWins(xs, id, {});
    DedupByOrdered(xs, id, {});
    DedupByComplete(xs, id, {});
    KeysIdentity(xs);
    KeysIdentity(r);
    forall x | x in xs
      ensures x in r
    {
      var j :| 0 <= j < |xs| && xs[j] == x;
      assert id(xs[j]) in Keys(r, id);
    }
    forall x | x in r
      ensures x in xs
    {
      var i :| 0 <= i < |r| && r[i] == x;
      assert r[i] == xs[FirstIndex(Keys(xs, id), id(r[i]))];
    }
  }

  /** The concatenation of a prefix and the matching suffix is the whole. */
  lemma {:induction false} ConcatSplit<T>(ss: seq<seq<T>>, k: nat)
    requires k <= |ss|
    ensures Concat(ss[..k]) + Concat(ss[k..]) == Concat(ss)
    decreases k
  {
    if k == 0 {
      assert ss[..0] == [];
      assert ss[0..] == ss;
    } else {
      ConcatSplit(ss[1..], k - 1);
      assert ss[1..][..k - 1] == ss[1..k];
      assert ss[1..][k - 1..] == ss[k..];
      assert ss[..k][1..] == ss[1..k];
    }
  }

  /** Appending one more list appends its items. */
  lemma ConcatSnoc<T>(ss: seq<seq<T>>, s: seq<T>)
    ensures Concat(ss + [s]) == Concat(ss) + s
  {
    ConcatSplit(ss + [s], |ss|);
    assert (ss + [s])[..|ss|] == ss;
    assert (ss + [s])[|ss|..] == [s];
    assert Concat([s]) == s + Concat([s][1..]);
  }

  /** The concatenation from list `j` on is list `j` followed by the rest. */
  lemma ConcatFrom<T>(ss: seq<seq<T>>, j: nat)
    requires j < |ss|
    ensures Concat(ss[j..]) == ss[j] + Concat(ss[j + 1..])
  {
    assert ss[j..][0] == ss[j] && ss[j..][1..] == ss[j + 1..];
  }

  /** Each list sits in the concatenation right after the lists before
      it. */
  lemma ConcatAt<T>(ss: seq<seq<T>>, j: nat)
    requires j < |ss|
    ensures |Concat(ss[..j + 1])| == |Concat(ss[..j])| + |ss[j]|
    ensures |Concat(ss[..j + 1])| <= |Concat(ss)|
    ensures Concat(ss)[|Concat(ss[..j])|..|Concat(ss[..j + 1])|] == ss[j]
  {
    ConcatSplit(ss, j);
    ConcatSplit(ss, j + 1);
    ConcatSplit(ss[..j + 1], j);
    assert ss[..j + 1][..j] == ss[..j];
    assert ss[..j + 1][j..] == [ss[j]];
    assert Concat([ss[j]]) == ss[j] + Concat([ss[j]][1..]);
    ConcatFrom(ss, j);
  }

  lemma InAppend<T>(a: seq<T>, b: seq<T>, x: T)
    ensures x in a + b <==> x in a || x in b
  {
  }

  lemma ConcatCons<T>(x: seq<T>, rest: seq<seq<T>>)
    ensures Concat([x] + rest) == x + Concat(rest)
  {
    assert ([x] + rest)[1..] == rest;
  }

  lemma SliceJoin<T>(s: seq<T>, a: nat, b: nat)
    requires a <= b <= |s|
    ensures s[a..b] + s[b..] == s[a..]
  {
  }

  /** A property of the first item and of every later item holds of every
      item. */
  lemma ConsAll<T>(x: T, rest: seq<T>, p: T -> bool)
    requires p(x) && forall k :: 0 <= k < |rest| ==> p(rest[k])
    ensures forall k :: 0 <= k < |[x] + rest| ==> p(([x] + rest)[k])
  {
  }

  /** An item of the concatenation is an item of one of the lists, and
      conversely. */
  lemma {:induction false} InConcat<T>(ss: seq<seq<T>>, x: T)
    ensures x in Concat(ss) <==> exists i :: 0 <= i < |ss| && x in ss[i]
    decreases |ss|
  {
    if |ss| > 0 {
      InConcat(ss[1..], x);
      assert forall i :: 1 <= i < |ss| ==> ss[i] == ss[1..][i - 1];
      if x in Concat(ss[1..]) {
        var i :| 0 <= i < |ss[1..]| && x in ss[1..][i];
        assert x in ss[i + 1];
      }
    }
  }

  /** The lists `f(x)` for the items of `xs`, one after the other. */
  function FlatMap<T, U>(xs: seq<T>, f: T -> seq<U>): (r: seq<U>) {
    Concat(seq(|xs|, i requires 0 <= i < |xs| => f(xs[i])))
  }

  /** An item of the flattened result comes from some item of `xs`, and
      every item's list is included. */
  lemma InFlatMap<T, U>(xs: seq<T>, f: T -> seq<U>, u: U)
    ensures u in FlatMap(xs, f) <==> exists x :: x in xs && u in f(x)
  {
    var per := seq(|xs|, i requires 0 <= i < |xs| => f(xs[i]));
    InConcat(per, u);
    if u in FlatMap(xs, f) {
      var i :| 0 <= i < |per| && u in per[i];
      assert xs[i] in xs && u in f(xs[i]);
    }
    if exists x :: x in xs && u in f(x) {
      var x :| x in xs && u in f(x);
      var i :| 0 <= i < |xs| && xs[i] == x;
      assert u in per[i];
    }
  }

  /** The items of `xs` that satisfy `p`, in order (a list comprehension
      with an `if`). */
  function Filter<T>(xs: seq<T>, p: T -> bool): (r: seq<T>)
    ensures |r| <= |xs|
    ensures forall k :: 0 <= k < |r| ==> p(r[k])
    decreases |xs|
  {
    if |xs| == 0 then [] else (if p(xs[0]) then [xs[0]] else []) + Filter(xs[1..], p)
  }

  /** Filtering keeps exactly the items that satisfy `p`. */
  lemma {:induction false} InFilter<T>(xs: seq<T>, p: T -> bool, x: T)
    ensures x in Filter(xs, p) <==> x in xs && p(x)
    decreases |xs|
  {
    if |xs| > 0 {
      InFilter(xs[1..], p, x);
      assert x in xs <==> x == xs[0] || x in xs[1..];
    }
  }

  /** Filtering keeps order: the filter of a concatenation is the filter of
      the first part followed by the filter of the second. */
  lemma {:induction false} FilterAppend<T>(a: seq<T>, b: seq<T>, p: T -> bool)
    ensures Filter(a + b, p) == Filter(a, p) + Filter(b, p)
    decreases |a|
  {
    if |a| == 0 {
      assert a + b == b;
    } else {
      assert (a + b)[0] == a[0];
      assert (a + b)[1..] == a[1..] + b;
      FilterAppend(a[1..], b, p);
    }
  }

  /** One element is kept exactly when it satisfies the predicate. */
  lemma FilterSingle<T>(x: T, p: T -> bool)
    ensures Filter([x], p) == if p(x) then [x] else []
  {
    assert [x][1..] == [];
  }

  /** `re.split` on a zero-width look-ahead that holds where `cut` holds:
      the current piece began at `start`, and positions from `i` on are
      still to be examined. Python cuts at every position where the
      look-ahead holds, position 0 included, which then yields an empty
      first piece. */
  function SplitFrom(s: string, cut: (string, nat) -> bool, start: nat, i: nat): (r: seq<string>)
    requires start <= i <= |s|
    ensures |r| >= 1
    decreases |s| - i
  {
    if i == |s| then [s[start..]]
    else if cut(s, i) then [s[start..i]] + SplitFrom(s, cut, i, i + 1)
    else SplitFrom(s, cut, start, i + 1)
  }

  function SplitBefore(s: string, cut: (string, nat) -> bool): seq<string> {
    SplitFrom(s, cut, 0, 0)
  }

  /** The offset at which piece `k` begins. */
  function Offset(r: seq<string>, k: nat): (n: nat)
    requires k <= |r|
  {
    |Concat(r[..k])|
  }

  /** Every piece of `r` after the first begins at a cut position. */
  ghost predicate CutsAt(s: string, cut: (string, nat) -> bool, start: nat, r: seq<string>) {
    forall k :: 1 <= k < |r| ==> cut(s, start + Offset(r, k))
  }

  /** No cut position lies strictly inside `s[off..off + len]`. */
  ghost predicate NoCutWithin(s: string, cut: (string, nat) -> bool, off: nat, len: nat) {
    forall j: nat :: off < j < off + len ==> !cut(s, j)
  }

  ghost predicate PiecesCutFree(s: string, cut: (string, nat) -> bool, start: nat, r: seq<string>) {
    forall k :: 0 <= k < |r| ==> NoCutWithin(s, cut, start + Offset(r, k), |r[k]|)
  }

  lemma OffsetCons(b: string, r: seq<string>, k: nat)
    requires 1 <= k <= |r| + 1
    ensures Offset([b] + r, k) == |b| + Offset(r, k - 1)
  {
    assert ([b] + r)[..k] == [b] + r[..k - 1];
    assert ([b] + r[..k - 1])[1..] == r[..k - 1];
  }

  lemma {:induction false} SplitFromConcat(s: string, cut: (string, nat) -> bool, start: nat, i: nat)
    requires start <= i <= |s|
    ensures Concat(SplitFrom(s, cut, start, i)) == s[start..]
    ensures |SplitFrom(s, cut, start, i)[0]| >= i - start
    decreases |s| - i
  {
    var r := SplitFrom(s, cut, start, i);
    if i == |s| {
      assert Concat(r) == s[start..] + Concat([]);
    } else if cut(s, i) {
      SplitFromConcat(s, cut, i, i + 1);
      var r' := SplitFrom(s, cut, i, i + 1);
      assert r == [s[start..i]] + r';
      assert Concat(r) == s[start..i] + Concat(r');
      assert s[start..] == s[start..i] + s[i..];
    } else {
      SplitFromConcat(s, cut, start, i + 1);
    }
  }

  lemma CutsCons(s: string, cut: (string, nat) -> bool, start: nat, b: string, r: seq<string>)
    requires cut(s, start + |b|)
    requires CutsAt(s, cut, start + |b|, r)
    ensures CutsAt(s, cut, start, [b] + r)
  {
    var r2 := [b] + r;
    forall k | 1 <= k < |r2|
      ensures cut(s, start + Offset(r2, k))
    {
      OffsetCons(b, r, k);
      if k == 1 {
        assert r[..0] == [];
      } else {
        assert cut(s, start + |b| + Offset(r, k - 1));
      }
    }
  }

  lemma {:induction false} SplitFromCuts(s: string, cut: (string, nat) -> bool, start: nat, i: nat)
    requires start <= i <= |s|
    ensures CutsAt(s, cut, start, SplitFrom(s, cut, start, i))
    decreases |s| - i
  {
    if i == |s| {
    } else if cut(s, i) {
      SplitFromCuts(s, cut, i, i + 1);
      CutsCons(s, cut, start, s[start..i], SplitFrom(s, cut, i, i + 1));
    } else {
      SplitFromCuts(s, cut, start, i + 1);
    }
  }

  lemma CutFreeCons(s: string, cut: (string, nat) -> bool, start: nat, b: string, r: seq<string>)
    requires NoCutWithin(s, cut, start, |b|)
    requires PiecesCutFree(s, cut, start + |b|, r)
    ensures PiecesCutFree(s, cut, start, [b] + r)
  {
    var r2 := [b] + r;
    forall k | 0 <= k < |r2|
      ensures NoCutWithin(s, cut, start + Offset(r2, k), |r2[k]|)
    {
      if k == 0 {
        assert r2[..0] == [];
      } else {
        OffsetCons(b, r, k);
        assert r2[k] == r[k - 1];
        assert NoCutWithin(s, cut, start + |b| + Offset(r, k - 1), |r[k - 1]|);
      }
    }
  }

  lemma {:induction false} SplitFromCutFree(s: string, cut: (string, nat) -> bool, start: nat, i: nat)
    requires start <= i <= |s|
    requires forall j: nat :: start < j < i ==> !cut(s, j)
    ensures PiecesCutFree(s, cut, start, SplitFrom(s, cut, start, i))
    decreases |s| - i
  {
    var r := SplitFrom(s, cut, start, i);
    if i == |s| {
      assert r[..0] == [];
      assert NoCutWithin(s, cut, start, |s| - start);
    } else if cut(s, i) {
      SplitFromCutFree(s, cut, i, i + 1);
      CutFreeCons(s, cut, start, s[start..i], SplitFrom(s, cut, i, i + 1));
    } else {
      SplitFromCutFree(s, cut, start, i + 1);
    }
  }

  /** Cut positions are distinct, so only the first piece can be empty. */
  lemma {:induction false} SplitFromLaterNonEmpty(s: string, cut: (string, nat) -> bool, start: nat, i: nat)
    requires start <= i <= |s|
    ensures forall k :: 1 <= k < |SplitFrom(s, cut, start, i)| ==> SplitFrom(s, cut, start, i)[k] != ""
    decreases |s| - i
  {
    if i < |s| {
      if cut(s, i) {
        SplitFromLaterNonEmpty(s, cut, i, i + 1);
        SplitFromConcat(s, cut, i, i + 1);
        var rest := SplitFrom(s, cut, i, i + 1);
        assert SplitFrom(s, cut, start, i) == [s[start..i]] + rest;
        assert |rest[0]| >= 1;
      } else {
        SplitFromLaterNonEmpty(s, cut, start, i + 1);
      }
    }
  }

  /** Splitting at a look-ahead is a partition: the pieces concatenate back
      to the text, every piece after the first begins at a cut position, no
      cut position lies inside a piece, the first piece is empty exactly
      when the text itself begins at a cut, and no later piece is empty. */
  lemma SplitBeforePartition(s: string, cut: (string, nat) -> bool)
    ensures var r := SplitBefore(s, cut);
      && Concat(r) == s
      && (forall k :: 1 <= k < |r| ==> cut(s, Offset(r, k)))
      && (forall k :: 0 <= k < |r| ==> forall j: nat :: Offset(r, k) < j < Offset(r, k) + |r[k]| ==> !cut(s, j))
      && (|s| > 0 ==> (r[0] == "" <==> cut(s, 0)))
      && (forall k :: 1 <= k < |r| ==> r[k] != "")
  {
    SplitFromLaterNonEmpty(s, cut, 0, 0);
    SplitFromConcat(s, cut, 0, 0);
    SplitFromCuts(s, cut, 0, 0);
    SplitFromCutFree(s, cut, 0, 0);
    var r := SplitBefore(s, cut);
    assert CutsAt(s, cut, 0, r);
    assert PiecesCutFree(s, cut, 0, r);
    forall k | 0 <= k < |r|
      ensures forall j: nat :: Offset(r, k) < j < Offset(r, k) + |r[k]| ==> !cut(s, j)
    {
      assert NoCutWithin(s, cut, 0 + Offset(r, k), |r[k]|);
    }
    if |s| > 0 && !cut(s, 0) {
      assert r == SplitFrom(s, cut, 0, 1);
      SplitFromConcat(s, cut, 0, 1);
    }
  }
}
