/** Ordered keyword rule tables: the source's cascades of
    `if "a" in t: ... elif "b" in t or "c" in t: ... else: default`
    written as data, so that their priority order is explicit.
 */
module Policy {
  import opened Text

  /** A rule fires when any one of its keywords occurs in the text. */
  datatype Rule<T> = Rule(keywords: seq<string>, outcome: T)

  predicate Fires<T>(text: string, rule: Rule<T>) {
    exists k :: 0 <= k < |rule.keywords| && Contains(text, rule.keywords[k])
  }

  /** The outcome of the first rule that fires, or `default` when none does. */
  function FirstFiring<T>(text: string, rules: seq<Rule<T>>, default: T): (r: T)
    ensures (forall k :: 0 <= k < |rules| ==> !Fires(text, rules[k])) ==> r == default
    ensures forall k :: 0 <= k < |rules| && Fires(text, rules[k]) && (forall m :: 0 <= m < k ==> !Fires(text, rules[m]))
              ==> r == rules[k].outcome
    decreases |rules|
  {
    if |rules| == 0 then default
    else if Fires(text, rules[0]) then rules[0].outcome
    else
      var r := FirstFiring(text, rules[1..], default);
      assert forall k :: 1 <= k < |rules| ==> rules[k] == rules[1..][k - 1];
      r
  }

  /** A rule with a single keyword fires exactly when that keyword occurs. */
  lemma FiresSingle<T>(text: string, w: string, t: T)
    ensures Fires(text, Rule([w], t)) <==> Contains(text, w)
  {
    if Contains(text, w) {
      assert Contains(text, Rule([w], t).keywords[0]);
    }
  }
}
