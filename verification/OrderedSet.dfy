/** The plain ordered set that both kinds of tree implement: a set of keys, no two of them equal under
    cmp, and what each operation answers and leaves behind. */
module OrderedSet {
  import opened Options
  import opened Ordering

  datatype Op<K> = Find(key: K) | NFind(key: K) | Insert(key: K) | Remove(key: K)

  /** The member equal to k, if there is one. */
  ghost predicate Lookup<K>(cmp: (K, K) -> int, s: set<K>, k: K, out: Option<K>) {
    match out
    case None => forall x :: x in s ==> cmp(k, x) != 0
    case Some(x) => x in s && cmp(k, x) == 0
  }

  /** The least member not below k, if there is one. */
  ghost predicate Ceiling<K>(cmp: (K, K) -> int, s: set<K>, k: K, out: Option<K>) {
    match out
    case None => forall x :: x in s ==> cmp(x, k) < 0
    case Some(y) => y in s && cmp(y, k) >= 0 && forall x :: x in s && cmp(x, k) >= 0 ==> cmp(y, x) <= 0
  }

  /** One operation on the set s: its answer, and the set it leaves. */
  ghost predicate Step<K>(cmp: (K, K) -> int, s: set<K>, op: Op<K>, out: Option<K>, s': set<K>) {
    match op
    case Find(k) => Lookup(cmp, s, k, out) && s' == s
    case NFind(k) => Ceiling(cmp, s, k, out) && s' == s
    case Insert(k) => Lookup(cmp, s, k, out) && s' == (if out.None? then s + {k} else s)
    case Remove(k) => Lookup(cmp, s, k, out) && s' == (if out.Some? then s - {out.value} else s)
  }

  ghost predicate Has<K(!new)>(cmp: (K, K) -> int, s: set<K>, k: K) { exists x :: x in s && cmp(k, x) == 0 }

  /** For all that lookups can tell, an insertion adds its key and a removal takes its key away, each
      answering whether it was there; a lookup changes nothing. */
  lemma Membership<K(!new)>(cmp: (K, K) -> int, s: set<K>, op: Op<K>, out: Option<K>, s': set<K>, k: K)
    requires WeakOrder(cmp) && Unequal(cmp, s) && Step(cmp, s, op, out, s')
    ensures !op.NFind? ==> (out.Some? <==> Has(cmp, s, op.key))
    ensures Has(cmp, s', k) <==>
      match op
      case Insert(added) => Has(cmp, s, k) || cmp(k, added) == 0
      case Remove(removed) => Has(cmp, s, k) && cmp(k, removed) != 0
      case _ => Has(cmp, s, k)
    ensures |s'| == |s| + (if op.Insert? && out.None? then 1 else 0) - (if op.Remove? && out.Some? then 1 else 0)
  {
    OrderFacts(cmp, op.key, k, op.key);
    forall x | x in s
      ensures cmp(op.key, x) == 0 ==> (cmp(k, x) == 0 <==> cmp(k, op.key) == 0)
      ensures cmp(k, x) == 0 && cmp(k, op.key) == 0 ==> cmp(op.key, x) == 0
      ensures out.Some? && !op.NFind? && cmp(op.key, x) == 0 ==> x == out.value
    {
      if out.Some? { Transitive(cmp, x, op.key, out.value); }
      Transitive(cmp, k, op.key, x);
      Transitive(cmp, k, x, op.key);
      Transitive(cmp, op.key, k, x);
    }
    assert op.Remove? || forall x :: x in s ==> x in s';
  }

  lemma Transitive<K(!new)>(cmp: (K, K) -> int, a: K, b: K, c: K)
    requires WeakOrder(cmp)
    ensures (cmp(a, b) == 0 || cmp(b, a) == 0) && (cmp(b, c) == 0 || cmp(c, b) == 0) ==> cmp(a, c) == 0
  {
    OrderFacts(cmp, a, b, c);
    OrderFacts(cmp, b, c, a);
    OrderFacts(cmp, c, b, a);
    OrderFacts(cmp, a, c, b);
  }

  /** A whole run: the states it passes through and its answers, from the first state to the last. */
  ghost predicate IsRun<K>(cmp: (K, K) -> int, ops: seq<Op<K>>, outs: seq<Option<K>>, states: seq<set<K>>) {
    && |outs| == |ops| && |states| == |ops| + 1
    && forall i :: 0 <= i < |ops| ==> Step(cmp, states[i], ops[i], outs[i], states[i + 1])
  }

  ghost predicate Unequal<K>(cmp: (K, K) -> int, s: set<K>) {
    forall x, y :: x in s && y in s && cmp(x, y) == 0 ==> x == y
  }

  ghost function SetOf<K>(s: seq<K>): set<K> { set x | x in s }

  lemma SortedUnequal<K(!new)>(cmp: (K, K) -> int, s: seq<K>)
    requires WeakOrder(cmp) && Sorted(cmp, s)
    ensures Unequal(cmp, SetOf(s))
  {
    forall x, y | x in s && y in s && cmp(x, y) == 0 ensures x == y {
      var i :| 0 <= i < |s| && s[i] == x;
      var j :| 0 <= j < |s| && s[j] == y;
      OrderFacts(cmp, x, y, x);
    }
  }

  /** Taking one key out of a sorted sequence takes it out of the set. */
  lemma SetWithout<K(!new)>(cmp: (K, K) -> int, a: seq<K>, k: K, b: seq<K>)
    requires WeakOrder(cmp) && Sorted(cmp, a + [k] + b)
    ensures SetOf(a + b) == SetOf(a + [k] + b) - {k}
    ensures SetOf(a + [k] + b) == SetOf(a + b) + {k}
  {
    SortedParts(cmp, a, k, b);
    OrderFacts(cmp, k, k, k);
    assert k !in a && k !in b;
  }

  /** The answers are determined: an ordered set leaves no choice between two equal members, so a run
      is determined by its first state and its operations. */
  lemma {:induction false} RunsAgree<K(!new)>(cmp: (K, K) -> int, ops: seq<Op<K>>,
      outs: seq<Option<K>>, states: seq<set<K>>, outs': seq<Option<K>>, states': seq<set<K>>, n: nat)
    requires WeakOrder(cmp) && IsRun(cmp, ops, outs, states) && IsRun(cmp, ops, outs', states')
    requires states[0] == states'[0] && Unequal(cmp, states[0]) && n <= |ops|
    ensures states[n] == states'[n] && Unequal(cmp, states[n]) && outs[..n] == outs'[..n]
  {
    if n > 0 {
      RunsAgree(cmp, ops, outs, states, outs', states', n - 1);
      var s, op, out, out' := states[n - 1], ops[n - 1], outs[n - 1], outs'[n - 1];
      assert Step(cmp, s, op, out, states[n]) && Step(cmp, s, op, out', states'[n]);
      AnswersAgree(cmp, s, op, out, states[n], out', states'[n]);
      assert outs[..n] == outs[..n - 1] + [out] && outs'[..n] == outs'[..n - 1] + [out'];
    }
  }

  /** What the empty ordered set answers. */
  ghost predicate FromEmpty<K(!new)>(cmp: (K, K) -> int, ops: seq<Op<K>>, outs: seq<Option<K>>) {
    exists states :: IsRun(cmp, ops, outs, states) && states[0] == {}
  }

  /** There is only one way to answer; so a red-black and a splay tree given the same operations cannot
      differ. */
  lemma OneAnswer<K(!new)>(cmp: (K, K) -> int, ops: seq<Op<K>>, outs: seq<Option<K>>, outs': seq<Option<K>>)
    requires WeakOrder(cmp) && FromEmpty(cmp, ops, outs) && FromEmpty(cmp, ops, outs')
    ensures outs == outs'
  {
    var states :| IsRun(cmp, ops, outs, states) && states[0] == {};
    var states' :| IsRun(cmp, ops, outs', states') && states'[0] == {};
    RunsAgree(cmp, ops, outs, states, outs', states', |ops|);
    assert outs == outs[..|ops|] && outs' == outs'[..|ops|];
  }

  lemma AnswersAgree<K(!new)>(cmp: (K, K) -> int, s: set<K>, op: Op<K>, out: Option<K>, t: set<K>, out': Option<K>,
                              t': set<K>)
    requires WeakOrder(cmp) && Unequal(cmp, s) && Step(cmp, s, op, out, t) && Step(cmp, s, op, out', t')
    ensures out == out' && t == t' && Unequal(cmp, t)
  {
    if out.Some? && out'.Some? {
      OrderFacts(cmp, out.value, op.key, out'.value);
      OrderFacts(cmp, op.key, out.value, out'.value);
      OrderFacts(cmp, out.value, out'.value, op.key);
      assert cmp(out.value, out'.value) == 0;
    }
    if op.Insert? && out.None? {
      forall x, y | x in t && y in t && cmp(x, y) == 0 ensures x == y { OrderFacts(cmp, x, y, x); }
    }
  }
}
