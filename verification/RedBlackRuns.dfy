/** Every run of operations on a red-black tree is a run of the plain ordered set. */
module RedBlackRuns {
  import opened Ordering
  import opened Options
  import opened OrderedSet
  import opened RedBlackTheory
  import opened RedBlackLinks
  import opened RedBlackTable
  import opened Sequences
  import RedBlackRemove

  ghost function KeySet<K>(s: seq<Node<K>>): set<K> { SetOf(Keys(s)) }

  function Answer<K>(n: Node?<K>): Option<K> { if n == null then None else Some(n.key) }

  lemma FindAnswer<K(!new)>(cmp: (K, K) -> int, s: seq<Node<K>>, k: K)
    requires WeakOrder(cmp) && Sorted(cmp, Keys(s))
    ensures Lookup(cmp, KeySet(s), k, Answer(Found(cmp, s, k)))
    ensures Ceiling(cmp, KeySet(s), k, Answer(NextFound(cmp, s, k)))
  {
    FoundMeans(cmp, s, k);
    NextFoundMeans(cmp, s, k);
    forall x | x in KeySet(s) ensures exists n :: n in s && n.key == x {
      var i :| 0 <= i < |s| && Keys(s)[i] == x;
      assert s[i] in s && s[i].key == x;
    }
    forall n | n in s ensures n.key in KeySet(s) {
      var i :| 0 <= i < |s| && s[i] == n;
      assert Keys(s)[i] == n.key;
    }
  }

  lemma InsertAnswer<K(!new)>(cmp: (K, K) -> int, s: seq<Node<K>>, x: Node<K>)
    requires WeakOrder(cmp) && Sorted(cmp, Keys(Inserted(cmp, s, x)))
    ensures KeySet(Inserted(cmp, s, x)) == KeySet(s) + {x.key}
  {
    var r := RankOf(cmp, s, x.key);
    var a, b := s[..r], s[r..];
    KeysJoin(a, x, b);
    assert s == a + b && Keys(s) == Keys(a) + Keys(b);
    SetWithout(cmp, Keys(a), x.key, Keys(b));
  }

  lemma RemoveAnswer<K(!new)>(cmp: (K, K) -> int, s: seq<Node<K>>, x: Node<K>)
    requires WeakOrder(cmp) && Sorted(cmp, Keys(s)) && x in s
    ensures KeySet(Without(s, x)) == KeySet(s) - {x.key}
  {
    var i := FirstAt(s, x);
    var a, b := s[..i], s[i + 1..];
    assert s[..i] + [x] + s[i + 1..] == s;
    WithoutAt(a, x, b);
    KeysJoin(a, x, b);
    assert Keys(a + b) == Keys(a) + Keys(b);
    SetWithout(cmp, Keys(a), x.key, Keys(b));
  }

  /** One operation, as a client performs it: a new element for Insert, a lookup before Remove. */
  method Perform<K(!new)>(head: Head<K>, op: Op<K>) returns (out: Option<K>)
    requires Valid(head)
    modifies head, head.tree.Nodes()
    ensures Valid(head) && fresh(head.tree.Nodes() - old(head.tree.Nodes()))
    ensures Step(head.cmp, old(KeySet(Contents(head))), op, out, KeySet(Contents(head)))
  {
    FindAnswer(head.cmp, Contents(head), op.key);
    match op {
      case Find(k) =>
        var r, _ := RedBlackTable.Find(head, k);
        out := Answer(r);
      case NFind(k) =>
        var r, _ := RedBlackTable.NFind(head, k);
        out := Answer(r);
      case Insert(k) =>
        assert allocated(head.tree.Nodes());
        var elm := new Node(k);
        var r, _, _ := RedBlackTable.Insert(head, elm);
        if r == null { InsertAnswer(head.cmp, old(Contents(head)), elm); }
        out := Answer(r);
      case Remove(k) =>
        var r, _ := RedBlackTable.Find(head, k);
        if r != null {
          FoundMeans(head.cmp, Contents(head), k);
          InorderNodes(head.tree, r);
          RemoveAnswer(head.cmp, Contents(head), r);
          var _, _ := RedBlackRemove.Remove(head, r);
        }
        out := Answer(r);
    }
  }

  /** Any run of operations, from any valid tree. */
  method Run<K(!new)>(head: Head<K>, ops: seq<Op<K>>) returns (outs: seq<Option<K>>, ghost states: seq<set<K>>)
    requires Valid(head)
    modifies head, head.tree.Nodes()
    ensures Valid(head) && fresh(head.tree.Nodes() - old(head.tree.Nodes()))
    ensures IsRun(head.cmp, ops, outs, states) && Unequal(head.cmp, states[0])
    ensures states[0] == old(KeySet(Contents(head))) && states[|ops|] == KeySet(Contents(head))
  {
    ghost var nodes := head.tree.Nodes();
    SortedUnequal(head.cmp, Keys(Contents(head)));
    outs, states := [], [KeySet(Contents(head))];
    for n := 0 to |ops|
      invariant Valid(head) && forall x :: x in head.tree.Nodes() ==> x in nodes || fresh(x)
      invariant IsRun(head.cmp, ops[..n], outs, states)
      invariant states[0] == old(KeySet(Contents(head))) && states[n] == KeySet(Contents(head))
    {
      label Before:
      ghost var before := head.tree.Nodes();
      var out := Perform(head, ops[n]);
      forall x | x in head.tree.Nodes() ensures x in nodes || fresh(x) {
        assert x in before || fresh@Before(x);
      }
      outs, states := outs + [out], states + [KeySet(Contents(head))];
      assert ops[..n + 1] == ops[..n] + [ops[n]];
    }
    assert ops[..|ops|] == ops;
  }

  /** Every run from RB_INIT answers as the empty ordered set would. */
  method RunFromEmpty<K(!new, ==)>(cmp: (K, K) -> int, ops: seq<Op<K>>) returns (outs: seq<Option<K>>)
    requires WeakOrder(cmp)
    ensures FromEmpty(cmp, ops, outs)
  {
    var head := new Head(cmp);
    assert Valid(head) by {
      assert head.tree.RB(0);
    }
    ghost var states;
    outs, states := Run(head, ops);
  }
}
