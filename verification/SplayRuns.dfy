/** SPLAY_MINMAX, SPLAY_FOREACH, and whole runs of operations on a splay tree. */
module SplayRuns {
  import opened Ordering
  import opened Options
  import opened OrderedSet
  import opened Sides
  import opened SplayTheory
  import opened SplayLinks
  import opened Unfolding
  import opened SplayTree

  ghost predicate Pulling<K>(all: seq<Node<K>>, d: Side, l: Spine<K>, t: Tree<K>, r: Spine<K>) {
    forall j {:trigger Unfold(j)} :: Unfold(j) ==>
      Total(l, t, r) == all && (if d == Left then l.Nil? else r.Nil?)
  }

  lemma PullStep<K>(all: seq<Node<K>>, d: Side, l: Spine<K>, t: Tree<K>, r: Spine<K>)
    requires Pulling(all, d, l, t, r) && t.Branch?
    ensures d == Left ==> Pulling(all, d, l, t.left, Hang(r, t.right, t.node))
    ensures d == Right ==> Pulling(all, d, Hang(l, t.left, t.node), t.right, r)
    ensures t.Child(d).Branch? ==> Pulling(all, d, l, t.Rotated(d.Other()), r)
  {
    assert Unfold(0);
    LinkTotal(l, t, r);
    if t.Child(d).Branch? { RotatedFacts(d.Other(), t); }
  }

  lemma PullEnd<K>(all: seq<Node<K>>, d: Side, l: Spine<K>, t: Tree<K>, r: Spine<K>)
    requires Pulling(all, d, l, t, r) && t.Branch? && t.Child(d).Leaf?
    ensures Assembled(l, t, r).Inorder() == all && Assembled(l, t, r).Nodes() == AllNodes(l, t, r)
    ensures Assembled(l, t, r).Child(d).Leaf?
  {
    assert Unfold(0);
    AssembledFacts(l, t, r);
  }

  /** SPLAY_MINMAX: comp < 0 brings the least element to the root, comp > 0 the greatest. With comp == 0
      the loop of the original would not end; its callers pass -1 or 1. */
  method SplayMinMax<K(!new)>(head: Head<K>, comp: int)
    requires Valid(head) && head.root != null && comp != 0
    modifies head, head.tree.Nodes()
    ensures Valid(head) && head.tree.Branch? && head.tree.Child(if comp < 0 then Left else Right).Leaf?
    ensures Contents(head) == old(Contents(head)) && head.tree.Nodes() == old(head.tree.Nodes())
  {
    assert allocated(head.tree.Nodes());
    ghost var all, nodes := Contents(head), head.tree.Nodes();
    var d := if comp < 0 then Left else Right;
    var header := new Node(head.root.key);
    var left, right := header, header;
    ghost var l, t, r := Nil, head.tree, Nil;
    assert Total(l, t, r) == all;
    Begin(head, header, t);
    Look(head, header, l, t, r);
    while true
      invariant At(head, header, l, t, r) && t.Branch? && head.root == t.node
      invariant Pulling(all, d, l, t, r) && AllNodes(l, t, r) == nodes
      invariant left == l.Last(header) && right == r.Last(header)
      decreases t.Size()
    {
      Look(head, header, l, t, r);
      PullStep(all, d, l, t, r);
      var tmp := head.root.Child(d);
      if tmp == null {
        break;
      }
      Rotate(head, d.Other(), tmp, header, l, t, r);
      RotatedFacts(d.Other(), t);
      t := t.Rotated(d.Other());
      Look(head, header, l, t, r);
      if head.root.Child(d) == null {
        break;
      }
      PullStep(all, d, l, t, r);
      LinkTotal(l, t, r);
      if d == Left {
        right := Link(head, Right, right, header, l, t, r);
        t, r := t.left, Hang(r, t.right, t.node);
      } else {
        left := Link(head, Left, left, header, l, t, r);
        t, l := t.right, Hang(l, t.left, t.node);
      }
      Look(head, header, l, t, r);
    }
    assert t.Child(d).Leaf? by { Look(head, header, l, t, r); }
    PullEnd(all, d, l, t, r);
    Assemble(head, header, left, right, l, t, r);
  }

  /** SPLAY_MIN and SPLAY_MAX. */
  method MinMax<K(!new)>(head: Head<K>, comp: int) returns (x: Node?<K>)
    requires Valid(head) && comp != 0
    modifies head, head.tree.Nodes()
    ensures Valid(head) && Contents(head) == old(Contents(head)) && head.tree.Nodes() == old(head.tree.Nodes())
    ensures var s := Contents(head);
      x == if s == [] then null else if comp < 0 then s[0] else s[|s| - 1]
  {
    LookHead(head);
    if head.root == null {
      return null;
    }
    SplayMinMax(head, comp);
    LookHead(head);
    x := head.root;
    ghost var a, b := head.tree.left.Inorder(), head.tree.right.Inorder();
    assert Contents(head) == a + [x] + b && (if comp < 0 then a == [] else b == []);
  }

  /** SPLAY_FOREACH, the body recording x. Every step restructures the tree, but never the sequence. */
  method ForEach<K(!new)>(head: Head<K>) returns (visited: seq<Node<K>>)
    requires Valid(head)
    modifies head, head.tree.Nodes()
    ensures Valid(head) && Contents(head) == old(Contents(head)) && visited == Contents(head)
  {
    ghost var all, nodes := Contents(head), head.tree.Nodes();
    var x := MinMax(head, -1);
    visited := [];
    while x != null
      invariant Valid(head) && Contents(head) == all && head.tree.Nodes() == nodes
      invariant |visited| <= |all| && visited == all[..|visited|]
      invariant x == if |visited| < |all| then all[|visited|] else null
      decreases |all| - |visited|
    {
      visited := visited + [x];
      x := Next(head, x, |visited| - 1);
    }
  }

  // ---- runs

  ghost function KeySet<K>(s: seq<Node<K>>): set<K> { SetOf(Keys(s)) }

  /** One operation; there is no NFind on splay trees. */
  method Perform<K(!new)>(head: Head<K>, op: Op<K>) returns (out: Option<K>)
    requires Valid(head) && !op.NFind?
    modifies head, head.tree.Nodes()
    ensures Valid(head) && fresh(head.tree.Nodes() - old(head.tree.Nodes()))
    ensures Step(head.cmp, old(KeySet(Contents(head))), op, out, KeySet(Contents(head)))
  {
    assert allocated(head.tree.Nodes());
    match op {
      case Find(k) =>
        var r := SplayTree.Find(head, k);
        out := if r == null then None else Some(r.key);
      case Insert(k) =>
        var elm := new Node(k);
        var r := SplayTree.Insert(head, elm);
        out := if r == null then None else Some(r.key);
      case Remove(k) =>
        var r := SplayTree.Find(head, k);
        if r == null {
          out := None;
        } else {
          out := Some(r.key);
          var _, gone := SplayTree.Remove(head, r);
        }
    }
  }

  method Run<K(!new)>(head: Head<K>, ops: seq<Op<K>>) returns (outs: seq<Option<K>>, ghost states: seq<set<K>>)
    requires Valid(head) && forall op :: op in ops ==> !op.NFind?
    modifies head, head.tree.Nodes()
    ensures Valid(head) && fresh(head.tree.Nodes() - old(head.tree.Nodes()))
    ensures IsRun(head.cmp, ops, outs, states) && Unequal(head.cmp, states[0])
    ensures states[0] == old(KeySet(Contents(head))) && states[|ops|] == KeySet(Contents(head))
  {
    ghost var nodes := head.tree.Nodes();
    SortedUnequal(head.cmp, Keys(Contents(head)));
    outs, states := [], [KeySet(Contents(head))];
    for n := 0 to |ops|
      invariant Valid(head) && forall x :: x in head.tree.Nodes() ==> x in nodes || fresh(x)
      invariant IsRun(head.cmp, ops[..n], outs, states)
      invariant states[0] == old(KeySet(Contents(head))) && states[n] == KeySet(Contents(head))
    {
      label Before:
      ghost var before := head.tree.Nodes();
      var out := Perform(head, ops[n]);
      forall x | x in head.tree.Nodes() ensures x in nodes || fresh(x) {
        assert x in before || fresh@Before(x);
      }
      outs, states := outs + [out], states + [KeySet(Contents(head))];
      assert ops[..n + 1] == ops[..n] + [ops[n]];
    }
    assert ops[..|ops|] == ops;
  }

  /** Every run from SPLAY_INIT answers as the empty ordered set would. */
  method RunFromEmpty<K(!new, ==)>(cmp: (K, K) -> int, ops: seq<Op<K>>) returns (outs: seq<Option<K>>)
    requires WeakOrder(cmp) && forall op :: op in ops ==> !op.NFind?
    ensures FromEmpty(cmp, ops, outs)
  {
    var head := new Head(cmp);
    ghost var states;
    outs, states := Run(head, ops);
  }
}
