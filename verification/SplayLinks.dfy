/** Splay trees in the heap, and the primitive moves of top-down splaying: rotate, link, assemble. */
module SplayLinks {
  import opened Sides
  import opened SplayTheory
  import opened Unfolding

  class Head<K> {
    const cmp: (K, K) -> int
    var root: Node?<K>
    ghost var tree: Tree<K>  // what hangs below root between two operations

    constructor (cmp: (K, K) -> int)
      ensures this.cmp == cmp && root == null && tree == Leaf
    {
      this.cmp := cmp;
      root, tree := null, Leaf;
    }
  }

  ghost predicate Holds<K>(t: Tree<K>)
    reads t.Nodes()
    decreases t
  {
    t.Branch? ==>
      && t.node.left == t.left.Root() && t.node.right == t.right.Root()
      && Holds(t.left) && Holds(t.right)
  }

  /** The chain p on side s is linked; nothing is said of the inner link of its latest node. */
  ghost predicate HoldsSpine<K>(s: Side, p: Spine<K>)
    reads p.Nodes()
    decreases p
  {
    p.Hang? ==>
      && p.node.Child(s) == p.outer.Root() && Holds(p.outer)
      && (p.rest.Hang? ==> p.rest.node in p.rest.Nodes() && p.rest.node.Child(s.Other()) == p.node)
      && HoldsSpine(s, p.rest)
  }

  ghost predicate Linked<K>(head: Head<K>, header: Node<K>, l: Spine<K>, t: Tree<K>, r: Spine<K>)
    reads head`root, header, l.Nodes(), t.Nodes(), r.Nodes()
  {
    && head.root == t.Root() && Holds(t) && HoldsSpine(Left, l) && HoldsSpine(Right, r)
    && (l.Hang? ==> header.right == l.First()) && (r.Hang? ==> header.left == r.First())
    && t.Distinct() && l.Distinct() && r.Distinct()
    && l.Nodes() !! t.Nodes() && l.Nodes() !! r.Nodes() && t.Nodes() !! r.Nodes()
    && header !in AllNodes(l, t, r)
  }

  /** The middle tree t hangs below head, the two spines below header. */
  ghost predicate At<K>(head: Head<K>, header: Node<K>, l: Spine<K>, t: Tree<K>, r: Spine<K>)
    reads head`root, header, l.Nodes(), t.Nodes(), r.Nodes()
  {
    forall k {:trigger Unfold(k)} :: Unfold(k) ==> Linked(head, header, l, t, r)
  }

  /** Between two operations there is no header. */
  ghost predicate Hangs<K>(head: Head<K>, t: Tree<K>)
    reads head`root, t.Nodes()
  {
    forall k {:trigger Unfold(k)} :: Unfold(k) ==> head.root == t.Root() && Holds(t) && t.Distinct()
  }

  lemma Look<K>(head: Head<K>, header: Node<K>, l: Spine<K>, t: Tree<K>, r: Spine<K>)
    requires At(head, header, l, t, r)
    ensures head.root == t.Root()
    ensures t.Branch? ==> t.node in t.Nodes() && t.node.left == t.left.Root() && t.node.right == t.right.Root()
  {
    assert Unfold(0);
  }

  /** Setting up: both spines empty. */
  lemma Begin<K>(head: Head<K>, header: Node<K>, t: Tree<K>)
    requires Hangs(head, t) && header !in t.Nodes()
    ensures At(head, header, Nil, t, Nil)
  {
    assert Unfold(0);
  }

  /** SPLAY_ROTATE_LEFT (s == Left) and SPLAY_ROTATE_RIGHT (s == Right), with tmp the other child. */
  method Rotate<K>(head: Head<K>, s: Side, tmp: Node<K>,
                   ghost header: Node<K>, ghost l: Spine<K>, ghost t: Tree<K>, ghost r: Spine<K>)
    requires At(head, header, l, t, r) && t.Branch? && t.Child(s.Other()).Root() == tmp
    modifies head`root, t.Nodes()
    ensures At(head, header, l, t.Rotated(s), r)
  {
    assert Unfold(0);
    assert allocated(l.Nodes()) && allocated(t.Nodes()) && allocated(r.Nodes());
    RotatedFacts(s, t);
    RotateTree(head, s, tmp, t);
  }

  method RotateTree<K>(head: Head<K>, s: Side, tmp: Node<K>, ghost t: Tree<K>)
    requires head.root == t.Root() && Holds(t) && t.Distinct() && t.Branch? && t.Child(s.Other()).Root() == tmp
    modifies head`root, t.Nodes()
    ensures head.root == t.Rotated(s).Root() && Holds(t.Rotated(s))
  {
    ghost var a, u := t.Child(s), t.Child(s.Other());
    ghost var b, d, x := u.Child(s), u.Child(s.Other()), t.node;
    SideSets(s, a, x, u);
    SideSets(s, b, tmp, d);
    assert Holds(a) && Holds(u) && x.Child(s) == a.Root();
    assert Holds(b) && Holds(d) && tmp.Child(s) == b.Root() && tmp.Child(s.Other()) == d.Root();
    if s == Left {
      head.root.right := tmp.left;
      tmp.left := head.root;
    } else {
      head.root.left := tmp.right;
      tmp.right := head.root;
    }
    head.root := tmp;
    assert Holds(a) && Holds(b) && Holds(d);
    assert Holds(Join(s, a, x, b));
  }

  /** SPLAY_LINKRIGHT (s == Left: onto the left spine) and SPLAY_LINKLEFT (s == Right). */
  method Link<K>(head: Head<K>, s: Side, tmp: Node<K>,
                 ghost header: Node<K>, ghost l: Spine<K>, ghost t: Tree<K>, ghost r: Spine<K>)
      returns (last: Node<K>)
    requires At(head, header, l, t, r) && t.Branch? && tmp == (if s == Left then l else r).Last(header)
    modifies head`root, header, l.Nodes(), r.Nodes()
    ensures last == t.node
    ensures s == Left ==> At(head, header, Hang(l, t.left, t.node), t.right, r)
    ensures s == Right ==> At(head, header, l, t.left, Hang(r, t.right, t.node))
  {
    assert Unfold(0);
    assert allocated(l.Nodes()) && allocated(t.Nodes()) && allocated(r.Nodes());
    last := LinkSpine(head, s, tmp, header, if s == Left then l else r, t);
  }

  method LinkSpine<K>(head: Head<K>, s: Side, tmp: Node<K>, ghost header: Node<K>, ghost p: Spine<K>, ghost t: Tree<K>)
      returns (last: Node<K>)
    requires head.root == t.Root() && Holds(t) && HoldsSpine(s, p) && t.Branch? && t.Distinct() && p.Distinct()
    requires (p.Hang? ==> header.Child(s.Other()) == p.First()) && tmp == p.Last(header)
    requires p.Nodes() !! t.Nodes() && header !in p.Nodes() && header !in t.Nodes()
    modifies head`root, tmp
    ensures last == t.node && head.root == t.Child(s.Other()).Root() && Holds(t.Child(s.Other()))
    ensures HoldsSpine(s, Hang(p, t.Child(s), t.node)) && Hang(p, t.Child(s), t.node).Distinct()
    ensures header.Child(s) == old(header.Child(s))
    ensures header.Child(s.Other()) == Hang(p, t.Child(s), t.node).First()
  {
    assert allocated(p.Nodes()) && allocated(t.Nodes());
    ghost var a, b := t.Child(s), t.Child(s.Other());
    SideSets(s, a, t.node, b);
    assert Holds(a) && Holds(b) && t.node.Child(s) == a.Root() && t.node.Child(s.Other()) == b.Root();
    assert p.Hang? ==>
        && p.node.Child(s) == p.outer.Root() && Holds(p.outer) && HoldsSpine(s, p.rest)
        && (p.rest.Hang? ==> p.rest.node in p.rest.Nodes() && p.rest.node.Child(s.Other()) == p.node);
    last := LinkPointers(head, s, tmp);
    assert HoldsSpine(s, p);
  }

  method LinkPointers<K>(head: Head<K>, s: Side, tmp: Node<K>) returns (last: Node<K>)
    requires head.root != null && head.root != tmp
    modifies head`root, tmp
    ensures last == old(head.root) && head.root == last.Child(s.Other())
    ensures tmp.Child(s.Other()) == last && tmp.Child(s) == old(tmp.Child(s))
  {
    if s == Left {
      tmp.right := head.root;
    } else {
      tmp.left := head.root;
    }
    last := head.root;
    head.root := head.root.Child(s.Other());
  }

  /** Hanging the middle tree's subtree u on side s at the open end of the spine there. */
  lemma {:induction false} ClosedHolds<K>(s: Side, p: Spine<K>, u: Tree<K>)
    requires HoldsSpine(s, p) && Holds(u) && (p.Hang? ==> p.node.Child(s.Other()) == u.Root())
    ensures Holds(p.Closed(s, u))
    ensures p.Closed(s, u).Root() == if p.Nil? then u.Root() else p.First()
    decreases p
  {
    if p.Hang? {
      assert Holds(Join(s, p.outer, p.node, u));
      ClosedHolds(s, p.rest, Join(s, p.outer, p.node, u));
    }
  }

  /** SPLAY_ASSEMBLE. */
  method Assemble<K>(head: Head<K>, header: Node<K>, left: Node<K>, right: Node<K>,
                     ghost l: Spine<K>, ghost t: Tree<K>, ghost r: Spine<K>)
    requires At(head, header, l, t, r) && t.Branch? && left == l.Last(header) && right == r.Last(header)
    modifies head, header, AllNodes(l, t, r)
    ensures head.tree == Assembled(l, t, r) && Hangs(head, head.tree)
  {
    Ready(head, header, left, right, l, t, r);
    AssembleLinks(head, header, left, right, l, t, r);
    head.tree := Assembled(l, t, r);
    Hung(head, head.tree);
  }

  lemma Ready<K>(head: Head<K>, header: Node<K>, left: Node<K>, right: Node<K>,
                 l: Spine<K>, t: Tree<K>, r: Spine<K>)
    requires At(head, header, l, t, r) && t.Branch? && left == l.Last(header) && right == r.Last(header)
    ensures head.root == t.Root() && t.Branch? && Holds(t) && HoldsSpine(Left, l) && HoldsSpine(Right, r)
    ensures (l.Hang? ==> header.right == l.First()) && (r.Hang? ==> header.left == r.First())
    ensures left == l.Last(header) && right == r.Last(header) && l.Distinct() && r.Distinct() && l.Nodes() !! r.Nodes()
    ensures var x, a, b := t.node, t.left.Nodes(), t.right.Nodes();
      && header != x && header !in a && header !in b && header !in l.Nodes() && header !in r.Nodes()
      && x !in a && x !in b && x !in l.Nodes() && x !in r.Nodes()
      && a !! b && a !! l.Nodes() && a !! r.Nodes() && b !! l.Nodes() && b !! r.Nodes()
    ensures Assembled(l, t, r).Distinct()
    ensures {left, right} <= {header} + AllNodes(l, t, r) && t.node in AllNodes(l, t, r)
  {
    assert Unfold(0);
    AssembledDistinct(l, t, r);
    Apart(header, l, t, r);
  }

  lemma Hung<K>(head: Head<K>, t: Tree<K>)
    requires head.root == t.Root() && Holds(t) && t.Distinct()
    ensures Hangs(head, t)
  {}

  lemma Apart<K>(header: Node<K>, l: Spine<K>, t: Tree<K>, r: Spine<K>)
    requires t.Branch? && t.Distinct() && header !in AllNodes(l, t, r)
    requires l.Nodes() !! t.Nodes() && l.Nodes() !! r.Nodes() && t.Nodes() !! r.Nodes()
    ensures var x, a, b := t.node, t.left.Nodes(), t.right.Nodes();
      && header != x && header !in a && header !in b && header !in l.Nodes() && header !in r.Nodes()
      && x !in a && x !in b && x !in l.Nodes() && x !in r.Nodes() && x in t.Nodes()
      && a !! b && a !! l.Nodes() && a !! r.Nodes() && b !! l.Nodes() && b !! r.Nodes()
  {}

  method AssemblePointers<K>(head: Head<K>, header: Node<K>, left: Node<K>, right: Node<K>)
    requires head.root != null && head.root !in {header, left, right} && (left == right ==> left == header)
    modifies header, left, right, head.root
    ensures head.root.left == (if left == header then old(head.root.left) else old(header.right))
    ensures head.root.right == (if right == header then old(head.root.right) else old(header.left))
    ensures left != header ==> left.right == old(head.root.left) && left.left == old(left.left)
    ensures right != header ==> right.left == old(head.root.right) && right.right == old(right.right)
  {
    left.right := head.root.left;
    right.left := head.root.right;
    head.root.left := header.right;
    head.root.right := header.left;
  }

  /** The pointers leave the hanging trees and the subtrees of the root as they were. */
  method AssembleParts<K>(head: Head<K>, header: Node<K>, left: Node<K>, right: Node<K>,
                          ghost l: Spine<K>, ghost t: Tree<K>, ghost r: Spine<K>)
    requires head.root == t.Root() && t.Branch? && Holds(t) && HoldsSpine(Left, l) && HoldsSpine(Right, r)
    requires (l.Hang? ==> header.right == l.First()) && (r.Hang? ==> header.left == r.First())
    requires left == l.Last(header) && right == r.Last(header) && l.Distinct() && r.Distinct() && l.Nodes() !! r.Nodes()
    requires var x, a, b := t.node, t.left.Nodes(), t.right.Nodes();
      && header != x && header !in a && header !in b && header !in l.Nodes() && header !in r.Nodes()
      && x !in a && x !in b && x !in l.Nodes() && x !in r.Nodes()
      && a !! b && a !! l.Nodes() && a !! r.Nodes() && b !! l.Nodes() && b !! r.Nodes()
    modifies header, left, right, t.node
    ensures HoldsSpine(Left, l) && HoldsSpine(Right, r) && Holds(t.left) && Holds(t.right) && head.root == t.node
    ensures t.node.left == (if l.Nil? then t.left.Root() else l.First())
    ensures l.Hang? ==> l.node.right == t.left.Root()
    ensures t.node.right == (if r.Nil? then t.right.Root() else r.First())
    ensures r.Hang? ==> r.node.left == t.right.Root()
  {
    assert allocated(l.Nodes()) && allocated(t.Nodes()) && allocated(r.Nodes());
    OpenSpine(Left, l);
    OpenSpine(Right, r);
    assert Holds(t.left) && Holds(t.right) && t.node.left == t.left.Root() && t.node.right == t.right.Root();
    AssemblePointers(head, header, left, right);
  }

  method AssembleLinks<K>(head: Head<K>, header: Node<K>, left: Node<K>, right: Node<K>,
                          ghost l: Spine<K>, ghost t: Tree<K>, ghost r: Spine<K>)
    requires head.root == t.Root() && t.Branch? && Holds(t) && HoldsSpine(Left, l) && HoldsSpine(Right, r)
    requires (l.Hang? ==> header.right == l.First()) && (r.Hang? ==> header.left == r.First())
    requires left == l.Last(header) && right == r.Last(header) && l.Distinct() && r.Distinct() && l.Nodes() !! r.Nodes()
    requires var x, a, b := t.node, t.left.Nodes(), t.right.Nodes();
      && header != x && header !in a && header !in b && header !in l.Nodes() && header !in r.Nodes()
      && x !in a && x !in b && x !in l.Nodes() && x !in r.Nodes()
      && a !! b && a !! l.Nodes() && a !! r.Nodes() && b !! l.Nodes() && b !! r.Nodes()
    modifies header, left, right, t.node
    ensures Holds(l.Closed(Left, t.left)) && Holds(r.Closed(Right, t.right)) && head.root == t.node
    ensures t.node.left == l.Closed(Left, t.left).Root() && t.node.right == r.Closed(Right, t.right).Root()
  {
    AssembleParts(head, header, left, right, l, t, r);
    ClosedHolds(Left, l, t.left);
    ClosedHolds(Right, r, t.right);
  }

  lemma OpenSpine<K>(s: Side, p: Spine<K>)
    requires HoldsSpine(s, p)
    ensures p.Hang? ==>
      && p.node in p.Nodes() && p.node.Child(s) == p.outer.Root() && Holds(p.outer) && HoldsSpine(s, p.rest)
      && (p.rest.Hang? ==> p.rest.node in p.rest.Nodes() && p.rest.node.Child(s.Other()) == p.node)
  {}
}
