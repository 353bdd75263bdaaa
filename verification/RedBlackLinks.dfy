/** Trees in the heap: what it means that the link fields of the nodes hold a given tree, how the
    point of view moves along the parent links, and the primitive updates (colours, rotations).

    At(head, c, t) says that the heap below head holds c with t in its hole. It is the only predicate
    the algorithms carry along; they never look inside it except through the lemmas of this module. */
module RedBlackLinks {
  import opened RedBlackTheory
  import opened Sides
  import opened Unfolding

  class Head<K> {
    const cmp: (K, K) -> int
    var root: Node?<K>
    ghost var tree: Tree<K>  // what the links below root hold between two operations

    constructor (cmp: (K, K) -> int)
      ensures this.cmp == cmp && root == null && tree == Leaf
    {
      this.cmp := cmp;
      root, tree := null, Leaf;
    }
  }

  /** The links of t's nodes are those of t, hanging below p. */
  ghost predicate Holds<K>(t: Tree<K>, p: Node?<K>)
    reads t.Nodes()
    decreases t
  {
    t.Branch? ==>
      && t.node.Has(Left, t.left.Root(), t.right.Root(), p, t.red)
      && Holds(t.left, t.node) && Holds(t.right, t.node)
  }

  /** The links of c's nodes are those of c, with n hanging in the hole. */
  ghost predicate HoldsCtx<K>(c: Ctx<K>, n: Node?<K>)
    reads c.Nodes()
    decreases c
  {
    c.Under? ==>
      && c.node.Has(c.side, n, c.sibling.Root(), c.up.Parent(), c.red)
      && Holds(c.sibling, c.node) && HoldsCtx(c.up, c.node)
  }

  ghost predicate Linked<K>(head: Head<K>, c: Ctx<K>, t: Tree<K>)
    reads head`root, c.Nodes(), t.Nodes()
  {
    && head.root == c.RootOf(t.Root())
    && HoldsCtx(c, t.Root()) && Holds(t, c.Parent())
    && c.Distinct() && t.Distinct() && c.Nodes() !! t.Nodes()
  }

  ghost predicate At<K>(head: Head<K>, c: Ctx<K>, t: Tree<K>)
    reads head`root, c.Nodes(), t.Nodes()
  {
    forall k {:trigger Unfold(k)} :: Unfold(k) ==> Linked(head, c, t)
  }

  // ---- looking at the links, and moving along them

  /** What the fields around the hole contain. */
  lemma Look<K>(head: Head<K>, c: Ctx<K>, t: Tree<K>)
    requires At(head, c, t)
    ensures head.root == c.RootOf(t.Root())
    ensures t.Branch? ==>
      && t.node in t.Nodes() && t.node.Has(Left, t.left.Root(), t.right.Root(), c.Parent(), t.red)
      && (t.left.Branch? ==> t.left.node != t.right.Root())
    ensures c.Under? ==>
      && c.node in c.Nodes() && c.node.Has(c.side, t.Root(), c.sibling.Root(), c.up.Parent(), c.red)
      && (t.Branch? ==> c.sibling.Root() != t.node)
    ensures c.Nodes() !! t.Nodes() && t.Distinct()
  {
    assert Unfold(0);
  }

  lemma SideHolds<K>(s: Side, a: Tree<K>, x: Node<K>, red: bool, b: Tree<K>, p: Node?<K>)
    ensures Holds(Join(s, a, x, red, b), p) <==>
      x.Has(s, a.Root(), b.Root(), p, red) && Holds(a, x) && Holds(b, x)
  {}

  lemma Up<K>(head: Head<K>, c: Ctx<K>, t: Tree<K>)
    requires c.Under?
    ensures At(head, c, t) <==> At(head, c.up, c.Filled(t))
    ensures AllNodes(c.up, c.Filled(t)) == AllNodes(c, t)
    ensures Total(c.up, c.Filled(t)) == Total(c, t)
  {
    StepUp(c, t);
    assert Linked(head, c, t) <==> Linked(head, c.up, c.Filled(t)) by {
      SideSets(c.side, t, c.node, c.red, c.sibling);
      SideHolds(c.side, t, c.node, c.red, c.sibling, c.up.Parent());
    }
    assert Unfold(0);
  }

  lemma Down<K>(head: Head<K>, s: Side, c: Ctx<K>, t: Tree<K>)
    requires t.Branch?
    ensures At(head, c, t) <==> At(head, t.Around(s, c), t.Child(s))
    ensures AllNodes(t.Around(s, c), t.Child(s)) == AllNodes(c, t)
    ensures Total(t.Around(s, c), t.Child(s)) == Total(c, t)
  {
    Up(head, t.Around(s, c), t.Child(s));
  }

  lemma {:induction false} UpToRoot<K>(head: Head<K>, c: Ctx<K>, t: Tree<K>)
    ensures At(head, c, t) <==> At(head, Top, c.Plug(t))
    ensures c.Plug(t).Nodes() == AllNodes(c, t) && c.Plug(t).Inorder() == Total(c, t)
    decreases c
  {
    if c.Under? {
      Up(head, c, t);
      UpToRoot(head, c.up, c.Filled(t));
    }
  }

  /** The point of view of a given node. */
  lemma {:induction false} Focus<K>(head: Head<K>, c: Ctx<K>, t: Tree<K>, x: Node<K>)
      returns (d: Ctx<K>, u: Tree<K>)
    requires At(head, c, t) && x in t.Nodes()
    ensures At(head, d, u) && u.Root() == x && d.Plug(u) == c.Plug(t)
    ensures AllNodes(d, u) == AllNodes(c, t) && Total(d, u) == Total(c, t)
    decreases t
  {
    if t.node == x {
      d, u := c, t;
    } else {
      var s := if x in t.left.Nodes() then Left else Right;
      Down(head, s, c, t);
      StepDown(s, c, t);
      d, u := Focus(head, t.Around(s, c), t.Child(s), x);
    }
  }

  /** From the leftmost subtree of t, or from its right child put in its place, back to t. */
  lemma {:induction false} UpFromLeftmost<K>(head: Head<K>, c: Ctx<K>, t: Tree<K>)
    requires t.Branch?
    ensures At(head, c, t) <==> At(head, t.LeftmostCtx(c), t.Leftmost())
    ensures At(head, c, t.WithoutMin()) <==> At(head, t.LeftmostCtx(c), t.Leftmost().right)
    ensures AllNodes(t.LeftmostCtx(c), t.Leftmost()) == AllNodes(c, t)
    ensures AllNodes(t.LeftmostCtx(c), t.Leftmost().right) == AllNodes(c, t.WithoutMin())
    ensures Total(t.LeftmostCtx(c), t.Leftmost().right) == Total(c, t.WithoutMin())
    decreases t
  {
    if t.left.Branch? {
      Down(head, Left, c, t);
      Down(head, Left, c, t.WithoutMin());
      UpFromLeftmost(head, t.Around(Left, c), t.left);
    }
  }

  // ---- colours

  method Paint<K>(head: Head<K>, n: Node<K>, red: bool, ghost c: Ctx<K>, ghost t: Tree<K>)
    requires At(head, c, t) && t.Root() == n
    modifies n
    ensures At(head, c, t.Painted(red))
  {
    assert Unfold(0);
    n.red := red;
  }

  method PaintChild<K>(head: Head<K>, s: Side, n: Node<K>, red: bool, ghost c: Ctx<K>, ghost t: Tree<K>)
    requires At(head, c, t) && t.Branch? && t.Child(s).Root() == n
    modifies n
    ensures At(head, c, t.ChildPainted(s, red))
  {
    Down(head, s, c, t);
    Paint(head, n, red, t.Around(s, c), t.Child(s));
    Down(head, s, c, t.ChildPainted(s, red));
  }

  /** RB_SET_BLACKRED; wherever it is used, the new red node is the parent of the new black one. */
  method SetBlackRed<K>(head: Head<K>, s: Side, black: Node<K>, red: Node<K>, ghost c: Ctx<K>, ghost t: Tree<K>)
    requires At(head, c, t) && t.Root() == red && t.Child(s).Root() == black
    modifies black, red
    ensures At(head, c, t.ChildPainted(s, false).Painted(true))
  {
    PaintChild(head, s, black, false, c, t);
    Paint(head, red, true, c, t.ChildPainted(s, false));
  }

  // ---- rotations

  /** The pointer moves of RB_ROTATE_LEFT (s == Left) and RB_ROTATE_RIGHT (s == Right). */
  method RotateLinks<K>(head: Head<K>, s: Side, elm: Node<K>)
    requires elm.Child(s.Other()) != null
    requires var y, p := elm.Child(s.Other()), elm.parent;
      var b := y.Child(s);
      && y != elm && b != elm && b != y && p != elm && p != y && (p != null ==> p != b)
      && (p != null ==> p.left == elm || p.right == elm)
    modifies head`root, elm, elm.Child(s.Other()),
      if elm.parent == null then {} else {elm.parent},
      if elm.Child(s.Other()).Child(s) == null then {} else {elm.Child(s.Other()).Child(s)}
    ensures var y, p := old(elm.Child(s.Other())), old(elm.parent);
      var b := old(y.Child(s));
      && elm.Has(s, old(elm.Child(s)), b, y, old(elm.red))
      && y.Has(s, elm, old(y.Child(s.Other())), p, old(y.red))
      && (b != null ==> b.Has(Left, old(b.left), old(b.right), elm, old(b.red)))
      && (p == null ==> head.root == y)
      && (p != null ==> head.root == old(head.root) && p.parent == old(p.parent) && p.red == old(p.red))
      && (p != null && old(p.left) == elm ==> p.left == y && p.right == old(p.right))
      && (p != null && old(p.left) != elm ==> p.right == y && p.left == old(p.left))
  {
    var o := s.Other();
    var tmp := elm.Child(o);
    var inner := tmp.Child(s);
    if s == Left { elm.right := inner; } else { elm.left := inner; }
    if inner != null {
      inner.parent := elm;
    }
    tmp.parent := elm.parent;
    if tmp.parent != null {
      if elm == elm.parent.left {
        elm.parent.left := tmp;
      } else {
        elm.parent.right := tmp;
      }
    } else {
      head.root := tmp;
    }
    if s == Left { tmp.left := elm; } else { tmp.right := elm; }
    elm.parent := tmp;
  }

  ghost predicate Apart<T>(c: set<T>, a: set<T>, b: set<T>, d: set<T>, x: T, y: T) {
    && c !! a && c !! b && c !! d && a !! b && a !! d && b !! d && x != y
    && x !in c && x !in a && x !in b && x !in d && y !in c && y !in a && y !in b && y !in d
  }

  /** The subtrees a, b and d around the two rotated nodes, and the context, stay what they are. */
  method RotateBetween<K>(head: Head<K>, s: Side, elm: Node<K>, ghost c: Ctx<K>,
                          ghost a: Tree<K>, ghost b: Tree<K>, ghost y: Node<K>, ghost d: Tree<K>)
    requires head.root == c.RootOf(elm) && HoldsCtx(c, elm) && Holds(a, elm) && Holds(b, y) && Holds(d, y)
    requires elm.Has(s, a.Root(), y, c.Parent(), elm.red) && y.Has(s, b.Root(), d.Root(), elm, y.red)
    requires Apart(c.Nodes(), a.Nodes(), b.Nodes(), d.Nodes(), elm, y) && c.Distinct() && b.Distinct()
    modifies head`root, c.Nodes(), b.Nodes(), elm, y
    ensures head.root == c.RootOf(y) && HoldsCtx(c, y) && Holds(a, elm) && Holds(b, elm) && Holds(d, y)
    ensures elm.Has(s, a.Root(), b.Root(), y, old(elm.red)) && y.Has(s, elm, d.Root(), c.Parent(), old(y.red))
  {
    assert allocated(c.Nodes()) && allocated(a.Nodes()) && allocated(b.Nodes()) && allocated(d.Nodes());
    assert b.Branch? ==>
        && b.node in b.Nodes() && Holds(b.left, b.node) && Holds(b.right, b.node)
        && b.node.Has(Left, b.left.Root(), b.right.Root(), y, b.red);
    assert c.Under? ==>
        && c.node in c.Nodes() && c.node.Has(c.side, elm, c.sibling.Root(), c.up.Parent(), c.red)
        && HoldsCtx(c.up, c.node) && Holds(c.sibling, c.node);
    RotateLinks(head, s, elm);
  }

  /** Rotating the links rotates the tree they hold. */
  method Rotate<K>(head: Head<K>, s: Side, elm: Node<K>, ghost c: Ctx<K>, ghost t: Tree<K>)
    requires At(head, c, t) && t.Root() == elm && t.Child(s.Other()).Branch?
    modifies head`root, c.Nodes(), t.Nodes()
    ensures At(head, c, t.Rotated(s))
    ensures t.Rotated(s).Nodes() == t.Nodes() && Total(c, t.Rotated(s)) == Total(c, t)
  {
    assert Unfold(0);
    ghost var a, u := t.Child(s), t.Child(s.Other());
    ghost var b, d, y := u.Child(s), u.Child(s.Other()), u.node;
    RotatedInorder(s, t);
    RotatedSets(s, c, t);
    SideHolds(s, a, elm, t.red, u, c.Parent());
    SideHolds(s, b, y, u.red, d, elm);
    RotateBetween(head, s, elm, c, a, b, y, d);
    SideHolds(s, a, elm, t.red, b, y);
    SideHolds(s, Join(s, a, elm, t.red, b), y, u.red, d, c.Parent());
  }

  lemma RotatedSets<K>(s: Side, c: Ctx<K>, t: Tree<K>)
    requires t.Branch? && t.Child(s.Other()).Branch? && t.Distinct() && c.Nodes() !! t.Nodes()
    ensures var a, x, u := t.Child(s), t.node, t.Child(s.Other());
      var b, y, d := u.Child(s), u.node, u.Child(s.Other());
      && Apart(c.Nodes(), a.Nodes(), b.Nodes(), d.Nodes(), x, y) && b.Distinct()
      && b.Nodes() <= t.Nodes() && x in t.Nodes() && y in t.Nodes()
    ensures t.Rotated(s).Distinct()
  {
    var a, x, u := t.Child(s), t.node, t.Child(s.Other());
    var b, y, d := u.Child(s), u.node, u.Child(s.Other());
    SideSets(s, a, x, t.red, u);
    SideSets(s, b, y, u.red, d);
    SideSets(s, a, x, t.red, b);
    SideSets(s, Join(s, a, x, t.red, b), y, u.red, d);
  }
}
