/** The nodes of a red-black tree, and the pure theory of the trees they form: trees and contexts
    ("zippers") over node identities, in-order sequences, the red-black rules and rotations.
    Nothing here depends on the heap. */
module RedBlackTheory {
  import opened Sequences
  import opened Sides

  /** An element with its RB_ENTRY: the key never changes, the four link fields do. */
  class Node<K> {
    const key: K
    var left: Node?<K>
    var right: Node?<K>
    var parent: Node?<K>
    var red: bool

    constructor (key: K)
      ensures this.key == key
    {
      this.key := key;
      left, right, parent, red := null, null, null, false;
    }

    function Child(s: Side): Node?<K>
      reads this
    {
      if s == Left then left else right
    }

    /** All link fields at once, the children given as seen from side s. */
    ghost predicate Has(s: Side, near: Node?<K>, far: Node?<K>, p: Node?<K>, c: bool)
      reads this
    {
      Child(s) == near && Child(s.Other()) == far && parent == p && red == c
    }
  }

  /** The shape of a (sub)tree: which nodes stand where, and in which colour. */
  datatype Tree<K> = Leaf | Branch(left: Tree<K>, node: Node<K>, red: bool, right: Tree<K>) {
    function Root(): Node?<K> { if Leaf? then null else node }

    predicate IsRed() { Branch? && red }

    function Child(s: Side): Tree<K>
      requires Branch?
    {
      if s == Left then left else right
    }

    function WithChild(s: Side, u: Tree<K>): Tree<K>
      requires Branch?
    {
      if s == Left then this.(left := u) else this.(right := u)
    }

    function Painted(red: bool): Tree<K>
      requires Branch?
    {
      this.(red := red)
    }

    /** The root of the child on side s in another colour. */
    function ChildPainted(s: Side, red: bool): Tree<K>
      requires Branch? && Child(s).Branch?
    {
      WithChild(s, Child(s).Painted(red))
    }

    /** The root moves down to side s; its other child takes its place. */
    function Rotated(s: Side): Tree<K>
      requires Branch? && Child(s.Other()).Branch?
    {
      var u := Child(s.Other());
      Join(s, Join(s, Child(s), node, red, u.Child(s)), u.node, u.red, u.Child(s.Other()))
    }

    /** The context of the child on side s, this tree itself standing in c. */
    function Around(s: Side, c: Ctx<K>): Ctx<K>
      requires Branch?
    {
      Under(s, c, node, red, Child(s.Other()))
    }

    ghost function Nodes(): set<Node<K>> {
      if Leaf? then {} else left.Nodes() + {node} + right.Nodes()
    }

    /** No node occurs twice. */
    ghost predicate Distinct() {
      Branch? ==>
        && node !in left.Nodes() && node !in right.Nodes() && left.Nodes() !! right.Nodes()
        && left.Distinct() && right.Distinct()
    }

    ghost function Inorder(): seq<Node<K>> {
      if Leaf? then [] else left.Inorder() + [node] + right.Inorder()
    }

    function Height(): nat {
      if Leaf? then 0
      else if left.Height() > right.Height() then 1 + left.Height() else 1 + right.Height()
    }

    /** The header's conditions for a subtree: the same number h of black nodes on every path down,
        and no red node with a red parent. The root may have either colour. */
    ghost predicate RB(h: nat) {
      if Leaf? then h == 0
      else if red then !left.IsRed() && !right.IsRed() && left.RB(h) && right.RB(h)
      else h > 0 && left.RB(h - 1) && right.RB(h - 1)
    }

    ghost predicate IsRedBlack() { !IsRed() && exists h: nat :: RB(h) }

    /** The subtree whose root is the least node. */
    function Leftmost(): Tree<K>
      requires Branch?
      ensures Leftmost().Branch? && Leftmost().left.Leaf?
    {
      if left.Leaf? then this else left.Leftmost()
    }

    function WithoutMin(): Tree<K>
      requires Branch?
    {
      if left.Leaf? then right else this.(left := left.WithoutMin())
    }

    /** The context of Leftmost(), this tree itself standing in c. */
    function LeftmostCtx(c: Ctx<K>): Ctx<K>
      requires Branch?
    {
      if left.Leaf? then c else left.LeftmostCtx(Around(Left, c))
    }
  }

  function Join<K>(s: Side, near: Tree<K>, x: Node<K>, red: bool, far: Tree<K>): Tree<K> {
    if s == Left then Branch(near, x, red, far) else Branch(far, x, red, near)
  }

  /** A tree with one subtree taken out: the way from the hole up to the root. */
  datatype Ctx<K> = Top | Under(side: Side, up: Ctx<K>, node: Node<K>, red: bool, sibling: Tree<K>) {
    function Parent(): Node?<K> { if Top? then null else node }

    /** The root of the whole tree when n is the root of what fills the hole. */
    function RootOf(n: Node?<K>): Node?<K> { if Top? then n else up.RootOf(node) }

    /** The subtree below the hole's parent once t fills the hole. */
    function Filled(t: Tree<K>): Tree<K>
      requires Under?
    {
      Join(side, t, node, red, sibling)
    }

    /** The whole tree once t fills the hole. */
    function Plug(t: Tree<K>): Tree<K> { if Top? then t else up.Plug(Filled(t)) }

    function Depth(): nat { if Top? then 0 else 1 + up.Depth() }

    ghost function Nodes(): set<Node<K>> {
      if Top? then {} else up.Nodes() + {node} + sibling.Nodes()
    }

    ghost predicate Distinct() {
      Under? ==>
        && node !in up.Nodes() && node !in sibling.Nodes() && up.Nodes() !! sibling.Nodes()
        && up.Distinct() && sibling.Distinct()
    }

    ghost function Before(): seq<Node<K>> {
      if Top? then [] else if side == Left then up.Before() else up.Before() + sibling.Inorder() + [node]
    }

    ghost function After(): seq<Node<K>> {
      if Top? then [] else if side == Left then [node] + sibling.Inorder() + up.After() else up.After()
    }

    /** The whole tree is red-black whenever the hole is filled with a red-black tree of black height
        h, whose root may be red only if childRed. */
    ghost predicate Fits(h: nat, childRed: bool) {
      if Top? then !childRed
      else if red then !childRed && !sibling.IsRed() && sibling.RB(h) && up.Fits(h, true)
      else sibling.RB(h) && up.Fits(h + 1, false)
    }
  }

  /** The nodes outside the hole, on side s. */
  ghost function Outside<K>(s: Side, c: Ctx<K>): seq<Node<K>> { if s == Right then c.After() else c.Before() }

  /** The in-order sequence of the whole tree, t filling the hole of c. */
  ghost function Total<K>(c: Ctx<K>, t: Tree<K>): seq<Node<K>> {
    c.Before() + t.Inorder() + c.After()
  }

  ghost function AllNodes<K>(c: Ctx<K>, t: Tree<K>): set<Node<K>> {
    c.Nodes() + t.Nodes()
  }

  // ---- sequences and node sets

  lemma SideSets<K>(s: Side, a: Tree<K>, x: Node<K>, red: bool, b: Tree<K>)
    ensures Join(s, a, x, red, b).Nodes() == a.Nodes() + {x} + b.Nodes()
    ensures Join(s, a, x, red, b).Distinct() <==>
      x !in a.Nodes() && x !in b.Nodes() && a.Nodes() !! b.Nodes() && a.Distinct() && b.Distinct()
  {}

  /** Moving the hole one level up changes neither the in-order sequence nor the node set. */
  lemma StepUp<K>(c: Ctx<K>, t: Tree<K>)
    requires c.Under?
    ensures Total(c.up, c.Filled(t)) == Total(c, t)
    ensures AllNodes(c.up, c.Filled(t)) == AllNodes(c, t)
  {
    SideSets(c.side, t, c.node, c.red, c.sibling);
    Regroup(c.up.Before(), t.Inorder(), [c.node], c.sibling.Inorder(), c.up.After());
    Regroup(c.up.Before(), c.sibling.Inorder(), [c.node], t.Inorder(), c.up.After());
  }

  lemma StepDown<K>(s: Side, c: Ctx<K>, t: Tree<K>)
    requires t.Branch?
    ensures Total(t.Around(s, c), t.Child(s)) == Total(c, t)
    ensures AllNodes(t.Around(s, c), t.Child(s)) == AllNodes(c, t)
    ensures t.Around(s, c).Filled(t.Child(s)) == t
  {
    StepUp(t.Around(s, c), t.Child(s));
  }

  /** The whole in-order sequence as seen from the root of t. */
  lemma SplitTotal<K>(c: Ctx<K>, t: Tree<K>)
    requires t.Branch?
    ensures Total(c, t) == (c.Before() + t.left.Inorder()) + [t.node] + (t.right.Inorder() + c.After())
    ensures t.Around(Left, c).After() == [t.node] + (t.right.Inorder() + c.After())
    ensures t.Around(Left, c).Before() == c.Before()
    ensures t.Around(Right, c).Before() == (c.Before() + t.left.Inorder()) + [t.node]
    ensures t.Around(Right, c).After() == c.After()
  {}

  lemma {:induction false} PlugTotal<K>(c: Ctx<K>, t: Tree<K>)
    ensures c.Plug(t).Inorder() == Total(c, t)
    ensures c.Plug(t).Nodes() == AllNodes(c, t)
    decreases c
  {
    if c.Under? {
      StepUp(c, t);
      PlugTotal(c.up, c.Filled(t));
    }
  }

  lemma {:induction false} InorderNodes<K>(t: Tree<K>, x: Node<K>)
    ensures x in t.Inorder() <==> x in t.Nodes()
  {
    if t.Branch? {
      InorderNodes(t.left, x);
      InorderNodes(t.right, x);
    }
  }

  /** A tree of distinct nodes lists each of them once. */
  lemma {:induction false} InorderOnce<K>(t: Tree<K>)
    requires t.Distinct()
    ensures NoRepeats(t.Inorder())
  {
    if t.Branch? {
      var l, x, r := t.left.Inorder(), t.node, t.right.Inorder();
      InorderNodes(t.left, x);
      InorderNodes(t.right, x);
      forall y | y in l ensures y !in r {
        InorderNodes(t.left, y);
        InorderNodes(t.right, y);
      }
      assert NoRepeats(l) by { InorderOnce(t.left); }
      assert NoRepeats(r) by { InorderOnce(t.right); }
      JoinedOnce(l, x, r);
    }
  }

  lemma {:induction false} InorderSize<K>(t: Tree<K>)
    requires t.Distinct()
    ensures |t.Inorder()| == |t.Nodes()|
  {
    if t.Branch? {
      InorderSize(t.left);
      InorderSize(t.right);
      assert t.Nodes() == t.left.Nodes() + {t.node} + t.right.Nodes();
      assert |t.left.Nodes() + {t.node} + t.right.Nodes()| == |t.left.Nodes()| + 1 + |t.right.Nodes()|;
    }
  }

  /** Rotation moves no node in the in-order sequence. */
  lemma RotatedInorder<K>(s: Side, t: Tree<K>)
    requires t.Branch? && t.Child(s.Other()).Branch?
    ensures t.Rotated(s).Inorder() == t.Inorder()
    ensures t.Rotated(s).Nodes() == t.Nodes()
  {}

  /** Nor does painting. */
  lemma PaintedInorder<K>(s: Side, t: Tree<K>, red: bool)
    requires t.Branch? && t.Child(s).Branch?
    ensures t.ChildPainted(s, red).Inorder() == t.Inorder() && t.ChildPainted(s, red).Nodes() == t.Nodes()
  {}

  lemma {:induction false} LeftmostFacts<K>(t: Tree<K>)
    requires t.Branch? && t.Distinct()
    ensures t.Inorder() == [t.Leftmost().node] + t.WithoutMin().Inorder()
    ensures t.Leftmost().node in t.Nodes() && t.WithoutMin().Nodes() == t.Nodes() - {t.Leftmost().node}
  {
    if t.left.Branch? {
      LeftmostFacts(t.left);
    }
  }

  /** Unless t itself is the leftmost subtree, its parent lies within t. */
  lemma {:induction false} LeftmostParent<K>(c: Ctx<K>, d: Ctx<K>, t: Tree<K>)
    requires t.Branch? && t.left.Branch?
    ensures t.LeftmostCtx(c).Parent() == t.LeftmostCtx(d).Parent()
    ensures t.LeftmostCtx(c).Under? && t.LeftmostCtx(c).node in t.Nodes()
    decreases t
  {
    if t.left.left.Branch? {
      LeftmostParent(t.Around(Left, c), t.Around(Left, d), t.left);
    }
  }

  // ---- the red-black rules

  lemma {:induction false} RBHeightUnique<K>(t: Tree<K>, g: nat, h: nat)
    requires t.RB(g) && t.RB(h)
    ensures g == h
  {
    if t.Branch? {
      if t.red { RBHeightUnique(t.left, g, h); } else { RBHeightUnique(t.left, g - 1, h - 1); }
    }
  }

  /** Filling a fitting hole gives a red-black tree ... */
  lemma {:induction false} PlugFits<K>(c: Ctx<K>, t: Tree<K>, h: nat)
    requires t.RB(h) && c.Fits(h, t.IsRed())
    ensures c.Plug(t).IsRedBlack()
    decreases c
  {
    if c.Under? {
      PlugFits(c.up, c.Filled(t), if c.red then h else h + 1);
    }
  }

  /** ... and every hole of a red-black tree fits what is in it. */
  lemma FitsDown<K>(s: Side, c: Ctx<K>, t: Tree<K>, h: nat) returns (g: nat)
    requires t.Branch? && t.RB(h) && c.Fits(h, t.IsRed())
    ensures g == if t.red then h else h - 1
    ensures t.Child(s).RB(g) && t.Around(s, c).Fits(g, t.Child(s).IsRed())
  {
    g := if t.red then h else h - 1;
  }

  lemma {:induction false} FitsOf<K>(c: Ctx<K>, t: Tree<K>) returns (h: nat)
    requires c.Plug(t).IsRedBlack()
    ensures t.RB(h) && c.Fits(h, t.IsRed())
    decreases c
  {
    if c.Top? {
      h :| t.RB(h);
    } else {
      h := FitsOf(c.up, c.Filled(t));
      h := FitsDown(c.side, c.up, c.Filled(t), h);
    }
  }

  lemma FitsBlack<K>(c: Ctx<K>, h: nat)
    requires c.Fits(h, true)
    ensures c.Fits(h, false)
  {}

  lemma {:induction false} FitsLeftmost<K>(c: Ctx<K>, t: Tree<K>, h: nat) returns (g: nat)
    requires t.Branch? && t.RB(h) && c.Fits(h, t.IsRed())
    ensures t.Leftmost().RB(g) && t.LeftmostCtx(c).Fits(g, t.Leftmost().IsRed())
    decreases t
  {
    g := h;
    if t.left.Branch? {
      g := FitsDown(Left, c, t, h);
      g := FitsLeftmost(t.Around(Left, c), t.left, g);
    }
  }

  // ---- the height bound of the header

  function Pow2(n: nat): (p: nat)
    ensures p > 0
  {
    if n == 0 then 1 else 2 * Pow2(n - 1)
  }

  lemma {:induction false} Pow2Add(a: nat, b: nat)
    ensures Pow2(a + b) == Pow2(a) * Pow2(b)
  {
    if a > 0 {
      Pow2Add(a - 1, b);
      assert Pow2(a + b) == 2 * Pow2(a - 1 + b);
    }
  }

  lemma {:induction false} Pow2Mono(a: nat, b: nat)
    requires a <= b
    ensures Pow2(a) <= Pow2(b)
  {
    if a < b { Pow2Mono(a, b - 1); }
  }

  lemma {:induction false} BlackHeightBounds<K>(t: Tree<K>, h: nat)
    requires t.RB(h)
    ensures Pow2(h) <= |t.Inorder()| + 1
    ensures t.Height() <= 2 * h + (if t.IsRed() then 1 else 0)
  {
    if t.Branch? {
      var g := if t.red then h else h - 1;
      BlackHeightBounds(t.left, g);
      BlackHeightBounds(t.right, g);
    }
  }

  /** "The maximum height of a red-black tree is 2lg (n+1)", with the logarithm taken away. */
  lemma HeightBound<K>(t: Tree<K>)
    requires t.IsRedBlack()
    ensures Pow2(t.Height()) <= (|t.Inorder()| + 1) * (|t.Inorder()| + 1)
  {
    var h: nat :| t.RB(h);
    var n := |t.Inorder()| + 1;
    BlackHeightBounds(t, h);
    Pow2Mono(t.Height(), h + h);
    Pow2Add(h, h);
    SquareMono(Pow2(h), n);
  }

  /** A hole lies no deeper than the tree around it is high. */
  lemma {:induction false} DepthHeight<K>(c: Ctx<K>, t: Tree<K>)
    ensures c.Depth() + t.Height() <= c.Plug(t).Height()
    decreases c
  {
    if c.Under? { DepthHeight(c.up, c.Filled(t)); }
  }

  lemma {:induction false} LeftmostDepth<K>(c: Ctx<K>, t: Tree<K>)
    requires t.Branch?
    ensures t.LeftmostCtx(c).Depth() + 1 <= c.Depth() + t.Height()
    decreases t
  {
    if t.left.Branch? { LeftmostDepth(t.Around(Left, c), t.left); }
  }

  lemma SquareMono(a: nat, b: nat)
    requires a <= b
    ensures a * a <= b * b
  {
    assert b * b - a * a == (b - a) * (b + a);
  }
}
