/** RB_INSERT_COLOR: repairing the one red-red pair that a new red leaf may create. */
module RedBlackInsert {
  import opened RedBlackTheory
  import opened Sides
  import opened RedBlackLinks

  /** A red tree that fits except that its parent is red too. Then the parent is not the root, and
      the grandparent is black. */
  ghost predicate RedRed<K>(c: Ctx<K>, t: Tree<K>, h: nat) {
    t.IsRed() && t.RB(h) && c.Fits(h, false) && c.Under? && c.red
  }

  lemma RedRedFacts<K>(c: Ctx<K>, t: Tree<K>, h: nat)
    requires RedRed(c, t, h)
    ensures c.up.Under? && !c.up.red && !c.sibling.IsRed() && c.sibling.RB(h) && c.up.sibling.RB(h)
    ensures c.up.up.Fits(h + 1, false) && c.up.up.Depth() < c.Depth()
  {
    assert c.up.Fits(h, true) && c.up.Depth() < c.Depth();
  }

  /** Colours swapped between a grandparent and its two children. */
  ghost function Flipped<K>(s: Side, g: Tree<K>): (r: Tree<K>)
    requires g.Branch? && g.left.Branch? && g.right.Branch?
  {
    g.ChildPainted(s.Other(), false).ChildPainted(s, false).Painted(true)
  }

  lemma FlippedFacts<K>(c: Ctx<K>, t: Tree<K>, h: nat)
    requires RedRed(c, t, h) && c.up.Under? && c.up.sibling.IsRed()
    ensures var g := Flipped(c.up.side, c.up.Filled(c.Filled(t)));
      && g.IsRed() && g.RB(h + 1) && c.up.up.Fits(h + 1, false)
      && Total(c.up.up, g) == Total(c, t) && AllNodes(c.up.up, g) == AllNodes(c, t)
  {
    RedRedFacts(c, t, h);
    var s, p, u := c.up.side, c.Filled(t), c.up.sibling;
    var g := c.up.Filled(p);
    StepUp(c, t);
    StepUp(c.up, p);
    assert p.Painted(false).RB(h + 1) && u.Painted(false).RB(h + 1);
    PaintedInorder(s.Other(), g, false);
    PaintedInorder(s, g.ChildPainted(s.Other(), false), false);
  }

  /** The uncle is red: swap colours and let the pair move two levels up. */
  method Flip<K>(head: Head<K>, s: Side, parent: Node<K>, gparent: Node<K>, uncle: Node<K>,
                 ghost c: Ctx<K>, ghost g: Tree<K>)
    requires At(head, c, g) && g.Root() == gparent
    requires g.Child(s).Root() == parent && g.Child(s.Other()).Root() == uncle
    modifies gparent, parent, uncle
    ensures At(head, c, Flipped(s, g))
  {
    PaintChild(head, s.Other(), uncle, false, c, g);
    SetBlackRed(head, s, parent, gparent, c, g.ChildPainted(s.Other(), false));
  }

  method FlipPair<K>(head: Head<K>, s: Side, parent: Node<K>, gparent: Node<K>, uncle: Node<K>,
                     ghost c: Ctx<K>, ghost t: Tree<K>, ghost h: nat)
      returns (ghost d: Ctx<K>, ghost u: Tree<K>)
    requires RedRed(c, t, h) && c.up.Under? && c.up.side == s && c.up.sibling.IsRed()
    requires At(head, c.up.up, c.up.Filled(c.Filled(t)))
    requires c.node == parent && c.up.node == gparent && c.up.sibling.node == uncle
    modifies gparent, parent, uncle
    ensures At(head, d, u) && u.Root() == gparent && u.IsRed() && u.RB(h + 1) && d.Fits(h + 1, false)
    ensures d.Depth() < c.Depth() && AllNodes(d, u) == AllNodes(c, t) && Total(d, u) == Total(c, t)
  {
    ghost var g := c.up.Filled(c.Filled(t));
    FlippedFacts(c, t, h);
    RedRedFacts(c, t, h);
    Flip(head, s, parent, gparent, uncle, c.up.up, g);
    d, u := c.up.up, Flipped(s, g);
  }

  /** What the black-uncle case makes of grandparent g: its child on side s on top, in black. */
  ghost function Raised<K>(s: Side, g: Tree<K>): (r: Tree<K>)
    requires g.Branch? && g.Child(s).Branch?
  {
    g.ChildPainted(s, false).Painted(true).Rotated(s.Other())
  }

  /** There the red tree t hangs below a black parent. */
  lemma RaisedFacts<K>(s: Side, c: Ctx<K>, g: Tree<K>, h: nat)
    requires g.Branch? && g.Child(s).IsRed() && c.Fits(h + 1, false)
    requires var t, near, far := g.Child(s).Child(s), g.Child(s).Child(s.Other()), g.Child(s.Other());
      t.IsRed() && t.RB(h) && near.RB(h) && far.RB(h) && !near.IsRed() && !far.IsRed()
    ensures var r, t := Raised(s, g), g.Child(s).Child(s);
      && r.Child(s) == t && !r.red && r.Around(s, c).Fits(h, false)
      && Total(r.Around(s, c), t) == Total(c, g) && AllNodes(r.Around(s, c), t) == AllNodes(c, g)
  {
    PaintedInorder(s, g, false);
    RotatedInorder(s.Other(), g.ChildPainted(s, false).Painted(true));
    StepDown(s, c, Raised(s, g));
  }

  /** The uncle is black and the red-red pair stands on the outer side. */
  method Raise<K>(head: Head<K>, s: Side, parent: Node<K>, gparent: Node<K>, ghost c: Ctx<K>, ghost g: Tree<K>)
    requires At(head, c, g) && g.Root() == gparent && g.Child(s).Root() == parent
    modifies head`root, AllNodes(c, g)
    ensures At(head, c, Raised(s, g))
  {
    Look(head, c, g);
    Down(head, s, c, g);
    Look(head, g.Around(s, c), g.Child(s));
    SetBlackRed(head, s, parent, gparent, c, g);
    PaintedInorder(s, g, false);
    Rotate(head, s.Other(), gparent, c, g.ChildPainted(s, false).Painted(true));
  }

  /** The uncle is black: at most two rotations, after which the loop ends. */
  method RotatePair<K>(head: Head<K>, s: Side, elm: Node<K>, parent: Node<K>, gparent: Node<K>,
                       ghost c: Ctx<K>, ghost t: Tree<K>, ghost h: nat)
      returns (below: Node<K>, ghost d: Ctx<K>, ghost u: Tree<K>)
    requires At(head, c, t) && RedRed(c, t, h) && c.up.Under? && !c.up.sibling.IsRed()
    requires t.Root() == elm && c.node == parent && c.up.node == gparent && c.up.side == s
    modifies head`root, AllNodes(c, t)
    ensures At(head, d, u) && u.Root() == below && u.IsRed() && u.RB(h) && d.Fits(h, false)
    ensures d.Under? && !d.red && d.Depth() < c.Depth()
    ensures AllNodes(d, u) == AllNodes(c, t) && Total(d, u) == Total(c, t)
  {
    RedRedFacts(c, t, h);
    Look(head, c, t);
    Up(head, c, t);
    ghost var up, p := c.up, c.Filled(t);
    var top := parent;
    below := elm;
    if parent.Child(s.Other()) == elm {
      Rotate(head, s, parent, up, p);
      p := p.Rotated(s);
      top, below := elm, parent;
    }
    assert p.IsRed() && p.Root() == top && p.Child(s).Root() == below;
    Up(head, up, p);
    ghost var g := up.Filled(p);
    RaisedFacts(s, up.up, g, h);
    Raise(head, s, top, gparent, up.up, g);
    d, u := Raised(s, g).Around(s, up.up), p.Child(s);
    Down(head, s, up.up, Raised(s, g));
  }

  /** The parent, grandparent and uncle of the red-red pair, as the links show them. */
  lemma Family<K>(head: Head<K>, c: Ctx<K>, t: Tree<K>)
    requires At(head, c, t) && c.Under? && c.up.Under?
    ensures var p, g, u := c.node, c.up.node, c.up.sibling;
      && p.parent == g && g.Child(c.up.side) == p && g.Child(c.up.side.Other()) == u.Root() != p
      && (u.Branch? ==> u.node.red == u.red)
      && {p, g} <= AllNodes(c, t) && (u.Branch? ==> u.node in AllNodes(c, t))
    ensures At(head, c.up.up, c.up.Filled(c.Filled(t)))
  {
    var p := c.Filled(t);
    var g := c.up.Filled(p);
    Up(head, c, t);
    Look(head, c.up, p);
    Up(head, c.up, p);
    Down(head, c.up.side.Other(), c.up.up, g);
    Look(head, g.Around(c.up.side.Other(), c.up.up), c.up.sibling);
  }

  /** RB_INSERT_COLOR, with the number of its iterations. */
  method InsertColor<K>(head: Head<K>, elm0: Node<K>, ghost c0: Ctx<K>, ghost t0: Tree<K>, ghost h0: nat)
      returns (ghost steps: nat)
    requires At(head, c0, t0) && t0.Root() == elm0 && t0.IsRed() && t0.RB(h0) && c0.Fits(h0, false)
    modifies head, AllNodes(c0, t0)
    ensures At(head, Top, head.tree) && head.tree.IsRedBlack()
    ensures head.tree.Inorder() == Total(c0, t0) && head.tree.Nodes() == AllNodes(c0, t0)
    ensures steps <= c0.Depth()
  {
    var elm := elm0;
    ghost var c, t, h := c0, t0, h0;
    steps := 0;
    Look(head, c, t);
    while elm.parent != null && elm.parent.red
      invariant At(head, c, t) && t.Root() == elm && t.IsRed() && t.RB(h) && c.Fits(h, false)
      invariant elm.parent == c.Parent() && (c.Under? ==> c.node.red == c.red)
      invariant AllNodes(c, t) == AllNodes(c0, t0) && Total(c, t) == Total(c0, t0)
      invariant steps + c.Depth() <= c0.Depth()
      decreases c.Depth()
    {
      steps := steps + 1;
      RedRedFacts(c, t, h);
      Family(head, c, t);
      var parent := elm.parent;
      var gparent := parent.parent;
      var s := if parent == gparent.left then Left else Right;
      var tmp := gparent.Child(s.Other());
      if tmp != null && tmp.red {
        c, t := FlipPair(head, s, parent, gparent, tmp, c, t, h);
        elm, h := gparent, h + 1;
      } else {
        elm, c, t := RotatePair(head, s, elm, parent, gparent, c, t, h);
      }
      Look(head, c, t);
    }
    Finish(head, c, t, h);
  }

  /** The root is painted black in any case. */
  method Finish<K>(head: Head<K>, ghost c: Ctx<K>, ghost t: Tree<K>, ghost h: nat)
    requires At(head, c, t) && t.IsRed() && t.RB(h) && c.Fits(h, false) && (c.Under? ==> !c.red)
    modifies head, AllNodes(c, t)
    ensures At(head, Top, head.tree) && head.tree.IsRedBlack()
    ensures head.tree.Inorder() == Total(c, t) && head.tree.Nodes() == AllNodes(c, t)
  {
    UpToRoot(head, c, t);
    ghost var r := c.Plug(t);
    if c.Top? {
      assert r.Painted(false).RB(h + 1);
    } else {
      PlugFits(c, t, h);
    }
    Look(head, Top, r);
    Paint(head, head.root, false, Top, r);
    head.tree := r.Painted(false);
  }
}
