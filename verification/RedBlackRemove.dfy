/** RB_REMOVE_COLOR and RB_REMOVE. */
module RedBlackRemove {
  import opened Ordering
  import opened RedBlackTheory
  import opened Sequences
  import opened Sides
  import opened RedBlackLinks
  import opened Unfolding
  import opened RedBlackTable

  // ---- RB_REMOVE_COLOR: every path through t is one black node short

  /** Everything is in order except that t has black height h where h + 1 is needed; or t is red, and
      painting it black is all that is left to do. */
  ghost predicate Short<K>(c: Ctx<K>, t: Tree<K>, h: nat) {
    && (if t.IsRed() then t.Painted(false).RB(h + 1) else t.RB(h))
    && c.Fits(h + 1, false)
  }

  /** The sibling of a short tree is never NULL, and two black levels deep if it is red. */
  lemma SiblingFacts<K>(c: Ctx<K>, t: Tree<K>, h: nat)
    requires Short(c, t, h) && c.Under?
    ensures c.sibling.Branch? && c.sibling.RB(h + 1) && c.up.Depth() + 1 == c.Depth()
    ensures c.sibling.red ==> !c.red && c.sibling.left.Branch? && c.sibling.right.Branch?
    ensures if c.red then c.up.Fits(h + 1, true) else c.up.Fits(h + 2, false)
  {
    assert c.sibling.red ==> c.sibling.left.RB(h + 1) && c.sibling.right.RB(h + 1);
  }

  /** A red sibling: rotated away, which leaves a red parent and a black sibling. */
  ghost function Lowered<K>(c: Ctx<K>, t: Tree<K>): Tree<K>
    requires c.Under? && c.sibling.Branch?
  {
    c.Filled(t).ChildPainted(c.side.Other(), false).Painted(true).Rotated(c.side)
  }

  lemma LoweredFacts<K>(c: Ctx<K>, t: Tree<K>, h: nat)
    requires Short(c, t, h) && c.Under? && !t.IsRed() && c.sibling.IsRed()
    ensures var s, r := c.side, Lowered(c, t);
      var d := r.Child(s).Around(s, r.Around(s, c.up));
      && r.Child(s).Branch? && r.Child(s).Child(s) == t
      && Short(d, t, h) && d.red && d.node == c.node && d.sibling.Branch? && !d.sibling.red
      && Total(d, t) == Total(c, t) && AllNodes(d, t) == AllNodes(c, t) && d.Depth() == c.Depth() + 1
  {
    SiblingFacts(c, t, h);
    var s, p := c.side, c.Filled(t);
    var r := Lowered(c, t);
    StepUp(c, t);
    PaintedInorder(s.Other(), p, false);
    RotatedInorder(s, p.ChildPainted(s.Other(), false).Painted(true));
    StepDown(s, c.up, r);
    StepDown(s, r.Around(s, c.up), r.Child(s));
    assert r.Around(s, c.up).Fits(h + 1, true);
  }

  method RedSibling<K>(head: Head<K>, s: Side, parent: Node<K>, tmp: Node<K>,
                       ghost c: Ctx<K>, ghost t: Tree<K>, ghost h: nat)
      returns (ghost d: Ctx<K>)
    requires At(head, c, t) && Short(c, t, h) && !t.IsRed() && c.Under? && c.sibling.IsRed()
    requires s == c.side && parent == c.node && tmp == c.sibling.Root()
    modifies head`root, AllNodes(c, t)
    ensures At(head, d, t) && Short(d, t, h) && d.Under? && d.side == s && d.node == parent
    ensures d.red && d.sibling.Branch? && !d.sibling.red && d.Depth() == c.Depth() + 1
    ensures Total(d, t) == Total(c, t) && AllNodes(d, t) == AllNodes(c, t)
  {
    Up(head, c, t);
    Look(head, c, t);
    ghost var p := c.Filled(t);
    LoweredFacts(c, t, h);
    Down(head, s.Other(), c.up, p);
    Look(head, p.Around(s.Other(), c.up), c.sibling);
    SetBlackRed(head, s.Other(), tmp, parent, c.up, p);
    PaintedInorder(s.Other(), p, false);
    ghost var q := p.ChildPainted(s.Other(), false).Painted(true);
    Rotate(head, s, parent, c.up, q);
    ghost var r := q.Rotated(s);
    Down(head, s, c.up, r);
    Down(head, s, r.Around(s, c.up), r.Child(s));
    d := r.Child(s).Around(s, r.Around(s, c.up));
  }

  /** Both nephews black: the sibling turns red, and it is the parent's tree that is short now. */
  lemma PassedUp<K>(c: Ctx<K>, t: Tree<K>, h: nat) returns (g: nat)
    requires Short(c, t, h) && !t.IsRed() && c.Under? && c.sibling.Branch? && !c.sibling.red
    requires !c.sibling.left.IsRed() && !c.sibling.right.IsRed()
    ensures var p := c.Filled(t).ChildPainted(c.side.Other(), true);
      && Short(c.up, p, g) && p.IsRed() == c.red
      && Total(c.up, p) == Total(c, t) && AllNodes(c.up, p) == AllNodes(c, t)
  {
    SiblingFacts(c, t, h);
    StepUp(c, t);
    PaintedInorder(c.side.Other(), c.Filled(t), true);
    if c.red { FitsBlack(c.up, h + 1); }
    g := if c.red then h else h + 1;
  }

  /** The far nephew is black, so the near one is red: it becomes the sibling, with a red far child. */
  method StraightenSibling<K>(head: Head<K>, s: Side, tmp: Node<K>, oleft: Node<K>, ghost c: Ctx<K>,
                              ghost w: Tree<K>, ghost h: nat)
      returns (ghost v: Tree<K>)
    requires At(head, c, w) && w.Branch? && w.node == tmp && !w.red && w.RB(h + 1)
    requires w.Child(s).IsRed() && w.Child(s).Root() == oleft && !w.Child(s.Other()).IsRed()
    modifies head`root, AllNodes(c, w)
    ensures At(head, c, v) && v.Branch? && v.node == oleft && !v.red && v.RB(h + 1) && v.Child(s.Other()).IsRed()
    ensures Total(c, v) == Total(c, w) && v.Nodes() == w.Nodes()
  {
    Look(head, c, w);
    Down(head, s, c, w);
    Look(head, w.Around(s, c), w.Child(s));
    PaintedInorder(s, w, false);
    SetBlackRed(head, s, oleft, tmp, c, w);
    v := w.ChildPainted(s, false).Painted(true);
    Rotate(head, s.Other(), tmp, c, v);
    v := v.Rotated(s.Other());
  }

  /** The far nephew is red: parent and far nephew turn black, the sibling takes the parent's colour,
      and one rotation restores the missing black node. */
  ghost function Recoloured<K>(c: Ctx<K>, t: Tree<K>): Tree<K>
    requires c.Under? && c.sibling.Branch? && c.sibling.Child(c.side.Other()).Branch?
  {
    var o := c.side.Other();
    var p := c.Filled(t).ChildPainted(o, c.red).Painted(false);
    p.WithChild(o, p.Child(o).ChildPainted(o, false))
  }

  lemma RecolouredInorder<K>(c: Ctx<K>, t: Tree<K>)
    requires c.Under? && c.sibling.Branch? && c.sibling.Child(c.side.Other()).Branch?
    ensures Recoloured(c, t).Inorder() == c.Filled(t).Inorder()
    ensures Recoloured(c, t).Nodes() == c.Filled(t).Nodes()
    ensures Recoloured(c, t).Rotated(c.side).Inorder() == c.Filled(t).Inorder()
    ensures Recoloured(c, t).Rotated(c.side).Nodes() == c.Filled(t).Nodes()
  {
    var o, w := c.side.Other(), c.sibling.Painted(c.red);
    PaintedInorder(o, c.Filled(t), c.red);
    PaintedInorder(o, w, false);
    RotatedInorder(c.side, Recoloured(c, t));
  }

  lemma RestoredFacts<K>(c: Ctx<K>, t: Tree<K>, h: nat) returns (g: nat)
    requires Short(c, t, h) && !t.IsRed() && c.Under?
    requires c.sibling.Branch? && !c.sibling.red && c.sibling.Child(c.side.Other()).IsRed()
    ensures var r := Recoloured(c, t).Rotated(c.side);
      && r.RB(g) && c.up.Fits(g, r.IsRed())
      && Total(c.up, r) == Total(c, t) && AllNodes(c.up, r) == AllNodes(c, t)
  {
    SiblingFacts(c, t, h);
    StepUp(c, t);
    RecolouredInorder(c, t);
    g := if c.red then h + 1 else h + 2;
  }

  method Restore<K>(head: Head<K>, s: Side, parent: Node<K>, tmp: Node<K>, ghost c: Ctx<K>, ghost t: Tree<K>)
    requires At(head, c, t) && c.Under? && c.side == s && c.node == parent && c.sibling.Root() == tmp
    requires c.sibling.Child(s.Other()).Branch?
    modifies head`root, AllNodes(c, t)
    ensures At(head, c.up, Recoloured(c, t).Rotated(s))
  {
    var o := s.Other();
    ghost var p := c.Filled(t);
    Look(head, c, t);
    Up(head, c, t);
    Down(head, o, c.up, p);
    Look(head, p.Around(o, c.up), c.sibling);
    Down(head, o, p.Around(o, c.up), c.sibling);
    Look(head, c.sibling.Around(o, p.Around(o, c.up)), c.sibling.Child(o));
    RecolouredInorder(c, t);
    var far := tmp.Child(o);
    PaintChild(head, o, tmp, parent.red, c.up, p);
    p := p.ChildPainted(o, c.red);
    Paint(head, parent, false, c.up, p);
    p := p.Painted(false);
    if far != null {
      Down(head, o, c.up, p);
      PaintChild(head, o, far, false, p.Around(o, c.up), p.Child(o));
      Down(head, o, c.up, Recoloured(c, t));
    }
    Rotate(head, s, parent, c.up, Recoloured(c, t));
  }

  /** The node at the root of a tree in the middle is not the root of the whole. */
  lemma {:induction false} RootInside<K>(c: Ctx<K>, n: Node?<K>)
    ensures c.Under? ==> c.RootOf(n) in c.Nodes()
    decreases c
  {
    if c.Under? { RootInside(c.up, c.node); }
  }

  /** What the links around a short tree show. */
  lemma Around<K>(head: Head<K>, c: Ctx<K>, t: Tree<K>, h: nat)
    requires At(head, c, t) && Short(c, t, h) && c.Under?
    ensures var p, w := c.node, c.sibling;
      && w.Branch? && p.Child(c.side) == t.Root() && p.Child(c.side.Other()) == w.node && w.node != t.Root()
      && w.node.red == w.red && w.node.Has(Left, w.left.Root(), w.right.Root(), p, w.red)
      && (w.left.Branch? ==> w.left.node.red == w.left.red) && (w.right.Branch? ==> w.right.node.red == w.right.red)
      && p in AllNodes(c, t) && w.node in AllNodes(c, t)
  {
    SiblingFacts(c, t, h);
    var o, p := c.side.Other(), c.Filled(t);
    Look(head, c, t);
    Up(head, c, t);
    Down(head, o, c.up, p);
    var d := p.Around(o, c.up);
    Look(head, d, c.sibling);
    Down(head, Left, d, c.sibling);
    Look(head, c.sibling.Around(Left, d), c.sibling.left);
    Down(head, Right, d, c.sibling);
    Look(head, c.sibling.Around(Right, d), c.sibling.right);
  }

  /** On which side of its parent the short tree stands. */
  lemma HoleSide<K>(head: Head<K>, c: Ctx<K>, t: Tree<K>, h: nat)
    requires At(head, c, t) && Short(c, t, h) && c.Under?
    ensures c.node.left == t.Root() <==> c.side == Left
  {
    Around(head, c, t, h);
  }

  /** RB_REMOVE_COLOR, with the number of its iterations. */
  method RemoveColor<K>(head: Head<K>, parent0: Node?<K>, elm0: Node?<K>,
                        ghost c0: Ctx<K>, ghost t0: Tree<K>, ghost h0: nat)
      returns (ghost steps: nat)
    requires At(head, c0, t0) && t0.Root() == elm0 && c0.Parent() == parent0
    requires t0.RB(h0) && c0.Fits(h0 + 1, false)
    modifies head, AllNodes(c0, t0)
    ensures At(head, Top, head.tree) && head.tree.IsRedBlack()
    ensures head.tree.Inorder() == Total(c0, t0) && head.tree.Nodes() == AllNodes(c0, t0)
    ensures steps <= c0.Depth()
  {
    var elm;
    ghost var c, t, h;
    elm, c, t, h, steps := MoveShortage(head, parent0, elm0, c0, t0, h0);
    Finish(head, elm, c, t, h);
  }

  /** The loop: the shortage moves up until it reaches the root or a red node, or a rotation ends it. */
  method MoveShortage<K>(head: Head<K>, parent0: Node?<K>, elm0: Node?<K>,
                         ghost c0: Ctx<K>, ghost t0: Tree<K>, ghost h0: nat)
      returns (elm: Node?<K>, ghost c: Ctx<K>, ghost t: Tree<K>, ghost h: nat, ghost steps: nat)
    requires At(head, c0, t0) && t0.Root() == elm0 && c0.Parent() == parent0
    requires t0.RB(h0) && c0.Fits(h0 + 1, false)
    modifies head`root, AllNodes(c0, t0)
    ensures At(head, c, t) && Short(c, t, h) && t.Root() == elm && (t.IsRed() || c.Top?)
    ensures AllNodes(c, t) == AllNodes(c0, t0) && Total(c, t) == Total(c0, t0) && steps <= c0.Depth()
  {
    var parent := parent0;
    elm, c, t, h, steps := elm0, c0, t0, h0, 0;
    Look(head, c, t);
    RootInside(c, elm);
    while (elm == null || !elm.red) && elm != head.root
      invariant At(head, c, t) && Short(c, t, h)
      invariant elm == t.Root() && parent == c.Parent() && (elm != null ==> elm.red == t.red)
      invariant elm == head.root <==> c.Top?
      invariant AllNodes(c, t) == AllNodes(c0, t0) && Total(c, t) == Total(c0, t0)
      invariant steps + (if t.IsRed() then 0 else c.Depth()) <= c0.Depth()
      decreases if t.IsRed() then 0 else 1 + c.Depth()
    {
      steps := steps + 1;
      HoleSide(head, c, t, h);
      var s := if parent.left == elm then Left else Right;
      var o := s.Other();
      ghost var d;
      var tmp;
      tmp, d := BlackSibling(head, s, parent, c, t, h);
      if ChildrenBlack(tmp) {
        c, t, h := PaintSibling(head, o, tmp, d, t, h);
        elm := parent;
        parent := elm.parent;
      } else {
        c, t, h := RotateSibling(head, s, parent, tmp, d, t, h);
        elm := head.root;
        break;
      }
    }
  }

  predicate ChildrenBlack<K>(n: Node<K>)
    reads n, n.left, n.right
  {
    (n.left == null || !n.left.red) && (n.right == null || !n.right.red)
  }

  /** The first part of an iteration: afterwards the sibling is black. If that took a rotation, the hole
      is one level deeper, but the parent is red and the next iteration is the last. */
  method BlackSibling<K>(head: Head<K>, s: Side, parent: Node<K>, ghost c: Ctx<K>, ghost t: Tree<K>, ghost h: nat)
      returns (tmp: Node<K>, ghost d: Ctx<K>)
    requires At(head, c, t) && Short(c, t, h) && !t.IsRed() && c.Under? && s == c.side && parent == c.node
    modifies head`root, AllNodes(c, t)
    ensures At(head, d, t) && Short(d, t, h) && d.Under? && s == d.side && parent == d.node
    ensures d.sibling.Branch? && d.sibling.node == tmp && !d.sibling.red
    ensures d == c || (d.red && d.Depth() == c.Depth() + 1)
    ensures Total(d, t) == Total(c, t) && AllNodes(d, t) == AllNodes(c, t)
    ensures ChildrenBlack(tmp) <==> !d.sibling.left.IsRed() && !d.sibling.right.IsRed()
    ensures tmp in AllNodes(c, t)
  {
    d := c;
    Around(head, c, t, h);
    tmp := parent.Child(s.Other());
    if tmp.red {
      d := RedSibling(head, s, parent, tmp, c, t, h);
      Around(head, d, t, h);
      tmp := parent.Child(s.Other());
    }
  }

  /** Both nephews black: what is short afterwards is the parent's tree. */
  method PaintSibling<K>(head: Head<K>, o: Side, tmp: Node<K>, ghost c: Ctx<K>, ghost t: Tree<K>, ghost h: nat)
      returns (ghost d: Ctx<K>, ghost u: Tree<K>, ghost g: nat)
    requires At(head, c, t) && Short(c, t, h) && !t.IsRed() && c.Under? && o == c.side.Other()
    requires c.sibling.Branch? && c.sibling.node == tmp && !c.sibling.red
    requires !c.sibling.left.IsRed() && !c.sibling.right.IsRed()
    modifies tmp
    ensures d == c.up && At(head, d, u) && Short(d, u, g) && u.Root() == c.node && u.IsRed() == c.red
    ensures c.node.parent == d.Parent() && c.node.red == u.red && d.Depth() < c.Depth()
    ensures c.node == head.root <==> d.Top?
    ensures Total(d, u) == Total(c, t) && AllNodes(d, u) == AllNodes(c, t)
  {
    SiblingFacts(c, t, h);
    g := PassedUp(c, t, h);
    Up(head, c, t);
    PaintChild(head, o, tmp, true, c.up, c.Filled(t));
    d, u := c.up, c.Filled(t).ChildPainted(o, true);
    Look(head, d, u);
    RootInside(d, u.Root());
  }

  /** The last iteration: one or two rotations, and the whole tree is in order. */
  method RotateSibling<K>(head: Head<K>, s: Side, parent: Node<K>, tmp0: Node<K>,
                          ghost c: Ctx<K>, ghost t: Tree<K>, ghost h: nat)
      returns (ghost d: Ctx<K>, ghost u: Tree<K>, ghost g: nat)
    requires At(head, c, t) && Short(c, t, h) && !t.IsRed() && c.Under? && s == c.side && parent == c.node
    requires c.sibling.Branch? && c.sibling.node == tmp0 && !c.sibling.red
    requires c.sibling.left.IsRed() || c.sibling.right.IsRed()
    modifies head`root, AllNodes(c, t)
    ensures d == Top && At(head, Top, u) && head.root == u.Root() && Short(Top, u, g) && !u.IsRed()
    ensures u.Inorder() == Total(c, t) && u.Nodes() == AllNodes(c, t)
  {
    var o, tmp := s.Other(), tmp0;
    ghost var e := c;
    Around(head, c, t, h);
    SiblingFacts(c, t, h);
    if tmp.Child(o) == null || !tmp.Child(o).red {
      Up(head, c, t);
      ghost var p := c.Filled(t);
      Down(head, o, c.up, p);
      ghost var v := StraightenSibling(head, s, tmp, tmp.Child(s), p.Around(o, c.up), c.sibling, h);
      p := p.WithChild(o, v);
      Down(head, o, c.up, p);
      Down(head, s, c.up, p);
      e := p.Around(s, c.up);
      assert Short(e, t, h);
      Around(head, e, t, h);
      tmp := parent.Child(o);
    }
    g := RestoredFacts(e, t, h);
    Restore(head, s, parent, tmp, e, t);
    ghost var r := Recoloured(e, t).Rotated(s);
    UpToRoot(head, e.up, r);
    PlugFits(e.up, r, g);
    d, u := Top, e.up.Plug(r);
    g :| u.RB(g);
    Look(head, Top, u);
  }

  method Finish<K>(head: Head<K>, elm: Node?<K>, ghost c: Ctx<K>, ghost t: Tree<K>, ghost h: nat)
    requires At(head, c, t) && Short(c, t, h) && t.Root() == elm && (t.IsRed() || c.Top?)
    modifies head, t.Nodes()
    ensures At(head, Top, head.tree) && head.tree.IsRedBlack()
    ensures head.tree.Inorder() == Total(c, t) && head.tree.Nodes() == AllNodes(c, t)
  {
    Look(head, c, t);
    ghost var u := t;
    if elm != null {
      Paint(head, elm, false, c, t);
      u := t.Painted(false);
    }
    UpToRoot(head, c, u);
    if t.IsRed() {
      PlugFits(c, u, h + 1);
    } else {
      assert u.RB(h);
    }
    head.tree := c.Plug(u);
  }

  // ---- RB_REMOVE

  lemma WithoutSorted<K(!new)>(cmp: (K, K) -> int, a: seq<Node<K>>, x: Node<K>, b: seq<Node<K>>)
    requires Sorted(cmp, Keys(a + [x] + b))
    ensures Sorted(cmp, Keys(a + b))
  {
    var s := Keys(a + [x] + b);
    SortedWithout(cmp, s, |a|);
    assert Keys(a + b) == s[..|a|] + s[|a| + 1..];
  }

  /** Puts child where elm is; elm has no other child. */
  method Splice<K>(head: Head<K>, elm: Node<K>, child: Node?<K>, parent: Node?<K>,
                   ghost c: Ctx<K>, ghost t: Tree<K>, ghost only: Tree<K>)
    requires At(head, c, t) && t.Root() == elm && parent == c.Parent() && child == only.Root()
    requires (t.left.Leaf? && only == t.right) || (t.right.Leaf? && only == t.left)
    modifies head`root, c.Nodes(), only.Nodes()
    ensures At(head, c, only)
  {
    assert Unfold(0);
    Look(head, c, t);
    SplicePart(head, elm, child, parent, c, only);
  }

  method SplicePart<K>(head: Head<K>, elm: Node<K>, child: Node?<K>, parent: Node?<K>,
                       ghost c: Ctx<K>, ghost only: Tree<K>)
    requires head.root == c.RootOf(elm) && HoldsCtx(c, elm) && Holds(only, elm)
    requires parent == c.Parent() && child == only.Root() && (c.Under? ==> c.sibling.Root() != elm)
    requires c.Distinct() && only.Distinct() && c.Nodes() !! only.Nodes()
    modifies head`root, c.Nodes(), only.Nodes()
    ensures head.root == c.RootOf(child) && HoldsCtx(c, child) && Holds(only, parent)
  {
    assert allocated(c.Nodes()) && allocated(only.Nodes());
    assert only.Branch? ==>
        && only.node in only.Nodes() && Holds(only.left, only.node) && Holds(only.right, only.node)
        && only.node.Has(Left, only.left.Root(), only.right.Root(), elm, only.red);
    assert c.Under? ==>
        && c.node in c.Nodes() && c.node.Has(c.side, elm, c.sibling.Root(), c.up.Parent(), c.red)
        && HoldsCtx(c.up, c.node) && Holds(c.sibling, c.node);
    if child != null {
      child.parent := parent;
    }
    if parent != null {
      if parent.left == elm {
        parent.left := child;
      } else {
        parent.right := child;
      }
    } else {
      head.root := child;
    }
  }

  /** elm, which is in no tree, takes over old's links and its place. */
  method TakeOver<K>(head: Head<K>, elm: Node<K>, old_: Node<K>, ghost c: Ctx<K>, ghost t: Tree<K>)
    requires At(head, c, t) && t.Root() == old_ && t.left.Branch? && elm !in AllNodes(c, t)
    modifies head`root, elm, AllNodes(c, t)
    ensures At(head, c, t.(node := elm))
  {
    assert Unfold(0);
    Look(head, c, t);
    TakeOverPart(head, elm, old_, c, t.left, t.right);
  }

  method TakeOverLinks<K>(head: Head<K>, elm: Node<K>, old_: Node<K>)
    requires old_.left != null && old_ != elm
    requires old_ !in {old_.parent, old_.left, old_.right} && elm !in {old_.parent, old_.left, old_.right}
    requires old_.left != old_.right && (old_.parent != null ==> old_.parent !in {old_.left, old_.right})
    modifies head`root, elm, old_.left,
      if old_.parent == null then {} else {old_.parent}, if old_.right == null then {} else {old_.right}
    ensures var l, r, p := old(old_.left), old(old_.right), old(old_.parent);
      && elm.Has(Left, l, r, p, old(old_.red))
      && l.Has(Left, old(l.left), old(l.right), elm, old(l.red))
      && (r != null ==> r.Has(Left, old(r.left), old(r.right), elm, old(r.red)))
      && (p == null ==> head.root == elm)
      && (p != null ==> head.root == old(head.root) && p.parent == old(p.parent) && p.red == old(p.red))
      && (p != null && old(p.left) == old_ ==> p.left == elm && p.right == old(p.right))
      && (p != null && old(p.left) != old_ ==> p.right == elm && p.left == old(p.left))
  {
    elm.left := old_.left;
    elm.right := old_.right;
    elm.parent := old_.parent;
    elm.red := old_.red;
    if old_.parent != null {
      if old_.parent.left == old_ {
        old_.parent.left := elm;
      } else {
        old_.parent.right := elm;
      }
    } else {
      head.root := elm;
    }
    old_.left.parent := elm;
    if old_.right != null {
      old_.right.parent := elm;
    }
  }

  method TakeOverPart<K>(head: Head<K>, elm: Node<K>, old_: Node<K>, ghost c: Ctx<K>, ghost l: Tree<K>,
                         ghost r: Tree<K>)
    requires head.root == c.RootOf(old_) && HoldsCtx(c, old_) && Holds(l, old_) && Holds(r, old_)
    requires old_.Has(Left, l.Root(), r.Root(), c.Parent(), old_.red) && l.Branch?
    requires Apart(c.Nodes(), l.Nodes(), r.Nodes(), {}, old_, elm)
    requires c.Distinct() && l.Distinct() && r.Distinct()
    modifies head`root, elm, c.Nodes(), l.Nodes(), r.Nodes()
    ensures head.root == c.RootOf(elm) && HoldsCtx(c, elm) && Holds(l, elm) && Holds(r, elm)
    ensures elm.Has(Left, l.Root(), r.Root(), c.Parent(), old(old_.red))
  {
    assert allocated(c.Nodes()) && allocated(l.Nodes()) && allocated(r.Nodes());
    assert l.node in l.Nodes() && Holds(l.left, l.node) && Holds(l.right, l.node)
        && l.node.Has(Left, l.left.Root(), l.right.Root(), old_, l.red);
    assert r.Branch? ==>
        && r.node in r.Nodes() && Holds(r.left, r.node) && Holds(r.right, r.node)
        && r.node.Has(Left, r.left.Root(), r.right.Root(), old_, r.red);
    assert c.Under? ==>
        && c.node in c.Nodes() && c.node.Has(c.side, old_, c.sibling.Root(), c.up.Parent(), c.red)
        && HoldsCtx(c.up, c.node) && Holds(c.sibling, c.node);
    TakeOverLinks(head, elm, old_);
  }

  /** The node found by walking left from elm. */
  method WalkToMin<K>(head: Head<K>, top: Node<K>, ghost c: Ctx<K>, ghost t: Tree<K>)
      returns (elm: Node<K>, ghost steps: nat)
    requires At(head, c, t) && t.Root() == top
    ensures elm == t.Leftmost().node && At(head, t.LeftmostCtx(c), t.Leftmost()) && steps < t.Height()
  {
    elm := top;
    steps := 0;
    var left := elm.left;
    ghost var d, u := c, t;
    Look(head, d, u);
    while left != null
      invariant At(head, d, u) && u.Root() == elm && left == u.left.Root()
      invariant u.Leftmost() == t.Leftmost() && u.LeftmostCtx(d) == t.LeftmostCtx(c)
      invariant steps + u.Height() <= t.Height()
      decreases u
    {
      steps := steps + 1;
      elm := left;
      Down(head, Left, d, u);
      d, u := u.Around(Left, d), u.left;
      Look(head, d, u);
      left := elm.left;
    }
  }

  /** What taking the root out of the focused tree leaves: `rest` in its place, child below it short
      by one black node if colour is black. */
  ghost predicate Removed<K>(head: Head<K>, c: Ctx<K>, t: Tree<K>, black: bool, d: Ctx<K>, u: Tree<K>, h: nat)
    requires t.Branch?
    reads head`root, d.Nodes(), u.Nodes()
  {
    && At(head, d, u) && u.RB(h) && d.Fits(if black then h + 1 else h, !black && u.IsRed())
    && Total(d, u) == (c.Before() + t.left.Inorder()) + (t.right.Inorder() + c.After())
    && AllNodes(d, u) == AllNodes(c, t) - {t.node}
  }

  /** At most one child (lines 535-538 and 579-590). */
  method RemoveOuter<K>(head: Head<K>, elm: Node<K>, ghost c: Ctx<K>, ghost t: Tree<K>, ghost h: nat)
      returns (child: Node?<K>, parent: Node?<K>, red: bool, ghost d: Ctx<K>, ghost u: Tree<K>, ghost g: nat)
    requires At(head, c, t) && t.Root() == elm && (t.left.Leaf? || t.right.Leaf?)
    requires t.RB(h) && c.Fits(h, t.IsRed())
    modifies head`root, AllNodes(c, t)
    ensures Removed(head, c, t, !red, d, u, g) && u.Root() == child && d.Parent() == parent
    ensures d == c
  {
    Look(head, c, t);
    child := if elm.left == null then elm.right else elm.left;
    parent := elm.parent;
    red := elm.red;
    d, u := c, if t.left.Leaf? then t.right else t.left;
    g := if red then h else h - 1;
    if red { FitsBlack(c, h); }
    Splice(head, elm, child, parent, c, t, u);
    assert t.left.Inorder() + t.right.Inorder() == u.Inorder();
  }

  /** Takes the least node out of the tree at top. */
  method SpliceMin<K>(head: Head<K>, top: Node<K>, ghost c: Ctx<K>, ghost r: Tree<K>)
      returns (elm: Node<K>, child: Node?<K>, parent: Node?<K>, red: bool, ghost walked: nat)
    requires At(head, c, r) && r.Root() == top
    modifies head`root, AllNodes(c, r)
    ensures At(head, c, r.WithoutMin()) && elm == r.Leftmost().node && elm !in AllNodes(c, r.WithoutMin())
    ensures child == r.Leftmost().right.Root() && red == r.Leftmost().red
    ensures parent == r.LeftmostCtx(c).Parent() && elm.parent == parent && walked < r.Height()
  {
    assert allocated(AllNodes(c, r));
    Look(head, c, r);
    elm, walked := WalkToMin(head, top, c, r);
    UpFromLeftmost(head, c, r);
    LeftmostFacts(r);
    ghost var d, m := r.LeftmostCtx(c), r.Leftmost();
    Look(head, d, m);
    child := elm.right;
    parent := elm.parent;
    red := elm.red;
    Splice(head, elm, child, parent, d, m, m.right);
    UpFromLeftmost(head, c, r);
  }

  /** Two children: the successor is spliced out and takes the place of old (lines 540-577). */
  method RemoveInner<K>(head: Head<K>, old_: Node<K>, ghost c: Ctx<K>, ghost t: Tree<K>, ghost h: nat)
      returns (child: Node?<K>, parent: Node?<K>, red: bool, ghost d: Ctx<K>, ghost u: Tree<K>, ghost g: nat,
               ghost walked: nat)
    requires At(head, c, t) && t.Root() == old_ && t.left.Branch? && t.right.Branch?
    requires t.RB(h) && c.Fits(h, t.IsRed())
    modifies head`root, AllNodes(c, t)
    ensures Removed(head, c, t, !red, d, u, g) && u.Root() == child && d.Parent() == parent
    ensures walked <= t.Height() && d.Depth() <= c.Depth() + t.Height()
  {
    Look(head, c, t);
    Down(head, Right, c, t);
    ghost var r := t.right;
    var elm;
    elm, child, parent, red, walked := SpliceMin(head, old_.right, t.Around(Right, c), r);
    ghost var t1 := t.WithChild(Right, r.WithoutMin());
    LeftmostFacts(r);
    assert AllNodes(c, t1) <= AllNodes(c, t);
    Down(head, Right, c, t1);
    if elm.parent == old_ {
      parent := elm;
    }
    TakeOver(head, elm, old_, c, t1);
    ghost var t2 := t1.(node := elm);
    Down(head, Right, c, t2);
    UpFromLeftmost(head, t2.Around(Right, c), r);
    d, u := r.LeftmostCtx(t2.Around(Right, c)), r.Leftmost().right;
    SuccessorContents(c, t);
    g := SuccessorFacts(c, t, h);
  }

  /** With the successor in the removed root's place, that root and nothing else is gone. */
  lemma SuccessorContents<K>(c: Ctx<K>, t: Tree<K>)
    requires t.Branch? && t.right.Branch? && t.Distinct() && c.Nodes() !! t.Nodes()
    ensures var r := t.right;
      var c2 := t.(node := r.Leftmost().node).Around(Right, c);
      && Total(c2, r.WithoutMin()) == (c.Before() + t.left.Inorder()) + (r.Inorder() + c.After())
      && AllNodes(c2, r.WithoutMin()) == AllNodes(c, t) - {t.node}
  {
    LeftmostFacts(t.right);
    RegroupMiddle(c.Before() + t.left.Inorder(), [t.right.Leftmost().node], t.right.WithoutMin().Inorder(), c.After());
    SuccessorNodes(c, t);
  }

  lemma SuccessorNodes<K>(c: Ctx<K>, t: Tree<K>)
    requires t.Branch? && t.right.Branch? && t.Distinct() && c.Nodes() !! t.Nodes()
    ensures AllNodes(t.(node := t.right.Leftmost().node).Around(Right, c), t.right.WithoutMin())
        == AllNodes(c, t) - {t.node}
  {
    LeftmostFacts(t.right);
  }

  /** The hole the successor leaves, once the successor stands where the removed root stood. */
  lemma SuccessorFacts<K>(c: Ctx<K>, t: Tree<K>, h: nat) returns (g: nat)
    requires t.Branch? && t.right.Branch? && t.RB(h) && c.Fits(h, t.IsRed()) && t.Distinct() && c.Nodes() !! t.Nodes()
    ensures var r, m := t.right, t.right.Leftmost();
      var c2 := t.(node := m.node).Around(Right, c);
      var d, u := r.LeftmostCtx(c2), m.right;
      && u.RB(g) && d.Fits(if m.red then g else g + 1, m.red && u.IsRed())
      && d.Parent() == (if r.left.Leaf? then m.node else r.LeftmostCtx(t.Around(Right, c)).Parent())
      && (r.left.Branch? ==> d.Parent() != t.node) && d.Depth() <= c.Depth() + t.Height()
  {
    var r := t.right;
    var t2 := t.(node := r.Leftmost().node);
    LeftmostFacts(r);
    LeftmostDepth(t2.Around(Right, c), r);
    g := FitsDown(Right, c, t2, h);
    g := FitsLeftmost(t2.Around(Right, c), r, g);
    if !r.Leftmost().red { g := g - 1; } else { FitsBlack(r.LeftmostCtx(t2.Around(Right, c)), g); }
    if r.left.Branch? { LeftmostParent(t.Around(Right, c), t2.Around(Right, c), r); }
  }

  /** The element to remove, in its place, and what will be left without it. */
  lemma Locate<K(!new)>(head: Head<K>, elm: Node<K>) returns (c: Ctx<K>, t: Tree<K>, h: nat)
    requires Valid(head) && elm in head.tree.Nodes()
    ensures At(head, c, t) && t.Root() == elm && t.RB(h) && c.Fits(h, t.IsRed())
    ensures AllNodes(c, t) == head.tree.Nodes() && c.Depth() + t.Height() <= head.tree.Height()
    ensures var rest := (c.Before() + t.left.Inorder()) + (t.right.Inorder() + c.After());
      Without(Contents(head), elm) == rest && Sorted(head.cmp, Keys(rest))
    ensures Pow2(head.tree.Height()) <= (|Contents(head)| + 1) * (|Contents(head)| + 1)
  {
    HeightBound(head.tree);
    c, t := Focus(head, Top, head.tree, elm);
    h := FitsOf(c, t);
    RemovedContents(head, c, t);
    DepthHeight(c, t);
  }

  /** RB_REMOVE, with the steps of its walk to the successor and of the repair. */
  method Remove<K(!new)>(head: Head<K>, elm: Node<K>) returns (old_: Node<K>, ghost steps: nat)
    requires Valid(head) && elm in head.tree.Nodes()
    modifies head, head.tree.Nodes()
    ensures Valid(head) && old_ == elm
    ensures Contents(head) == Without(old(Contents(head)), elm)
    ensures head.tree.Nodes() == old(head.tree.Nodes()) - {elm}
    ensures steps <= 2 * old(head.tree.Height())
    ensures Pow2(old(head.tree.Height())) <= (old(|Contents(head)|) + 1) * (old(|Contents(head)|) + 1)
  {
    old_ := elm;
    ghost var c, t, h := Locate(head, elm);
    var child, parent, red;
    ghost var d, u, g, walked;
    child, parent, red, d, u, g, walked := TakeOut(head, elm, c, t, h);
    steps := Repair(head, child, parent, red, d, u, g);
    steps := walked + steps;
  }

  method TakeOut<K>(head: Head<K>, elm: Node<K>, ghost c: Ctx<K>, ghost t: Tree<K>, ghost h: nat)
      returns (child: Node?<K>, parent: Node?<K>, red: bool, ghost d: Ctx<K>, ghost u: Tree<K>, ghost g: nat,
               ghost walked: nat)
    requires At(head, c, t) && t.Root() == elm && t.RB(h) && c.Fits(h, t.IsRed())
    modifies head`root, AllNodes(c, t)
    ensures Removed(head, c, t, !red, d, u, g) && u.Root() == child && d.Parent() == parent
    ensures walked <= t.Height() && d.Depth() <= c.Depth() + t.Height()
  {
    Look(head, c, t);
    if elm.left == null || elm.right == null {
      walked := 0;
      child, parent, red, d, u, g := RemoveOuter(head, elm, c, t, h);
    } else {
      child, parent, red, d, u, g, walked := RemoveInner(head, elm, c, t, h);
    }
  }

  /** Only a missing black node needs repair (lines 592-593). */
  method Repair<K>(head: Head<K>, child: Node?<K>, parent: Node?<K>, red: bool,
                   ghost d: Ctx<K>, ghost u: Tree<K>, ghost g: nat)
      returns (ghost steps: nat)
    requires At(head, d, u) && u.RB(g) && d.Fits(if red then g else g + 1, red && u.IsRed())
    requires u.Root() == child && d.Parent() == parent
    modifies head, AllNodes(d, u)
    ensures At(head, Top, head.tree) && head.tree.IsRedBlack()
    ensures head.tree.Inorder() == Total(d, u) && head.tree.Nodes() == AllNodes(d, u)
    ensures steps <= d.Depth()
  {
    steps := 0;
    if !red {
      steps := RemoveColor(head, parent, child, d, u, g);
    } else {
      UpToRoot(head, d, u);
      PlugFits(d, u, g);
      head.tree := d.Plug(u);
    }
  }

  lemma RemovedContents<K(!new)>(head: Head<K>, c: Ctx<K>, t: Tree<K>)
    requires Valid(head) && t.Branch? && c.Plug(t) == head.tree
    ensures var a, b := c.Before() + t.left.Inorder(), t.right.Inorder() + c.After();
      && Without(Contents(head), t.node) == a + b && Sorted(head.cmp, Keys(a + b))
    ensures AllNodes(c, t) == head.tree.Nodes()
  {
    var a, b := c.Before() + t.left.Inorder(), t.right.Inorder() + c.After();
    PlugTotal(c, t);
    SplitTotal(c, t);
    Look(head, Top, head.tree);
    InorderOnce(head.tree);
    assert Contents(head) == a + [t.node] + b;
    forall i | 0 <= i < |a| ensures a[i] != t.node {
      assert Contents(head)[i] == a[i] && Contents(head)[|a|] == t.node;
    }
    WithoutAt(a, t.node, b);
    WithoutSorted(head.cmp, a, t.node, b);
  }
}
