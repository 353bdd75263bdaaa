/** The nodes of a splay tree and the pure theory of top-down splaying: the middle tree, and the two
    trees that hang from the header node until they are assembled. */
module SplayTheory {
  import opened Sequences
  import opened Sides

  /** An element with its SPLAY_ENTRY. */
  class Node<K> {
    const key: K
    var left: Node?<K>
    var right: Node?<K>

    constructor (key: K)
      ensures this.key == key && left == null && right == null
    {
      this.key := key;
      left, right := null, null;
    }

    function Child(s: Side): Node?<K>
      reads this
    {
      if s == Left then left else right
    }
  }

  datatype Tree<K> = Leaf | Branch(left: Tree<K>, node: Node<K>, right: Tree<K>) {
    function Root(): Node?<K> { if Leaf? then null else node }

    function Child(s: Side): Tree<K>
      requires Branch?
    {
      if s == Left then left else right
    }

    /** The root moves down to side s; its other child takes its place. */
    function Rotated(s: Side): Tree<K>
      requires Branch? && Child(s.Other()).Branch?
    {
      var u := Child(s.Other());
      Join(s, Join(s, Child(s), node, u.Child(s)), u.node, u.Child(s.Other()))
    }

    function Size(): nat { if Leaf? then 0 else left.Size() + 1 + right.Size() }

    ghost function Nodes(): set<Node<K>> {
      if Leaf? then {} else left.Nodes() + {node} + right.Nodes()
    }

    ghost predicate Distinct() {
      Branch? ==>
        && node !in left.Nodes() && node !in right.Nodes() && left.Nodes() !! right.Nodes()
        && left.Distinct() && right.Distinct()
    }

    ghost function Inorder(): seq<Node<K>> {
      if Leaf? then [] else left.Inorder() + [node] + right.Inorder()
    }
  }

  function Join<K>(s: Side, near: Tree<K>, x: Node<K>, far: Tree<K>): Tree<K> {
    if s == Left then Branch(near, x, far) else Branch(far, x, near)
  }

  /** One of the two hanging trees, as the chain of the nodes linked to it, latest first: each with the
      subtree on its outer side. On its inner side hangs the next node of the chain; what the latest
      node has there is unimportant until the trees are assembled. */
  datatype Spine<K> = Nil | Hang(rest: Spine<K>, outer: Tree<K>, node: Node<K>) {
    ghost function Nodes(): set<Node<K>> {
      if Nil? then {} else rest.Nodes() + outer.Nodes() + {node}
    }

    ghost predicate Distinct() {
      Hang? ==>
        && node !in rest.Nodes() && node !in outer.Nodes() && rest.Nodes() !! outer.Nodes()
        && rest.Distinct() && outer.Distinct()
    }

    /** The nodes in order, the spine standing on side s of the middle tree. */
    ghost function Inorder(s: Side): seq<Node<K>> {
      if Nil? then []
      else if s == Left then rest.Inorder(s) + outer.Inorder() + [node]
      else [node] + outer.Inorder() + rest.Inorder(s)
    }

    function First(): Node?<K> { if Nil? then null else if rest.Nil? then node else rest.First() }

    function Last(header: Node<K>): Node<K> { if Nil? then header else node }

    /** The tree that results when t is hung at the open end. */
    function Closed(s: Side, t: Tree<K>): Tree<K>
      decreases this
    {
      if Nil? then t else rest.Closed(s, Join(s, outer, node, t))
    }
  }

  lemma SideSets<K>(s: Side, a: Tree<K>, x: Node<K>, b: Tree<K>)
    ensures Join(s, a, x, b).Nodes() == a.Nodes() + {x} + b.Nodes()
    ensures Join(s, a, x, b).Distinct() <==>
      x !in a.Nodes() && x !in b.Nodes() && a.Nodes() !! b.Nodes() && a.Distinct() && b.Distinct()
    ensures Join(s, a, x, b).Size() == a.Size() + 1 + b.Size()
  {}

  lemma {:induction false} InorderNodes<K>(t: Tree<K>, x: Node<K>)
    ensures x in t.Inorder() <==> x in t.Nodes()
  {
    if t.Branch? {
      InorderNodes(t.left, x);
      InorderNodes(t.right, x);
    }
  }

  lemma RotatedFacts<K>(s: Side, t: Tree<K>)
    requires t.Branch? && t.Child(s.Other()).Branch?
    ensures t.Rotated(s).Inorder() == t.Inorder() && t.Rotated(s).Nodes() == t.Nodes()
    ensures t.Rotated(s).Size() == t.Size() && (t.Distinct() ==> t.Rotated(s).Distinct())
    ensures t.Rotated(s).node == t.Child(s.Other()).node
  {
    var a, u := t.Child(s), t.Child(s.Other());
    var b, d := u.Child(s), u.Child(s.Other());
    SideSets(s, a, t.node, u);
    SideSets(s, b, u.node, d);
    SideSets(s, a, t.node, b);
    SideSets(s, Join(s, a, t.node, b), u.node, d);
  }

  lemma {:induction false} ClosedFacts<K>(s: Side, p: Spine<K>, t: Tree<K>)
    ensures p.Closed(s, t).Nodes() == p.Nodes() + t.Nodes()
    ensures p.Closed(s, t).Inorder() == if s == Left then p.Inorder(s) + t.Inorder() else t.Inorder() + p.Inorder(s)
    ensures p.Distinct() && t.Distinct() && p.Nodes() !! t.Nodes() ==> p.Closed(s, t).Distinct()
    decreases p
  {
    if p.Hang? {
      var u := Join(s, p.outer, p.node, t);
      SideSets(s, p.outer, p.node, t);
      ClosedFacts(s, p.rest, u);
      RegroupMiddle(p.rest.Inorder(s), p.outer.Inorder(), [p.node], t.Inorder());
      RegroupMiddle(t.Inorder(), [p.node], p.outer.Inorder(), p.rest.Inorder(s));
    }
  }

  /** The whole sequence while splaying: left spine, middle tree, right spine. */
  ghost function Total<K>(l: Spine<K>, t: Tree<K>, r: Spine<K>): seq<Node<K>> {
    l.Inorder(Left) + t.Inorder() + r.Inorder(Right)
  }

  ghost function AllNodes<K>(l: Spine<K>, t: Tree<K>, r: Spine<K>): set<Node<K>> {
    l.Nodes() + t.Nodes() + r.Nodes()
  }

  /** Linking the root and its outer subtree to a spine changes nothing in the whole. */
  lemma LinkTotal<K>(l: Spine<K>, t: Tree<K>, r: Spine<K>)
    requires t.Branch?
    ensures Total(Hang(l, t.left, t.node), t.right, r) == Total(l, t, r)
    ensures Total(l, t.left, Hang(r, t.right, t.node)) == Total(l, t, r)
    ensures AllNodes(Hang(l, t.left, t.node), t.right, r) == AllNodes(l, t, r)
    ensures AllNodes(l, t.left, Hang(r, t.right, t.node)) == AllNodes(l, t, r)
  {
    Regroup(l.Inorder(Left), t.left.Inorder(), [t.node], t.right.Inorder(), r.Inorder(Right));
  }

  /** What SPLAY_ASSEMBLE makes of the parts. */
  function Assembled<K>(l: Spine<K>, t: Tree<K>, r: Spine<K>): Tree<K>
    requires t.Branch?
  {
    Branch(l.Closed(Left, t.left), t.node, r.Closed(Right, t.right))
  }

  lemma AssembledFacts<K>(l: Spine<K>, t: Tree<K>, r: Spine<K>)
    requires t.Branch?
    ensures Assembled(l, t, r).Inorder() == Total(l, t, r) && Assembled(l, t, r).Nodes() == AllNodes(l, t, r)
    ensures Assembled(l, t, r).left.Inorder() == l.Inorder(Left) + t.left.Inorder()
    ensures Assembled(l, t, r).right.Inorder() == t.right.Inorder() + r.Inorder(Right)
  {
    ClosedFacts(Left, l, t.left);
    ClosedFacts(Right, r, t.right);
    RegroupEnds(l.Inorder(Left), t.left.Inorder(), [t.node], t.right.Inorder(), r.Inorder(Right));
  }

  lemma AssembledDistinct<K>(l: Spine<K>, t: Tree<K>, r: Spine<K>)
    requires t.Branch? && t.Distinct() && l.Distinct() && r.Distinct()
    requires l.Nodes() !! t.Nodes() && l.Nodes() !! r.Nodes() && t.Nodes() !! r.Nodes()
    ensures Assembled(l, t, r).Distinct()
  {
    ClosedFacts(Left, l, t.left);
    ClosedFacts(Right, r, t.right);
  }
}
