/** The splay tree as an index: SPLAY itself and the operations built on it, proved against the sorted
    sequence of the nodes. */
module SplayTree {
  import opened Ordering
  import opened Options
  import opened OrderedSet
  import opened Sequences
  import opened Sides
  import opened SplayTheory
  import opened SplayLinks
  import opened Unfolding

  function Keys<K>(s: seq<Node<K>>): (r: seq<K>)
    ensures |r| == |s|
  {
    seq(|s|, i requires 0 <= i < |s| => s[i].key)
  }

  lemma KeysJoin<K>(a: seq<Node<K>>, x: Node<K>, b: seq<Node<K>>)
    ensures Keys(a + [x] + b) == Keys(a) + [x.key] + Keys(b)
  {}

  ghost function Contents<K>(head: Head<K>): seq<Node<K>>
    reads head
  {
    head.tree.Inorder()
  }

  ghost predicate Valid<K(!new)>(head: Head<K>)
    reads head, head.tree.Nodes()
  {
    && WeakOrder(head.cmp)
    && Hangs(head, head.tree)
    && Sorted(head.cmp, Keys(Contents(head)))
  }

  /** Everything left of the root is below k, everything right of it above: the root holds k, or the
      key next below or next above k. */
  ghost predicate SplayedAt<K>(cmp: (K, K) -> int, t: Tree<K>, k: K) {
    t.Branch? && AllBelow(cmp, Keys(t.left.Inorder()), k) && AllAbove(cmp, Keys(t.right.Inorder()), k)
  }

  /** So the root is the first node not below k, or the last one below it. */
  lemma SplayedRoot<K(!new)>(cmp: (K, K) -> int, t: Tree<K>, k: K)
    requires WeakOrder(cmp) && SplayedAt(cmp, t, k)
    ensures var n, s := Rank(cmp, Keys(t.Inorder()), k), t.Inorder();
      if cmp(k, t.node.key) <= 0 then n < |s| && t.node == s[n] else n > 0 && t.node == s[n - 1]
  {
    var a, x, b := Keys(t.left.Inorder()), t.node.key, Keys(t.right.Inorder());
    KeysJoin(t.left.Inorder(), t.node, t.right.Inorder());
    OrderFacts(cmp, k, x, k);
    var s := a + [x] + b;
    if cmp(k, x) <= 0 {
      assert s[..|a|] == a;
      RankIs(cmp, s, k, |a|);
    } else {
      assert s[..|a| + 1] == a + [x];
      if b != [] { OrderFacts(cmp, k, b[0], k); }
      RankIs(cmp, s, k, |a| + 1);
    }
  }

  /** The bounds kept while splaying for k. */
  ghost predicate Bounds<K(!new)>(cmp: (K, K) -> int, all: seq<Node<K>>, l: Spine<K>, t: Tree<K>, r: Spine<K>, k: K) {
    forall j {:trigger Unfold(j)} :: Unfold(j) ==>
      && WeakOrder(cmp) && Sorted(cmp, Keys(all)) && Total(l, t, r) == all
      && AllBelow(cmp, Keys(l.Inorder(Left)), k) && AllAbove(cmp, Keys(r.Inorder(Right)), k)
  }

  lemma BeginBounds<K(!new)>(head: Head<K>, k: K)
    requires Valid(head)
    ensures Bounds(head.cmp, Contents(head), Nil, head.tree, Nil, k)
  {
    assert Total(Nil, head.tree, Nil) == Contents(head);
  }

  lemma LinkBounds<K(!new)>(cmp: (K, K) -> int, all: seq<Node<K>>, l: Spine<K>, t: Tree<K>, r: Spine<K>, k: K)
    requires Bounds(cmp, all, l, t, r, k) && t.Branch?
    ensures cmp(k, t.node.key) < 0 ==> Bounds(cmp, all, l, t.left, Hang(r, t.right, t.node), k)
    ensures cmp(k, t.node.key) > 0 ==> Bounds(cmp, all, Hang(l, t.left, t.node), t.right, r, k)
  {
    assert Unfold(0);
    LinkTotal(l, t, r);
    RegroupEnds(l.Inorder(Left), t.left.Inorder(), [t.node], t.right.Inorder(), r.Inorder(Right));
    CutKeys(cmp, l.Inorder(Left) + t.left.Inorder(), t.node, t.right.Inorder() + r.Inorder(Right), k);
    assert [t.node] + t.right.Inorder() + r.Inorder(Right) == [t.node] + (t.right.Inorder() + r.Inorder(Right));
  }

  lemma CutKeys<K(!new)>(cmp: (K, K) -> int, a: seq<Node<K>>, x: Node<K>, b: seq<Node<K>>, k: K)
    requires WeakOrder(cmp) && Sorted(cmp, Keys(a + [x] + b))
    ensures cmp(k, x.key) < 0 ==> AllAbove(cmp, Keys([x] + b), k)
    ensures cmp(k, x.key) > 0 ==> AllBelow(cmp, Keys(a + [x]), k)
    ensures cmp(k, x.key) >= 0 ==> AllBelow(cmp, Keys(a), k)
    ensures cmp(k, x.key) <= 0 ==> AllAbove(cmp, Keys(b), k)
  {
    KeysJoin(a, x, b);
    CutAt(cmp, Keys(a), x.key, Keys(b), k);
    CutSides(cmp, Keys(a), x.key, Keys(b), k);
    assert Keys([x] + b) == [x.key] + Keys(b);
    assert Keys(a + [x]) == Keys(a) + [x.key];
  }

  lemma RotateBounds<K(!new)>(s: Side, cmp: (K, K) -> int, all: seq<Node<K>>, l: Spine<K>, t: Tree<K>, r: Spine<K>,
                              k: K)
    requires Bounds(cmp, all, l, t, r, k) && t.Branch? && t.Child(s.Other()).Branch?
    ensures Bounds(cmp, all, l, t.Rotated(s), r, k)
  {
    RotatedFacts(s, t);
    assert Unfold(0);
  }

  /** When the loop ends, no key between the root and k is left. */
  ghost predicate AtRest<K>(cmp: (K, K) -> int, t: Tree<K>, k: K) {
    && t.Branch?
    && (cmp(k, t.node.key) < 0 ==> t.left.Leaf?)
    && (cmp(k, t.node.key) > 0 ==> t.right.Leaf?)
  }

  lemma EndBounds<K(!new)>(cmp: (K, K) -> int, all: seq<Node<K>>, l: Spine<K>, t: Tree<K>, r: Spine<K>, k: K)
    requires Bounds(cmp, all, l, t, r, k) && AtRest(cmp, t, k)
    ensures SplayedAt(cmp, Assembled(l, t, r), k) && Assembled(l, t, r).Inorder() == all
    ensures Assembled(l, t, r).Nodes() == AllNodes(l, t, r)
  {
    assert Unfold(0);
    AssembledFacts(l, t, r);
    RegroupEnds(l.Inorder(Left), t.left.Inorder(), [t.node], t.right.Inorder(), r.Inorder(Right));
    CutKeys(cmp, l.Inorder(Left) + t.left.Inorder(), t.node, t.right.Inorder() + r.Inorder(Right), k);
    assert t.left.Leaf? ==> l.Inorder(Left) + t.left.Inorder() == l.Inorder(Left);
    assert t.right.Leaf? ==> t.right.Inorder() + r.Inorder(Right) == r.Inorder(Right);
  }

  /** SPLAY. */
  method Splay<K(!new)>(head: Head<K>, k: K)
    requires Valid(head) && head.root != null
    modifies head, head.tree.Nodes()
    ensures Valid(head) && SplayedAt(head.cmp, head.tree, k)
    ensures Contents(head) == old(Contents(head)) && head.tree.Nodes() == old(head.tree.Nodes())
  {
    assert allocated(head.tree.Nodes());
    ghost var all, nodes := Contents(head), head.tree.Nodes();
    var header := new Node(k);
    var left, right := header, header;
    ghost var l, t, r := Nil, head.tree, Nil;
    BeginBounds(head, k);
    Begin(head, header, t);
    Look(head, header, l, t, r);
    while head.cmp(k, head.root.key) != 0
      invariant At(head, header, l, t, r) && t.Branch? && head.root == t.node
      invariant Bounds(head.cmp, all, l, t, r, k) && AllNodes(l, t, r) == nodes
      invariant left == l.Last(header) && right == r.Last(header)
      decreases t.Size()
    {
      Look(head, header, l, t, r);
      var d := if head.cmp(k, head.root.key) < 0 then Left else Right;
      var tmp := head.root.Child(d);
      if tmp == null {
        break;
      }
      var again := head.cmp(k, tmp.key);
      if if d == Left then again < 0 else again > 0 {
        Rotate(head, d.Other(), tmp, header, l, t, r);
        RotateBounds(d.Other(), head.cmp, all, l, t, r, k);
        RotatedFacts(d.Other(), t);
        t := t.Rotated(d.Other());
        Look(head, header, l, t, r);
        if head.root.Child(d) == null {
          break;
        }
      }
      LinkBounds(head.cmp, all, l, t, r, k);
      LinkTotal(l, t, r);
      if d == Left {
        right := Link(head, Right, right, header, l, t, r);
        t, r := t.left, Hang(r, t.right, t.node);
      } else {
        left := Link(head, Left, left, header, l, t, r);
        t, l := t.right, Hang(l, t.left, t.node);
      }
      Look(head, header, l, t, r);
    }
    assert AtRest(head.cmp, t, k) by { Look(head, header, l, t, r); }
    EndBounds(head.cmp, all, l, t, r, k);
    Assemble(head, header, left, right, l, t, r);
  }

  // ---- the operations

  /** The root's key tells whether k is there at all. */
  lemma SplayedLookup<K(!new)>(cmp: (K, K) -> int, t: Tree<K>, k: K)
    requires WeakOrder(cmp) && SplayedAt(cmp, t, k)
    ensures forall x :: x in t.Inorder() && cmp(k, x.key) == 0 ==> x == t.node
    ensures Lookup(cmp, SetOf(Keys(t.Inorder())), k, if cmp(k, t.node.key) == 0 then Some(t.node.key) else None)
  {
    var a, b := t.left.Inorder(), t.right.Inorder();
    KeysJoin(a, t.node, b);
    forall i | 0 <= i < |a| ensures cmp(k, a[i].key) > 0 {
      assert Keys(a)[i] == a[i].key;
      OrderFacts(cmp, a[i].key, k, k);
    }
    forall i | 0 <= i < |b| ensures cmp(k, b[i].key) < 0 { assert Keys(b)[i] == b[i].key; }
    assert Keys(t.Inorder())[|a|] == t.node.key;
  }

  /** SPLAY_FIND. */
  method Find<K(!new)>(head: Head<K>, k: K) returns (r: Node?<K>)
    requires Valid(head)
    modifies head, head.tree.Nodes()
    ensures Valid(head) && Contents(head) == old(Contents(head)) && head.tree.Nodes() == old(head.tree.Nodes())
    ensures r != null ==> r in Contents(head) && head.cmp(k, r.key) == 0 && head.root == r
    ensures r != null ==> SplayedAt(head.cmp, head.tree, k)
    ensures r == null ==> forall x :: x in Contents(head) ==> head.cmp(k, x.key) != 0
    ensures Lookup(head.cmp, SetOf(Keys(Contents(head))), k, if r == null then None else Some(r.key))
  {
    LookHead(head);
    if head.root == null {
      return null;
    }
    Splay(head, k);
    LookHead(head);
    SplayedLookup(head.cmp, head.tree, k);
    r := if head.cmp(k, head.root.key) == 0 then head.root else null;
  }

  lemma LookHead<K(!new)>(head: Head<K>)
    requires Valid(head)
    ensures head.root == head.tree.Root()
    ensures head.tree.Branch? ==>
      && head.root in head.tree.Nodes() && head.root.left == head.tree.left.Root()
          && head.root.right == head.tree.right.Root()
      && Holds(head.tree.left) && Holds(head.tree.right)
  {
    assert Unfold(0);
  }

  /** Where elm goes: in front of the first key above it. */
  ghost function Inserted<K>(cmp: (K, K) -> int, s: seq<Node<K>>, x: Node<K>): seq<Node<K>> {
    InsertedAt(s, Rank(cmp, Keys(s), x.key), x)
  }

  lemma InsertedBetween<K(!new)>(cmp: (K, K) -> int, a: seq<Node<K>>, x: Node<K>, b: seq<Node<K>>)
    requires WeakOrder(cmp) && Sorted(cmp, Keys(a + b)) && AllBelow(cmp, Keys(a), x.key)
        && AllAbove(cmp, Keys(b), x.key)
    ensures Inserted(cmp, a + b, x) == a + [x] + b && Sorted(cmp, Keys(a + [x] + b))
    ensures SetOf(Keys(a + [x] + b)) == SetOf(Keys(a + b)) + {x.key}
  {
    assert Keys(a + b) == Keys(a) + Keys(b);
    CutBetween(cmp, Keys(a), Keys(b), x.key);
    KeysJoin(a, x, b);
    SetWithout(cmp, Keys(a), x.key, Keys(b));
  }

  /** After splaying at a key that is not there, the new element goes in front of the root ... */
  lemma CutBefore<K(!new)>(cmp: (K, K) -> int, t: Tree<K>, x: Node<K>)
    requires WeakOrder(cmp) && Sorted(cmp, Keys(t.Inorder())) && SplayedAt(cmp, t, x.key)
    requires cmp(x.key, t.node.key) < 0
    ensures var s := Inserted(cmp, t.Inorder(), x);
      && s == t.left.Inorder() + [x] + ([t.node] + t.right.Inorder())
      && Sorted(cmp, Keys(s)) && SetOf(Keys(s)) == SetOf(Keys(t.Inorder())) + {x.key}
  {
    var a, b, y := t.left.Inorder(), t.right.Inorder(), t.node;
    assert t.Inorder() == a + ([y] + b);
    assert Keys([y] + b) == [y.key] + Keys(b);
    InsertedBetween(cmp, a, x, [y] + b);
  }

  /** ... or behind it. */
  lemma CutBehind<K(!new)>(cmp: (K, K) -> int, t: Tree<K>, x: Node<K>)
    requires WeakOrder(cmp) && Sorted(cmp, Keys(t.Inorder())) && SplayedAt(cmp, t, x.key)
    requires cmp(x.key, t.node.key) > 0
    ensures var s := Inserted(cmp, t.Inorder(), x);
      && s == (t.left.Inorder() + [t.node]) + [x] + t.right.Inorder()
      && Sorted(cmp, Keys(s)) && SetOf(Keys(s)) == SetOf(Keys(t.Inorder())) + {x.key}
  {
    var a, b, y := t.left.Inorder(), t.right.Inorder(), t.node;
    OrderFacts(cmp, x.key, y.key, y.key);
    assert t.Inorder() == (a + [y]) + b;
    assert Keys(a + [y]) == Keys(a) + [y.key];
    InsertedBetween(cmp, a + [y], x, b);
  }

  /** elm on top, the old root and what was on its far side below it. */
  function Placed<K>(s: Side, t: Tree<K>, elm: Node<K>): Tree<K>
    requires t.Branch?
  {
    Join(s, t.Child(s), elm, Join(s, Leaf, t.node, t.Child(s.Other())))
  }

  lemma PlacedNodes<K>(s: Side, t: Tree<K>, elm: Node<K>)
    requires t.Branch?
    ensures Placed(s, t, elm).Nodes() == t.Nodes() + {elm}
  {
    SideSets(s, t.Child(s), elm, Join(s, Leaf, t.node, t.Child(s.Other())));
    SideSets(s, Leaf, t.node, t.Child(s.Other()));
    SideSets(s, t.Child(s), t.node, t.Child(s.Other()));
    assert Join(s, t.Child(s), t.node, t.Child(s.Other())) == t;
  }

  lemma PlacedInorder<K>(t: Tree<K>, elm: Node<K>)
    requires t.Branch?
    ensures Placed(Left, t, elm).Inorder() == t.left.Inorder() + [elm] + ([t.node] + t.right.Inorder())
    ensures Placed(Right, t, elm).Inorder() == (t.left.Inorder() + [t.node]) + [elm] + t.right.Inorder()
  {
    assert Branch(Leaf, t.node, t.right).Inorder() == [t.node] + t.right.Inorder();
    assert Branch(t.left, t.node, Leaf).Inorder() == t.left.Inorder() + [t.node];
  }

  /** The pointer moves of SPLAY_INSERT beside the old root. */
  method InsertPointers<K>(head: Head<K>, elm: Node<K>, s: Side)
    requires head.root != null && head.root != elm
    modifies head`root, elm, head.root
    ensures head.root == elm && elm.Child(s) == old(head.root.Child(s)) && elm.Child(s.Other()) == old(head.root)
    ensures var x := old(head.root); x.Child(s) == null && x.Child(s.Other()) == old(x.Child(s.Other()))
  {
    if s == Left {
      elm.left := head.root.left;
      elm.right := head.root;
      head.root.left := null;
    } else {
      elm.right := head.root.right;
      elm.left := head.root;
      head.root.right := null;
    }
    head.root := elm;
  }

  method InsertLinks<K>(head: Head<K>, elm: Node<K>, s: Side)
    requires Hangs(head, head.tree) && head.tree.Branch? && elm !in head.tree.Nodes()
    modifies head, elm, head.tree.Nodes()
    ensures head.tree == Placed(s, old(head.tree), elm) && Hangs(head, head.tree)
  {
    assert Unfold(0);
    assert allocated(head.tree.Nodes());
    ghost var x, a, b := head.tree.node, head.tree.Child(s), head.tree.Child(s.Other());
    SideSets(s, a, x, b);
    SideSets(s, Leaf, x, b);
    SideSets(s, a, elm, Join(s, Leaf, x, b));
    assert Holds(a) && Holds(b) && x.Child(s) == a.Root() && x.Child(s.Other()) == b.Root();
    InsertPointers(head, elm, s);
    assert Holds(a) && Holds(b) && Holds(Join(s, Leaf, x, b));
    head.tree := Join(s, a, elm, Join(s, Leaf, x, b));
  }

  /** SPLAY_INSERT. */
  method Insert<K(!new)>(head: Head<K>, elm: Node<K>) returns (r: Node?<K>)
    requires Valid(head)
    modifies head, elm, head.tree.Nodes()
    ensures Valid(head) && (elm in old(Contents(head)) ==> r == elm)
    ensures r != null ==> r in old(Contents(head)) && head.cmp(elm.key, r.key) == 0
    ensures r != null ==> Contents(head) == old(Contents(head)) && head.tree.Nodes() == old(head.tree.Nodes())
    ensures r == null ==> forall x :: x in old(Contents(head)) ==> head.cmp(elm.key, x.key) != 0
    ensures r == null ==> Contents(head) == Inserted(head.cmp, old(Contents(head)), elm)
    ensures r == null ==> head.tree.Nodes() == old(head.tree.Nodes()) + {elm}
    ensures Step(head.cmp, old(SetOf(Keys(Contents(head)))), OrderedSet.Insert(elm.key),
                 if r == null then None else Some(r.key), SetOf(Keys(Contents(head))))
  {
    LookHead(head);
    if head.root == null {
      elm.left := null;
      elm.right := null;
      head.root := elm;
      head.tree := Branch(Leaf, elm, Leaf);
      assert head.tree.Inorder() == [elm] && Keys([elm]) == [elm.key];
      return null;
    }
    Splay(head, elm.key);
    LookHead(head);
    SplayedLookup(head.cmp, head.tree, elm.key);
    OrderFacts(head.cmp, elm.key, elm.key, elm.key);
    InorderNodes(head.tree, elm);
    var comp := head.cmp(elm.key, head.root.key);
    if comp == 0 {
      return head.root;
    }
    var s := if comp < 0 then Left else Right;
    if comp < 0 { CutBefore(head.cmp, head.tree, elm); } else { CutBehind(head.cmp, head.tree, elm); }
    PlacedNodes(s, head.tree, elm);
    PlacedInorder(head.tree, elm);
    InsertLinks(head, elm, s);
    r := null;
  }

  lemma SortedPart<K(!new)>(cmp: (K, K) -> int, a: seq<Node<K>>, x: Node<K>, b: seq<Node<K>>)
    requires WeakOrder(cmp) && Sorted(cmp, Keys(a + [x] + b))
    ensures Sorted(cmp, Keys(a)) && Sorted(cmp, Keys(a + b)) && x !in a
    ensures SetOf(Keys(a + b)) == SetOf(Keys(a + [x] + b)) - {x.key}
  {
    KeysJoin(a, x, b);
    assert Keys(a + b) == Keys(a) + Keys(b);
    assert Keys(a) + Keys(b) == Keys(a + [x] + b)[..|a|] + Keys(a + [x] + b)[|a| + 1..];
    SortedWithout(cmp, Keys(a + [x] + b), |a|);
    SetWithout(cmp, Keys(a), x.key, Keys(b));
    SortedParts(cmp, Keys(a), x.key, Keys(b));
    OrderFacts(cmp, x.key, x.key, x.key);
    forall i | 0 <= i < |a| ensures a[i] != x { assert cmp(Keys(a)[i], x.key) < 0; }
  }

  /** SPLAY_REMOVE. It answers with its argument, which need not be the element that was in the tree;
      that element is `gone`. */
  method Remove<K(!new)>(head: Head<K>, elm: Node<K>) returns (r: Node?<K>, ghost gone: Node?<K>)
    requires Valid(head)
    modifies head, head.tree.Nodes()
    ensures Valid(head) && r == if gone == null then null else elm
    ensures gone == null ==> Contents(head) == old(Contents(head)) && head.tree.Nodes() == old(head.tree.Nodes())
    ensures gone == null ==> forall x :: x in old(Contents(head)) ==> head.cmp(elm.key, x.key) != 0
    ensures gone != null ==> gone in old(Contents(head)) && head.cmp(elm.key, gone.key) == 0
    ensures gone != null ==> Contents(head) == Without<Node<K>>(old(Contents(head)), gone)
    ensures gone != null ==> head.tree.Nodes() == old(head.tree.Nodes()) - {gone}
    ensures elm in old(Contents(head)) ==> gone == elm
    ensures Step(head.cmp, old(SetOf(Keys(Contents(head)))), OrderedSet.Remove(elm.key),
                 if gone == null then None else Some(gone.key), SetOf(Keys(Contents(head))))
  {
    OrderFacts(head.cmp, elm.key, elm.key, elm.key);
    LookHead(head);
    if head.root == null {
      return null, null;
    }
    Splay(head, elm.key);
    LookHead(head);
    SplayedLookup(head.cmp, head.tree, elm.key);
    if head.cmp(elm.key, head.root.key) != 0 {
      return null, null;
    }
    r, gone := elm, head.root;
    ghost var t := head.tree;
    ghost var a, b := t.left.Inorder(), t.right.Inorder();
    assert old(Contents(head)) == a + [t.node] + b;
    SortedPart(head.cmp, a, t.node, b);
    WithoutAt(a, t.node, b);
    DropRoot(head, elm.key);
  }

  /** The two ways SPLAY_REMOVE takes the root out. */
  method DropRoot<K(!new)>(head: Head<K>, k: K)
    requires Valid(head) && SplayedAt(head.cmp, head.tree, k)
    modifies head, head.tree.Nodes()
    ensures Hangs(head, head.tree)
    ensures Contents(head) == old(head.tree.left.Inorder() + head.tree.right.Inorder())
    ensures head.tree.Nodes() == old(head.tree.Nodes() - {head.tree.node})
  {
    LookHead(head);
    ghost var t := head.tree;
    SortedPart(head.cmp, t.left.Inorder(), t.node, t.right.Inorder());
    assert t.Distinct() by { assert Unfold(0); }
    if head.root.left == null {
      TakeChild(head, Right);
      assert t.left.Inorder() + t.right.Inorder() == t.right.Inorder();
    } else {
      var tmp := head.root.right;
      TakeChild(head, Left);
      assert allocated(t.right.Nodes()) && allocated(t.left.Nodes());
      assert Holds(t.right) && t.right.Distinct() && tmp == t.right.Root();
      LookHead(head);
      Splay(head, k);
      NoneAbove(head.cmp, t.left, head.tree, k);
      assert Holds(t.right);
      HangRight(head, tmp, t.right);
    }
  }

  method TakeChild<K>(head: Head<K>, s: Side)
    requires Hangs(head, head.tree) && head.tree.Branch?
    modifies head
    ensures head.tree == old(head.tree).Child(s) && Hangs(head, head.tree) && Holds(old(head.tree.right))
  {
    assert Unfold(0);
    head.root := head.root.Child(s);
    head.tree := head.tree.Child(s);
  }

  /** Re-splaying a tree whose keys are all below k leaves nothing to the right of the root. */
  lemma NoneAbove<K(!new)>(cmp: (K, K) -> int, before: Tree<K>, t: Tree<K>, k: K)
    requires WeakOrder(cmp) && AllBelow(cmp, Keys(before.Inorder()), k)
    requires SplayedAt(cmp, t, k) && t.Inorder() == before.Inorder()
    ensures t.right.Leaf?
  {
    var a, b := t.left.Inorder() + [t.node], t.right.Inorder();
    assert t.Inorder() == a + b && Keys(a + b) == Keys(a) + Keys(b);
    BelowAndAbove(cmp, Keys(a), Keys(b), k);
    assert t.right.Branch? ==> |b| > 0;
  }

  method HangRight<K>(head: Head<K>, tmp: Node?<K>, ghost u: Tree<K>)
    requires Hangs(head, head.tree) && head.tree.Branch? && head.tree.right.Leaf?
    requires tmp == u.Root() && Holds(u) && u.Distinct() && u.Nodes() !! head.tree.Nodes()
    modifies head, head.tree.Nodes()
    ensures Hangs(head, head.tree) && Contents(head) == old(Contents(head)) + u.Inorder()
    ensures head.tree.Nodes() == old(head.tree.Nodes()) + u.Nodes()
  {
    assert Unfold(0);
    assert allocated(head.tree.Nodes()) && allocated(u.Nodes());
    ghost var t := head.tree;
    assert Holds(t.left) && t.node.left == t.left.Root();
    head.root.right := tmp;
    assert Holds(t.left) && Holds(u);
    head.tree := Branch(t.left, t.node, u);
    assert Contents(head) == t.Inorder() + u.Inorder();
  }

  // ---- iteration

  /** SPLAY_NEXT, for an element in the tree. */
  method Next<K(!new)>(head: Head<K>, elm0: Node<K>, ghost i: nat) returns (elm: Node?<K>)
    requires Valid(head) && i < |Contents(head)| && Contents(head)[i] == elm0
    modifies head, head.tree.Nodes()
    ensures Valid(head) && Contents(head) == old(Contents(head)) && head.tree.Nodes() == old(head.tree.Nodes())
    ensures elm == if i + 1 < |Contents(head)| then Contents(head)[i + 1] else null
  {
    LookHead(head);
    Splay(head, elm0.key);
    LookHead(head);
    OrderFacts(head.cmp, elm0.key, elm0.key, elm0.key);
    SplayedLookup(head.cmp, head.tree, elm0.key);
    assert allocated(head.tree.Nodes());
    ghost var t := head.tree;
    PlaceOf(head.cmp, t, i);
    elm := elm0.right;
    if elm != null {
      elm := LeftmostOf(head, elm, t.right);
    }
  }

  lemma PlaceOf<K(!new)>(cmp: (K, K) -> int, t: Tree<K>, i: nat)
    requires WeakOrder(cmp) && t.Branch? && Sorted(cmp, Keys(t.Inorder())) && i < |t.Inorder()|
        && t.Inorder()[i] == t.node
    ensures i == |t.left.Inorder()|
    ensures i + 1 < |t.Inorder()| <==> t.right.Branch?
    ensures t.right.Branch? ==> t.Inorder()[i + 1] == t.right.Inorder()[0]
  {
    var n, s := |t.left.Inorder()|, Keys(t.Inorder());
    OrderFacts(cmp, t.node.key, t.node.key, t.node.key);
    assert s[n] == t.node.key && s[i] == t.node.key;
    assert t.right.Branch? ==> |t.right.Inorder()| > 0;
  }

  method LeftmostOf<K>(head: Head<K>, top: Node<K>, ghost t: Tree<K>) returns (elm: Node<K>)
    requires Holds(t) && t.Root() == top
    ensures elm == t.Inorder()[0]
  {
    elm := top;
    ghost var u := t;
    assert forall v: Tree<K> :: v.Branch? ==> |v.Inorder()| > 0;
    while elm.left != null
      invariant Holds(u) && u.Root() == elm && u.Inorder()[0] == t.Inorder()[0]
      decreases u
    {
      elm := elm.left;
      u := u.left;
    }
  }
}
