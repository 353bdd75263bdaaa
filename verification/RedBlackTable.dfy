/** The red-black tree as an index: its invariant, and the operations that descend from the root
    (RB_FIND, RB_NFIND, RB_MINMAX, RB_INSERT), proved against the sorted sequence of its nodes. */
module RedBlackTable {
  import opened Ordering
  import opened RedBlackTheory
  import opened Sequences
  import opened Sides
  import opened RedBlackLinks
  import opened Unfolding
  import RedBlackInsert

  function Keys<K>(s: seq<Node<K>>): (r: seq<K>)
    ensures |r| == |s|
  {
    seq(|s|, i requires 0 <= i < |s| => s[i].key)
  }

  lemma KeysJoin<K>(a: seq<Node<K>>, x: Node<K>, b: seq<Node<K>>)
    ensures Keys(a + [x] + b) == Keys(a) + [x.key] + Keys(b)
  {}

  /** The invariant of every operation: links, colours, black heights and order. */
  ghost predicate Valid<K(!new)>(head: Head<K>)
    reads head, head.tree.Nodes()
  {
    && WeakOrder(head.cmp)
    && At(head, Top, head.tree)
    && head.tree.IsRedBlack()
    && Sorted(head.cmp, Keys(Contents(head)))
  }

  /** The nodes in the tree, in order. */
  ghost function Contents<K>(head: Head<K>): seq<Node<K>>
    reads head
  {
    head.tree.Inorder()
  }

  // ---- what the operations mean on a sorted sequence of nodes

  ghost function RankOf<K>(cmp: (K, K) -> int, s: seq<Node<K>>, k: K): (r: nat)
    ensures r <= |s|
  {
    Rank(cmp, Keys(s), k)
  }

  ghost function Found<K>(cmp: (K, K) -> int, s: seq<Node<K>>, k: K): Node?<K> {
    var r := RankOf(cmp, s, k);
    if r < |s| && cmp(k, s[r].key) == 0 then s[r] else null
  }

  ghost function NextFound<K>(cmp: (K, K) -> int, s: seq<Node<K>>, k: K): Node?<K> {
    var r := RankOf(cmp, s, k);
    if r < |s| then s[r] else null
  }

  ghost function Inserted<K>(cmp: (K, K) -> int, s: seq<Node<K>>, x: Node<K>): seq<Node<K>> {
    InsertedAt(s, RankOf(cmp, s, x.key), x)
  }

  /** Found is the member with an equal key, if there is one. */
  lemma FoundMeans<K(!new)>(cmp: (K, K) -> int, s: seq<Node<K>>, k: K)
    requires WeakOrder(cmp) && Sorted(cmp, Keys(s))
    ensures Found(cmp, s, k) != null ==> Found(cmp, s, k) in s && cmp(k, Found(cmp, s, k).key) == 0
    ensures Found(cmp, s, k) == null <==> forall x :: x in s ==> cmp(k, x.key) != 0
    ensures forall x :: x in s && cmp(k, x.key) == 0 ==> x == Found(cmp, s, k)
  {
    RankCuts(cmp, Keys(s), k);
    forall x | x in s && cmp(k, x.key) == 0 ensures x == Found(cmp, s, k) {
      var i :| 0 <= i < |s| && s[i] == x;
      OrderFacts(cmp, k, x.key, k);
      assert cmp(Keys(s)[i], k) == 0;
      assert i >= RankOf(cmp, s, k);
    }
  }

  /** NextFound is the least member not below the key, if there is one. */
  lemma NextFoundMeans<K(!new)>(cmp: (K, K) -> int, s: seq<Node<K>>, k: K)
    requires WeakOrder(cmp) && Sorted(cmp, Keys(s))
    ensures var r := NextFound(cmp, s, k);
      if r == null then forall x :: x in s ==> cmp(x.key, k) < 0
      else r in s && cmp(r.key, k) >= 0 && forall x :: x in s && cmp(x.key, k) >= 0 ==> cmp(r.key, x.key) <= 0
  {
    var n := RankOf(cmp, s, k);
    RankCuts(cmp, Keys(s), k);
    forall x | x in s
      ensures n == |s| ==> cmp(x.key, k) < 0
      ensures n < |s| && cmp(x.key, k) >= 0 ==> cmp(s[n].key, x.key) <= 0
    {
      var i :| 0 <= i < |s| && s[i] == x;
      assert Keys(s)[i] == x.key && (n < |s| ==> Keys(s)[n] == s[n].key);
      assert i < n ==> Keys(s)[..n][i] == x.key;
      OrderFacts(cmp, x.key, x.key, x.key);
      if n < i { assert cmp(Keys(s)[n], Keys(s)[i]) < 0; }
    }
    assert n < |s| ==> Keys(s)[n] == s[n].key;
  }

  // ---- descending from the root

  /** All keys left of the hole are below k, all keys right of it above. */
  ghost predicate Brackets<K>(cmp: (K, K) -> int, c: Ctx<K>, k: K) {
    AllBelow(cmp, Keys(c.Before()), k) && AllAbove(cmp, Keys(c.After()), k)
  }

  lemma DescendBrackets<K(!new)>(cmp: (K, K) -> int, c: Ctx<K>, t: Tree<K>, k: K)
    requires WeakOrder(cmp) && t.Branch? && Sorted(cmp, Keys(Total(c, t))) && Brackets(cmp, c, k)
    ensures cmp(k, t.node.key) < 0 ==> Brackets(cmp, t.Around(Left, c), k)
    ensures cmp(k, t.node.key) > 0 ==> Brackets(cmp, t.Around(Right, c), k)
    ensures cmp(k, t.node.key) == 0 ==>
      Found(cmp, Total(c, t), k) == t.node && NextFound(cmp, Total(c, t), k) == t.node
  {
    SplitTotal(c, t);
    CutNodes(cmp, c.Before() + t.left.Inorder(), t.node, t.right.Inorder() + c.After(), k);
  }

  lemma CutNodes<K(!new)>(cmp: (K, K) -> int, a: seq<Node<K>>, x: Node<K>, b: seq<Node<K>>, k: K)
    requires WeakOrder(cmp) && Sorted(cmp, Keys(a + [x] + b))
    ensures cmp(k, x.key) < 0 ==> AllAbove(cmp, Keys([x] + b), k)
    ensures cmp(k, x.key) > 0 ==> AllBelow(cmp, Keys(a + [x]), k)
    ensures cmp(k, x.key) == 0 ==> Found(cmp, a + [x] + b, k) == x && NextFound(cmp, a + [x] + b, k) == x
  {
    KeysJoin(a, x, b);
    CutAt(cmp, Keys(a), x.key, Keys(b), k);
    assert Keys([x] + b) == [x.key] + Keys(b);
    assert Keys(a + [x]) == Keys(a) + [x.key];
  }

  /** The node that NFind would return if the hole of c stayed empty. */
  ghost function FirstAfter<K>(c: Ctx<K>): Node?<K> { if c.After() == [] then null else c.After()[0] }

  lemma BottomRank<K(!new)>(cmp: (K, K) -> int, c: Ctx<K>, k: K)
    requires WeakOrder(cmp) && Brackets(cmp, c, k)
    ensures var s := Total(c, Leaf);
      && s == c.Before() + c.After() && RankOf(cmp, s, k) == |c.Before()|
      && Found(cmp, s, k) == null && NextFound(cmp, s, k) == FirstAfter(c)
  {
    var a, b := c.Before(), c.After();
    assert Keys(Total(c, Leaf)) == Keys(a) + Keys(b);
    CutBetween(cmp, Keys(a), Keys(b), k);
    assert b != [] ==> Keys(b)[0] == b[0].key;
  }

  /** A search for k has come down to t without meeting k. */
  ghost predicate Searching<K(!new)>(head: Head<K>, c: Ctx<K>, t: Tree<K>, k: K)
    reads head, c.Nodes(), t.Nodes()
  {
    && At(head, c, t)
    && forall j {:trigger Unfold(j)} :: Unfold(j) ==>
         && WeakOrder(head.cmp) && Brackets(head.cmp, c, k)
         && Total(c, t) == Contents(head) && Sorted(head.cmp, Keys(Contents(head)))
  }

  lemma SearchStart<K(!new)>(head: Head<K>, k: K)
    requires Valid(head)
    ensures Searching(head, Top, head.tree, k) && head.root == head.tree.Root() && FirstAfter(Top) == null as Node?<K>
  {
    Look(head, Top, head.tree);
    TopTotal(head.tree);
  }

  lemma TopTotal<K>(t: Tree<K>)
    ensures Total(Top, t) == t.Inorder()
  {}

  lemma SearchStep<K(!new)>(head: Head<K>, c: Ctx<K>, t: Tree<K>, k: K)
    requires Searching(head, c, t, k) && t.Branch?
    ensures t.node.left == t.left.Root() && t.node.right == t.right.Root()
    ensures head.cmp(k, t.node.key) < 0 ==> Searching(head, t.Around(Left, c), t.left, k)
    ensures head.cmp(k, t.node.key) > 0 ==> Searching(head, t.Around(Right, c), t.right, k)
    ensures head.cmp(k, t.node.key) == 0 ==>
      Found(head.cmp, Contents(head), k) == t.node && NextFound(head.cmp, Contents(head), k) == t.node
    ensures FirstAfter(t.Around(Left, c)) == t.node && FirstAfter(t.Around(Right, c)) == FirstAfter(c)
  {
    assert Unfold(0);
    Look(head, c, t);
    Down(head, Left, c, t);
    Down(head, Right, c, t);
    DescendBrackets(head.cmp, c, t, k);
  }

  lemma SearchEnd<K(!new)>(head: Head<K>, c: Ctx<K>, k: K)
    requires Searching(head, c, Leaf, k)
    ensures Found(head.cmp, Contents(head), k) == null && NextFound(head.cmp, Contents(head), k) == FirstAfter(c)
  {
    assert Unfold(0);
    BottomRank(head.cmp, c, k);
  }

  /** RB_FIND, with the number of nodes it visits. */
  method Find<K(!new)>(head: Head<K>, k: K) returns (r: Node?<K>, ghost steps: nat)
    requires Valid(head)
    ensures r == Found(head.cmp, Contents(head), k) && Valid(head)
    ensures Pow2(steps) <= (|Contents(head)| + 1) * (|Contents(head)| + 1)
  {
    assert allocated(head.tree.Nodes());
    var tmp := head.root;
    ghost var c, t := Top, head.tree;
    steps := 0;
    SearchStart(head, k);
    while tmp != null
      invariant Searching(head, c, t, k) && tmp == t.Root() && steps + t.Height() <= head.tree.Height()
      decreases t
    {
      SearchStep(head, c, t, k);
      var comp := head.cmp(k, tmp.key);
      steps := steps + 1;
      if comp < 0 {
        tmp := tmp.left;
        c, t := t.Around(Left, c), t.left;
      } else if comp > 0 {
        tmp := tmp.right;
        c, t := t.Around(Right, c), t.right;
      } else {
        StepsBound(head.tree, steps);
        return tmp, steps;
      }
    }
    SearchEnd(head, c, k);
    StepsBound(head.tree, steps);
    r := null;
  }

  lemma StepsBound<K>(t: Tree<K>, steps: nat)
    requires t.IsRedBlack() && steps <= t.Height()
    ensures Pow2(steps) <= (|t.Inorder()| + 1) * (|t.Inorder()| + 1)
  {
    Pow2Mono(steps, t.Height());
    HeightBound(t);
  }

  /** RB_NFIND, with the number of nodes it visits. */
  method NFind<K(!new)>(head: Head<K>, k: K) returns (res: Node?<K>, ghost steps: nat)
    requires Valid(head)
    ensures res == NextFound(head.cmp, Contents(head), k) && Valid(head)
    ensures Pow2(steps) <= (|Contents(head)| + 1) * (|Contents(head)| + 1)
  {
    assert allocated(head.tree.Nodes());
    var tmp := head.root;
    res := null;
    ghost var c, t := Top, head.tree;
    steps := 0;
    SearchStart(head, k);
    while tmp != null
      invariant Searching(head, c, t, k) && tmp == t.Root() && res == FirstAfter(c)
      invariant steps + t.Height() <= head.tree.Height()
      decreases t
    {
      SearchStep(head, c, t, k);
      var comp := head.cmp(k, tmp.key);
      steps := steps + 1;
      if comp < 0 {
        res := tmp;
        tmp := tmp.left;
        c, t := t.Around(Left, c), t.left;
      } else if comp > 0 {
        tmp := tmp.right;
        c, t := t.Around(Right, c), t.right;
      } else {
        StepsBound(head.tree, steps);
        return tmp, steps;
      }
    }
    SearchEnd(head, c, k);
    StepsBound(head.tree, steps);
  }

  /** RB_MIN (val < 0) and RB_MAX (val >= 0), with the number of nodes visited. */
  method MinMax<K(!new)>(head: Head<K>, val: int) returns (parent: Node?<K>, ghost steps: nat)
    requires Valid(head)
    ensures var s := Contents(head);
      parent == (if s == [] then null else if val < 0 then s[0] else s[|s| - 1]) && Valid(head)
    ensures Pow2(steps) <= (|Contents(head)| + 1) * (|Contents(head)| + 1)
  {
    assert allocated(head.tree.Nodes());
    var tmp := head.root;
    parent := null;
    steps := 0;
    var s := if val < 0 then Left else Right;
    ghost var c, t := Top, head.tree;
    Look(head, c, t);
    TopTotal(t);
    while tmp != null
      invariant At(head, c, t) && tmp == t.Root() && Total(c, t) == Contents(head)
      invariant parent == c.Parent() && (c.Under? ==> c.side == s) && Outside(s, c) == []
      invariant steps + t.Height() <= head.tree.Height()
      decreases t
    {
      Look(head, c, t);
      Down(head, s, c, t);
      steps := steps + 1;
      parent := tmp;
      tmp := tmp.Child(s);
      c, t := t.Around(s, c), t.Child(s);
    }
    MinMaxEnd(head, s, c, steps);
  }

  lemma MinMaxEnd<K(!new)>(head: Head<K>, s: Side, c: Ctx<K>, steps: nat)
    requires Valid(head) && Total(c, Leaf) == Contents(head) && steps <= head.tree.Height()
    requires Outside(s, c) == [] && (c.Under? ==> c.side == s)
    ensures var q := Contents(head);
      c.Parent() == if q == [] then null else if s == Left then q[0] else q[|q| - 1]
    ensures Pow2(steps) <= (|Contents(head)| + 1) * (|Contents(head)| + 1)
  {
    StepsBound(head.tree, steps);
    Outermost(s, c);
  }

  /** A hole with nothing beyond it on side s hangs below the outermost node. */
  lemma Outermost<K>(s: Side, c: Ctx<K>)
    requires Outside(s, c) == [] && (c.Under? ==> c.side == s)
    ensures var q := Total(c, Leaf);
      c.Parent() == if q == [] then null else if s == Left then q[0] else q[|q| - 1]
  {
    assert Total(c, Leaf) == c.Before() + c.After();
    assert c.Under? ==> |Outside(s.Other(), c)| > 0;
  }

  lemma InsertedSorted<K(!new)>(cmp: (K, K) -> int, c: Ctx<K>, x: Node<K>)
    requires WeakOrder(cmp) && Sorted(cmp, Keys(Total(c, Leaf))) && Brackets(cmp, c, x.key)
    ensures Total(c, Branch(Leaf, x, true, Leaf)) == Inserted(cmp, Total(c, Leaf), x)
    ensures Sorted(cmp, Keys(Inserted(cmp, Total(c, Leaf), x)))
  {
    var a, b := c.Before(), c.After();
    BottomRank(cmp, c, x.key);
    assert (a + b)[..|a|] == a && (a + b)[|a|..] == b;
    assert Keys(a + b) == Keys(a) + Keys(b);
    CutBetween(cmp, Keys(a), Keys(b), x.key);
    KeysJoin(a, x, b);
    assert Branch(Leaf, x, true, Leaf).Inorder() == [x];
  }

  /** Hangs the new node, in red and without children, where the search ended. */
  method Attach<K>(head: Head<K>, elm: Node<K>, parent: Node?<K>, s: Side, ghost c: Ctx<K>)
    requires At(head, c, Leaf) && parent == c.Parent() && (c.Under? ==> s == c.side) && elm !in c.Nodes()
    modifies head`root, elm, c.Nodes()
    ensures At(head, c, Branch(Leaf, elm, true, Leaf))
  {
    assert Unfold(0);
    assert allocated(c.Nodes());
    assert c.Under? ==>
        && c.node in c.Nodes() && c.node.Has(c.side, null, c.sibling.Root(), c.up.Parent(), c.red)
        && HoldsCtx(c.up, c.node) && Holds(c.sibling, c.node);
    elm.parent := parent;
    elm.left := null;
    elm.right := null;
    elm.red := true;
    if parent != null {
      if s == Left { parent.left := elm; } else { parent.right := elm; }
    } else {
      head.root := elm;
    }
    assert elm.Has(Left, null, null, c.Parent(), true) && HoldsCtx(c, elm);
    assert Holds(Branch(Leaf, elm, true, Leaf), c.Parent());
  }

  /** The search loop of RB_INSERT: tmp is a node with an equal key, or else parent and side say where
      the key belongs. */
  method Descend<K(!new)>(head: Head<K>, k: K)
      returns (tmp: Node?<K>, parent: Node?<K>, side: Side, ghost c: Ctx<K>, ghost steps: nat)
    requires Valid(head)
    ensures tmp == Found(head.cmp, Contents(head), k)
    ensures tmp == null ==>
      && Searching(head, c, Leaf, k) && c.Fits(0, false) && c.Nodes() == head.tree.Nodes()
      && parent == c.Parent() && (c.Under? ==> side == c.side) && steps == c.Depth()
    ensures Pow2(steps) <= (|Contents(head)| + 1) * (|Contents(head)| + 1)
  {
    tmp := head.root;
    parent := null;
    side := Left;
    c, steps := Top, 0;
    ghost var t := head.tree;
    ghost var h: nat :| t.RB(h);
    SearchStart(head, k);
    while tmp != null
      invariant Searching(head, c, t, k) && tmp == t.Root() && steps + t.Height() <= head.tree.Height()
      invariant parent == c.Parent() && (c.Under? ==> c.side == side) && steps == c.Depth()
      invariant AllNodes(c, t) == head.tree.Nodes() && t.RB(h) && c.Fits(h, t.IsRed())
      decreases t
    {
      SearchStep(head, c, t, k);
      parent := tmp;
      var comp := head.cmp(k, parent.key);
      steps := steps + 1;
      if comp == 0 {
        StepsBound(head.tree, steps);
        return;
      }
      side := if comp < 0 then Left else Right;
      tmp := tmp.Child(side);
      h := FitsDown(side, c, t, h);
      StepDown(side, c, t);
      c, t := t.Around(side, c), t.Child(side);
    }
    StepsBound(head.tree, steps);
    SearchEnd(head, c, k);
  }

  /** An element that is in the tree is the one its own key finds. */
  lemma FoundItself<K(!new)>(head: Head<K>, x: Node<K>)
    requires Valid(head) && x in head.tree.Nodes()
    ensures Found(head.cmp, Contents(head), x.key) == x
  {
    FoundMeans(head.cmp, Contents(head), x.key);
    InorderNodes(head.tree, x);
    OrderFacts(head.cmp, x.key, x.key, x.key);
  }

  /** RB_INSERT: an element with an equal key is returned and nothing changes; otherwise elm becomes
      part of the sequence, at its place. The number of nodes visited on the way down is bounded, and
      the repair takes no more iterations than that. */
  method Insert<K(!new)>(head: Head<K>, elm: Node<K>) returns (r: Node?<K>, ghost steps: nat, ghost repairs: nat)
    requires Valid(head)
    modifies head, head.tree.Nodes(), elm
    ensures Valid(head)
    ensures r == Found(head.cmp, old(Contents(head)), elm.key)
    ensures r != null ==> head.tree == old(head.tree) && head.root == old(head.root) && unchanged(elm)
    ensures elm in old(head.tree.Nodes()) ==> r == elm
    ensures r == null ==> Contents(head) == Inserted(head.cmp, old(Contents(head)), elm)
    ensures r == null ==> head.tree.Nodes() == old(head.tree.Nodes()) + {elm}
    ensures Pow2(steps) <= (old(|Contents(head)|) + 1) * (old(|Contents(head)|) + 1) && repairs <= steps
  {
    assert allocated(head.tree.Nodes());
    repairs := 0;
    ghost var c;
    var parent, side;
    r, parent, side, c, steps := Descend(head, elm.key);
    if elm in head.tree.Nodes() { FoundItself(head, elm); }
    if r != null {
      return;
    }
    SearchInserts(head, c, elm);
    Attach(head, elm, parent, side, c);
    assert Branch(Leaf, elm, true, Leaf).Nodes() == {elm};
    repairs := RedBlackInsert.InsertColor(head, elm, c, Branch(Leaf, elm, true, Leaf), 0);
  }

  lemma SearchInserts<K(!new)>(head: Head<K>, c: Ctx<K>, elm: Node<K>)
    requires Searching(head, c, Leaf, elm.key)
    ensures At(head, c, Leaf) && WeakOrder(head.cmp)
    ensures Total(c, Branch(Leaf, elm, true, Leaf)) == Inserted(head.cmp, Contents(head), elm)
    ensures Sorted(head.cmp, Keys(Inserted(head.cmp, Contents(head), elm)))
  {
    assert Unfold(0);
    InsertedSorted(head.cmp, c, elm);
  }
}
