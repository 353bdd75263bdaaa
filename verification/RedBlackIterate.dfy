/** RB_NEXT, RB_PREV and the loops built on them. */
module RedBlackIterate {
  import opened RedBlackTheory
  import opened Sequences
  import opened Sides
  import opened RedBlackLinks
  import opened RedBlackTable
  import opened RedBlackRemove

  /** Of the elements of q, the first one met when coming from the side opposite to s. */
  ghost function Nearest<T>(s: Side, q: seq<Node<T>>): Node?<T> {
    if q == [] then null else if s == Right then q[0] else q[|q| - 1]
  }

  lemma NearestInside<K>(s: Side, t: Tree<K>)
    requires t.Branch?
    ensures t.Child(s.Other()).Leaf? ==> Nearest(s, t.Inorder()) == t.node
    ensures t.Child(s.Other()).Branch? ==> Nearest(s, t.Inorder()) == Nearest(s, t.Child(s.Other()).Inorder())
    ensures Nearest(s, t.Inorder()) != null
  {
    assert t.left.Branch? ==> |t.left.Inorder()| > 0;
    assert t.right.Branch? ==> |t.right.Inorder()| > 0;
  }

  lemma NearestOutside<K>(s: Side, c: Ctx<K>)
    ensures c.Top? ==> Nearest(s, Outside(s, c)) == null
    ensures c.Under? ==> Nearest(s, Outside(s, c)) == if c.side == s then Nearest(s, Outside(s, c.up)) else c.node
  {}

  /** The neighbour of s[i] on the given side. */
  ghost function Neighbour<K>(side: Side, s: seq<Node<K>>, i: nat): Node?<K>
    requires i < |s|
  {
    if side == Right then (if i + 1 < |s| then s[i + 1] else null) else (if i > 0 then s[i - 1] else null)
  }

  lemma NeighbourAt<K>(side: Side, c: Ctx<K>, t: Tree<K>, i: nat)
    requires t.Branch? && NoRepeats(Total(c, t)) && i < |Total(c, t)| && Total(c, t)[i] == t.node
    ensures Neighbour(side, Total(c, t), i) ==
      if t.Child(side).Leaf? then Nearest(side, Outside(side, c)) else Nearest(side, t.Child(side).Inorder())
  {
    var a, b := c.Before() + t.left.Inorder(), t.right.Inorder() + c.After();
    SplitTotal(c, t);
    assert Total(c, t)[|a|] == t.node;
    assert i == |a|;
    assert t.left.Branch? ==> |t.left.Inorder()| > 0;
    assert t.right.Branch? ==> |t.right.Inorder()| > 0;
  }

  /** RB_NEXT (s == Right) and RB_PREV (s == Left): only links are used. The number of links followed is
      bounded. */
  method Step<K(!new)>(head: Head<K>, s: Side, elm0: Node<K>, ghost i: nat) returns (elm: Node?<K>, ghost steps: nat)
    requires Valid(head) && i < |Contents(head)| && Contents(head)[i] == elm0
    ensures elm == Neighbour(s, Contents(head), i) && Valid(head)
    ensures Pow2(steps) <= (|Contents(head)| + 1) * (|Contents(head)| + 1)
  {
    assert allocated(head.tree.Nodes());
    ghost var c, t := Pinpoint(head, s, elm0, i);
    Look(head, c, t);
    if elm0.Child(s) != null {
      Down(head, s, c, t);
      elm, steps := GoDown(head, s, elm0.Child(s), t.Around(s, c), t.Child(s));
    } else {
      elm, steps := GoUp(head, s, elm0, c, t);
    }
    StepsBound(head.tree, steps);
  }

  lemma Pinpoint<K(!new)>(head: Head<K>, s: Side, x: Node<K>, i: nat) returns (c: Ctx<K>, t: Tree<K>)
    requires Valid(head) && i < |Contents(head)| && Contents(head)[i] == x
    ensures At(head, c, t) && t.Root() == x
    ensures Neighbour(s, Contents(head), i) ==
      if t.Child(s).Leaf? then Nearest(s, Outside(s, c)) else Nearest(s, t.Child(s).Inorder())
    ensures c.Depth() + t.Height() <= head.tree.Height()
  {
    Look(head, Top, head.tree);
    InorderOnce(head.tree);
    InorderNodes(head.tree, x);
    c, t := Focus(head, Top, head.tree, x);
    TopTotal(head.tree);
    NeighbourAt(s, c, t, i);
    DepthHeight(c, t);
  }

  method GoDown<K>(head: Head<K>, s: Side, elm0: Node<K>, ghost c: Ctx<K>, ghost t: Tree<K>)
      returns (elm: Node<K>, ghost steps: nat)
    requires At(head, c, t) && t.Root() == elm0
    ensures elm == Nearest(s, t.Inorder()) && steps <= t.Height()
  {
    elm := elm0;
    steps := 1;
    ghost var d, u := c, t;
    Look(head, d, u);
    NearestInside(s, u);
    while elm.Child(s.Other()) != null
      invariant At(head, d, u) && u.Root() == elm && elm.Child(s.Other()) == u.Child(s.Other()).Root()
      invariant Nearest(s, u.Inorder()) == Nearest(s, t.Inorder()) && steps + u.Height() <= t.Height() + 1
      decreases u
    {
      NearestInside(s, u);
      steps := steps + 1;
      Down(head, s.Other(), d, u);
      elm := elm.Child(s.Other());
      d, u := u.Around(s.Other(), d), u.Child(s.Other());
      Look(head, d, u);
    }
    NearestInside(s, u);
  }

  method GoUp<K>(head: Head<K>, s: Side, elm0: Node<K>, ghost c: Ctx<K>, ghost t: Tree<K>)
      returns (elm: Node?<K>, ghost steps: nat)
    requires At(head, c, t) && t.Root() == elm0
    ensures elm == Nearest(s, Outside(s, c)) && steps <= c.Depth() + 1
  {
    steps := 1;
    Look(head, c, t);
    NearestOutside(s, c);
    if elm0.parent != null && elm0 == elm0.parent.Child(s.Other()) {
      return elm0.parent, steps;
    }
    var at: Node<K> := elm0;
    ghost var d, u := c, t;
    while at.parent != null && at == at.parent.Child(s)
      invariant At(head, d, u) && u.Root() == at && at.parent == d.Parent()
      invariant d.Under? ==> d.node.Child(d.side) == at && d.node.Child(d.side.Other()) != at
      invariant Nearest(s, Outside(s, d)) == Nearest(s, Outside(s, c)) && steps + d.Depth() <= c.Depth() + 1
      decreases d
    {
      NearestOutside(s, d);
      steps := steps + 1;
      Up(head, d, u);
      at := at.parent;
      d, u := d.up, d.Filled(u);
      Look(head, d, u);
    }
    NearestOutside(s, d);
    elm := at.parent;
  }

  /** RB_NEXT and RB_PREV undo each other. */
  method ThereAndBack<K(!new)>(head: Head<K>, s: Side, x: Node<K>, ghost i: nat)
      returns (there: Node?<K>, back: Node?<K>)
    requires Valid(head) && i < |Contents(head)| && Contents(head)[i] == x
    requires if s == Right then i + 1 < |Contents(head)| else i > 0
    ensures there != null && there == Neighbour(s, Contents(head), i)
    ensures back == x == Neighbour(s.Other(), Contents(head), if s == Right then i + 1 else i - 1)
  {
    ghost var steps;
    there, steps := Step(head, s, x, i);
    back, steps := Step(head, s.Other(), there, if s == Right then i + 1 else i - 1);
  }

  /** RB_FOREACH (s == Right) and RB_FOREACH_REVERSE (s == Left), the body recording x. */
  method ForEach<K(!new)>(head: Head<K>, s: Side) returns (visited: seq<Node<K>>)
    requires Valid(head)
    ensures |visited| == |Contents(head)|
    ensures forall j :: 0 <= j < |visited| ==>
      visited[j] == Contents(head)[if s == Right then j else |Contents(head)| - 1 - j]
  {
    ghost var all := Contents(head);
    ghost var i := if s == Right then 0 else |all| - 1;
    var x, _ := MinMax(head, if s == Right then -1 else 1);
    visited := [];
    while x != null
      invariant Valid(head) && Contents(head) == all
      invariant i == if s == Right then |visited| else |all| - 1 - |visited|
      invariant -1 <= i <= |all| && x == if 0 <= i < |all| then all[i] else null
      invariant forall j :: 0 <= j < |visited| ==> visited[j] == all[if s == Right then j else |all| - 1 - j]
      decreases |all| - |visited|
    {
      visited := visited + [x];
      ghost var steps;
      x, steps := Step(head, s, x, i);
      i := if s == Right then i + 1 else i - 1;
    }
  }

  ghost function Kept<T>(s: seq<T>, doomed: set<T>): seq<T> {
    if s == [] then [] else Kept(s[..|s| - 1], doomed) + (if s[|s| - 1] in doomed then [] else [s[|s| - 1]])
  }

  lemma {:induction false} KeptIn<T>(s: seq<T>, doomed: set<T>, x: T)
    ensures x in Kept(s, doomed) <==> x in s && x !in doomed
  {
    if s != [] {
      KeptIn(s[..|s| - 1], doomed, x);
      assert s == s[..|s| - 1] + [s[|s| - 1]];
    }
  }

  /** What there is once the first i elements have been visited. */
  ghost function Remaining<T>(s: seq<T>, doomed: set<T>, i: nat): seq<T>
    requires i <= |s|
  {
    Kept(s[..i], doomed) + s[i..]
  }

  lemma KeptEnds<T>(s: seq<T>, doomed: set<T>)
    ensures s[..0] == [] && s[..|s|] == s
    ensures Remaining(s, doomed, 0) == s && Remaining(s, doomed, |s|) == Kept(s, doomed)
  {
    assert s[..|s|] == s;
  }

  /** A body that removes every element it meets leaves nothing. */
  lemma {:induction false} KeptNone<T>(s: seq<T>, doomed: set<T>)
    requires forall x :: x in s ==> x in doomed
    ensures Kept(s, doomed) == []
  {
    if s != [] {
      assert s[|s| - 1] in s;
      KeptNone(s[..|s| - 1], doomed);
    }
  }

  /** One iteration of the loop below, for element x at place i of all: y is taken first, then the body
      may remove x. */
  method SafeIteration<K(!new)>(head: Head<K>, doomed: set<Node<K>>, x: Node<K>, ghost all: seq<Node<K>>, ghost i: nat)
      returns (y: Node?<K>)
    requires Valid(head) && i < |all| && x == all[i]
    requires Contents(head) == Remaining(all, doomed, i)
    modifies head, head.tree.Nodes()
    ensures Valid(head) && head.tree.Nodes() <= old(head.tree.Nodes())
    ensures Contents(head) == Remaining(all, doomed, i + 1)
    ensures y == if i + 1 < |all| then all[i + 1] else null
  {
    ghost var a, b := Kept(all[..i], doomed), all[i + 1..];
    assert Contents(head) == a + [x] + b && Contents(head)[|a|] == x;
    assert all[..i + 1][..i] == all[..i];
    assert x !in a && x in head.tree.Nodes() by {
      Look(head, Top, head.tree);
      InorderOnce(head.tree);
      InorderNodes(head.tree, x);
      assert forall j :: 0 <= j < |a| ==> Contents(head)[j] == a[j];
    }
    WithoutAt(a, x, b);
    ghost var steps;
    y, steps := Step(head, Right, x, |a|);
    if x in doomed {
      var _, _ := Remove(head, x);
    }
  }

  /** RB_FOREACH_SAFE with a body that may remove the current element: nothing is skipped, nothing is
      visited twice, and exactly the doomed elements are gone at the end. */
  method ForEachSafe<K(!new)>(head: Head<K>, doomed: set<Node<K>>) returns (visited: seq<Node<K>>)
    requires Valid(head)
    modifies head, head.tree.Nodes()
    ensures Valid(head)
    ensures visited == old(Contents(head))
    ensures Contents(head) == Kept(old(Contents(head)), doomed)
  {
    KeptEnds(Contents(head), doomed);
    visited := VisitAll(head, doomed, Contents(head));
  }

  /** The loop. */
  method VisitAll<K(!new)>(head: Head<K>, doomed: set<Node<K>>, ghost all: seq<Node<K>>) returns (visited: seq<Node<K>>)
    requires Valid(head) && Contents(head) == all == Remaining(all, doomed, 0)
    modifies head, head.tree.Nodes()
    ensures Valid(head) && visited == all[..|all|] && Contents(head) == Remaining(all, doomed, |all|)
  {
    ghost var nodes := head.tree.Nodes();
    var x, _ := MinMax(head, -1);
    visited := [];
    ghost var i := 0;
    while x != null
      invariant Valid(head) && head.tree.Nodes() <= nodes
      invariant 0 <= i <= |all| && visited == all[..i]
      invariant x == if i < |all| then all[i] else null
      invariant Contents(head) == Remaining(all, doomed, i)
      decreases |all| - i
    {
      TakeNext(all, i);
      var elm: Node<K> := x;
      visited := visited + [elm];
      x := SafeIteration(head, doomed, elm, all, i);
      i := i + 1;
    }
  }

  /** The usual way to free all elements of a tree: each is visited once, and none is left. */
  method RemoveEach<K(!new)>(head: Head<K>, doomed: set<Node<K>>) returns (visited: seq<Node<K>>)
    requires Valid(head) && head.tree.Nodes() <= doomed
    modifies head, head.tree.Nodes()
    ensures Valid(head) && visited == old(Contents(head)) && Contents(head) == []
  {
    forall x | x in Contents(head) ensures x in doomed { InorderNodes(head.tree, x); }
    KeptNone(Contents(head), doomed);
    visited := ForEachSafe(head, doomed);
  }
}
