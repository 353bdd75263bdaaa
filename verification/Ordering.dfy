/** The comparison function that a tree is generated with, and what it makes of a sequence of keys.

    The C macros take `cmp` as a parameter and use only the sign of its result, so it is a function
    value here, and the only thing ever asked of it is that it be a strict weak order. */
module Ordering {

  ghost predicate AtMost<K>(cmp: (K, K) -> int, a: K, b: K) { cmp(a, b) <= 0 }

  /** The laws are stated about AtMost so that only OrderFacts makes the verifier use them. */
  ghost predicate WeakOrder<K(!new)>(cmp: (K, K) -> int) {
    && (forall a, b {:trigger AtMost(cmp, a, b)} :: cmp(a, b) < 0 <==> cmp(b, a) > 0)
    && (forall a, b, c {:trigger AtMost(cmp, a, b), AtMost(cmp, b, c)} ::
          AtMost(cmp, a, b) && AtMost(cmp, b, c) ==> AtMost(cmp, a, c))
  }

  lemma OrderFacts<K(!new)>(cmp: (K, K) -> int, a: K, b: K, c: K)
    requires WeakOrder(cmp)
    ensures cmp(a, a) == 0
    ensures cmp(a, b) < 0 <==> cmp(b, a) > 0
    ensures cmp(a, b) == 0 <==> cmp(b, a) == 0
    ensures cmp(a, b) < 0 && cmp(b, c) <= 0 ==> cmp(a, c) < 0
    ensures cmp(a, b) <= 0 && cmp(b, c) < 0 ==> cmp(a, c) < 0
    ensures cmp(a, b) > 0 && cmp(b, c) >= 0 ==> cmp(a, c) > 0
    ensures cmp(a, b) >= 0 && cmp(b, c) > 0 ==> cmp(a, c) > 0
    ensures cmp(a, b) <= 0 && cmp(b, c) <= 0 ==> cmp(a, c) <= 0
  {
    assert AtMost(cmp, a, b) <==> cmp(a, b) <= 0;
    assert AtMost(cmp, b, a) <==> cmp(b, a) <= 0;
    assert AtMost(cmp, b, c) <==> cmp(b, c) <= 0;
    assert AtMost(cmp, c, b) <==> cmp(c, b) <= 0;
    assert AtMost(cmp, a, c) <==> cmp(a, c) <= 0;
    assert AtMost(cmp, c, a) <==> cmp(c, a) <= 0;
    assert AtMost(cmp, a, a) <==> cmp(a, a) <= 0;
  }

  /** Strictly increasing. */
  ghost predicate Sorted<K>(cmp: (K, K) -> int, s: seq<K>) {
    forall i, j :: 0 <= i < j < |s| ==> cmp(s[i], s[j]) < 0
  }

  ghost predicate AllBelow<K>(cmp: (K, K) -> int, s: seq<K>, k: K) {
    forall i :: 0 <= i < |s| ==> cmp(s[i], k) < 0
  }

  ghost predicate AllAbove<K>(cmp: (K, K) -> int, s: seq<K>, k: K) {
    forall i :: 0 <= i < |s| ==> cmp(k, s[i]) < 0
  }

  /** How many keys of s, read from the left, lie below k. */
  ghost function Rank<K>(cmp: (K, K) -> int, s: seq<K>, k: K): (r: nat)
    ensures r <= |s|
  {
    if s == [] || cmp(s[0], k) >= 0 then 0 else 1 + Rank(cmp, s[1..], k)
  }

  /** On a sorted sequence the rank cuts the keys below k from the others. */
  lemma {:induction false} RankCuts<K(!new)>(cmp: (K, K) -> int, s: seq<K>, k: K)
    requires WeakOrder(cmp) && Sorted(cmp, s)
    ensures AllBelow(cmp, s[..Rank(cmp, s, k)], k)
    ensures forall i :: Rank(cmp, s, k) <= i < |s| ==> cmp(s[i], k) >= 0
    ensures forall i :: Rank(cmp, s, k) < i < |s| ==> cmp(k, s[i]) < 0
  {
    if s == [] {
    } else if cmp(s[0], k) >= 0 {
      forall i | 0 <= i < |s| ensures cmp(s[i], k) >= 0 && (i > 0 ==> cmp(k, s[i]) < 0) {
        if i > 0 {
          OrderFacts(cmp, s[0], s[i], k);
          OrderFacts(cmp, s[i], s[0], k);
          OrderFacts(cmp, s[i], k, k);
        }
      }
    } else {
      RankCuts(cmp, s[1..], k);
      assert s[..Rank(cmp, s, k)] == [s[0]] + s[1..][..Rank(cmp, s[1..], k)];
    }
  }

  /** The only place where s can be cut that way is its rank. */
  lemma {:induction false} RankIs<K>(cmp: (K, K) -> int, s: seq<K>, k: K, r: nat)
    requires r <= |s| && AllBelow(cmp, s[..r], k)
    requires r < |s| ==> cmp(s[r], k) >= 0
    ensures Rank(cmp, s, k) == r
  {
    if r > 0 {
      assert s[1..][..r - 1] == s[..r][1..];
      assert cmp(s[..r][0], k) < 0;
      forall i | 0 <= i < r - 1 ensures cmp(s[1..][i], k) < 0 { assert s[1..][i] == s[..r][i + 1]; }
      RankIs(cmp, s[1..], k, r - 1);
    }
  }

  lemma SortedParts<K>(cmp: (K, K) -> int, a: seq<K>, k: K, b: seq<K>)
    requires Sorted(cmp, a + [k] + b)
    ensures Sorted(cmp, a) && Sorted(cmp, b) && AllBelow(cmp, a, k) && AllAbove(cmp, b, k)
  {
    var s := a + [k] + b;
    forall i | 0 <= i < |a| ensures cmp(a[i], k) < 0 { assert s[i] == a[i] && s[|a|] == k; }
    forall i | 0 <= i < |b| ensures cmp(k, b[i]) < 0 { assert s[|a| + 1 + i] == b[i] && s[|a|] == k; }
    forall i, j | 0 <= i < j < |a| ensures cmp(a[i], a[j]) < 0 { assert s[i] == a[i] && s[j] == a[j]; }
    forall i, j | 0 <= i < j < |b| ensures cmp(b[i], b[j]) < 0 {
      assert s[|a| + 1 + i] == b[i] && s[|a| + 1 + j] == b[j];
    }
  }

  lemma SortedJoin<K(!new)>(cmp: (K, K) -> int, a: seq<K>, k: K, b: seq<K>)
    requires WeakOrder(cmp) && Sorted(cmp, a) && Sorted(cmp, b) && AllBelow(cmp, a, k) && AllAbove(cmp, b, k)
    ensures Sorted(cmp, a + [k] + b)
  {
    forall i, j | 0 <= i < |a| && 0 <= j < |b| ensures cmp(a[i], b[j]) < 0 {
      OrderFacts(cmp, a[i], k, b[j]);
    }
  }

  lemma SortedWithout<K>(cmp: (K, K) -> int, s: seq<K>, i: nat)
    requires Sorted(cmp, s) && i < |s|
    ensures Sorted(cmp, s[..i] + s[i + 1..])
  {}

  lemma CutLeft<K(!new)>(cmp: (K, K) -> int, x: K, b: seq<K>, k: K)
    requires WeakOrder(cmp) && AllAbove(cmp, b, x) && cmp(k, x) < 0
    ensures AllAbove(cmp, [x] + b, k)
  {
    forall i | 0 <= i < |b| ensures cmp(k, b[i]) < 0 { OrderFacts(cmp, k, x, b[i]); }
  }

  lemma CutRight<K(!new)>(cmp: (K, K) -> int, a: seq<K>, x: K, k: K)
    requires WeakOrder(cmp) && AllBelow(cmp, a, x) && cmp(k, x) > 0
    ensures AllBelow(cmp, a + [x], k)
  {
    OrderFacts(cmp, k, x, x);
    forall i | 0 <= i < |a| ensures cmp(a[i], k) < 0 { OrderFacts(cmp, a[i], x, k); }
  }

  lemma CutHere<K(!new)>(cmp: (K, K) -> int, a: seq<K>, x: K, b: seq<K>, k: K)
    requires WeakOrder(cmp) && AllBelow(cmp, a, x) && cmp(k, x) == 0
    ensures Rank(cmp, a + [x] + b, k) == |a|
  {
    var s := a + [x] + b;
    OrderFacts(cmp, k, x, x);
    forall i | 0 <= i < |a| ensures cmp(a[i], k) < 0 { OrderFacts(cmp, a[i], x, k); }
    assert s[..|a|] == a && s[|a|] == x;
    RankIs(cmp, s, k, |a|);
  }

  /** One step of a descent: what comparing k with x says about the keys on either side of x. */
  lemma CutAt<K(!new)>(cmp: (K, K) -> int, a: seq<K>, x: K, b: seq<K>, k: K)
    requires WeakOrder(cmp) && Sorted(cmp, a + [x] + b)
    ensures cmp(k, x) < 0 ==> AllAbove(cmp, [x] + b, k)
    ensures cmp(k, x) > 0 ==> AllBelow(cmp, a + [x], k)
    ensures cmp(k, x) == 0 ==> Rank(cmp, a + [x] + b, k) == |a|
  {
    SortedParts(cmp, a, x, b);
    if cmp(k, x) < 0 {
      CutLeft(cmp, x, b, k);
    } else if cmp(k, x) > 0 {
      CutRight(cmp, a, x, k);
    } else {
      CutHere(cmp, a, x, b, k);
    }
  }

  /** The same for an element that stays where it is. */
  lemma CutSides<K(!new)>(cmp: (K, K) -> int, a: seq<K>, x: K, b: seq<K>, k: K)
    requires WeakOrder(cmp) && Sorted(cmp, a + [x] + b)
    ensures cmp(k, x) >= 0 ==> AllBelow(cmp, a, k)
    ensures cmp(k, x) <= 0 ==> AllAbove(cmp, b, k)
  {
    SortedParts(cmp, a, x, b);
    forall i | 0 <= i < |a| ensures cmp(k, x) >= 0 ==> cmp(a[i], k) < 0 {
      OrderFacts(cmp, k, x, x);
      OrderFacts(cmp, a[i], x, k);
    }
    forall i | 0 <= i < |b| ensures cmp(k, x) <= 0 ==> cmp(k, b[i]) < 0 { OrderFacts(cmp, k, x, b[i]); }
  }

  lemma BelowAndAbove<K(!new)>(cmp: (K, K) -> int, a: seq<K>, b: seq<K>, k: K)
    requires WeakOrder(cmp) && AllBelow(cmp, a + b, k) && AllAbove(cmp, b, k)
    ensures b == []
  {
    assert b != [] ==> (a + b)[|a|] == b[0];
    if b != [] { OrderFacts(cmp, b[0], k, k); }
  }

  /** The end of a descent that has not met k. */
  lemma CutBetween<K(!new)>(cmp: (K, K) -> int, a: seq<K>, b: seq<K>, k: K)
    requires WeakOrder(cmp) && AllBelow(cmp, a, k) && AllAbove(cmp, b, k)
    ensures Rank(cmp, a + b, k) == |a|
    ensures Sorted(cmp, a + b) ==> Sorted(cmp, a + [k] + b)
  {
    var s := a + b;
    assert s[..|a|] == a && (b != [] ==> s[|a|] == b[0]);
    if b != [] { OrderFacts(cmp, k, b[0], k); }
    RankIs(cmp, s, k, |a|);
    if Sorted(cmp, s) {
      forall i, j | 0 <= i < j < |a| ensures cmp(a[i], a[j]) < 0 { assert s[i] == a[i] && s[j] == a[j]; }
      forall i, j | 0 <= i < j < |b| ensures cmp(b[i], b[j]) < 0 {
        assert s[|a| + i] == b[i] && s[|a| + j] == b[j];
      }
      SortedJoin(cmp, a, k, b);
    }
  }
}
