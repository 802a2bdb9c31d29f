/** The readers that walk a whole subtree: the three traversal orders,
    `size` and `getHeight`. */
module Traversals {
  import opened Trees

  /** Left subtree, node, right subtree. */
  function InOrder<V>(t: Tree<V>): seq<int>
  {
    match t
    case Nil => []
    case Node(_, k, _, l, r) => InOrder(l) + [k] + InOrder(r)
  }

  /** Node, left subtree, right subtree. */
  function PreOrder<V>(t: Tree<V>): seq<int>
  {
    match t
    case Nil => []
    case Node(_, k, _, l, r) => [k] + PreOrder(l) + PreOrder(r)
  }

  /** Left subtree, right subtree, node. */
  function PostOrder<V>(t: Tree<V>): seq<int>
  {
    match t
    case Nil => []
    case Node(_, k, _, l, r) => PostOrder(l) + PostOrder(r) + [k]
  }

  /** The number of genuine nodes: the length of every traversal. */
  function Size<V>(t: Tree<V>): (n: nat)
    ensures n == |InOrder(t)|
  {
    match t
    case Nil => 0
    case Node(_, _, _, l, r) => 1 + Size(l) + Size(r)
  }

  /** 0 for the sentinel, otherwise one more than the taller child. */
  function Height<V>(t: Tree<V>): (h: nat)
    ensures h <= Size(t)
    ensures h == 0 <==> t.Nil?
  {
    match t
    case Nil => 0
    case Node(_, _, _, l, r) =>
      var hl, hr := Height(l), Height(r);
      1 + if hl < hr then hr else hl
  }

  /** The three walks visit the same nodes, each exactly once. */
  lemma {:induction false} WalksArePermutations<V>(t: Tree<V>)
    ensures multiset(PreOrder(t)) == multiset(InOrder(t))
    ensures multiset(PostOrder(t)) == multiset(InOrder(t))
  {
    match t
    case Nil =>
    case Node(_, _, _, l, r) =>
      WalksArePermutations(l);
      WalksArePermutations(r);
  }

  predicate Ascending(s: seq<int>)
  {
    forall i, j :: 0 <= i < j < |s| ==> s[i] < s[j]
  }

  /** The in-order walk lists exactly the keys of the subtree. */
  lemma {:induction false} InOrderKeys<V>(t: Tree<V>)
    ensures forall x :: x in InOrder(t) <==> x in Keys(t)
  {
    match t
    case Nil =>
    case Node(_, _, _, l, r) =>
      InOrderKeys(l);
      InOrderKeys(r);
  }

  /** A concatenation around a pivot is strictly ascending exactly when both
      sides are and the pivot separates them. */
  lemma AscendingAround(sl: seq<int>, k: int, sr: seq<int>)
    ensures Ascending(sl + [k] + sr) <==>
      Ascending(sl) && Ascending(sr) &&
      (forall x :: x in sl ==> x < k) && (forall x :: x in sr ==> k < x)
  {
    if Ascending(sl + [k] + sr) {
      AscendingSplits(sl, k, sr);
    }
    if Ascending(sl) && Ascending(sr) &&
       (forall x :: x in sl ==> x < k) && (forall x :: x in sr ==> k < x) {
      AscendingJoins(sl, k, sr);
    }
  }

  lemma AscendingSplits(sl: seq<int>, k: int, sr: seq<int>)
    requires Ascending(sl + [k] + sr)
    ensures Ascending(sl) && Ascending(sr)
    ensures forall x :: x in sl ==> x < k
    ensures forall x :: x in sr ==> k < x
  {
    var s := sl + [k] + sr;
    assert forall i :: 0 <= i < |sl| ==> s[i] == sl[i];
    assert s[|sl|] == k;
    assert forall i :: 0 <= i < |sr| ==> s[|sl| + 1 + i] == sr[i];
    forall i, j | 0 <= i < j < |sr| ensures sr[i] < sr[j] {
      assert s[|sl| + 1 + i] == sr[i] && s[|sl| + 1 + j] == sr[j];
    }
    forall x | x in sl ensures x < k {
      var i :| 0 <= i < |sl| && sl[i] == x;
    }
    forall x | x in sr ensures k < x {
      var i :| 0 <= i < |sr| && sr[i] == x;
      assert s[|sl| + 1 + i] == x;
    }
  }

  lemma AscendingJoins(sl: seq<int>, k: int, sr: seq<int>)
    requires Ascending(sl) && Ascending(sr)
    requires forall x :: x in sl ==> x < k
    requires forall x :: x in sr ==> k < x
    ensures Ascending(sl + [k] + sr)
  {
    var s := sl + [k] + sr;
    assert forall i :: 0 <= i < |sl| ==> s[i] == sl[i];
    assert s[|sl|] == k;
    assert forall i :: 0 <= i < |sr| ==> s[|sl| + 1 + i] == sr[i];
    forall i, j | 0 <= i < j < |s| ensures s[i] < s[j] {
      if j < |sl| {
      } else if j == |sl| {
        assert s[i] in sl;
      } else if i < |sl| {
        assert s[i] in sl && s[j] in sr;
      } else if i == |sl| {
        assert s[j] in sr;
      } else {
        assert s[i] == sr[i - |sl| - 1] && s[j] == sr[j - |sl| - 1];
      }
    }
  }

  /** Binary-search-tree ordering holds exactly when the in-order walk is
      strictly ascending. */
  lemma {:induction false} OrderedIffAscending<V>(t: Tree<V>)
    ensures Ordered(t) <==> Ascending(InOrder(t))
  {
    match t
    case Nil =>
    case Node(_, k, _, l, r) =>
      OrderedIffAscending(l);
      OrderedIffAscending(r);
      InOrderKeys(l);
      InOrderKeys(r);
      AscendingAround(InOrder(l), k, InOrder(r));
  }

  /** On an ordered tree no key repeats, so the size is the number of keys. */
  lemma {:induction false} SizeIsKeyCount<V>(t: Tree<V>)
    requires Ordered(t)
    ensures Size(t) == |Keys(t)|
  {
    match t
    case Nil =>
    case Node(_, k, _, l, r) =>
      SizeIsKeyCount(l);
      SizeIsKeyCount(r);
      assert Keys(l) * Keys(r) == {} by {
        forall x | x in Keys(l) ensures x !in Keys(r) {
          assert x < k;
        }
      }
      assert k !in Keys(l) + Keys(r);
      assert |Keys(l) + Keys(r)| == |Keys(l)| + |Keys(r)|;
      assert Keys(t) == (Keys(l) + Keys(r)) + {k};
  }

  function Pow2(n: nat): (p: nat)
    ensures p >= 1
  {
    if n == 0 then 1 else 2 * Pow2(n - 1)
  }

  lemma {:induction false} Pow2Monotone(m: nat, n: nat)
    requires m <= n
    ensures Pow2(m) <= Pow2(n)
  {
    if m < n {
      Pow2Monotone(m, n - 1);
    }
  }

  lemma {:induction false} Pow2Add(m: nat, n: nat)
    ensures Pow2(m + n) == Pow2(m) * Pow2(n)
  {
    if n > 0 {
      Pow2Add(m, n - 1);
    }
  }

  /** On a tree satisfying the level invariants the height is at most twice
      the root level (one less when the root has no horizontal right link),
      and a root at level L has at least 2^L - 1 nodes below it. */
  lemma {:induction false} LevelBounds<V>(t: Tree<V>)
    requires LevelInv(t)
    ensures Height(t) <= 2 * Level(t)
    ensures Single(t) ==> Height(t) < 2 * Level(t)
    ensures Pow2(Level(t)) <= Size(t) + 1
  {
    match t
    case Nil =>
    case Node(lv, _, _, l, r) =>
      LevelBounds(l);
      LevelBounds(r);
      Pow2Monotone(lv - 1, Level(r));
  }

  /** The height bound of an AA-tree: 2^height <= (size + 1)^2, that is,
      height <= 2 log2(size + 1). */
  lemma {:induction false} HeightLogarithmic<V>(t: Tree<V>)
    requires LevelInv(t)
    ensures Pow2(Height(t)) <= (Size(t) + 1) * (Size(t) + 1)
  {
    LevelBounds(t);
    PowerBound(Height(t), Level(t), Size(t) + 1);
  }

  lemma {:induction false} PowerBound(h: nat, lv: nat, n: nat)
    requires h <= 2 * lv && Pow2(lv) <= n
    ensures Pow2(h) <= n * n
  {
    var p := Pow2(lv);
    Pow2Monotone(h, lv + lv);
    Pow2Add(lv, lv);
    SquareMonotone(p, n);
  }

  lemma SquareMonotone(a: nat, b: nat)
    requires a <= b
    ensures a * a <= b * b
  {
    assert a * a <= a * b;
  }
}
