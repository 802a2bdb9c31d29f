/** The two local repairs of the AA-tree: skew and split. */
module Rotations {
  import opened Trees
  import opened Traversals

  /** Right rotation when the left child is at the node's own level (a
      horizontal left link): the left child becomes the subtree root and the
      node its right child.  Any other node is returned unchanged. */
  function Skew<V>(t: Tree<V>): (s: Tree<V>)
    ensures InOrder(s) == InOrder(t) && Keys(s) == Keys(t)
    ensures Level(s) == Level(t)
    ensures s != t <==> t.Node? && Level(t.left) == t.level
    ensures s != t ==> s.key == t.left.key && s.value == t.left.value &&
                       s.left == t.left.left &&
                       s.right == Node(t.level, t.key, t.value, t.left.right, t.right)
  {
    match t
    case Node(lv, k, v, Node(llv, lk, lval, a, b), c) =>
      if lv == llv then Node(llv, lk, lval, a, Node(lv, k, v, b, c)) else t
    case _ => t
  }

  /** Left rotation when the right-right grandchild is at the node's own level
      (two horizontal right links): the right child becomes the subtree root,
      one level higher, and the node its left child.  Any other node is
      returned unchanged. */
  function Split<V>(t: Tree<V>): (s: Tree<V>)
    ensures InOrder(s) == InOrder(t) && Keys(s) == Keys(t)
    ensures s != t <==> t.Node? && Level(Right(t.right)) == t.level
    ensures s != t ==> Level(s) == Level(t.right) + 1 && s.key == t.right.key
    ensures s != t ==> s.value == t.right.value && s.right == t.right.right &&
                       s.left == Node(t.level, t.key, t.value, t.left, t.right.left)
  {
    match t
    case Node(lv, k, v, a, Node(rlv, rk, rval, b, c)) =>
      if Level(c) == lv then Node(rlv + 1, rk, rval, Node(lv, k, v, a, b), c) else t
    case _ => t
  }

  /** Skew keeps binary-search-tree ordering and every lookup. */
  lemma SkewKeepsContents<V>(t: Tree<V>)
    requires Ordered(t)
    ensures Ordered(Skew(t))
    ensures forall j :: Find(Skew(t), j) == Find(t, j)
  {
    if Skew(t) != t {
      var Node(lv, k, v, Node(llv, lk, lval, a, b), c) := t;
      assert lk in Keys(t.left);
      assert forall x :: x in Keys(b) ==> x in Keys(t.left);
    }
  }

  /** Split keeps binary-search-tree ordering and every lookup. */
  lemma SplitKeepsContents<V>(t: Tree<V>)
    requires Ordered(t)
    ensures Ordered(Split(t))
    ensures forall j :: Find(Split(t), j) == Find(t, j)
  {
    if Split(t) != t {
      var Node(lv, k, v, a, Node(rlv, rk, rval, b, c)) := t;
      assert rk in Keys(t.right);
      assert forall x :: x in Keys(b) ==> x in Keys(t.right);
    }
  }

  /** On a tree that already satisfies the level invariants neither rotation
      fires. */
  lemma RotationsIdle<V>(t: Tree<V>)
    requires LevelInv(t)
    ensures Skew(t) == t && Split(t) == t
  {
  }

  /** Replacing a right child by one with the same keys and lookups keeps the
      ordering and every lookup of the parent. */
  lemma WithRightKeepsContents<V>(t: Tree<V>, r: Tree<V>)
    requires Ordered(t) && Ordered(r) && Keys(r) == Keys(Right(t))
    requires forall j :: Find(r, j) == Find(Right(t), j)
    ensures Ordered(WithRight(t, r)) && Keys(WithRight(t, r)) == Keys(t)
    ensures InOrder(r) == InOrder(Right(t)) ==> InOrder(WithRight(t, r)) == InOrder(t)
    ensures forall j :: Find(WithRight(t, r), j) == Find(t, j)
  {
  }
}
