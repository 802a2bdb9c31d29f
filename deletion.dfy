/** Recursive deletion: the leftmost-node search it uses, the level demotion
    applied on the way up, and two versions of the final rebalancing — the
    one skew and one split of the code as written, and the three skews and
    two splits of Andersson's algorithm. */
module Deletion {
  import opened Trees
  import opened Traversals
  import opened Rotations
  import opened Insertion

  /** The node `findMinNode` stops at: the leftmost genuine node, or the
      sentinel for an empty subtree.  It holds the first key of the in-order
      walk, which on an ordered tree is the smallest key. */
  function Min<V>(t: Tree<V>): (m: Tree<V>)
    ensures m.Nil? <==> t.Nil?
    ensures t.Node? ==> m.left.Nil? && m.key in Keys(t) && m.key == InOrder(t)[0]
    ensures t.Node? && Ordered(t) ==>
      (forall x :: x in Keys(t) ==> m.key <= x) && Find(t, m.key) == Some(m.value)
  {
    match t
    case Nil => Nil
    case Node(_, _, _, l, _) => if l.Nil? then t else Min(l)
  }

  /** The level repair of the delete unwind: when a child is more than one
      level below the node, the node drops one level, and a right child that
      is then above it is brought down to the node's new level.  Only levels
      change, so keys, order and lookups stay as they were. */
  function Demote<V>(t: Tree<V>): (d: Tree<V>)
    ensures InOrder(d) == InOrder(t) && Keys(d) == Keys(t)
    ensures Ordered(d) == Ordered(t)
    ensures forall j :: Find(d, j) == Find(t, j)
  {
    match t
    case Nil => Nil
    case Node(lv, k, v, l, r) =>
      if Level(l) < lv - 1 || Level(r) < lv - 1 then
        Node(lv - 1, k, v, l, if Level(r) > lv - 1 then r.(level := lv - 1) else r)
      else t
  }

  /** `deleteNode` as written: descend by comparison; on the key, drop a leaf,
      splice out a node with one sentinel child, or copy the right subtree's
      leftmost node into place and delete that key from the right subtree;
      then demote, skew once and split once. */
  function DeleteNode<V>(t: Tree<V>, k: int): (s: Tree<V>)
    ensures Keys(s) <= Keys(t)
  {
    match t
    case Nil => Nil
    case Node(lv, key, val, l, r) =>
      if k < key then Split(Skew(Demote(Node(lv, key, val, DeleteNode(l, k), r))))
      else if k > key then Split(Skew(Demote(Node(lv, key, val, l, DeleteNode(r, k)))))
      else if l.Nil? && r.Nil? then Nil
      else if l.Nil? then r
      else if r.Nil? then l
      else
        var m := Min(r);
        Split(Skew(Demote(Node(lv, m.key, m.value, l, DeleteNode(r, m.key)))))
  }

  /** Andersson's rebalancing after a deletion: skew the node, its right
      child and its right-right grandchild, then split the node and its right
      child. */
  function Rebalance<V>(t: Tree<V>): (s: Tree<V>)
    ensures InOrder(s) == InOrder(t) && Keys(s) == Keys(t)
  {
    var t1 := Skew(t);
    var t2 := WithRight(t1, Skew(Right(t1)));
    var t3 := WithRight(t2, WithRight(Right(t2), Skew(Right(Right(t2)))));
    var t4 := Split(t3);
    WithRight(t4, Split(Right(t4)))
  }

  /** `deleteNode` with the rebalancing of the last step replaced by
      Andersson's; descent, removal and demotion are those of the code. */
  function DeleteBalanced<V>(t: Tree<V>, k: int): (s: Tree<V>)
    ensures Keys(s) <= Keys(t)
  {
    match t
    case Nil => Nil
    case Node(lv, key, val, l, r) =>
      if k < key then Rebalance(Demote(Node(lv, key, val, DeleteBalanced(l, k), r)))
      else if k > key then Rebalance(Demote(Node(lv, key, val, l, DeleteBalanced(r, k))))
      else if l.Nil? && r.Nil? then Nil
      else if l.Nil? then r
      else if r.Nil? then l
      else
        var m := Min(r);
        Rebalance(Demote(Node(lv, m.key, m.value, l, DeleteBalanced(r, m.key))))
  }

  /** `s` is `t` with exactly the key `k` removed: ordered, holding the other
      keys, each with its old value. */
  ghost predicate Removes<V>(t: Tree<V>, k: int, s: Tree<V>)
  {
    Ordered(s) && Keys(s) == Keys(t) - {k} &&
    forall j :: Find(s, j) == if j == k then None else Find(t, j)
  }

  /** Both rebalancing steps keep the ordering, the keys and every lookup. */
  lemma RepairKeepsContents<V>(t: Tree<V>, k: int, n: Tree<V>)
    requires Removes(t, k, n)
    ensures Removes(t, k, Split(Skew(Demote(n))))
    ensures Removes(t, k, Rebalance(Demote(n)))
  {
    var d := Demote(n);
    SkewKeepsContents(d);
    SplitKeepsContents(Skew(d));
    var t1 := Skew(d);
    var t2 := WithRight(t1, Skew(Right(t1)));
    SkewKeepsContents(Right(t1));
    WithRightKeepsContents(t1, Skew(Right(t1)));
    var rr := Right(Right(t2));
    SkewKeepsContents(rr);
    WithRightKeepsContents(Right(t2), Skew(rr));
    var t3 := WithRight(t2, WithRight(Right(t2), Skew(rr)));
    WithRightKeepsContents(t2, WithRight(Right(t2), Skew(rr)));
    var t4 := Split(t3);
    SplitKeepsContents(t3);
    SplitKeepsContents(Right(t4));
    WithRightKeepsContents(t4, Split(Right(t4)));
  }

  /** Removing `k` from the left subtree removes it from the node. */
  lemma RemoveBelow<V>(t: Tree<V>, k: int, l': Tree<V>)
    requires Ordered(t) && t.Node? && k < t.key && Removes(t.left, k, l')
    ensures Removes(t, k, t.(left := l'))
  {
  }

  /** Removing `k` from the right subtree removes it from the node. */
  lemma RemoveAbove<V>(t: Tree<V>, k: int, r': Tree<V>)
    requires Ordered(t) && t.Node? && t.key < k && Removes(t.right, k, r')
    ensures Removes(t, k, t.(right := r'))
  {
  }

  /** A node with a sentinel child is replaced by its other child. */
  lemma RemoveSplice<V>(t: Tree<V>)
    requires Ordered(t) && t.Node? && (t.left.Nil? || t.right.Nil?)
    ensures Removes(t, t.key, if t.left.Nil? then t.right else t.left)
  {
    var Node(_, key, _, l, r) := t;
    var s := if l.Nil? then r else l;
    assert key !in Keys(l) && key !in Keys(r);
    assert Keys(s) == Keys(t) - {key};
    forall j ensures Find(s, j) == if j == key then None else Find(t, j) {
      FindMember(l, j);
      FindMember(r, j);
    }
  }

  /** The node assembled by the two-children case: the right subtree's
      leftmost entry copied into place, and its key removed from the right
      subtree. */
  lemma RemoveBySuccessor<V>(t: Tree<V>, r': Tree<V>)
    requires Ordered(t) && t.Node? && t.right.Node?
    requires Removes(t.right, Min(t.right).key, r')
    ensures Removes(t, t.key, Node(t.level, Min(t.right).key, Min(t.right).value, t.left, r'))
  {
    var Node(lv, key, val, l, r) := t;
    var m := Min(r);
    var n := Node(lv, m.key, m.value, l, r');
    forall j ensures Find(n, j) == if j == key then None else Find(t, j) {
      FindMember(l, j);
      FindMember(r, j);
    }
  }

  /** On an ordered tree the code's deletion removes exactly `k`: the result
      is ordered, holds the other keys, and every other key keeps its value. */
  lemma {:induction false} DeleteNodeKeepsOrder<V>(t: Tree<V>, k: int)
    requires Ordered(t)
    ensures Removes(t, k, DeleteNode(t, k))
  {
    match t
    case Nil =>
    case Node(lv, key, val, l, r) =>
      if k < key {
        DeleteNodeKeepsOrder(l, k);
        RemoveBelow(t, k, DeleteNode(l, k));
        RepairKeepsContents(t, k, t.(left := DeleteNode(l, k)));
      } else if k > key {
        DeleteNodeKeepsOrder(r, k);
        RemoveAbove(t, k, DeleteNode(r, k));
        RepairKeepsContents(t, k, t.(right := DeleteNode(r, k)));
      } else if l.Nil? || r.Nil? {
        RemoveSplice(t);
      } else {
        var m := Min(r);
        DeleteNodeKeepsOrder(r, m.key);
        RemoveBySuccessor(t, DeleteNode(r, m.key));
        RepairKeepsContents(t, k, Node(lv, m.key, m.value, l, DeleteNode(r, m.key)));
      }
  }

  /** The same for the corrected deletion. */
  lemma {:induction false} DeleteBalancedKeepsOrder<V>(t: Tree<V>, k: int)
    requires Ordered(t)
    ensures Removes(t, k, DeleteBalanced(t, k))
  {
    match t
    case Nil =>
    case Node(lv, key, val, l, r) =>
      if k < key {
        DeleteBalancedKeepsOrder(l, k);
        RemoveBelow(t, k, DeleteBalanced(l, k));
        RepairKeepsContents(t, k, t.(left := DeleteBalanced(l, k)));
      } else if k > key {
        DeleteBalancedKeepsOrder(r, k);
        RemoveAbove(t, k, DeleteBalanced(r, k));
        RepairKeepsContents(t, k, t.(right := DeleteBalanced(r, k)));
      } else if l.Nil? || r.Nil? {
        RemoveSplice(t);
      } else {
        var m := Min(r);
        DeleteBalancedKeepsOrder(r, m.key);
        RemoveBySuccessor(t, DeleteBalanced(r, m.key));
        RepairKeepsContents(t, k, Node(lv, m.key, m.value, l, DeleteBalanced(r, m.key)));
      }
  }

  /** For the code's deletion the size drops by one exactly when the key was
      present. */
  lemma DeleteNodeSize<V>(t: Tree<V>, k: int)
    requires Ordered(t)
    ensures Size(DeleteNode(t, k)) == if k in Keys(t) then Size(t) - 1 else Size(t)
  {
    DeleteNodeKeepsOrder(t, k);
    SizeIsKeyCount(t);
    SizeIsKeyCount(DeleteNode(t, k));
  }

  /** Deleting an absent key from a tree satisfying the level invariants
      changes nothing: the descent reaches the sentinel, and on the way back
      neither the demotion nor either rebalancing fires. */
  lemma {:induction false} DeleteAbsentIdle<V>(t: Tree<V>, k: int)
    requires LevelInv(t) && k !in Keys(t)
    ensures DeleteNode(t, k) == t && DeleteBalanced(t, k) == t
  {
    match t
    case Nil =>
    case Node(lv, key, val, l, r) =>
      assert Demote(t) == t;
      RotationsIdle(t);
      RebalanceIdle(t);
      if k < key {
        assert LevelInv(l) && k !in Keys(l);
        DeleteAbsentIdle(l, k);
        assert Node(lv, key, val, DeleteNode(l, k), r) == t;
        assert Node(lv, key, val, DeleteBalanced(l, k), r) == t;
      } else {
        assert k > key && LevelInv(r) && k !in Keys(r);
        DeleteAbsentIdle(r, k);
        assert Node(lv, key, val, l, DeleteNode(r, k)) == t;
        assert Node(lv, key, val, l, DeleteBalanced(r, k)) == t;
      }
  }

  /** For the corrected deletion the size drops by one exactly when the key
      was present. */
  lemma DeleteBalancedSize<V>(t: Tree<V>, k: int)
    requires Ordered(t)
    ensures Size(DeleteBalanced(t, k)) == if k in Keys(t) then Size(t) - 1 else Size(t)
  {
    DeleteBalancedKeepsOrder(t, k);
    SizeIsKeyCount(t);
    SizeIsKeyCount(DeleteBalanced(t, k));
  }

  /** What a deletion from `t` must deliver for the parent to repair itself:
      the level invariants, a root level equal to or one below the old one,
      and, when the level is kept, no new horizontal right link at the root. */
  predicate PostDelete<V>(t: Tree<V>, s: Tree<V>)
  {
    LevelInv(s) &&
    (Level(s) == Level(t) || Level(s) + 1 == Level(t)) &&
    (Level(s) == Level(t) && Single(t) ==> Single(s))
  }

  /** Andersson's rebalancing does nothing to a tree that needs no repair. */
  lemma RebalanceIdle<V>(t: Tree<V>)
    requires LevelInv(t)
    ensures Rebalance(t) == t
  {
    if t.Node? {
      RotationsIdle(t);
      RotationsIdle(t.right);
      RotationsIdle(Right(t.right));
    }
  }

  /** Repair of a node after a deletion in its left subtree. */
  lemma RepairAfterLeft<V>(t: Tree<V>, l': Tree<V>)
    requires t.Node? && LevelInv(t) && PostDelete(t.left, l')
    ensures PostDelete(t, Rebalance(Demote(t.(left := l'))))
  {
    if Level(l') + 1 == t.level {
      var n := t.(left := l');
      assert LevelInv(n) && Demote(n) == n;
      RebalanceIdle(n);
    } else if Level(t.right) + 1 == t.level {
      RepairAfterLeftSingle(t, l');
    } else {
      RepairAfterLeftHorizontal(t, l');
    }
  }

  /** The left subtree lost a level under a node without a horizontal right
      link: the node drops a level, and a split is needed when its right
      child now has a horizontal right link at the new level. */
  lemma RepairAfterLeftSingle<V>(t: Tree<V>, l': Tree<V>)
    requires t.Node? && LevelInv(t) && PostDelete(t.left, l')
    requires Level(l') + 2 == t.level && Level(t.right) + 1 == t.level
    ensures PostDelete(t, Rebalance(Demote(t.(left := l'))))
  {
    var Node(lv, key, val, l, r) := t;
    var d := Node(lv - 1, key, val, l', r);
    assert Demote(t.(left := l')) == d;
    var Node(_, rk, rval, b, c) := r;
    assert LevelInv(r) && LevelInv(c);
    RotationsIdle(r);
    RotationsIdle(c);
    assert Skew(d) == d;
    assert WithRight(d, Skew(Right(d))) == d;
    assert WithRight(d, WithRight(Right(d), Skew(Right(Right(d))))) == d;
    if Level(c) == lv - 1 {
      var s := Node(lv, rk, rval, Node(lv - 1, key, val, l', b), c);
      assert Split(d) == s;
      assert WithRight(s, Split(Right(s))) == s;
      assert LevelInv(b);
      assert LevelInv(Node(lv - 1, key, val, l', b));
    } else {
      assert Split(d) == d;
      assert WithRight(d, Split(Right(d))) == d;
    }
  }

  /** The hardest case: the left subtree lost a level under a node whose
      right child sits at its own level.  Demotion clamps that child, which
      leaves it with a horizontal left link that only the second skew
      removes. */
  lemma RepairAfterLeftHorizontal<V>(t: Tree<V>, l': Tree<V>)
    requires t.Node? && LevelInv(t) && PostDelete(t.left, l')
    requires Level(l') + 2 == t.level && Level(t.right) == t.level
    ensures PostDelete(t, Rebalance(Demote(t.(left := l'))))
  {
    var Node(lv, key, val, l, r) := t;
    var Node(_, rk, rval, b, c) := r;
    var Node(_, bk, bval, b1, b2) := b;
    assert LevelInv(r) && LevelInv(b) && LevelInv(c);
    var d := Node(lv - 1, key, val, l', Node(lv - 1, rk, rval, b, c));
    assert Demote(t.(left := l')) == d;
    assert d == ClampedShape(lv, key, val, l', bk, bval, b1, b2, rk, rval, c);
    if Level(b2) + 1 == lv {
      RepairLeftHorizontalLink(lv, key, val, l', bk, bval, b1, b2, rk, rval, c);
    } else {
      RepairLeftHorizontalPlain(lv, key, val, l', bk, bval, b1, b2, rk, rval, c);
    }
  }

  /** The tree left by demotion in the hardest case, named by its parts:
      the demoted node, its clamped right child, and that child's left child
      (at the same level). */
  function ClampedShape<V>(lv: int, key: int, val: V, l': Tree<V>, bk: int, bval: V,
                           b1: Tree<V>, b2: Tree<V>, rk: int, rval: V, c: Tree<V>): Tree<V>
    requires lv >= 2
  {
    Node(lv - 1, key, val, l', Node(lv - 1, rk, rval, Node(lv - 1, bk, bval, b1, b2), c))
  }

  /** The hardest case when the clamped child's left child also has a
      horizontal right link: the third skew and both splits fire. */
  lemma RepairLeftHorizontalLink<V>(lv: int, key: int, val: V, l': Tree<V>, bk: int, bval: V,
                                    b1: Tree<V>, b2: Tree<V>, rk: int, rval: V, c: Tree<V>)
    requires lv >= 2
    requires LevelInv(l') && LevelInv(b1) && LevelInv(b2) && LevelInv(c)
    requires Level(l') == lv - 2 && Level(b1) == lv - 2 && Level(b2) == lv - 1 && Level(c) == lv - 1
    requires Level(Right(b2)) == lv - 2
    ensures LevelInv(Rebalance(ClampedShape(lv, key, val, l', bk, bval, b1, b2, rk, rval, c)))
    ensures Level(Rebalance(ClampedShape(lv, key, val, l', bk, bval, b1, b2, rk, rval, c))) == lv
  {
    var d := ClampedShape(lv, key, val, l', bk, bval, b1, b2, rk, rval, c);
    var Node(_, b2k, b2val, e1, e2) := b2;
    RotationsIdle(c);
    assert Skew(d) == d;
    var t2 := Node(lv - 1, key, val, l', Node(lv - 1, bk, bval, b1, Node(lv - 1, rk, rval, b2, c)));
    assert WithRight(d, Skew(Right(d))) == t2;
    var t3 := Node(lv - 1, key, val, l',
                Node(lv - 1, bk, bval, b1,
                  Node(lv - 1, b2k, b2val, e1, Node(lv - 1, rk, rval, e2, c))));
    assert WithRight(t2, WithRight(Right(t2), Skew(Right(Right(t2))))) == t3;
    var t4 := Node(lv, bk, bval, Node(lv - 1, key, val, l', b1),
                Node(lv - 1, b2k, b2val, e1, Node(lv - 1, rk, rval, e2, c)));
    assert Split(t3) == t4;
    var s := Node(lv, bk, bval, Node(lv - 1, key, val, l', b1),
               Node(lv, rk, rval, Node(lv - 1, b2k, b2val, e1, e2), c));
    assert WithRight(t4, Split(Right(t4))) == s;
    assert LevelInv(e1) && LevelInv(e2);
    assert LevelInv(Node(lv - 1, b2k, b2val, e1, e2));
    assert LevelInv(Node(lv - 1, key, val, l', b1));
    assert LevelInv(Node(lv, rk, rval, Node(lv - 1, b2k, b2val, e1, e2), c));
  }

  /** The hardest case when the clamped child's left child has no horizontal
      right link: the third skew is idle, and the second split fires exactly
      when the clamped child's right child has a horizontal right link. */
  lemma RepairLeftHorizontalPlain<V>(lv: int, key: int, val: V, l': Tree<V>, bk: int, bval: V,
                                     b1: Tree<V>, b2: Tree<V>, rk: int, rval: V, c: Tree<V>)
    requires lv >= 2
    requires LevelInv(l') && LevelInv(b1) && LevelInv(b2) && LevelInv(c)
    requires Level(l') == lv - 2 && Level(b1) == lv - 2 && Level(b2) == lv - 2 && Level(c) == lv - 1
    ensures LevelInv(Rebalance(ClampedShape(lv, key, val, l', bk, bval, b1, b2, rk, rval, c)))
    ensures Level(Rebalance(ClampedShape(lv, key, val, l', bk, bval, b1, b2, rk, rval, c))) == lv
  {
    var d := ClampedShape(lv, key, val, l', bk, bval, b1, b2, rk, rval, c);
    var Node(_, ck, cval, c1, c2) := c;
    RotationsIdle(c);
    assert Skew(d) == d;
    var t2 := Node(lv - 1, key, val, l', Node(lv - 1, bk, bval, b1, Node(lv - 1, rk, rval, b2, c)));
    assert WithRight(d, Skew(Right(d))) == t2;
    assert WithRight(t2, WithRight(Right(t2), Skew(Right(Right(t2))))) == t2;
    var t4 := Node(lv, bk, bval, Node(lv - 1, key, val, l', b1), Node(lv - 1, rk, rval, b2, c));
    assert Split(t2) == t4;
    assert LevelInv(Node(lv - 1, key, val, l', b1));
    assert LevelInv(c1) && LevelInv(c2);
    if Level(c2) == lv - 1 {
      var s := Node(lv, bk, bval, Node(lv - 1, key, val, l', b1),
                 Node(lv, ck, cval, Node(lv - 1, rk, rval, b2, c1), c2));
      assert WithRight(t4, Split(Right(t4))) == s;
      assert LevelInv(Node(lv - 1, rk, rval, b2, c1));
      assert LevelInv(Node(lv, ck, cval, Node(lv - 1, rk, rval, b2, c1), c2));
    } else {
      assert WithRight(t4, Split(Right(t4))) == t4;
      assert LevelInv(Node(lv - 1, rk, rval, b2, c));
    }
  }

  /** Repair of a node after a deletion in its right subtree (this also covers
      the two-children case, where the node's key and value are replaced). */
  lemma RepairAfterRight<V>(t: Tree<V>, key: int, val: V, r': Tree<V>)
    requires t.Node? && LevelInv(t) && PostDelete(t.right, r')
    ensures PostDelete(t, Rebalance(Demote(Node(t.level, key, val, t.left, r'))))
  {
    var n := Node(t.level, key, val, t.left, r');
    if Level(r') + 1 >= t.level {
      assert LevelInv(n) && Demote(n) == n;
      RebalanceIdle(n);
    } else {
      RepairAfterRightDropped(t, key, val, r');
    }
  }

  /** The right subtree lost a level below its parent's: the node drops a
      level onto its left child's, and the first skew turns that into a
      horizontal right link, which a split removes when the left child had a
      horizontal right link of its own. */
  lemma RepairAfterRightDropped<V>(t: Tree<V>, key: int, val: V, r': Tree<V>)
    requires t.Node? && LevelInv(t) && PostDelete(t.right, r')
    requires Level(r') + 2 == t.level
    ensures PostDelete(t, Rebalance(Demote(Node(t.level, key, val, t.left, r'))))
  {
    var Node(lv, _, _, l, r) := t;
    var d := Node(lv - 1, key, val, l, r');
    assert Demote(Node(lv, key, val, l, r')) == d;
    var Node(_, lk, lval, a, b) := l;
    assert LevelInv(l) && LevelInv(b);
    RotationsIdle(r');
    RotationsIdle(b);
    var t1 := Node(lv - 1, lk, lval, a, Node(lv - 1, key, val, b, r'));
    assert Skew(d) == t1;
    if Level(b) == lv - 1 {
      RightDroppedUnderHorizontal(t1);
    } else {
      assert WithRight(t1, Skew(Right(t1))) == t1;
      assert WithRight(t1, WithRight(Right(t1), Skew(Right(Right(t1))))) == t1;
      assert Split(t1) == t1;
      assert WithRight(t1, Split(Right(t1))) == t1;
      assert LevelInv(t1);
    }
  }

  /** The rest of the repair above once the first skew has run, when the
      left child had a horizontal right link: the second skew is idle and the
      first split lifts that link's target to the old level. */
  lemma RightDroppedUnderHorizontal<V>(t1: Tree<V>)
    requires t1.Node? && t1.right.Node? && t1.right.left.Node?
    requires LevelInv(t1.left) && LevelInv(t1.right.left) && LevelInv(t1.right.right)
    requires Level(t1.left) + 1 == t1.level && t1.right.level == t1.level
    requires t1.right.left.level == t1.level && Level(t1.right.right) + 1 == t1.level
    requires Level(t1.right.left.right) + 1 == t1.level
    ensures LevelInv(Rebalance(t1))
    ensures Level(Rebalance(t1)) == t1.level + 1 && Single(Rebalance(t1))
  {
    var Node(lv', lk, lval, a, Node(_, key, val, b, r')) := t1;
    var Node(_, bk, bval, b1, b2) := b;
    RotationsIdle(r');
    var t2 := Node(lv', lk, lval, a, Node(lv', bk, bval, b1, Node(lv', key, val, b2, r')));
    assert WithRight(t1, Skew(Right(t1))) == t2;
    assert LevelInv(Node(lv', key, val, b2, r'));
    RotationsIdle(Node(lv', key, val, b2, r'));
    assert WithRight(t2, WithRight(Right(t2), Skew(Right(Right(t2))))) == t2;
    var t4 := Node(lv' + 1, bk, bval, Node(lv', lk, lval, a, b1), Node(lv', key, val, b2, r'));
    assert Split(t2) == t4;
    assert WithRight(t4, Split(Right(t4))) == t4;
    assert Level(b1) + 1 == lv' && LevelInv(b1);
    assert LevelInv(Node(lv', lk, lval, a, b1));
    assert LevelInv(t4);
  }

  /** The corrected deletion keeps the AA level invariants. */
  lemma {:induction false} DeleteBalancedKeepsLevels<V>(t: Tree<V>, k: int)
    requires LevelInv(t)
    ensures PostDelete(t, DeleteBalanced(t, k))
  {
    match t
    case Nil =>
    case Node(lv, key, val, l, r) =>
      if k < key {
        DeleteBalancedKeepsLevels(l, k);
        RepairAfterLeft(t, DeleteBalanced(l, k));
      } else if k > key {
        DeleteBalancedKeepsLevels(r, k);
        RepairAfterRight(t, key, val, DeleteBalanced(r, k));
      } else if l.Nil? {
      } else if r.Nil? {
        assert false;
      } else {
        var m := Min(r);
        DeleteBalancedKeepsLevels(r, m.key);
        RepairAfterRight(t, m.key, m.value, DeleteBalanced(r, m.key));
      }
  }

  /** The code as written does not keep the level invariants: after inserting
      the keys 1, 3, 4, 2 into an empty tree, deleting 3 leaves node 4 with a
      left child (node 2) at its own level, a horizontal left link.  The
      corrected deletion returns a valid AA-tree with the same keys. */
  lemma DeleteNodeBreaksLevels()
    ensures var t := Insert(Insert(Insert(Insert(Nil, 1, 10), 3, 30), 4, 40), 2, 20);
            IsAATree(t) &&
            DeleteNode(t, 3) == Node(1, 1, 10, Nil, Node(1, 4, 40, Node(1, 2, 20, Nil, Nil), Nil)) &&
            !LevelInv(DeleteNode(t, 3)) &&
            DeleteBalanced(t, 3) == Node(2, 2, 20, Node(1, 1, 10, Nil, Nil), Node(1, 4, 40, Nil, Nil))
  {
    var t1 := Insert(Nil, 1, 10);
    assert t1 == Node(1, 1, 10, Nil, Nil);
    var t2 := Insert(t1, 3, 30);
    assert t2 == Node(1, 1, 10, Nil, Node(1, 3, 30, Nil, Nil));
    var t3 := Insert(t2, 4, 40);
    assert t3 == Node(2, 3, 30, Node(1, 1, 10, Nil, Nil), Node(1, 4, 40, Nil, Nil));
    var t4 := Insert(t3, 2, 20);
    assert t4 == Node(2, 3, 30, Node(1, 1, 10, Nil, Node(1, 2, 20, Nil, Nil)), Node(1, 4, 40, Nil, Nil));
  }

  /** On the tree the code's deletion broke above, even deleting an absent
      key (5) restructures it: the absent-key no-op of `DeleteAbsentIdle`
      needs the level invariants. */
  lemma DeleteNodeAbsentRestructures()
    ensures var u := Node(1, 1, 10, Nil, Node(1, 4, 40, Node(1, 2, 20, Nil, Nil), Nil));
            5 !in Keys(u) &&
            DeleteNode(u, 5) == Node(2, 2, 20, Node(1, 1, 10, Nil, Nil), Node(1, 4, 40, Nil, Nil)) &&
            DeleteNode(u, 5) != u
  {
    var w := Node(1, 4, 40, Node(1, 2, 20, Nil, Nil), Nil);
    assert DeleteNode(w, 5) == Node(1, 2, 20, Nil, Node(1, 4, 40, Nil, Nil));
  }
}
