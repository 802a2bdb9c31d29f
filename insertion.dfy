/** Recursive insertion (upsert) with skew-then-split repair on the way up. */
module Insertion {
  import opened Trees
  import opened Traversals
  import opened Rotations

  /** Returns the new root of `t` after storing `v` under `k`.  The sentinel
      is replaced by a fresh level-1 leaf; an equal key has its value
      overwritten; otherwise the descent goes left or right.  Every node on
      the path is then skewed and split. */
  function Insert<V>(t: Tree<V>, k: int, v: V): (s: Tree<V>)
    ensures Keys(s) == Keys(t) + {k}
  {
    match t
    case Nil => Node(1, k, v, Nil, Nil)
    case Node(lv, key, val, l, r) =>
      var n :=
        if k < key then Node(lv, key, val, Insert(l, k, v), r)
        else if k > key then Node(lv, key, val, l, Insert(r, k, v))
        else Node(lv, key, v, l, r);
      Split(Skew(n))
  }

  /** On an ordered tree insertion keeps the ordering, makes `k` find `v` and
      leaves every other lookup as it was (so a re-inserted key keeps one
      node, holding the latest value). */
  lemma {:induction false} InsertKeepsOrder<V>(t: Tree<V>, k: int, v: V)
    requires Ordered(t)
    ensures Ordered(Insert(t, k, v))
    ensures forall j :: Find(Insert(t, k, v), j) == if j == k then Some(v) else Find(t, j)
  {
    match t
    case Nil =>
    case Node(lv, key, val, l, r) =>
      var n :=
        if k < key then Node(lv, key, val, Insert(l, k, v), r)
        else if k > key then Node(lv, key, val, l, Insert(r, k, v))
        else Node(lv, key, v, l, r);
      if k < key {
        InsertKeepsOrder(l, k, v);
      } else if k > key {
        InsertKeepsOrder(r, k, v);
      }
      assert Ordered(n);
      assert forall j :: Find(n, j) == if j == k then Some(v) else Find(t, j);
      SkewKeepsContents(n);
      SplitKeepsContents(Skew(n));
  }

  /** The size grows by one exactly when the key was absent. */
  lemma InsertSize<V>(t: Tree<V>, k: int, v: V)
    requires Ordered(t)
    ensures Size(Insert(t, k, v)) == if k in Keys(t) then Size(t) else Size(t) + 1
  {
    InsertKeepsOrder(t, k, v);
    SizeIsKeyCount(t);
    SizeIsKeyCount(Insert(t, k, v));
  }

  /** The level facts insertion delivers for a subtree `t` grown into `s`. */
  predicate GrowsBy<V>(t: Tree<V>, s: Tree<V>)
  {
    LevelInv(s) &&
    (Level(s) == Level(t) || (Level(s) == Level(t) + 1 && Single(s))) &&
    (Single(t) ==> Level(s) == Level(t))
  }

  /** Insertion keeps the AA level invariants.  The root level rises by at
      most one, only from a root with a horizontal right link (or from the
      sentinel), and a risen root has no horizontal right link itself. */
  lemma {:induction false} InsertKeepsLevels<V>(t: Tree<V>, k: int, v: V)
    requires LevelInv(t)
    ensures LevelInv(Insert(t, k, v))
    ensures Level(Insert(t, k, v)) == Level(t) ||
            (Level(Insert(t, k, v)) == Level(t) + 1 && Single(Insert(t, k, v)))
    ensures Single(t) ==> Level(Insert(t, k, v)) == Level(t)
  {
    match t
    case Nil =>
    case Node(lv, key, val, l, r) =>
      if k < key {
        InsertKeepsLevels(l, k, v);
        RepairLeftGrown(lv, key, val, l, Insert(l, k, v), r);
      } else if k > key {
        InsertKeepsLevels(r, k, v);
        RepairRightGrown(lv, key, val, l, r, Insert(r, k, v));
      } else {
        RotationsIdle(Node(lv, key, v, l, r));
      }
  }

  /** Skew then split repairs a node whose left subtree grew as insertion
      lets it. */
  lemma RepairLeftGrown<V>(lv: Rank, key: int, val: V, l: Tree<V>, l': Tree<V>, r: Tree<V>)
    requires LevelInv(Node(lv, key, val, l, r)) && GrowsBy(l, l')
    ensures GrowsBy(Node(lv, key, val, l, r), Split(Skew(Node(lv, key, val, l', r))))
  {
    var n := Node(lv, key, val, l', r);
    if Level(l') == lv - 1 {
      assert LevelInv(n);
      RotationsIdle(n);
    } else {
      var Node(_, lk, lval, a, b) := l';
      var s := Node(lv, lk, lval, a, Node(lv, key, val, b, r));
      assert Skew(n) == s;
      assert LevelInv(Node(lv, key, val, b, r));
      if Level(r) == lv {
        var Node(_, rk, rval, c, d) := r;
        assert Split(s) == Node(lv + 1, key, val, Node(lv, lk, lval, a, b), r);
      } else {
        assert Split(s) == s;
      }
    }
  }

  /** Split repairs a node whose right subtree grew as insertion lets it. */
  lemma RepairRightGrown<V>(lv: Rank, key: int, val: V, l: Tree<V>, r: Tree<V>, r': Tree<V>)
    requires LevelInv(Node(lv, key, val, l, r)) && GrowsBy(r, r')
    ensures GrowsBy(Node(lv, key, val, l, r), Split(Skew(Node(lv, key, val, l, r'))))
  {
    var n := Node(lv, key, val, l, r');
    assert Skew(n) == n;
    assert LevelInv(l) && Level(l) == lv - 1 && LevelInv(r');
    assert Level(r) == lv ==> Single(r);
    assert Level(r') == lv || Level(r') == lv - 1;
    if Level(Right(r')) < lv {
      assert LevelInv(n);
      RotationsIdle(n);
    } else {
      var Node(_, rk, rval, c, d) := r';
      assert Split(n) == Node(lv + 1, rk, rval, Node(lv, key, val, l, c), d);
      assert Level(r') == lv && LevelInv(c) && Level(c) == lv - 1;
      assert Level(Right(c)) <= Level(c);
      assert LevelInv(Node(lv, key, val, l, c));
    }
  }
}
