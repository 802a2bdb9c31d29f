/** The node record of the AA-tree and the abstract views of a subtree:
    its key set, binary-search-tree ordering, the AA level invariants
    and key lookup. */
module Trees {

  datatype Option<T> = None | Some(value: T)

  /** The level of a genuine node.  Nodes are created at level 1, split only
      raises a level, and delete lowers one only when a child is at least two
      levels below it, so a genuine node never reaches level 0. */
  type Rank = n: int | 1 <= n witness 1

  /** A subtree.  `Nil` is the tree's level-0 sentinel `nullNode`: it stands
      for every empty subtree, and its own children are again the sentinel. */
  datatype Tree<V> = Nil | Node(level: Rank, key: int, value: V, left: Tree<V>, right: Tree<V>)

  /** `node->level`, reading 0 for the sentinel. */
  function Level<V>(t: Tree<V>): nat
  {
    match t
    case Nil => 0
    case Node(lv, _, _, _, _) => lv
  }

  /** `node->left`, `node->right`, reading the sentinel's own children as itself. */
  function Left<V>(t: Tree<V>): Tree<V>
  {
    if t.Nil? then Nil else t.left
  }

  function Right<V>(t: Tree<V>): Tree<V>
  {
    if t.Nil? then Nil else t.right
  }

  /** Replaces the right child of a genuine node; the sentinel is never changed. */
  function WithRight<V>(t: Tree<V>, r: Tree<V>): Tree<V>
  {
    if t.Nil? then Nil else t.(right := r)
  }

  function Keys<V>(t: Tree<V>): set<int>
  {
    match t
    case Nil => {}
    case Node(_, k, _, l, r) => Keys(l) + {k} + Keys(r)
  }

  /** Invariant 5: every key of the left subtree is smaller, and every key of
      the right subtree larger, than the node's key. */
  predicate Ordered<V>(t: Tree<V>)
  {
    match t
    case Nil => true
    case Node(_, k, _, l, r) =>
      Ordered(l) && Ordered(r) &&
      (forall x :: x in Keys(l) ==> x < k) &&
      (forall x :: x in Keys(r) ==> k < x)
  }

  /** Invariants 2 to 4: a left child is exactly one level below its parent,
      a right child is at the parent's level or one below, and a right-right
      grandchild is strictly below its grandparent.  Invariant 1 (a leaf has
      level 1) follows from the left-child rule, the sentinel having level 0. */
  predicate LevelInv<V>(t: Tree<V>)
  {
    match t
    case Nil => true
    case Node(lv, _, _, l, r) =>
      LevelInv(l) && LevelInv(r) &&
      Level(l) == lv - 1 &&
      (Level(r) == lv || Level(r) == lv - 1) &&
      Level(Right(r)) < lv
  }

  /** A valid AA-tree: ordered and balanced. */
  predicate IsAATree<V>(t: Tree<V>)
  {
    Ordered(t) && LevelInv(t)
  }

  /** A genuine node without a horizontal right link. */
  predicate Single<V>(t: Tree<V>)
  {
    t.Node? && Level(t.right) < t.level
  }

  /** Binary-search descent: the value stored under `k`, or `None` when the
      descent reaches the sentinel. */
  function Find<V>(t: Tree<V>, k: int): Option<V>
  {
    match t
    case Nil => None
    case Node(_, key, v, l, r) =>
      if k < key then Find(l, k)
      else if k > key then Find(r, k)
      else Some(v)
  }

  /** On an ordered tree the descent finds exactly the keys the tree holds. */
  lemma {:induction false} FindMember<V>(t: Tree<V>, k: int)
    requires Ordered(t)
    ensures Find(t, k).Some? <==> k in Keys(t)
  {
    match t
    case Nil =>
    case Node(_, key, _, l, r) =>
      FindMember(l, k);
      FindMember(r, k);
  }

  /** A state-independent statement of invariant 1: a genuine node whose
      children are both the sentinel is at level 1. */
  lemma LeafLevel<V>(t: Tree<V>)
    requires LevelInv(t) && t.Node? && t.left.Nil? && t.right.Nil?
    ensures t.level == 1
  {
  }
}
