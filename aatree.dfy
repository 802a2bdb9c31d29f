/** The AA-tree object: the root of the node structure and the public
    operations, each a thin caller of the recursive algorithms, plus the
    loops of `get` and `findMinNode` and the accumulating traversals. */
module AATrees {
  import opened Trees
  import opened Traversals
  import opened Rotations
  import opened Insertion
  import opened Deletion

  class AATree<V> {
    /** The root; the sentinel when the tree is empty. */
    var root: Tree<V>
    /** What `get` returns for a missing key: the value type's default `V()`. */
    const absent: V

    /** Every public mutation leaves an ordered tree.  The AA level
        invariants are kept by insertion and by the corrected deletion, but
        not by the code's own deletion, so they are not part of validity. */
    ghost predicate Valid()
      reads this
    {
      Ordered(root)
    }

    /** The empty tree: the root is the sentinel. */
    constructor (absent: V)
      ensures Valid() && LevelInv(root) && root == Nil && this.absent == absent
    {
      root := Nil;
      this.absent := absent;
    }

    /** Stores `value` under `key`, overwriting the value of a present key. */
    method Insert(key: int, value: V)
      requires Valid()
      modifies this
      ensures Valid() && root == Insertion.Insert(old(root), key, value)
      ensures old(LevelInv(root)) ==> LevelInv(root)
      ensures Keys(root) == old(Keys(root)) + {key}
      ensures forall j :: Find(root, j) == if j == key then Some(value) else old(Find(root, j))
      ensures Traversals.Size(root) == if key in old(Keys(root)) then old(Traversals.Size(root)) else old(Traversals.Size(root)) + 1
    {
      InsertKeepsOrder(root, key, value);
      if LevelInv(root) {
        InsertKeepsLevels(root, key, value);
      }
      InsertSize(root, key, value);
      root := Insertion.Insert(root, key, value);
    }

    /** Removes `key` if present, with the code's single skew and split on
        the way up: the ordering and every other value are kept, but not
        necessarily the level invariants (see `DeleteNodeBreaksLevels`). */
    method DeleteKey(key: int)
      requires Valid()
      modifies this
      ensures Valid() && root == DeleteNode(old(root), key)
      ensures Keys(root) == old(Keys(root)) - {key}
      ensures forall j :: Find(root, j) == if j == key then None else old(Find(root, j))
      ensures Traversals.Size(root) == if key in old(Keys(root)) then old(Traversals.Size(root)) - 1 else old(Traversals.Size(root))
      ensures old(LevelInv(root)) && key !in old(Keys(root)) ==> root == old(root)
    {
      DeleteNodeKeepsOrder(root, key);
      DeleteNodeSize(root, key);
      if LevelInv(root) && key !in Keys(root) {
        DeleteAbsentIdle(root, key);
      }
      root := DeleteNode(root, key);
    }

    /** The corrected deletion: the same removal, followed by Andersson's
        rebalancing, which also keeps the level invariants. */
    method DeleteKeyBalanced(key: int)
      requires Valid()
      modifies this
      ensures Valid() && root == DeleteBalanced(old(root), key)
      ensures old(LevelInv(root)) ==> LevelInv(root)
      ensures Keys(root) == old(Keys(root)) - {key}
      ensures forall j :: Find(root, j) == if j == key then None else old(Find(root, j))
      ensures Traversals.Size(root) == if key in old(Keys(root)) then old(Traversals.Size(root)) - 1 else old(Traversals.Size(root))
    {
      DeleteBalancedKeepsOrder(root, key);
      if LevelInv(root) {
        DeleteBalancedKeepsLevels(root, key);
      }
      DeleteBalancedSize(root, key);
      root := DeleteBalanced(root, key);
    }

    /** The leftmost node of `node`'s subtree, or the sentinel for an empty
        one, found by walking left children. */
    method FindMinNode(node: Tree<V>) returns (m: Tree<V>)
      ensures m == Min(node)
      ensures m.Nil? <==> node.Nil?
      ensures node.Node? ==> m.left.Nil? && m.key == InOrder(node)[0]
    {
      if node.Nil? {
        return Nil;
      }
      m := node;
      while m.left.Node?
        invariant m.Node? && Min(m) == Min(node)
        decreases m
      {
        m := m.left;
      }
    }

    /** Iterative lookup: the value stored under `key`, or `absent` when the
        descent reaches the sentinel. */
    method Get(key: int) returns (value: V)
      ensures Find(root, key).Some? ==> value == Find(root, key).value
      ensures Find(root, key).None? ==> value == absent
    {
      var node := root;
      while node.Node?
        invariant Find(node, key) == Find(root, key)
        decreases node
      {
        if key < node.key {
          node := node.left;
        } else if key > node.key {
          node := node.right;
        } else {
          return node.value;
        }
      }
      return absent;
    }

    /** The number of genuine nodes; on a valid tree, the number of keys. */
    method Size() returns (n: nat)
      ensures n == |InOrder(root)|
      ensures Ordered(root) ==> n == |Keys(root)|
    {
      n := Traversals.Size(root);
      if Ordered(root) {
        SizeIsKeyCount(root);
      }
    }

    /** The height; on a valid tree at most 2 log2(size + 1). */
    method GetHeight() returns (h: nat)
      ensures h == Height(root)
      ensures LevelInv(root) ==> Pow2(h) <= (Traversals.Size(root) + 1) * (Traversals.Size(root) + 1)
    {
      h := Height(root);
      if LevelInv(root) {
        HeightLogarithmic(root);
      }
    }

    /** The keys in ascending order of a valid tree. */
    method InOrderTraversal() returns (result: seq<int>)
      ensures result == InOrder(root)
      ensures Ordered(root) ==> Ascending(result)
    {
      result := AppendInOrder(root, []);
      OrderedIffAscending(root);
    }

    /** Each node before its subtrees: a rearrangement of the in-order keys. */
    method PreOrderTraversal() returns (result: seq<int>)
      ensures result == PreOrder(root)
      ensures multiset(result) == multiset(InOrder(root))
    {
      result := AppendPreOrder(root, []);
      WalksArePermutations(root);
    }

    /** Each node after its subtrees: a rearrangement of the in-order keys. */
    method PostOrderTraversal() returns (result: seq<int>)
      ensures result == PostOrder(root)
      ensures multiset(result) == multiset(InOrder(root))
    {
      result := AppendPostOrder(root, []);
      WalksArePermutations(root);
    }

    /** Appends the in-order walk of `node` to `result`. */
    static method AppendInOrder(node: Tree<V>, result: seq<int>) returns (out: seq<int>)
      ensures out == result + InOrder(node)
      decreases node
    {
      out := result;
      if node.Nil? {
        return;
      }
      out := AppendInOrder(node.left, out);
      out := out + [node.key];
      out := AppendInOrder(node.right, out);
    }

    /** Appends the pre-order walk of `node` to `result`. */
    static method AppendPreOrder(node: Tree<V>, result: seq<int>) returns (out: seq<int>)
      ensures out == result + PreOrder(node)
      decreases node
    {
      out := result;
      if node.Nil? {
        return;
      }
      var pl, pr := PreOrder(node.left), PreOrder(node.right);
      out := out + [node.key];
      out := AppendPreOrder(node.left, out);
      out := AppendPreOrder(node.right, out);
      assert out == result + ([node.key] + pl + pr);
    }

    /** Appends the post-order walk of `node` to `result`. */
    static method AppendPostOrder(node: Tree<V>, result: seq<int>) returns (out: seq<int>)
      ensures out == result + PostOrder(node)
      decreases node
    {
      out := result;
      if node.Nil? {
        return;
      }
      var pl, pr := PostOrder(node.left), PostOrder(node.right);
      out := AppendPostOrder(node.left, out);
      out := AppendPostOrder(node.right, out);
      out := out + [node.key];
      assert out == result + (pl + pr + [node.key]);
    }
  }

  /** The tree the demonstration script builds. */
  function DemonstrationTree(): Tree<int>
  {
    Node(2, 2, 42, Node(1, 1, 23, Nil, Nil), Node(1, 3, 10, Nil, Nil))
  }

  /** The trees the demonstration script's inserts go through: inserting
      1, 2, 3 climbs to a level-2 root holding 2. */
  lemma DemonstrationTrees()
    ensures Insertion.Insert(Nil, 1, 23) == Node(1, 1, 23, Nil, Nil)
    ensures Insertion.Insert(Node(1, 1, 23, Nil, Nil), 2, 42) ==
            Node(1, 1, 23, Nil, Node(1, 2, 42, Nil, Nil))
    ensures Insertion.Insert(Node(1, 1, 23, Nil, Node(1, 2, 42, Nil, Nil)), 3, 10) ==
            DemonstrationTree()
  {
    var n3 := Node(1, 1, 23, Nil, Node(1, 2, 42, Nil, Node(1, 3, 10, Nil, Nil)));
    assert Skew(n3) == n3;
  }

  /** The three walks of the demonstration's three-key tree. */
  lemma DemonstrationWalks()
    ensures InOrder(DemonstrationTree()) == [1, 2, 3]
    ensures PreOrder(DemonstrationTree()) == [2, 1, 3]
    ensures PostOrder(DemonstrationTree()) == [1, 3, 2]
  {
    var a, c := Node(1, 1, 23, Nil, Nil), Node(1, 3, 10, Nil, Nil);
    assert InOrder(a) == PreOrder(a) == PostOrder(a) == [1];
    assert InOrder(c) == PreOrder(c) == PostOrder(c) == [3];
  }

  /** Its size. */
  lemma DemonstrationSize()
    ensures Traversals.Size(DemonstrationTree()) == 3
  {
  }

  /** Its height. */
  lemma DemonstrationHeight()
    ensures Height(DemonstrationTree()) == 2
  {
  }

  /** Deleting 2 leaves 1 above 3, with the code's deletion and with the
      corrected one, so the in-order walk is then [1, 3]. */
  lemma DemonstrationAfterDelete()
    ensures DeleteNode(DemonstrationTree(), 2) == Node(1, 1, 23, Nil, Node(1, 3, 10, Nil, Nil))
    ensures DeleteBalanced(DemonstrationTree(), 2) == Node(1, 1, 23, Nil, Node(1, 3, 10, Nil, Nil))
    ensures InOrder(DeleteNode(DemonstrationTree(), 2)) == [1, 3]
  {
    assert InOrder(Node(1, 3, 10, Nil, Nil)) == [3];
  }

  /** The first part of the demonstration script: three inserts into a
      fresh tree. */
  method DemonstrationBuild() returns (tree: AATree<int>)
    ensures fresh(tree) && tree.Valid() && LevelInv(tree.root) && tree.root == DemonstrationTree()
  {
    DemonstrationTrees();
    tree := new AATree<int>(0);
    tree.Insert(1, 23);
    tree.Insert(2, 42);
    tree.Insert(3, 10);
  }

  /** The middle part of the demonstration script: the lookup, the three
      walks, size and height of the three-key tree. */
  method DemonstrationQueries(tree: AATree<int>)
    requires tree.root == DemonstrationTree()
  {
    var value := tree.Get(2);
    assert value == 42;
    DemonstrationWalks();
    var inOrder := tree.InOrderTraversal();
    assert inOrder == [1, 2, 3];
    var preOrder := tree.PreOrderTraversal();
    assert preOrder == [2, 1, 3];
    var postOrder := tree.PostOrderTraversal();
    assert postOrder == [1, 3, 2];
    DemonstrationSize();
    var size := tree.Size();
    assert size == 3;
    DemonstrationHeight();
    var height := tree.GetHeight();
    assert height == 2;
  }

  /** The demonstration script: three inserts, the queries, and a deletion,
      with the results it expects. */
  method Demonstration() {
    var tree := DemonstrationBuild();
    DemonstrationQueries(tree);
    tree.DeleteKey(2);
    DemonstrationAfterDelete();
    var inOrder := tree.InOrderTraversal();
    assert inOrder == [1, 3];
  }
}
