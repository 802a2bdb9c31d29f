# AA-tree ordered map in Dafny

This project models the AA-tree ordered map of `AATree.cpp`. The map is a
binary search tree whose nodes carry an integer `level`. A shared level-0
sentinel node stands for every empty subtree. The model covers:

- **Rotations.** `skew` and `split` repair a node locally.
- **Recursive mutations.** `insert` (an upsert) and `deleteNode` each return
  the new subtree root. The successor-copy step of deletion uses
  `findMinNode`.
- **Readers.** `get`, `findMinNode`, `size` and `getHeight`.
- **Traversals.** The in-order, pre-order and post-order walks, each pushing
  keys onto an accumulator.
- **The map object.** It owns the root.

The model has five parts:

- `Trees` defines the node datatype and the sentinel `Nil`. `Nil` has level 0
  and reads its own children as itself. It also defines the key set,
  binary-search-tree ordering (invariant 5), the level invariants (2 to 4,
  which imply 1) and the lookup `Find`.
- `Traversals` defines the three walks, size and height. It also proves the
  height bound of a valid AA-tree.
- `Rotations` defines `skew` and `split` as functions that return the new
  subtree root, as the code does.
- `Insertion` and `Deletion` define the recursive operations in the same
  return-the-new-root style.
- `AATrees` defines the class `AATree`. Its field `root` is reassigned by
  `Insert` and `DeleteKey`. `Get` and `FindMinNode` are `while` loops over a
  local node variable, as in the code. The traversals are recursive methods
  that append to an accumulator.
  `Demonstration` replays the script in `main` and checks its expected
  outputs.

Keys are `int`. Values have a generic type `V`. The default value `V()`,
which `get` returns for a missing key, is the class constant `absent`, given
to the constructor.

The code's deletion does not keep the AA level invariants; see "Findings".
`DeleteNode` models the code as written. For it, the model proves ordering,
the key set and lookups, and exhibits a counterexample for the levels.
`DeleteBalanced` has the same descent, removal and demotion, but ends with
Andersson's rebalancing: three skews and two splits. For it, the model proves
both ordering and the level invariants. The class's `DeleteKey` runs the code's
`DeleteNode`, as `deleteKey` does. A second method, `DeleteKeyBalanced`, is the
corrected entry point and runs `DeleteBalanced`. Because the code's deletion
does not keep the level invariants, the class invariant `Valid()` is ordering
only. The level invariants appear as conditions: insertion and the corrected
deletion keep them whenever the old tree had them.

## Model

| member | source | states |
|---|---|---|
| `Trees.FindMember` | AATree.cpp:150-164 | On an ordered tree, the lookup descent succeeds exactly when the key is in the tree's key set (both directions). |
| `Trees.LeafLevel` | AATree.cpp:16 | Under the level invariants, a genuine node with two sentinel children is at level 1 (AA invariant 1). |
| `Traversals.Size` | AATree.cpp:171-178 | The node count equals the length of the in-order walk. |
| `Traversals.Height` | AATree.cpp:186-194 | The height is 0 exactly for the sentinel and never exceeds the node count. |
| `Traversals.WalksArePermutations` | AATree.cpp:196-238 | The pre-order and post-order walks are rearrangements (equal multisets) of the in-order walk: each visits every node once. |
| `Traversals.InOrderKeys` | AATree.cpp:196-204 | A key occurs in the in-order walk exactly when it is in the subtree's key set. |
| `Traversals.AscendingAround` | AATree.cpp:196-204 | A sequence split around a pivot is strictly ascending iff both sides are and the pivot separates them. |
| `Traversals.OrderedIffAscending` | AATree.cpp:196-204 | Binary-search-tree ordering holds iff the in-order walk is strictly ascending (both directions). |
| `Traversals.SizeIsKeyCount` | AATree.cpp:171-178 | On an ordered tree no key repeats, so the size equals the number of distinct keys. |
| `Traversals.LevelBounds` | AATree.cpp:186-194 | Under the level invariants, the height is at most twice the root level (strictly less without a horizontal right link), and a root at level L has at least 2^L - 1 nodes. |
| `Traversals.HeightLogarithmic` | AATree.cpp:181-194 | Under the level invariants, 2^height <= (size + 1)^2, that is, height <= 2 log2(size + 1). |
| `Rotations.Skew` | AATree.cpp:38-46 | The result differs from the input exactly when the left child is at the node's level. In that case the former left child is the new root, keeping its own left subtree, and the old node, at its old level, becomes its right child, taking over that child's former right subtree. In-order walk, key set and root level are always unchanged. |
| `Rotations.Split` | AATree.cpp:48-57 | The result differs exactly when the right-right grandchild is at the node's level. The new root is then the old right child, one level higher, with its value and its right subtree. Its left child is the old node at its old level, over the old left subtree and the right child's former left subtree. In-order walk and key set are unchanged. |
| `Rotations.SkewKeepsContents` | AATree.cpp:38-46 | On an ordered tree, skew keeps the ordering and the value found for every key. |
| `Rotations.SplitKeepsContents` | AATree.cpp:48-57 | On an ordered tree, split keeps the ordering and the value found for every key. |
| `Rotations.RotationsIdle` | AATree.cpp:38-57 | On a tree satisfying the level invariants, neither rotation fires. |
| `Insertion.Insert` | AATree.cpp:64-82 | The key set after insertion is the old key set plus the inserted key. |
| `Insertion.InsertKeepsOrder` | AATree.cpp:64-82 | On an ordered tree, insertion keeps the ordering. The key then finds the new value, even when it was present, and every other key finds what it found before. |
| `Insertion.InsertSize` | AATree.cpp:64-82 | The size grows by one exactly when the key was absent, and is unchanged otherwise. |
| `Insertion.InsertKeepsLevels` | AATree.cpp:64-82 | Insertion keeps the level invariants. The root level rises by at most one, only when the old root was the sentinel or had a horizontal right link, and a risen root has none. |
| `Deletion.Min` | AATree.cpp:137-148 | The leftmost node is the sentinel exactly for an empty tree. Otherwise it has no left child and holds the first key of the in-order walk; on an ordered tree that is the smallest key, found with the node's value. |
| `Deletion.Demote` | AATree.cpp:124-129 | Lowering the node's level (and the right child's) keeps the in-order walk, the key set, the ordering and every lookup. |
| `Deletion.DeleteNode` | AATree.cpp:90-134 | The deletion as written: the key set can only shrink. |
| `Deletion.DeleteNodeKeepsOrder` | AATree.cpp:90-134 | On an ordered tree, the deletion as written removes exactly the key. The result is ordered, the key is absent, and every other key keeps its value; deleting an absent key changes nothing in the key set. |
| `Deletion.DeleteNodeBreaksLevels` | AATree.cpp:131-132 | Inserting 1, 3, 4, 2 gives a valid AA-tree. Deleting 3 with the code's single skew and split leaves a horizontal left link, which violates the level invariants. The corrected deletion gives a valid tree. |
| `Deletion.DeleteNodeAbsentRestructures` | AATree.cpp:90-134 | On the tree the code's deletion broke, deleting the absent key 5 changes the tree, into a level-2 root 2 over 1 and 4. So the absent-key no-op holds only for trees with the level invariants. |
| `Deletion.Rebalance` | AATree.cpp:131-132 | Andersson's three skews and two splits keep the in-order walk and the key set. |
| `Deletion.DeleteBalanced` | AATree.cpp:90-134 | The corrected deletion: the key set can only shrink. |
| `Deletion.RepairKeepsContents` | AATree.cpp:124-132 | Both versions of the demote-and-rebalance step keep ordering, key set and every lookup. |
| `Deletion.DeleteBalancedKeepsOrder` | AATree.cpp:90-134 | On an ordered tree, the corrected deletion removes exactly the key: the result is ordered, the key is absent, and every other key keeps its value. |
| `Deletion.DeleteBalancedSize` | AATree.cpp:90-134 | The size drops by one exactly when the key was present. |
| `Deletion.DeleteNodeSize` | AATree.cpp:90-134 | For the deletion as written, the size drops by one exactly when the key was present, and is unchanged otherwise. |
| `Deletion.DeleteAbsentIdle` | AATree.cpp:90-134 | On a tree satisfying the level invariants, deleting an absent key returns the tree unchanged, both as written and corrected. |
| `Deletion.RebalanceIdle` | AATree.cpp:131-132 | Andersson's rebalancing changes nothing on a tree that already satisfies the level invariants. |
| `Deletion.DeleteBalancedKeepsLevels` | AATree.cpp:90-134 | The corrected deletion keeps the level invariants. The root level stays or drops by one, and a kept level adds no horizontal right link at the root. |
| `AATrees.AATree.constructor` | AATree.cpp:26-32 | A new tree is the sentinel alone, which is ordered and satisfies the level invariants. |
| `AATrees.AATree.Insert` | AATree.cpp:59-61 | The new root is the recursive insertion of the old one, again ordered, and satisfying the level invariants whenever the old root did. The key set gains the key, the key finds the value, other lookups are unchanged, and the size grows exactly when the key was new. |
| `AATrees.AATree.DeleteKey` | AATree.cpp:85-87 | The new root is the code's deletion of the old one, again ordered. The key set loses the key, the key is absent afterwards, other lookups are unchanged, and the size drops exactly when the key was present. On a tree satisfying the level invariants, deleting an absent key changes nothing. |
| `AATrees.AATree.DeleteKeyBalanced` | AATree.cpp:85-87 | The corrected counterpart of `deleteKey`. The new root is the corrected deletion of the old one, with the same key-set, lookup and size guarantees, and it satisfies the level invariants whenever the old root did. |
| `AATrees.AATree.FindMinNode` | AATree.cpp:137-148 | The loop reaches the leftmost node (`Deletion.Min`): the sentinel for an empty subtree, otherwise a node without a left child holding the first in-order key. |
| `AATrees.AATree.Get` | AATree.cpp:150-164 | The loop returns the value the lookup finds, or the default value when the key is absent. |
| `AATrees.AATree.Size` | AATree.cpp:166-178 | The number of nodes is the length of the in-order walk and, on an ordered tree, the number of keys. |
| `AATrees.AATree.GetHeight` | AATree.cpp:181-194 | The height of the root; on a tree satisfying the level invariants, 2^height <= (size + 1)^2. |
| `AATrees.AATree.InOrderTraversal` | AATree.cpp:207-211 | The in-order walk of the root; strictly ascending when the tree is ordered. |
| `AATrees.AATree.PreOrderTraversal` | AATree.cpp:224-228 | The pre-order walk of the root: a rearrangement of the in-order keys. |
| `AATrees.AATree.PostOrderTraversal` | AATree.cpp:241-245 | The post-order walk of the root: a rearrangement of the in-order keys. |
| `AATrees.AATree.AppendInOrder` | AATree.cpp:196-204 | The accumulator ends as its old contents followed by the subtree's in-order walk. |
| `AATrees.AATree.AppendPreOrder` | AATree.cpp:214-221 | The accumulator ends as its old contents followed by the subtree's pre-order walk. |
| `AATrees.AATree.AppendPostOrder` | AATree.cpp:231-238 | The accumulator ends as its old contents followed by the subtree's post-order walk. |
| `AATrees.DemonstrationTrees` | AATree.cpp:249-254 | Inserting (1,23), (2,42), (3,10) climbs to a level-2 root holding 2, with leaves 1 and 3. |
| `AATrees.DemonstrationWalks` | AATree.cpp:261-280 | The three walks of that tree are [1,2,3], [2,1,3] and [1,3,2]. |
| `AATrees.DemonstrationSize` | AATree.cpp:283 | Its size is 3. |
| `AATrees.DemonstrationHeight` | AATree.cpp:284 | Its height is 2. |
| `AATrees.DemonstrationAfterDelete` | AATree.cpp:287-293 | Deleting 2 from that tree leaves 1 with right child 3, with the code's deletion and with the corrected one, so the in-order walk is then [1,3]. |
| `AATrees.DemonstrationBuild` | AATree.cpp:249-254 | The three inserts into a fresh tree yield the demonstration tree, which satisfies the level invariants. |

## Left out

- Memory management is not modelled: `new`, `delete node` and the empty destructor. Subtrees are values, so reclamation does not arise.
- In-place pointer rewiring is modelled on values. The functions rebuild the changed path and the class reassigns `root`. Aliasing of nodes does not occur in the code except through the shared sentinel, which `Nil` represents.
- The `nullptr` constructor (line 14) and the `node == nullptr` test (line 65) are not modelled. They only serve to build the sentinel, and the test is unreachable once every node has sentinel children.
- Pointer comparisons against `nullNode` become pattern matching on `Nil`.
- A rotation applied to the sentinel itself is not modelled. In the code, `split` on the sentinel would pass its test (0 == 0) and raise the sentinel's level. The code never calls a rotation on the sentinel, and in the model `Skew(Nil)` and `Split(Nil)` return `Nil`.
- Templates are narrowed. Keys are `int`, the code's only use of keys being `<` and `>`. Values are a generic `V`, and the default `V()` is the constant `absent` given to the constructor.
- `int` overflow in `size` and `getHeight` is not modelled; both return `nat`.
- `main` prints its results with `std::cout`. The printing is not modelled. Its calls and their commented expected outputs are replayed by `Demonstration`, split into `DemonstrationBuild` and `DemonstrationQueries`.

## Findings

| source | as written | input that shows it | evidently intended | confidence | as-written member | corrected member |
|---|---|---|---|---|---|---|
| AATree.cpp:131-132 | After a deletion, each node on the path gets one `skew` and one `split` only. | Insert keys 1, 3, 4, 2 into an empty tree, then delete 3. Node 4 is left with left child 2 at its own level 1, a horizontal left link. Deleting the absent key 5 afterwards changes the tree (`Deletion.DeleteNodeAbsentRestructures`), which the absent-key no-op rules out. | Andersson's rebalancing after deletion: skew the node, its right child and its right-right grandchild, then split the node and its right child, so the AA level invariants hold after every deletion. | not executed | `Deletion.DeleteNodeBreaksLevels` | `Deletion.DeleteBalancedKeepsLevels` |
