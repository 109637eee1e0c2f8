# Tree-Lab search trees in Dafny

Tree-Lab implements three binary search trees over `int` keys in C++:

- a height-balanced AVL tree (`avl_tree.cpp`);
- a treap (`treap.cpp`), a tree ordered by key and heap-ordered by a random priority;
- an unbalanced search tree (`naive_tree.cpp`).

Each tree is a structure of heap-allocated nodes linked by `left`/`right` pointers. Every mutating routine returns the new root of the subtree it worked on, and the caller stores it.

The project models each tree at two levels.

- **A value-level model.** The modules `AvlModel`, `TreapModel` and `NaiveModel` each define an immutable `Tree` datatype. Functions on it compute exactly the tree each C routine leaves behind, including the stored AVL heights and the treap priorities. Lemmas prove what the routines promise:
  - search order, correct stored heights and balance factors in -1..1 for the AVL tree;
  - the in-order key sequence and max-heap order on priorities for the treap;
  - the key multiset for all three trees;
  - how the treap's `split` and `merge` cut and concatenate the in-order sequence, on which its insert and remove are built.
- **A heap-level model.** The modules `AvlTree`, `Treap` and `NaiveTree` model the pointer structure itself.
  - A `Node` class has the C node's fields, plus a ghost `Model` (the value-level tree it roots) and a ghost `Repr` (the nodes it owns).
  - A `Tree` class holds the root.
  - The methods mirror the C routines. They rewrite links and keys in place, walk cursors in `while` loops, and return the new root.
  - Each method is proved to leave behind exactly the value-level function of the old state, and to keep the node invariant `Valid()`.

Some of the code's behaviour differs from the plain description of these containers. The model follows the code in each case:

- **AVL tree.** Inserting a key that is already present changes nothing (`AvlModel.InsertPresentIsIdentity`). The key set is therefore a `set`.
- **Treap.** The treap stores duplicates. `split` sends keys `< k` to the left and keys `>= k` to the right. Insertion always adds a node, and removal isolates the keys in `[k, k+1)` and deletes only the root of that piece, so exactly one copy goes (`TreapModel.RemoveTakesOne`).
- **Unbalanced tree, duplicates.** This tree also stores duplicates: a key equal to a node's key goes to the node's left.
- **Unbalanced tree, order invariant.** Insertion alone keeps the strict order "left <= node < right" (`NaiveModel.InsertStrictOrdered`). A two-child erase can break it, however. It copies the right subtree's minimum into the node, and another copy of that minimum can remain in the right subtree (`NaiveModel.EraseBreaksStrictOrder` gives a concrete tree). The invariant the tree really keeps is the weak order "left <= node <= right" (`NaiveModel.Ordered`), and both insertion and erasure preserve it.

## Model

| member | source | states |
|---|---|---|
| AvlModel.Height | avl_tree.cpp:256-258 | height(): an absent subtree counts 0, a node reports its stored height field |
| AvlModel.Positive | avl_tree.cpp:241-246 | the stored-height invariant that create_node (line 222) and update_height establish: every stored height is at least 1; the value-level operations take it as their precondition |
| AvlModel.UpdateHeight | avl_tree.cpp:241-246 | update_height: the node's stored height becomes one more than the larger of its children's heights |
| AvlModel.BalanceFactor | avl_tree.cpp:249-253 | balance_factor: the right child's height minus the left child's |
| AvlModel.HeightsCorrect | avl_tree.cpp:241-246 | stored heights that obey the update rule are all positive |
| AvlModel.HeightIsDepth | avl_tree.cpp:241-246 | when every node's height field was set by update_height, the stored height equals the real depth of the subtree |
| AvlModel.RotateLeft | avl_tree.cpp:190-202 | the former right child becomes the root, with the old root as its left child; positive stored heights stay positive |
| AvlModel.RotateRight | avl_tree.cpp:204-216 | the former left child becomes the root, with the old root as its right child; positive stored heights stay positive |
| AvlModel.RotateLeftKeepsInOrder | avl_tree.cpp:190-202 | a left rotation keeps the in-order key sequence and the key set |
| AvlModel.RotateRightKeepsInOrder | avl_tree.cpp:204-216 | a right rotation keeps the in-order key sequence and the key set |
| AvlModel.Balance | avl_tree.cpp:261-281 | balance always returns a node, and keeps stored heights positive |
| AvlModel.BalanceKeepsInOrder | avl_tree.cpp:261-281 | balance, with any of its four rotation cases, keeps the in-order key sequence and the key set |
| AvlModel.BalanceKeepsValidNode | avl_tree.cpp:262-280 | a node that is already balanced with correct heights is returned unchanged |
| AvlModel.SingleLeftRotationRestores | avl_tree.cpp:273-278 | a right-heavy node by 2 whose right child does not lean left becomes a valid AVL tree after one left rotation, and its height grows by at most one over the heavy side |
| AvlModel.SingleRightRotationRestores | avl_tree.cpp:267-272 | the mirror case: a left-heavy node by 2 whose left child does not lean right is fixed by one right rotation |
| AvlModel.DoubleLeftRotationRestores | avl_tree.cpp:274-277 | when the right child leans left, rotating it right and then the node left gives a valid AVL tree of the heavy side's height |
| AvlModel.DoubleRightRotationRestores | avl_tree.cpp:268-271 | when the left child leans right, rotating it left and then the node right gives a valid AVL tree of the heavy side's height |
| AvlModel.SingleRotationFailsOnOppositeLean | avl_tree.cpp:274-275 | on the opposite lean, a single rotation leaves an unbalanced tree, which is why the double rotation is needed |
| AvlModel.JoinIsAvl | avl_tree.cpp:241-246 | two AVL trees whose heights differ by at most one, joined under a separating key with a refreshed height, form an AVL tree |
| AvlModel.BalanceRestores | avl_tree.cpp:261-281 | children that are AVL trees with heights differing by at most 2 are turned into an AVL tree with the same keys; the height is bounded on both sides, and exact when no rotation is needed |
| AvlModel.RebalanceRight | avl_tree.cpp:152-157 | replacing the right child by an AVL tree whose height changed by at most one and rebalancing gives an AVL tree with the expected keys and a height within one of the old height |
| AvlModel.RebalanceLeft | avl_tree.cpp:152-157 | the same for the left child |
| AvlModel.Insert | avl_tree.cpp:147-158 | insertion always returns a node, with positive heights |
| AvlModel.InsertCorrect | avl_tree.cpp:147-158 | on an AVL tree, node_insert yields an AVL tree whose key set is the old set plus the key, and whose height grows by at most one |
| AvlModel.InsertPresentIsIdentity | avl_tree.cpp:150 | inserting a key that is already present returns the tree unchanged |
| AvlModel.MinKey | avl_tree.cpp:284-287 | find_min: the key of the leftmost node |
| AvlModel.MinKeyIsLeast | avl_tree.cpp:284-287 | the leftmost key is in the tree and no key is smaller |
| AvlModel.OrderedInOrderIncreasing | avl_tree.cpp:152-155 | in a search-ordered tree the in-order sequence is strictly increasing and holds exactly the key set |
| AvlModel.DetachMin | avl_tree.cpp:290-298 | detach_min keeps stored heights positive |
| AvlModel.DetachMinCorrect | avl_tree.cpp:290-298 | on an AVL tree, detach_min removes exactly the minimum key and yields an AVL tree whose height drops by at most one |
| AvlModel.Remove | avl_tree.cpp:161-187 | removal keeps stored heights positive |
| AvlModel.RemoveCorrect | avl_tree.cpp:161-187 | on an AVL tree, node_remove yields an AVL tree whose key set is the old set minus the key, and whose height drops by at most one |
| AvlModel.SuccessorReplaceCorrect | avl_tree.cpp:180-186 | copying the right subtree's minimum into the matched node and detaching it from the right subtree removes exactly the matched key and keeps the AVL invariant |
| AvlModel.RemoveAbsentIsIdentity | avl_tree.cpp:162 | removing an absent key from a balanced tree with correct heights returns it unchanged |
| AvlTree.Node.constructor | avl_tree.cpp:219-225 | a fresh node is a valid one-node tree of height 1 |
| AvlTree.Height | avl_tree.cpp:256-258 | an absent subtree has height 0, and a node reports the height of the tree it roots |
| AvlTree.BalanceFactor | avl_tree.cpp:249-253 | reads the balance factor of the modelled node |
| AvlTree.UpdateHeight | avl_tree.cpp:241-246 | recomputes the node's height from its children and changes no link or key |
| AvlTree.RotateLeft | avl_tree.cpp:190-202 | rewrites the links in place so that the former right child is returned as the new root of the left-rotated tree, within the old nodes, keys unchanged |
| AvlTree.RotateRight | avl_tree.cpp:204-216 | the mirror of RotateLeft, returning the former left child |
| AvlTree.Balance | avl_tree.cpp:261-281 | rebalances in place, returning a valid node that roots the balanced tree, made only of the old nodes, and changes no key |
| AvlTree.FixLeftHeavy | avl_tree.cpp:267-272 | applies the right rotation, preceded by a left rotation of the left child exactly when that child leans right |
| AvlTree.FixRightHeavy | avl_tree.cpp:273-278 | applies the left rotation, preceded by a right rotation of the right child exactly when that child leans left |
| AvlTree.NodeInsert | avl_tree.cpp:147-158 | returns the new valid root of the tree with the key inserted; only the new node is fresh |
| AvlTree.FindMin | avl_tree.cpp:284-287 | returns null exactly for an empty tree, otherwise a node of the tree with no left child holding the minimum key |
| AvlTree.DetachMin | avl_tree.cpp:290-298 | returns the root of the tree with its minimum detached, within the old nodes, and changes no key |
| AvlTree.NodeRemove | avl_tree.cpp:161-187 | returns the root, possibly null, of the tree with the key removed, within the old nodes |
| AvlTree.RemoveMatched | avl_tree.cpp:174-186 | removes the node's own key, by splicing in its left child or by copying in the successor |
| AvlTree.Tree.constructor | avl_tree.cpp:109-115 | a new tree is empty and valid |
| AvlTree.Tree.Insert | avl_tree.cpp:129-135 | keeps the AVL invariant and adds the key to the key set |
| AvlTree.Tree.Remove | avl_tree.cpp:138-144 | keeps the AVL invariant and removes the key from the key set |
| TreapModel.Merge | treap.cpp:180-192 | merge: an absent operand gives the other; otherwise the root of higher priority, R on a tie, stays on top and the other operand is merged into its facing subtree |
| TreapModel.Split | treap.cpp:195-214 | split: a node whose key is below k goes to the first tree with the lower part of its right subtree; any other node goes to the second tree with the upper part of its left subtree |
| TreapModel.Insert | treap.cpp:124-133 | tree_insert: split at the key, then merge the lower part, a new node with the given priority, and the upper part |
| TreapModel.DropPieceRoot | treap.cpp:140-151 | the second split at key + 1, and the replacement of the isolated piece's root, if there is one, by the merge of its children, merged back with the upper part |
| TreapModel.Remove | treap.cpp:136-155 | tree_remove: split at the key, drop the root of the piece of equal keys from the upper part, and merge the parts again |
| TreapModel.MinKey | treap.cpp:217-220 | find_min: the key of the leftmost node |
| TreapModel.MergeInOrder | treap.cpp:180-192 | the in-order sequence of merge(L, R) is that of L followed by that of R |
| TreapModel.MergeRoot | treap.cpp:181-191 | an absent operand returns the other one; otherwise the root of higher priority becomes the root, and R wins ties |
| TreapModel.MergeBounded | treap.cpp:180-192 | merge introduces no priority above a common bound |
| TreapModel.MergeHeap | treap.cpp:184-191 | merging two max-heaps on priority gives a max-heap |
| TreapModel.SplitInOrder | treap.cpp:195-214 | the two halves of split, read in order and concatenated, give back the in-order sequence of the tree |
| TreapModel.SplitPartitions | treap.cpp:200-210 | on a sorted tree, every key below k goes to the left half and every key at or above k to the right half |
| TreapModel.SplitBounded | treap.cpp:195-214 | split introduces no priority above a bound of the tree |
| TreapModel.SplitHeap | treap.cpp:195-214 | both halves of a heap-ordered tree are heap-ordered |
| TreapModel.SplitTreap | treap.cpp:195-214 | split of a treap gives two treaps that partition its sequence at k |
| TreapModel.InsertAddsOne | treap.cpp:124-133 | insertion adds exactly one copy of the key to the multiset, even when the key is already present |
| TreapModel.InsertTreap | treap.cpp:124-133 | insertion keeps both the search order and the heap order |
| TreapModel.IsolatedPiece | treap.cpp:139-140 | the two splits cut a sorted tree into keys below k, keys equal to k and keys above k |
| TreapModel.RemovePieces | treap.cpp:139-140 | the three pieces, read in order, give back the in-order sequence of the tree |
| TreapModel.DropRootOfPiece | treap.cpp:142-146 | dropping the root of the piece of keys equal to k removes one copy of k from the multiset; a piece with no k is empty |
| TreapModel.RemoveInOrder | treap.cpp:139-152 | the in-order sequence after removal is the three pieces with the middle piece's root dropped |
| TreapModel.RemoveTakesOne | treap.cpp:136-155 | removal takes exactly one copy of the key out of the multiset, and leaves the sequence unchanged when the key is absent |
| TreapModel.RemoveSorted | treap.cpp:136-155 | removal keeps the in-order sequence sorted |
| TreapModel.RemoveHeap | treap.cpp:136-155 | removal keeps the heap order on priorities |
| TreapModel.RemoveCorrect | treap.cpp:136-155 | on a treap, tree_remove gives a treap whose multiset is the old one less one copy of the key |
| TreapModel.SearchStep | treap.cpp:232-235 | in a sorted tree, a key below the root can only be on the left and a key above the root only on the right |
| TreapModel.MinKeyFirst | treap.cpp:217-220 | the leftmost key is the first of the in-order sequence |
| TreapModel.MinKeyIsLeast | treap.cpp:217-220 | in a sorted tree the leftmost key is present and no key is smaller |
| Treap.Node.constructor | treap.cpp:158-164 | a fresh node, with the given priority, is a valid one-node treap |
| Treap.Merge | treap.cpp:180-192 | returns the merged tree built from the old nodes of both operands, the other operand when one is null, and otherwise R as the root when its priority is at least L's and L otherwise |
| Treap.MergeIntoLeft | treap.cpp:188-190 | R stays the root and its left child becomes the merge of L with it |
| Treap.MergeIntoRight | treap.cpp:184-186 | L stays the root and its right child becomes the merge of its right child with R |
| Treap.Split | treap.cpp:195-214 | returns two valid, disjoint trees built from the old nodes, and they model the split of the old tree |
| Treap.SplitRightOf | treap.cpp:200-205 | a node with a key below k keeps its left child and takes the lower part of its right child |
| Treap.SplitLeftOf | treap.cpp:206-211 | a node with a key at or above k keeps its right child and takes the upper part of its left child |
| Treap.FindMin | treap.cpp:217-220 | returns null exactly for an empty tree, otherwise a node of the tree with no left child holding the leftmost key |
| Treap.InsertAt | treap.cpp:127-130 | returns the valid root of split, create and merge; only the new node is fresh |
| Treap.DropPieceRoot | treap.cpp:142-151 | replaces the piece's root, if any, by the merge of its children |
| Treap.RemoveAt | treap.cpp:139-152 | returns the root after the two splits, the drop and the merges, and keeps the treap invariant |
| Treap.Tree.constructor | treap.cpp:104-110 | a new treap is empty and valid |
| Treap.Tree.Insert | treap.cpp:124-133 | keeps the treap invariant and adds one copy of the key to the multiset |
| Treap.Tree.Remove | treap.cpp:136-155 | keeps the treap invariant and leaves the removed tree of the value-level model |
| Treap.Tree.Find | treap.cpp:229-239 | returns null exactly when the key is absent, and otherwise a node of the tree holding the key |
| NaiveModel.Insert | naive_tree.cpp:106-136 | tree_insert: follow the keys down, right when the key is greater and left otherwise, and hang a new leaf on the empty slot reached |
| NaiveModel.MinKey | naive_tree.cpp:192-195 | node_min: the key of the leftmost node |
| NaiveModel.Erase | naive_tree.cpp:169-189 | node_erase: descend by key; a matched node with two children takes the least key of its right subtree, which is then erased there, and one with at most one child gives way to that child |
| NaiveModel.InsertAddsOne | naive_tree.cpp:106-136 | insertion adds exactly one copy of the key to the multiset |
| NaiveModel.InsertOrdered | naive_tree.cpp:117-131 | insertion keeps the weak order left <= node <= right |
| NaiveModel.InsertStrictOrdered | naive_tree.cpp:117-131 | insertion keeps the strict order left <= node < right, since equal keys go left |
| NaiveModel.InsertAboveChain | naive_tree.cpp:117-123 | a key above every key of a right chain extends the chain by one |
| NaiveModel.IncreasingInsertsMakeChain | naive_tree.cpp:117-123 | inserting strictly increasing keys builds a chain with no left child, holding those keys, whose depth equals the number of keys |
| NaiveModel.MinKeyIsLeast | naive_tree.cpp:192-195 | in an ordered tree the leftmost key is present and no key is smaller |
| NaiveModel.EraseAbsent | naive_tree.cpp:170-176 | erasing an absent key leaves the tree unchanged |
| NaiveModel.EraseCorrect | naive_tree.cpp:169-189 | on an ordered tree, erasure removes exactly one copy of the key from the multiset and keeps the order |
| NaiveModel.EraseOrdered | naive_tree.cpp:169-189 | erasure keeps the weak order |
| NaiveModel.EraseRightStep | naive_tree.cpp:172-173 | erasing on the right side removes one copy from the whole tree once it does so from the right subtree |
| NaiveModel.EraseLeftStep | naive_tree.cpp:175-176 | the same for the left side |
| NaiveModel.EraseSuccessorStep | naive_tree.cpp:178-181 | copying in the right subtree's minimum and erasing it from the right removes exactly the node's key and keeps the order |
| NaiveModel.EraseSpliceStep | naive_tree.cpp:182-186 | replacing a node that has at most one child by that child removes exactly its key and keeps the order |
| NaiveModel.EraseBreaksStrictOrder | naive_tree.cpp:178-181 | a concrete tree built by insertion is strictly ordered, but erasing its root leaves a key equal to the root in the right subtree |
| NaiveTree.Node.constructor | naive_tree.cpp:148-153 | a fresh node holds the key with no children and is a valid one-node tree |
| NaiveTree.NodeMin | naive_tree.cpp:192-195 | returns null exactly for an empty tree, otherwise a node of the tree with no left child holding the minimum key |
| NaiveTree.NodeErase | naive_tree.cpp:169-189 | returns the root, possibly null, of the tree with one copy of the key erased, within the old nodes |
| NaiveTree.EraseRight | naive_tree.cpp:172-173 | the node keeps its key and its right child becomes the right subtree with the key erased |
| NaiveTree.EraseLeft | naive_tree.cpp:175-176 | the node keeps its key and its left child becomes the left subtree with the key erased |
| NaiveTree.EraseSuccessor | naive_tree.cpp:178-181 | the node's key becomes the right subtree's minimum, and that minimum is erased from the right subtree |
| NaiveTree.FindSlot | naive_tree.cpp:116-133 | the search loop stops at a node of the tree whose child on the key's side is empty, along a path of linked nodes from the root |
| NaiveTree.Attach | naive_tree.cpp:117-131 | fills that empty child slot with a fresh one-node tree and changes nothing else of the node |
| NaiveTree.InsertBelow | naive_tree.cpp:116-133 | adds exactly one fresh leaf holding the key; no existing key changes, and every existing link is unchanged except the one empty slot that now holds the leaf |
| NaiveTree.Tree.constructor | naive_tree.cpp:86-92 | a new tree is empty and valid |
| NaiveTree.Tree.Insert | naive_tree.cpp:106-136 | keeps the order and adds exactly one fresh leaf holding the key, which becomes the root of an empty tree |
| NaiveTree.Tree.Erase | naive_tree.cpp:139-145 | keeps the order and leaves the erased tree of the value-level model, within the old nodes |

## Left out

- The `main` benchmark harness in each file (avl_tree.cpp:63-104, treap.cpp:58-99, naive_tree.cpp:42-81). It is random key generation, clock timing, floating-point averaging and printing; none of it is tree logic.
- `rand()` as the treap priority source (treap.cpp:161). The priority is a parameter of `Treap.Node.constructor`, `Treap.InsertAt` and `Treap.Tree.Insert`. Nothing about randomness or expected depth is stated.
- `calloc`/`free`, the allocation-failure `assert`s and the recursive destructors `free_node`, `node_destructor` and `tree_destructor`. Dafny allocation cannot fail and memory is garbage-collected. This includes the node naive_tree.cpp:182-186 drops without freeing, which is a leak with no logical effect.
- The null-pointer `assert`s on the `Tree *` argument. A Dafny reference to a `Tree` object is never null.
- C signed overflow of `key + 1` at `INT_MAX` (treap.cpp:140) and of the `int height` field. Keys and heights are mathematical integers, so the model describes the code for every key below `INT_MAX` and at every realistic size.
- `find_max` (treap.cpp:223-226), which nothing calls.
- The unreachable `return 1` of naive_tree.cpp:135. The loop always returns from inside.
- The C routines that dereference a node without checking it (rotate_left, rotate_right, update_height, balance_factor and balance, avl_tree.cpp:190-216 and 241-281) assert that it is not null. The model turns each assert into a precondition, such as `t.Branch?` or a non-null `node`. Separately, AvlModel.Insert, AvlModel.Remove, AvlModel.DetachMin and AvlModel.Balance require AvlModel.Positive: every stored height must be at least 1. The C code accepts a tree whose stored heights are 0 or negative, but no sequence of its own operations builds one (create_node sets 1 and update_height sets at least 1). The model says nothing about such trees.
- AvlTree.BalanceFactor and AvlTree.Height: these state agreement with the value-level model. They do not restate the arithmetic of the C functions.
- Treap.Tree.Remove: it does not itself state the multiset effect. That fact is TreapModel.RemoveCorrect about the value-level tree it ensures.
- Treap.Split: it states that the halves are disjoint and drawn from the old nodes. It does not state that every old node ends up in one of them.
- NaiveTree.Tree.Insert: it does not itself state that keys and existing links are unchanged. NaiveTree.InsertBelow states that frame.
- NaiveTree.Tree.Erase: it does not itself state the multiset effect. That fact is NaiveModel.EraseCorrect about the value-level tree it ensures.
- NaiveModel.Ordered: the invariant kept by the unbalanced tree is the weak order left <= node <= right, not the strict order; NaiveModel.EraseBreaksStrictOrder shows why.
