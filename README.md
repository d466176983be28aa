# Binary search tree of integers

A model of `binary_search_tree.rb`. That file defines two classes:

- `Node` holds a `data` value and two child links, `left_child` and `right_child`.
- `Tree` holds a `root` node and offers these operations:
  - construction from an array (`build_tree`);
  - `insert` and `delete`;
  - the lookups `find_min` and `find`;
  - four traversals (`level_order`, `inorder`, `preorder`, `postorder`);
  - the measures `depth` and `balanced?`;
  - `rebalance!`.

The model has two layers.

- **`Bst`** (`bst.dfy`) is the value layer. The datatype
  `Tree = Nil | Node(left, data, right)` is the abstract value of a node and
  everything below it. Each operation is a function on that value, and the
  read-only recursions of the source live here:
  - `find_min` and `find`;
  - the three depth-first traversals;
  - `depth` and `balanced?`.
- **`BinarySearchTree`** (`binary_search_tree.dfy`) is the object layer. It
  has classes `Node` and `Tree`, whose fields are updated in place as in the
  source.
  - Each node carries two ghost fields: `Repr`, the nodes of its subtree, and
    `Model`, the `Bst.Tree` value the subtree stands for.
  - `Valid()` links both ghost fields to the real fields.
  - `Tree.Valid()` also carries the class invariant that the tree is a search
    tree. Every operation on `Tree` keeps it, using the lemmas below.
  - `build_tree`, `insert`, `delete`, `level_order` and `rebalance!` are
    methods here, each proved against the matching `Bst` function. `insert`,
    `delete` and `rebalance!` turn `Model` into its result, `build_tree`
    builds nodes whose `Model` is it, and `level_order` changes nothing and
    returns it.

The properties are lemmas about those functions:

- **`BstLemmas`** (`bst_lemmas.dfy`):
  - ordering, stored values and traversal contents;
  - the shape and balance of a built tree;
  - what insertion and deletion do to a search tree;
  - the two places where the code departs from what it evidently intends.
- **`BstLevels`** (`bst_levels.dfy`): `level_order` emits the tree level by level.
- **`BstScenarios`** (`bst_scenarios.dfy`): small worked examples.

A *search tree* below means `Bst.IsBst`: every value in a left subtree is
smaller than the node's value, and every value in a right subtree is larger.

## Model

| member | source | states |
|---|---|---|
| BinarySearchTree.Node.constructor | binary_search_tree.rb:6-10 | a new node holds the given value and has no children |
| BinarySearchTree.BuildTree | binary_search_tree.rb:24-34 | builds fresh, well-formed nodes. The node graph's value is `Bst.Build` of the input: `nil` for an empty array, otherwise the tree of the sorted distinct values split at `length / 2` |
| BinarySearchTree.Tree.constructor | binary_search_tree.rb:20-22 | a new tree's root is the tree `build_tree` makes from the array |
| Bst.SortUnique | binary_search_tree.rb:28 | `sort!.uniq!` leaves the distinct values of the array in strictly ascending order. No value is added or lost, and the array is no longer than before |
| Bst.Build | binary_search_tree.rb:24-26 | the built tree is empty exactly when the array is empty |
| BstLemmas.BuildIsBst | binary_search_tree.rb:24-33 | the built tree is a search tree and holds exactly the array's values, once each. Its inorder sequence is strictly ascending |
| BstLemmas.BuildInorder | binary_search_tree.rb:24-33 | the inorder traversal of the built tree is the sorted, deduplicated array |
| BstLemmas.BuildNormalizes | binary_search_tree.rb:28 | building from the array gives the same tree as building from its sorted, deduplicated copy |
| BstLemmas.BuildRoot | binary_search_tree.rb:28-30 | the root holds the element at index `length / 2` of the sorted, deduplicated array |
| BstLemmas.BuildIsBalanced | binary_search_tree.rb:29-32 | the built tree is `balanced?` at its root. Its depth depends only on the number of distinct values n: it is `BuiltDepth(n)`, one more than for n / 2 |
| BstLemmas.BuildBalancedEverywhere | binary_search_tree.rb:24-33 | every node of a built tree, not only the root, passes `balanced?`, because each subtree is built from a middle split |
| BstLemmas.BuiltDepthIsLeast | binary_search_tree.rb:134-148 | no tree with n nodes has a `depth` smaller than `BuiltDepth(n)`, the depth of the tree built from n distinct values |
| BstLemmas.BuiltDepthHalves | binary_search_tree.rb:29-32 | the depths of the two halves of an n-value split differ by at most one |
| Bst.Rebalance | binary_search_tree.rb:166-171 | `rebalance!` rebuilds from the level-order snapshot, and the result is empty exactly when the tree was |
| BinarySearchTree.Node.Insert | binary_search_tree.rb:36-46 | insertion from a node whose child on the value's side exists, proved to carry out `Bst.Insert`. It raises `ValueAlreadyExists` without changing anything when a node on the path holds the value. Otherwise it hangs a fresh leaf below the child `temp` or carries on from `temp` |
| BinarySearchTree.Node.InsertBelow | binary_search_tree.rb:39-45 | the rest of `insert` with this node as `temp`, proved to carry out `Bst.InsertBelow`: a free left slot takes a smaller value, a free right slot a larger one, and otherwise insertion carries on from this node |
| Bst.Insert | binary_search_tree.rb:36-46 | the written `insert`, defined under `CanInsert`: it raises only when the value is stored. Otherwise the root keeps its value, and the result has one more node and exactly the old values plus the new one |
| Bst.InsertBelow | binary_search_tree.rb:39-45 | the step below the starting node has the same contract for the subtree `temp`: it raises only when the value is stored, and otherwise adds one node holding the value |
| Bst.InsertLeaf | binary_search_tree.rb:36-46 | insertion as intended, defined on every tree, the empty one included: it raises only when the value is stored, and otherwise adds one node and exactly the new value |
| BinarySearchTree.Tree.Insert | binary_search_tree.rb:36-46 | `insert(value)` from the root, under the same condition. The new tree is `Bst.Insert` of the old one |
| BstLemmas.InsertIsInsertLeaf | binary_search_tree.rb:36-46 | wherever the written insertion is defined, it agrees with leaf insertion |
| BstLemmas.InsertInBst | binary_search_tree.rb:36-46 | on a search tree, the written insertion raises exactly when the value is present. Otherwise the result is a search tree holding the old values plus the new one |
| BstLemmas.InsertLeafInBst | binary_search_tree.rb:36-46 | on a search tree, leaf insertion raises exactly when the value is present. Otherwise the result is a search tree with the old values plus the new one, `find` returns a leaf holding the value, and inserting the value again raises |
| BstLemmas.InsertLeafThenFind | binary_search_tree.rb:36-46 | in any tree, once leaf insertion succeeds, `find` reaches a leaf holding the value, and inserting the value a second time raises |
| BstLemmas.InsertLeafGrows | binary_search_tree.rb:37-44 | leaf insertion raises only when the value is in the tree. Otherwise it fills exactly one empty child position with a leaf holding the value |
| BstLemmas.GrowsByLeafContents | binary_search_tree.rb:40-42 | adding one leaf adds exactly that value and one node, and keeps every earlier value |
| BinarySearchTree.DeleteFrom | binary_search_tree.rb:48-69 | returns the root of the subtree that remains once the value is removed, and its value is `Bst.Delete` of the old subtree. The returned nodes are among the old ones. The old root itself is returned when it is kept; when the root is unlinked it is left untouched |
| BinarySearchTree.Node.DeleteLeft | binary_search_tree.rb:51-52 | deleting below a larger node replaces its left subtree by `Bst.Delete` of it, and changes nothing else of the node's value |
| BinarySearchTree.Node.DeleteRight | binary_search_tree.rb:53-54 | deleting below a smaller node replaces its right subtree by `Bst.Delete` of it, and changes nothing else of the node's value |
| BinarySearchTree.Node.TakeMin | binary_search_tree.rb:62-65 | a node with two children takes the value m that `find_min` reaches in its right subtree (the least one in a search tree), and its right subtree becomes `Bst.Delete` of m from it |
| BinarySearchTree.Tree.Delete | binary_search_tree.rb:48-69 | `delete(value)` from the root, as written. It returns the node graph of `Bst.Delete`, but `@root` ends up as `Bst.DeleteAsWritten`: unchanged when the root node itself is unlinked |
| Bst.DeleteAsWritten | binary_search_tree.rb:48-68 | what `@root` stands for after the written top-level `delete`: it never gains a value, and it never leaves a non-empty tree empty |
| Bst.Delete | binary_search_tree.rb:48-69 | deletion never adds a value |
| BstLemmas.DeleteAbsent | binary_search_tree.rb:49-54 | deleting an absent value returns the subtree unchanged |
| BstLemmas.DeleteInBst | binary_search_tree.rb:48-69 | on a search tree, deletion keeps the search-tree order, removes exactly the given value, and removes one node when the value was present |
| BstLemmas.MinMovedUp | binary_search_tree.rb:62-65 | copying up the least value of the right subtree, and deleting it there, keeps the search-tree order and removes exactly the node's old value |
| BstLemmas.Unlinked | binary_search_tree.rb:56-61 | a search-tree root with at most one child is replaced by that child, losing exactly its own value and one node |
| BinarySearchTree.Node.FindMin | binary_search_tree.rb:71-74 | returns a node of the subtree that has no left child and whose value is `Bst.FindMin` of the subtree |
| Bst.FindMin | binary_search_tree.rb:71-74 | the node found is a subtree of the input without a left child, and its value is stored in the tree |
| BstLemmas.FindMinIsLeast | binary_search_tree.rb:71-74 | in a search tree, `find_min` holds the least value |
| BinarySearchTree.Node.Find | binary_search_tree.rb:76-84 | returns a node of the subtree holding the value, or `null` where the source would dereference `nil`. It agrees with `Bst.Find` |
| Bst.Find | binary_search_tree.rb:76-84 | a node found is a subtree of the input and holds the value searched for |
| BstLemmas.FindInBst | binary_search_tree.rb:76-84 | in a search tree, `find` finds a node exactly when the value is stored |
| BinarySearchTree.LevelOrderFrom | binary_search_tree.rb:86-104 | the queue loop yields exactly `Bst.LevelOrder` of the subtree's value, and nothing for `nil` |
| Bst.Bfs | binary_search_tree.rb:94-103 | the FIFO queue loop yields one value per node of the subtrees in the queue |
| Bst.LevelOrder | binary_search_tree.rb:86-104 | `level_order` yields one value per node, starting with the root's value |
| BstLevels.LevelOrderByLevels | binary_search_tree.rb:86-104 | `level_order` yields the root's level, then each deeper level down to `depth`, each from left to right |
| BstLemmas.LevelOrderVisitsEachNodeOnce | binary_search_tree.rb:86-104 | `level_order` yields every stored value once per node |
| BstLemmas.LevelOrderElements | binary_search_tree.rb:86-104 | `level_order` yields exactly the stored values, and yields nothing only for an empty tree |
| BstLemmas.DepthFirstVisitsEachNodeOnce | binary_search_tree.rb:106-132 | `inorder`, `preorder` and `postorder` each yield every stored value once per node |
| Bst.Inorder | binary_search_tree.rb:106-114 | `inorder` yields one value per node |
| Bst.Preorder | binary_search_tree.rb:116-124 | `preorder` yields one value per node, starting with the root's value |
| Bst.Postorder | binary_search_tree.rb:126-132 | `postorder` yields one value per node, ending with the root's value |
| BstLemmas.BstIffInorderIncreasing | binary_search_tree.rb:106-114 | a tree is a search tree if and only if its inorder sequence is strictly ascending |
| BstLemmas.InorderElements | binary_search_tree.rb:106-114 | `inorder` yields exactly the stored values |
| Bst.Depth | binary_search_tree.rb:134-148 | `depth` is at least -1, and it is -1 exactly for `nil` |
| BstLevels.DepthIsDeepestLevel | binary_search_tree.rb:134-148 | the tree has a node at distance k from the root exactly when k is at most `depth` |
| BstLemmas.DepthBoundsSize | binary_search_tree.rb:134-148 | `depth` is less than the node count, and a tree of depth d has at most 2^(d+1) - 1 nodes |
| Bst.Balanced | binary_search_tree.rb:150-164 | `balanced?` returns `nil` exactly for an empty tree |
| BstLemmas.BalancedIsShallow | binary_search_tree.rb:150-164 | `balanced?` checks only the given node: a search tree can pass at its root while its left child fails |
| BinarySearchTree.Tree.Rebalance | binary_search_tree.rb:166-171 | the new root is `build_tree` of the level-order snapshot, so the value is `Bst.Rebalance` of the old value |
| BstLemmas.RebalanceKeepsValues | binary_search_tree.rb:166-171 | rebalancing keeps the stored values. The result is a search tree with a strictly ascending inorder sequence, is empty only if the tree was, and is `balanced?` at the root |
| BstLemmas.RebalanceKeepsInorder | binary_search_tree.rb:166-171 | rebalancing a search tree leaves its inorder sequence unchanged |
| BstLemmas.RebalanceBalancedEverywhere | binary_search_tree.rb:166-171 | after `rebalance!` every node passes `balanced?` |
| BstLemmas.InsertNeedsChildOnSide | binary_search_tree.rb:36-39 | on an empty tree, or where the root has no child on the value's side, the written insertion is undefined, while leaf insertion adds the value |
| BstLemmas.InsertBelowLoneRoot | binary_search_tree.rb:36-39 | inserting 3 into the tree built from `[5]` is undefined as written. As intended, it gives 5 with a left leaf 3 |
| BinarySearchTree.Tree.InsertIntended | binary_search_tree.rb:36-46 | insertion as intended: an empty tree gets the value as its root, and an empty slot receives the leaf. The new value is `Bst.InsertLeaf` of the old one |
| BinarySearchTree.Node.InsertIntended | binary_search_tree.rb:36-46 | intended insertion from a node: a value held by the node raises with nothing changed, an empty slot on the value's side receives the leaf, and otherwise the written insertion carries on. The new value is `Bst.InsertLeaf` of the old one |
| BstLemmas.DeleteAsWrittenKeepsRoot | binary_search_tree.rb:48-68 | when the root node holds the value and has at most one child, the written top-level delete leaves the value in the tree, while the intended deletion removes it |
| BstLemmas.DeleteLoneRoot | binary_search_tree.rb:48-68 | deleting 5 from the tree built from `[5]` leaves 5 as written. As intended, it leaves an empty tree |
| BinarySearchTree.Tree.DeleteIntended | binary_search_tree.rb:48-69 | deletion as intended: the returned subtree root becomes the tree's root, so the new value is `Bst.Delete` of the old one |
| BstScenarios.BuildThree | binary_search_tree.rb:24-33 | the tree built from `[1, 2, 3]` is 2 with leaves 1 and 3 |
| BstScenarios.BuildWithDuplicates | binary_search_tree.rb:24-33 | `[3, 1, 3, 2]` builds the same tree as `[1, 2, 3]`: duplicates collapse |
| BstScenarios.TraversalsOfThree | binary_search_tree.rb:86-164 | for the tree 2 with leaves 1 and 3 (the tree `BuildThree` shows `[1, 2, 3]` builds), level order is `[2, 1, 3]`, inorder `[1, 2, 3]`, preorder `[2, 1, 3]` and postorder `[1, 3, 2]`. Its depth is 1 and it is balanced |
| BstScenarios.DepthOfSmallTrees | binary_search_tree.rb:134-164 | the empty tree has depth -1 and `balanced?` is `nil`; a lone node has depth 0 and is balanced |
| BstScenarios.DeleteTwoChildren | binary_search_tree.rb:62-65 | deleting a node with two children copies up the least value of its right subtree |
| BstScenarios.DeleteMissing | binary_search_tree.rb:49-54 | deleting an absent value changes nothing |

## Left out

- The driver script at the end of the file (`binary_search_tree.rb:174` onward) is not modelled. It uses random input, console output and retry loops.
- The `Comparable` mixin and `<=>` on `Node` are not modelled. No tree operation uses them: every comparison is on `data`, which is modelled as an unbounded `int`.
- `Node.new` without an argument, which gives a `nil` value, is not modelled. The tree only creates nodes with a value.
- The thread-safety of Ruby's `Queue` is not modelled. `level_order` uses the queue sequentially, so it is a sequence used first-in, first-out.
- Blocks and `yield` are not modelled. A traversal returns the sequence of values it would yield, in order.
- BinarySearchTree.BuildTree: `sort!.uniq!` also sorts and deduplicates the caller's array in place. The model takes the values as an immutable sequence, so that side effect on the caller is not captured.
- Bst.FindMin: the source dereferences `nil` when `find_min` is called on an empty tree. The model requires a non-empty tree, here and in `BinarySearchTree.Node.FindMin`, which is only called on a node.
- BinarySearchTree.Node.Find: the source dereferences `nil` when the value is absent. The model returns `null` (in `Bst.Find`, `None`).
- BinarySearchTree.Node.Insert: the source dereferences `nil` in two places. One is a `nil` starting node, as on an insert into an empty tree (`root.data` at line 37). The other is a starting node with no child on the value's side (line 39). The written version requires a starting node and that child (`Bst.CanInsert`, and `root != null` in `BinarySearchTree.Tree.Insert`). Its corrected counterpart is described under Findings.
- `inorder`, `preorder`, `postorder`, `depth` and `balanced?` are functions on the abstract value of the nodes (`Model`), not on the node objects. They only read the nodes, and `Valid()` makes both views agree.
- `rebalance!` re-runs `initialize`. The model assigns the rebuilt root directly, which has the same effect.

## Findings

| source | as written | input that shows it | evidently intended | confidence | as-written member | corrected member |
|---|---|---|---|---|---|---|
| binary_search_tree.rb:38-39 | `temp` is the starting node's child on the value's side, and `temp.left_child` is read without checking `temp` for `nil` | `Tree.new([5]).insert(3)`; also any insert into `Tree.new([])` | an empty child position receives the new leaf | not executed | BstLemmas.InsertBelowLoneRoot | BinarySearchTree.Tree.InsertIntended |
| binary_search_tree.rb:48-68 | the top-level `delete` returns the new subtree root, but `@root` still refers to the old node | `Tree.new([5]).delete(5)` leaves 5 in the tree | `@root` takes the returned node | not executed | BstLemmas.DeleteLoneRoot | BinarySearchTree.Tree.DeleteIntended |
