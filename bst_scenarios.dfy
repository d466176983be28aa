/**
 * Small concrete trees worked through the operations: the shape `build_tree`
 * produces, what the traversals and measures report on it, and a deletion.
 */
module BstScenarios {
  import opened Bst
  import BstLemmas
  import BstLevels

  lemma SortThree()
    ensures SortUnique([1, 2, 3]) == [1, 2, 3]
  {
    BstLemmas.SortUniqueOfIncreasing([1, 2, 3]);
  }

  lemma SortTwo()
    ensures SortUnique([3, 1]) == [1, 3]
  {
    assert [3][..0] == [];
    assert [3, 1][..1] == [3];
  }

  lemma SortRepeated()
    ensures SortUnique([3, 1, 3]) == [1, 3]
  {
    SortTwo();
    assert [3, 1, 3][..2] == [3, 1];
    assert [1, 3][1..] == [3];
    assert InsertSorted([1, 3], 3) == [1] + InsertSorted([3], 3) == [1, 3];
  }

  lemma SortWithDuplicates()
    ensures SortUnique([3, 1, 3, 2]) == [1, 2, 3]
  {
    SortRepeated();
    InsertBetween();
    assert [3, 1, 3, 2][..3] == [3, 1, 3];
  }

  lemma InsertBetween()
    ensures InsertSorted([1, 3], 2) == [1, 2, 3]
  {
    assert [1, 3][1..] == [3];
    assert InsertSorted([3], 2) == [2, 3];
  }

  /** `Tree.new([1, 2, 3])`: 2 at the root, 1 and 3 below it. */
  lemma BuildThree()
    ensures Build([1, 2, 3]) == Node(Leaf(1), 2, Leaf(3))
  {
    SortThree();
    assert [1, 2, 3][..1] == [1] && [1, 2, 3][2..] == [3];
  }

  /** Duplicates collapse; the root is the middle of the sorted distinct values. */
  lemma BuildWithDuplicates()
    ensures Build([3, 1, 3, 2]) == Node(Leaf(1), 2, Leaf(3))
  {
    SortWithDuplicates();
    assert [1, 2, 3][..1] == [1] && [1, 2, 3][2..] == [3];
  }

  /**
   * The traversals and measures of the tree `BuildThree` shows `[1, 2, 3]`
   * builds; level order gives `[2, 1, 3]`.
   */
  lemma TraversalsOfThree()
    ensures LevelOrder(Node(Leaf(1), 2, Leaf(3))) == [2, 1, 3]
    ensures Inorder(Node(Leaf(1), 2, Leaf(3))) == [1, 2, 3]
    ensures Preorder(Node(Leaf(1), 2, Leaf(3))) == [2, 1, 3]
    ensures Postorder(Node(Leaf(1), 2, Leaf(3))) == [1, 3, 2]
    ensures Depth(Node(Leaf(1), 2, Leaf(3))) == 1
    ensures Balanced(Node(Leaf(1), 2, Leaf(3))) == Some(true)
  {
    LevelOrderOfThree();
    DepthFirstOfThree();
  }

  lemma DepthFirstOfThree()
    ensures Inorder(Node(Leaf(1), 2, Leaf(3))) == [1, 2, 3]
    ensures Preorder(Node(Leaf(1), 2, Leaf(3))) == [2, 1, 3]
    ensures Postorder(Node(Leaf(1), 2, Leaf(3))) == [1, 3, 2]
  {
  }

  lemma LevelOrderOfThree()
    ensures LevelOrder(Node(Leaf(1), 2, Leaf(3))) == [2, 1, 3]
  {
    var t := Node(Leaf(1), 2, Leaf(3));
    BstLevels.LevelOrderByLevels(t);
    assert Depth(t) == 1;
    assert BstLevels.Levels(t, 2, 2) == [];
    assert BstLevels.Level(t, 1) == [1, 3];
  }

  /** `depth` and `balanced?` of the empty tree and of a lone node. */
  lemma {:induction false} DepthOfSmallTrees(x: int)
    ensures Depth(Build([])) == -1 && Balanced(Build([])) == None
    ensures Depth(Build([x])) == 0 && Balanced(Build([x])) == Some(true)
  {
  }

  /** Deleting a node with two children copies up the least value of its right subtree. */
  lemma DeleteTwoChildren()
    ensures Delete(2, Node(Leaf(1), 2, Node(Leaf(3), 4, Nil))) == Node(Leaf(1), 3, Leaf(4))
  {
  }

  /** Deleting an absent value leaves the tree as it was. */
  lemma DeleteMissing()
    ensures Delete(7, Node(Leaf(1), 2, Leaf(3))) == Node(Leaf(1), 2, Leaf(3))
  {
  }
}
