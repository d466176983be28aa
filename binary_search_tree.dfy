/**
 * The objects of the binary search tree: `Node`, whose `data` and child links
 * insertion and deletion update in place, and `Tree`, which owns the root and
 * replaces it on a rebalance.
 *
 * Every node carries two ghost fields: `Repr`, the set of nodes of its subtree,
 * and `Model`, the `Bst.Tree` value the subtree stands for. `Valid()` ties both
 * to the real fields, so each method here is specified by the function of
 * module Bst it carries out.
 */
module BinarySearchTree {
  import Bst
  import BstLemmas

  /** Normal return, or the exception raised by `insert`. */
  datatype Outcome = Pass | Fail(error: Bst.Error)

  /** The value of a child reference: `Nil` for `nil`. */
  ghost function ModelOf(n: Node?): Bst.Tree
    reads n
  {
    if n == null then Bst.Nil else n.Model
  }

  ghost function ReprOf(n: Node?): set<object>
    reads n
  {
    if n == null then {} else n.Repr
  }

  /** A valid node's children are present exactly where its value has subtrees. */
  lemma {:induction false} NodeShape(n: Node)
    requires n.Valid()
    ensures n.Model.Node? && n.Model.data == n.data
    ensures n.leftChild == null <==> n.Model.left.Nil?
    ensures n.rightChild == null <==> n.Model.right.Nil?
  {
    if n.leftChild != null {
      assert n.leftChild.Valid();
    }
    if n.rightChild != null {
      assert n.rightChild.Valid();
    }
  }

  class Node {
    var data: int
    var leftChild: Node?
    var rightChild: Node?

    ghost var Model: Bst.Tree
    ghost var Repr: set<object>

    ghost predicate Valid()
      reads this, Repr
      decreases Repr
    {
      this in Repr &&
      (leftChild != null ==>
        leftChild in Repr && leftChild.Repr <= Repr && this !in leftChild.Repr &&
        leftChild.Valid()) &&
      (rightChild != null ==>
        rightChild in Repr && rightChild.Repr <= Repr && this !in rightChild.Repr &&
        rightChild.Valid()) &&
      (leftChild != null && rightChild != null ==> leftChild.Repr !! rightChild.Repr) &&
      Model == Bst.Node(ModelOf(leftChild), data, ModelOf(rightChild))
    }

    /** `Node.new(data)`: a node without children. */
    constructor (data: int)
      ensures Valid() && fresh(Repr) && Repr == {this}
      ensures this.data == data && leftChild == null && rightChild == null
      ensures Model == Bst.Leaf(data)
    {
      this.data := data;
      leftChild := null;
      rightChild := null;
      Model := Bst.Leaf(data);
      Repr := {this};
    }

    /**
     * `insert(value, root)` with this node as `root`: raise if this node holds
     * the value, otherwise continue below, from the child `temp` on the value's
     * side. Nothing changes before the exception is raised.
     */
    method Insert(value: int) returns (outcome: Outcome)
      requires Valid()
      requires Bst.CanInsert(value, Model)
      modifies Repr
      ensures Valid() && fresh(Repr - old(Repr))
      ensures match Bst.Insert(value, old(Model))
        case Ok(t) => outcome == Pass && Model == t
        case Err(e) => outcome == Fail(e) && Model == old(Model)
      decreases Repr, 0
    {
      if data == value {
        return Fail(Bst.ValueAlreadyExists);
      }
      NodeShape(this);
      var temp := if value > data then rightChild else leftChild;
      ghost var other := if value > data then leftChild else rightChild;
      assert other != null ==> temp.Repr !! other.Repr && other.Valid();
      outcome := temp.InsertBelow(value);
      Relink();
    }

    /**
     * The rest of `insert` with this node as `temp`: hang a new leaf in a free
     * slot on the value's side, or carry on with `insert(value, temp)`.
     */
    method InsertBelow(value: int) returns (outcome: Outcome)
      requires Valid()
      modifies Repr
      ensures Valid() && fresh(Repr - old(Repr))
      ensures match Bst.InsertBelow(value, old(Model))
        case Ok(t) => outcome == Pass && Model == t
        case Err(e) => outcome == Fail(e) && Model == old(Model)
      decreases Repr, 1
    {
      NodeShape(this);
      if leftChild == null && value < data {
        AttachLeft(value);
        outcome := Pass;
      } else if rightChild == null && value > data {
        AttachRight(value);
        outcome := Pass;
      } else {
        outcome := Insert(value);
      }
    }

    /**
     * Insertion as intended, from this node: raise if it holds the value; an
     * empty slot on the value's side receives the new leaf; otherwise carry on
     * from the child on that side, as `insert` does.
     */
    method InsertIntended(value: int) returns (outcome: Outcome)
      requires Valid()
      modifies Repr
      ensures Valid() && fresh(Repr - old(Repr))
      ensures match Bst.InsertLeaf(value, old(Model))
        case Ok(t) => outcome == Pass && Model == t
        case Err(e) => outcome == Fail(e) && Model == old(Model)
    {
      if data == value {
        return Fail(Bst.ValueAlreadyExists);
      }
      NodeShape(this);
      var side := if value > data then rightChild else leftChild;
      if side == null {
        if value > data {
          AttachRight(value);
        } else {
          AttachLeft(value);
        }
        outcome := Pass;
      } else {
        BstLemmas.InsertIsInsertLeaf(value, Model);
        outcome := Insert(value);
      }
    }

    /** Re-establishes `Valid()` after a child's subtree changed in place. */
    ghost method Relink()
      requires this !in ReprOf(leftChild) && this !in ReprOf(rightChild)
      requires leftChild != null ==> leftChild.Valid()
      requires rightChild != null ==> rightChild.Valid()
      requires leftChild != null && rightChild != null ==> leftChild.Repr !! rightChild.Repr
      modifies this
      ensures Valid() && Repr == old(Repr) + {this} + ReprOf(leftChild) + ReprOf(rightChild)
      ensures data == old(data) && leftChild == old(leftChild) && rightChild == old(rightChild)
      ensures Model == Bst.Node(ModelOf(leftChild), data, ModelOf(rightChild))
    {
      Repr := Repr + {this} + ReprOf(leftChild) + ReprOf(rightChild);
      Model := Bst.Node(ModelOf(leftChild), data, ModelOf(rightChild));
    }

    /** `left_child = Node.new(value)` on a node without a left child. */
    method AttachLeft(value: int)
      requires Valid() && leftChild == null
      modifies this
      ensures Valid() && fresh(Repr - old(Repr)) && old(Repr) <= Repr
      ensures Model == old(Model).(left := Bst.Leaf(value))
    {
      var leaf := new Node(value);
      leftChild := leaf;
      Repr := Repr + {leaf};
      Model := Bst.Node(leaf.Model, data, ModelOf(rightChild));
    }

    /** `right_child = Node.new(value)` on a node without a right child. */
    method AttachRight(value: int)
      requires Valid() && rightChild == null
      modifies this
      ensures Valid() && fresh(Repr - old(Repr)) && old(Repr) <= Repr
      ensures Model == old(Model).(right := Bst.Leaf(value))
    {
      var leaf := new Node(value);
      rightChild := leaf;
      Repr := Repr + {leaf};
      Model := Bst.Node(ModelOf(leftChild), data, leaf.Model);
    }

    /** `left_child = left; right_child = right` on a node built without children. */
    method Adopt(left: Node?, right: Node?)
      requires Valid() && leftChild == null && rightChild == null
      requires left != null ==> left.Valid() && this !in left.Repr
      requires right != null ==> right.Valid() && this !in right.Repr
      requires left != null && right != null ==> left.Repr !! right.Repr
      modifies this
      ensures Valid() && Repr == old(Repr) + ReprOf(left) + ReprOf(right)
      ensures data == old(data) && leftChild == left && rightChild == right
      ensures Model == Bst.Node(ModelOf(left), data, ModelOf(right))
    {
      leftChild := left;
      rightChild := right;
      Repr := Repr + ReprOf(left) + ReprOf(right);
      Model := Bst.Node(ModelOf(left), data, ModelOf(right));
    }

    /** `root.left_child = delete(value, root.left_child)` with this node as `root`. */
    method DeleteLeft(value: int)
      requires Valid()
      modifies Repr
      ensures Valid() && Repr <= old(Repr) && data == old(data)
      ensures Model == old(Model).(left := Bst.Delete(value, old(Model).left))
      decreases Repr, 0
    {
      NodeShape(this);
      assert rightChild != null ==> rightChild.Valid();
      assert leftChild != null && rightChild != null ==> leftChild.Repr !! rightChild.Repr;
      var left := DeleteFrom(value, leftChild);
      leftChild := left;
      Relink();
    }

    /** `root.right_child = delete(value, root.right_child)` with this node as `root`. */
    method DeleteRight(value: int)
      requires Valid()
      modifies Repr
      ensures Valid() && Repr <= old(Repr) && data == old(data)
      ensures Model == old(Model).(right := Bst.Delete(value, old(Model).right))
      decreases Repr, 0
    {
      NodeShape(this);
      assert leftChild != null ==> leftChild.Valid();
      assert leftChild != null && rightChild != null ==> leftChild.Repr !! rightChild.Repr;
      var right := DeleteFrom(value, rightChild);
      rightChild := right;
      Relink();
    }

    /**
     * The two-children case of `delete` with this node as `root`: copy up the
     * value `find_min` reaches in the right subtree (the least one in a search
     * tree), then delete that value from the right subtree.
     */
    method TakeMin()
      requires Valid() && leftChild != null && rightChild != null
      modifies Repr
      ensures Valid() && Repr <= old(Repr)
      ensures old(Model).right.Node? && var m := Bst.FindMin(old(Model).right).data;
        Model == Bst.Node(old(Model).left, m, Bst.Delete(m, old(Model).right))
      decreases Repr, 0
    {
      NodeShape(this);
      assert leftChild.Valid() && leftChild.Repr !! rightChild.Repr;
      var temp := rightChild.FindMin();
      data := temp.data;
      var right := DeleteFrom(data, rightChild);
      rightChild := right;
      Relink();
    }

    /** The children `level_order` enqueues after visiting this node: left, then right. */
    function Children(): seq<Node>
      reads this
    {
      (if leftChild == null then [] else [leftChild]) +
      (if rightChild == null then [] else [rightChild])
    }

    /** `find_min(root)` with this node as `root`. */
    function FindMin(): (m: Node)
      reads Repr
      requires Valid()
      ensures m in Repr && m.Repr <= Repr && m.Valid()
      ensures m.leftChild == null && m.Model == Bst.FindMin(Model)
      decreases Repr
    {
      if leftChild == null then this else leftChild.FindMin()
    }

    /**
     * `find(value, root)` with this node as `root`; `null` where the source
     * dereferences `nil` because the value is not on the search path.
     */
    function Find(value: int): (n: Node?)
      reads Repr
      requires Valid()
      ensures n != null ==> n in Repr && n.Repr <= Repr && n.Valid() && n.data == value
      ensures Bst.Find(value, Model) == if n == null then Bst.None else Bst.Some(n.Model)
      decreases Repr
    {
      if value < data then
        (if leftChild == null then null else leftChild.Find(value))
      else if value > data then
        (if rightChild == null then null else rightChild.Find(value))
      else
        this
    }
  }

  /**
   * `build_tree(array)`: the sorted, deduplicated array is split at
   * `length / 2`; the two halves become the children.
   */
  method BuildTree(values: seq<int>) returns (root: Node?)
    ensures root != null ==> root.Valid() && fresh(root.Repr)
    ensures ModelOf(root) == Bst.Build(values)
    decreases |values|
  {
    if |values| == 0 {
      return null;
    }
    if |values| < 2 {
      root := new Node(values[0]);
      return;
    }
    var sorted := Bst.SortUnique(values);
    BstLemmas.BuildUnsorted(values, sorted);
    var mid := |sorted| / 2;
    root := new Node(sorted[mid]);
    var left := BuildTree(sorted[..mid]);
    var right := BuildTree(sorted[mid + 1..]);
    root.Adopt(left, right);
  }

  /**
   * `delete(value, root)`: the root of the subtree that replaces `root` once
   * `value` is removed. Nodes on the search path are updated in place; a node
   * with two children takes over the value `find_min` reaches in its right
   * subtree (the least one in a search tree).
   */
  method DeleteFrom(value: int, root: Node?) returns (newRoot: Node?)
    requires root != null ==> root.Valid()
    modifies ReprOf(root)
    ensures newRoot != null ==> newRoot.Valid() && newRoot.Repr <= old(ReprOf(root))
    ensures ModelOf(newRoot) == Bst.Delete(value, old(ModelOf(root)))
    ensures root != null ==>
      if old(root.data) == value && (old(root.leftChild) == null || old(root.rightChild) == null)
      then unchanged(old(root.Repr))
      else newRoot == root
    decreases ReprOf(root), 1
  {
    if root == null {
      return null;
    }
    NodeShape(root);
    if value < root.data {
      root.DeleteLeft(value);
      newRoot := root;
    } else if value > root.data {
      root.DeleteRight(value);
      newRoot := root;
    } else if root.leftChild == null && root.rightChild == null {
      newRoot := null;
    } else if root.leftChild == null {
      newRoot := root.rightChild;
    } else if root.rightChild == null {
      newRoot := root.leftChild;
    } else {
      root.TakeMin();
      newRoot := root;
    }
  }

  /** The values of the subtrees a queue of nodes holds, front first. */
  ghost function Models(queue: seq<Node>): seq<Bst.Tree>
    reads set n | n in queue
  {
    if queue == [] then [] else [queue[0].Model] + Models(queue[1..])
  }

  lemma {:induction false} ModelsAppend(a: seq<Node>, b: seq<Node>)
    ensures Models(a + b) == Models(a) + Models(b)
  {
    if a == [] {
      assert a + b == b;
    } else {
      assert (a + b)[1..] == a[1..] + b;
      ModelsAppend(a[1..], b);
    }
  }

  lemma {:induction false} Single(n: Node)
    ensures Models([n]) == [n.Model]
  {
    assert [n][1..] == [];
  }

  /** The children a valid node enqueues stand for the non-empty subtrees of its value. */
  lemma {:induction false} ChildrenModels(n: Node)
    requires n.Valid()
    ensures forall c :: c in n.Children() ==> c.Valid()
    ensures Models(n.Children()) == Bst.Kids(n.Model)
  {
    NodeShape(n);
    var l := if n.leftChild == null then [] else [n.leftChild];
    var r := if n.rightChild == null then [] else [n.rightChild];
    if n.leftChild != null {
      Single(n.leftChild);
    }
    if n.rightChild != null {
      Single(n.rightChild);
    }
    ModelsAppend(l, r);
  }

  /** One round of the level-order loop: visit the front node, enqueue its children. */
  lemma {:induction false} LevelOrderStep(queue: seq<Node>)
    requires queue != [] && forall n :: n in queue ==> n.Valid()
    ensures forall n :: n in queue[1..] + queue[0].Children() ==> n.Valid()
    ensures Bst.Bfs(Models(queue)) ==
      [queue[0].data] + Bst.Bfs(Models(queue[1..] + queue[0].Children()))
    ensures Bst.ForestSize(Models(queue[1..] + queue[0].Children())) <
      Bst.ForestSize(Models(queue))
  {
    var current := queue[0];
    NodeShape(current);
    ChildrenModels(current);
    ModelsAppend(queue[1..], current.Children());
    var rest := Models(queue[1..]);
    assert Models(queue) == [current.Model] + rest;
    Bst.ForestSizeAppend(rest, Bst.Kids(current.Model));
    Bst.KidsSize(current.Model);
  }

  /**
   * `level_order(root)`: a FIFO queue that starts with the root; each node
   * taken from the front is visited, then its left and its right child are
   * enqueued when present.
   */
  method LevelOrderFrom(root: Node?) returns (values: seq<int>)
    requires root != null ==> root.Valid()
    ensures values == Bst.LevelOrder(ModelOf(root))
  {
    values := [];
    if root == null {
      return;
    }
    var queue: seq<Node> := [root];
    while queue != []
      invariant forall n :: n in queue ==> n.Valid()
      invariant values + Bst.Bfs(Models(queue)) == Bst.Bfs([root.Model])
      decreases Bst.ForestSize(Models(queue)), |queue|
    {
      var current := queue[0];
      LevelOrderStep(queue);
      queue := queue[1..] + current.Children();
      values := values + [current.data];
    }
  }

  class Tree {
    var root: Node?
    ghost var Repr: set<object>

    /** The node graph is well formed and, as a class invariant, a search tree. */
    ghost predicate Valid()
      reads this, Repr
    {
      this in Repr &&
      (root != null ==> root in Repr && root.Repr <= Repr && this !in root.Repr && root.Valid()) &&
      Bst.IsBst(ModelOf(root))
    }

    /** The value the whole tree stands for. */
    ghost function Model(): Bst.Tree
      reads this, root
    {
      ModelOf(root)
    }

    /** `Tree.new(array)`: the root is `build_tree(array)`. */
    constructor (values: seq<int>)
      ensures Valid() && fresh(Repr)
      ensures Model() == Bst.Build(values)
    {
      var built := BuildTree(values);
      BstLemmas.BuiltIsBst(values);
      root := built;
      new;
      Repr := {this} + ReprOf(root);
    }

    /** `insert(value)` from the root, as written: the root and its child on the value's side must exist. */
    method Insert(value: int) returns (outcome: Outcome)
      requires Valid()
      requires root != null && Bst.CanInsert(value, root.Model)
      modifies Repr
      ensures Valid() && fresh(Repr - old(Repr))
      ensures match Bst.Insert(value, old(Model()))
        case Ok(t) => outcome == Pass && Model() == t
        case Err(e) => outcome == Fail(e) && Model() == old(Model())
    {
      BstLemmas.InsertInBst(value, root.Model);
      outcome := root.Insert(value);
      Repr := Repr + root.Repr;
    }

    /**
     * Insertion as intended: an empty tree gets the value as its root, and an
     * empty slot below the root receives the new leaf.
     */
    method InsertIntended(value: int) returns (outcome: Outcome)
      requires Valid()
      modifies Repr
      ensures Valid() && fresh(Repr - old(Repr))
      ensures match Bst.InsertLeaf(value, old(Model()))
        case Ok(t) => outcome == Pass && Model() == t
        case Err(e) => outcome == Fail(e) && Model() == old(Model())
    {
      BstLemmas.InsertLeafIsBst(value, Model());
      if root == null {
        root := new Node(value);
        Repr := Repr + root.Repr;
        return Pass;
      }
      outcome := root.InsertIntended(value);
      Repr := Repr + root.Repr;
    }

    /**
     * `delete(value)` from the root, as written: it returns the new subtree
     * root without storing it in `@root`.
     */
    method Delete(value: int) returns (newRoot: Node?)
      requires Valid()
      modifies Repr
      ensures Valid() && Repr == old(Repr)
      ensures newRoot != null ==> newRoot.Valid()
      ensures ModelOf(newRoot) == Bst.Delete(value, old(Model()))
      ensures Model() == Bst.DeleteAsWritten(value, old(Model()))
    {
      if root != null {
        NodeShape(root);
      }
      BstLemmas.DeleteInBst(value, Model());
      newRoot := DeleteFrom(value, root);
    }

    /** Deletion as intended: the new subtree root becomes `@root`. */
    method DeleteIntended(value: int)
      requires Valid()
      modifies Repr
      ensures Valid() && Repr == old(Repr)
      ensures Model() == Bst.Delete(value, old(Model()))
    {
      BstLemmas.DeleteInBst(value, Model());
      root := DeleteFrom(value, root);
    }

    /** `rebalance!`: snapshot the values in level order and rebuild from them. */
    method Rebalance()
      requires Valid()
      modifies Repr
      ensures Valid() && fresh(Repr - old(Repr))
      ensures Model() == Bst.Rebalance(old(Model()))
    {
      BstLemmas.RebalancedIsBst(Model());
      var newArray := LevelOrderFrom(root);
      root := BuildTree(newArray);
      Repr := {this} + ReprOf(root);
    }
  }
}
