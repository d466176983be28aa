/**
 * The value a graph of `Node` objects stands for, and every operation of the
 * binary search tree stated on that value.
 *
 * A `Tree` is what a node reference denotes: `Nil` for a missing child (Ruby's
 * `nil`), `Node(left, data, right)` for a node and the subtrees hanging from
 * it. The imperative layer (module BinarySearchTree) is proved against the
 * functions of this module; the properties of those functions are proved in
 * module BstLemmas.
 */
module Bst {

  datatype Option<T> = None | Some(value: T)

  /** The one exception the tree raises on purpose: "Value already exists". */
  datatype Error = ValueAlreadyExists

  datatype Result<T> = Ok(value: T) | Err(error: Error)

  datatype Tree = Nil | Node(left: Tree, data: int, right: Tree)

  function Leaf(v: int): Tree {
    Node(Nil, v, Nil)
  }

  function Abs(x: int): nat {
    if x < 0 then -x else x
  }

  // ---------------------------------------------------------------------------
  // Measures of a tree's contents

  /** Number of nodes. */
  function Size(t: Tree): nat {
    match t
    case Nil => 0
    case Node(l, _, r) => Size(l) + 1 + Size(r)
  }

  /** The values stored in the nodes. */
  function Elements(t: Tree): set<int> {
    match t
    case Nil => {}
    case Node(l, d, r) => Elements(l) + {d} + Elements(r)
  }

  /** The values stored in the nodes, one occurrence per node. */
  function Values(t: Tree): multiset<int> {
    match t
    case Nil => multiset{}
    case Node(l, d, r) => Values(l) + multiset{d} + Values(r)
  }

  /** `s` is `t` itself or a subtree hanging somewhere below it. */
  predicate IsSubtree(s: Tree, t: Tree) {
    s == t || (t.Node? && (IsSubtree(s, t.left) || IsSubtree(s, t.right)))
  }

  /**
   * Strict BST ordering: at every node, every value in the left subtree is
   * smaller and every value in the right subtree is larger than the node's.
   */
  ghost predicate IsBst(t: Tree) {
    match t
    case Nil => true
    case Node(l, d, r) =>
      IsBst(l) && IsBst(r) &&
      (forall x :: x in Elements(l) ==> x < d) &&
      (forall x :: x in Elements(r) ==> d < x)
  }

  // ---------------------------------------------------------------------------
  // Sequences

  function SetOf(s: seq<int>): set<int> {
    set x | x in s
  }

  predicate StrictlyIncreasing(s: seq<int>) {
    forall i, j :: 0 <= i < j < |s| ==> s[i] < s[j]
  }

  /** Putting a value smaller than every element in front keeps a sequence strictly increasing. */
  lemma {:induction false} ConsIncreasing(d: int, s: seq<int>)
    requires StrictlyIncreasing(s)
    requires s == [] || d < s[0]
    ensures StrictlyIncreasing([d] + s)
    ensures SetOf([d] + s) == {d} + SetOf(s)
  {
    var r := [d] + s;
    forall i, j | 0 <= i < j < |r|
      ensures r[i] < r[j]
    {
      if i == 0 && j > 1 {
        assert r[j] == s[j - 1] && s[0] < s[j - 1];
      }
    }
    forall y | y in r
      ensures y in {d} + SetOf(s)
    {
      var k :| 0 <= k < |r| && r[k] == y;
      if k > 0 {
        assert s[k - 1] == y;
      }
    }
  }

  /** The head of a strictly increasing sequence is below every later element. */
  lemma {:induction false} HeadBelowTail(s: seq<int>, y: int)
    requires StrictlyIncreasing(s) && s != [] && y in SetOf(s[1..])
    ensures s[0] < y
  {
    var k :| 0 <= k < |s[1..]| && s[1..][k] == y;
    assert s[k + 1] == y;
  }

  /** Puts `x` into its place in the strictly increasing `s`, unless it is already there. */
  function InsertSorted(s: seq<int>, x: int): (r: seq<int>)
    requires StrictlyIncreasing(s)
    ensures StrictlyIncreasing(r)
    ensures SetOf(r) == SetOf(s) + {x}
    ensures |r| <= |s| + 1
  {
    if s == [] then
      ConsIncreasing(x, []);
      [x]
    else if x < s[0] then
      ConsIncreasing(x, s);
      [x] + s
    else if x == s[0] then
      s
    else
      var rest := InsertSorted(s[1..], x);
      KeepHead(s, x, rest);
      [s[0]] + rest
  }

  /** The head of `s` stays in front of `x` and the rest of `s` put in order. */
  lemma {:induction false} KeepHead(s: seq<int>, x: int, rest: seq<int>)
    requires StrictlyIncreasing(s) && s != [] && s[0] < x
    requires StrictlyIncreasing(rest) && SetOf(rest) == SetOf(s[1..]) + {x}
    ensures StrictlyIncreasing([s[0]] + rest)
    ensures SetOf([s[0]] + rest) == SetOf(s) + {x}
  {
    assert s == [s[0]] + s[1..];
    ConsIncreasing(s[0], s[1..]);
    if rest != [] && rest[0] != x {
      assert rest[0] in SetOf(rest);
      HeadBelowTail(s, rest[0]);
    }
    ConsIncreasing(s[0], rest);
  }

  /**
   * What Ruby's `array.sort!.uniq!` leaves in the array: the distinct values
   * of `s` in ascending order.
   */
  function SortUnique(s: seq<int>): (r: seq<int>)
    ensures StrictlyIncreasing(r)
    ensures SetOf(r) == SetOf(s)
    ensures |r| <= |s|
  {
    if s == [] then []
    else
      assert SetOf(s) == SetOf(s[..|s| - 1]) + {s[|s| - 1]} by {
        assert s == s[..|s| - 1] + [s[|s| - 1]];
      }
      InsertSorted(SortUnique(s[..|s| - 1]), s[|s| - 1])
  }

  // ---------------------------------------------------------------------------
  // Construction: Tree#build_tree

  /**
   * `build_tree(array)`: nothing for an empty array, a single node for a
   * one-element array (taken before any sorting), and otherwise the middle
   * element of the sorted, deduplicated array over the trees built from the
   * elements before and after it.
   */
  function Build(a: seq<int>): (t: Tree)
    ensures t.Nil? <==> a == []
    decreases |a|
  {
    if |a| == 0 then Nil
    else if |a| < 2 then Leaf(a[0])
    else
      var s := SortUnique(a);
      assert a[0] in SetOf(s);
      var mid := |s| / 2;
      Node(Build(s[..mid]), s[mid], Build(s[mid + 1..]))
  }

  /** `rebalance!`: rebuild from the level-order snapshot. */
  function Rebalance(t: Tree): (r: Tree)
    ensures r.Nil? <==> t.Nil?
  {
    Build(LevelOrder(t))
  }

  // ---------------------------------------------------------------------------
  // Insertion: Tree#insert, as written and as intended

  /** The child the descent for `v` moves to from the node `t`. */
  function Side(v: int, t: Tree): Tree
    requires t.Node?
  {
    if v > t.data then t.right else t.left
  }

  /**
   * What `insert(value, root)` needs not to dereference `nil`: a starting node,
   * and, unless that node already holds the value, a child on the value's side.
   */
  predicate CanInsert(v: int, t: Tree) {
    t.Node? && (v != t.data ==> Side(v, t).Node?)
  }

  /**
   * `insert(value, root)` as written: it raises at a node holding the value;
   * otherwise the step below, from the child `temp` on the value's side,
   * produces the new `temp`.
   */
  function Insert(v: int, t: Tree): (r: Result<Tree>)
    requires CanInsert(v, t)
    ensures r.Err? ==> v in Elements(t)
    ensures r.Ok? ==> r.value.Node? && r.value.data == t.data
    ensures r.Ok? ==> Size(r.value) == Size(t) + 1 && Elements(r.value) == Elements(t) + {v}
    decreases t, 0
  {
    if t.data == v then Err(ValueAlreadyExists)
    else
      match InsertBelow(v, Side(v, t))
      case Err(e) => Err(e)
      case Ok(temp') => Ok(if v > t.data then t.(right := temp') else t.(left := temp'))
  }

  /**
   * The step below `insert`'s starting node: `temp` takes a new leaf in a free
   * slot on the value's side, or insertion carries on from `temp`.
   */
  function InsertBelow(v: int, temp: Tree): (r: Result<Tree>)
    requires temp.Node?
    ensures r.Err? ==> v in Elements(temp)
    ensures r.Ok? ==> r.value.Node? && r.value.data == temp.data
    ensures r.Ok? ==> Size(r.value) == Size(temp) + 1 && Elements(r.value) == Elements(temp) + {v}
    decreases temp, 1
  {
    if temp.left.Nil? && v < temp.data then Ok(temp.(left := Leaf(v)))
    else if temp.right.Nil? && v > temp.data then Ok(temp.(right := Leaf(v)))
    else Insert(v, temp)
  }

  /**
   * Insertion as the tree evidently intends it: the same descent, but an empty
   * position (an empty tree included) receives the new leaf.
   */
  function InsertLeaf(v: int, t: Tree): (r: Result<Tree>)
    ensures r.Err? ==> v in Elements(t)
    ensures r.Ok? ==> Size(r.value) == Size(t) + 1 && Elements(r.value) == Elements(t) + {v}
  {
    match t
    case Nil => Ok(Leaf(v))
    case Node(l, d, r) =>
      if d == v then Err(ValueAlreadyExists)
      else if v > d then
        match InsertLeaf(v, r)
        case Err(e) => Err(e)
        case Ok(r') => Ok(Node(l, d, r'))
      else
        match InsertLeaf(v, l)
        case Err(e) => Err(e)
        case Ok(l') => Ok(Node(l', d, r))
  }

  /** `t'` is `t` with exactly one empty child position filled by a leaf holding `v`. */
  predicate GrowsByLeaf(t: Tree, t': Tree, v: int) {
    match t
    case Nil => t' == Leaf(v)
    case Node(l, d, r) =>
      t'.Node? && t'.data == d &&
      ((GrowsByLeaf(l, t'.left, v) && t'.right == r) ||
       (t'.left == l && GrowsByLeaf(r, t'.right, v)))
  }

  // ---------------------------------------------------------------------------
  // Deletion and lookups: Tree#delete, Tree#find_min, Tree#find

  /** `find_min(root)`: follow left children to the node that has none. */
  function FindMin(t: Tree): (m: Tree)
    requires t.Node?
    ensures m.Node? && m.left.Nil? && IsSubtree(m, t)
    ensures m.data in Elements(t)
  {
    if t.left.Nil? then t else FindMin(t.left)
  }

  /**
   * `find(value, root)`: descend by comparison to the node holding `v`. The
   * source dereferences `nil` when the descent falls off the tree; that case
   * is `None` here.
   */
  function Find(v: int, t: Tree): (r: Option<Tree>)
    ensures r.Some? ==> r.value.Node? && r.value.data == v && IsSubtree(r.value, t)
  {
    match t
    case Nil => None
    case Node(l, d, r) =>
      if v < d then Find(v, l)
      else if v > d then Find(v, r)
      else Some(t)
  }

  /**
   * `delete(value, root)`: the subtree that replaces `t` once `v` is removed.
   * A node with two children takes the value `find_min` reaches in its right
   * subtree (the least one in a search tree), which is then deleted there.
   */
  function Delete(v: int, t: Tree): (t': Tree)
    ensures Elements(t') <= Elements(t)
    decreases t
  {
    match t
    case Nil => Nil
    case Node(l, d, r) =>
      if v < d then Node(Delete(v, l), d, r)
      else if v > d then Node(l, d, Delete(v, r))
      else if l.Nil? && r.Nil? then Nil
      else if l.Nil? then r
      else if r.Nil? then l
      else
        var m := FindMin(r).data;
        Node(l, m, Delete(m, r))
  }

  /**
   * What `@root` stands for after the top-level `delete(value)` as written: the
   * new subtree root is returned but never stored, so when the root node itself
   * is unlinked (it has at most one child) the tree is left as it was.
   */
  function DeleteAsWritten(v: int, t: Tree): (r: Tree)
    ensures Elements(r) <= Elements(t)
    ensures t.Node? ==> r.Node?
  {
    if t.Node? && t.data == v && (t.left.Nil? || t.right.Nil?) then t else Delete(v, t)
  }

  // ---------------------------------------------------------------------------
  // Traversals: Tree#inorder, #preorder, #postorder, #level_order

  function Inorder(t: Tree): (r: seq<int>)
    ensures |r| == Size(t)
  {
    match t
    case Nil => []
    case Node(l, d, r) => Inorder(l) + [d] + Inorder(r)
  }

  function Preorder(t: Tree): (r: seq<int>)
    ensures |r| == Size(t) && (t.Node? ==> r[0] == t.data)
  {
    match t
    case Nil => []
    case Node(l, d, r) => [d] + Preorder(l) + Preorder(r)
  }

  function Postorder(t: Tree): (r: seq<int>)
    ensures |r| == Size(t) && (t.Node? ==> r[|r| - 1] == t.data)
  {
    match t
    case Nil => []
    case Node(l, d, r) => Postorder(l) + Postorder(r) + [d]
  }

  /** The children `level_order` enqueues after visiting `t`: left, then right, never `nil`. */
  function Kids(t: Tree): seq<Tree> {
    match t
    case Nil => []
    case Node(l, _, r) => (if l.Nil? then [] else [l]) + (if r.Nil? then [] else [r])
  }

  function ForestSize(f: seq<Tree>): nat {
    if f == [] then 0 else Size(f[0]) + ForestSize(f[1..])
  }

  lemma {:induction false} ForestSizeAppend(f: seq<Tree>, g: seq<Tree>)
    ensures ForestSize(f + g) == ForestSize(f) + ForestSize(g)
  {
    if f == [] {
      assert f + g == g;
    } else {
      assert (f + g)[1..] == f[1..] + g;
      ForestSizeAppend(f[1..], g);
    }
  }

  lemma {:induction false} KidsSize(t: Tree)
    requires t.Node?
    ensures ForestSize(Kids(t)) == Size(t) - 1
  {
    var l, r := t.left, t.right;
    var lk: seq<Tree> := if l.Nil? then [] else [l];
    var rk: seq<Tree> := if r.Nil? then [] else [r];
    ForestSizeAppend(lk, rk);
    assert ForestSize(lk) == Size(l);
    assert ForestSize(rk) == Size(r);
  }

  /**
   * The values `level_order`'s loop yields from a FIFO queue of subtrees: take
   * the front one, yield its value, enqueue its children.
   */
  function Bfs(queue: seq<Tree>): (r: seq<int>)
    ensures |r| == ForestSize(queue)
    decreases ForestSize(queue), |queue|
  {
    if queue == [] then []
    else
      ForestSizeAppend([queue[0]], queue[1..]);
      assert [queue[0]] + queue[1..] == queue;
      match queue[0]
      case Nil => Bfs(queue[1..])
      case Node(_, d, _) =>
        ForestSizeAppend(queue[1..], Kids(queue[0]));
        KidsSize(queue[0]);
        [d] + Bfs(queue[1..] + Kids(queue[0]))
  }

  function LevelOrder(t: Tree): (r: seq<int>)
    ensures |r| == Size(t) && (t.Node? ==> r[0] == t.data)
  {
    if t.Nil? then []
    else
      var q := [t];
      assert q[0] == t && q[1..] == [] && ForestSize(q) == Size(t);
      Bfs(q)
  }

  // ---------------------------------------------------------------------------
  // Measures: Tree#depth, Tree#balanced?

  /** `depth(node)`: -1 for `nil`, otherwise one more than the deeper child. */
  function Depth(t: Tree): (d: int)
    ensures d >= -1
    ensures d == -1 <==> t.Nil?
  {
    match t
    case Nil => -1
    case Node(l, _, r) =>
      var ld := Depth(l);
      var rd := Depth(r);
      if ld > rd then ld + 1 else rd + 1
  }

  /**
   * `balanced?(node)`: `nil` for an empty tree, otherwise whether the depths of
   * this one node's two children differ by at most one. Nodes further down are
   * not looked at.
   */
  function Balanced(t: Tree): (b: Option<bool>)
    ensures b.None? <==> t.Nil?
  {
    match t
    case Nil => None
    case Node(l, _, r) =>
      if Abs(Depth(l) - Depth(r)) > 1 then Some(false) else Some(true)
  }
}
