/**
 * Properties of the operations in module Bst: what each traversal visits, the
 * BST ordering that construction, insertion, deletion and rebalancing keep,
 * what lookups find, and the depth arithmetic behind `balanced?`.
 */
module BstLemmas {
  import opened Bst

  // ---------------------------------------------------------------------------
  // Contents

  lemma {:induction false} ElementsAreValues(t: Tree)
    ensures forall x :: x in Elements(t) <==> x in Values(t)
  {
    match t
    case Nil =>
    case Node(l, _, r) =>
      ElementsAreValues(l);
      ElementsAreValues(r);
  }

  lemma {:induction false} SubtreeElements(s: Tree, t: Tree)
    requires IsSubtree(s, t)
    ensures Elements(s) <= Elements(t)
  {
    if s != t {
      if IsSubtree(s, t.left) {
        SubtreeElements(s, t.left);
      } else {
        SubtreeElements(s, t.right);
      }
    }
  }

  lemma {:induction false} SetOfAppend(a: seq<int>, b: seq<int>)
    ensures SetOf(a + b) == SetOf(a) + SetOf(b)
  {
  }

  // ---------------------------------------------------------------------------
  // Depth-first traversals

  /** `inorder`, `preorder` and `postorder` each yield every node's value exactly once. */
  lemma {:induction false} DepthFirstVisitsEachNodeOnce(t: Tree)
    ensures multiset(Inorder(t)) == Values(t)
    ensures multiset(Preorder(t)) == Values(t)
    ensures multiset(Postorder(t)) == Values(t)
  {
    InorderVisits(t);
    PreorderVisits(t);
    PostorderVisits(t);
  }

  lemma {:induction false} InorderVisits(t: Tree)
    ensures multiset(Inorder(t)) == Values(t)
  {
    match t
    case Nil =>
    case Node(l, _, r) =>
      InorderVisits(l);
      InorderVisits(r);
  }

  lemma {:induction false} PreorderVisits(t: Tree)
    ensures multiset(Preorder(t)) == Values(t)
  {
    match t
    case Nil =>
    case Node(l, _, r) =>
      PreorderVisits(l);
      PreorderVisits(r);
  }

  lemma {:induction false} PostorderVisits(t: Tree)
    ensures multiset(Postorder(t)) == Values(t)
  {
    match t
    case Nil =>
    case Node(l, _, r) =>
      PostorderVisits(l);
      PostorderVisits(r);
  }

  lemma {:induction false} InorderElements(t: Tree)
    ensures SetOf(Inorder(t)) == Elements(t)
  {
    match t
    case Nil =>
    case Node(l, d, r) =>
      InorderElements(l);
      InorderElements(r);
      SetOfAppend(Inorder(l) + [d], Inorder(r));
      SetOfAppend(Inorder(l), [d]);
  }

  // ---------------------------------------------------------------------------
  // BST ordering and the in-order traversal

  lemma {:induction false} JoinIncreasing(a: seq<int>, d: int, b: seq<int>)
    ensures StrictlyIncreasing(a + [d] + b) <==>
      StrictlyIncreasing(a) && StrictlyIncreasing(b) &&
      (forall x :: x in a ==> x < d) && (forall x :: x in b ==> d < x)
  {
    if StrictlyIncreasing(a + [d] + b) {
      SplitIncreasing(a, d, b);
    }
    if StrictlyIncreasing(a) && StrictlyIncreasing(b) &&
       (forall x :: x in a ==> x < d) && (forall x :: x in b ==> d < x)
    {
      JoinOrdered(a, d, b);
    }
  }

  /** The parts of an ascending sequence are ascending and lie on either side of its middle. */
  lemma {:induction false} SplitIncreasing(a: seq<int>, d: int, b: seq<int>)
    requires StrictlyIncreasing(a + [d] + b)
    ensures StrictlyIncreasing(a) && StrictlyIncreasing(b)
    ensures (forall x :: x in a ==> x < d) && (forall x :: x in b ==> d < x)
  {
    var s := a + [d] + b;
    var n := |a|;
    forall x | x in a ensures x < d {
      var i :| 0 <= i < n && a[i] == x;
      assert s[i] == x && s[n] == d;
    }
    forall x | x in b ensures d < x {
      var j :| 0 <= j < |b| && b[j] == x;
      assert s[n + 1 + j] == x && s[n] == d;
    }
    forall i, j | 0 <= i < j < n ensures a[i] < a[j] {
      assert s[i] == a[i] && s[j] == a[j];
    }
    forall i, j | 0 <= i < j < |b| ensures b[i] < b[j] {
      assert s[n + 1 + i] == b[i] && s[n + 1 + j] == b[j];
    }
  }

  /** Ascending parts on either side of a middle value join into an ascending sequence. */
  lemma {:induction false} JoinOrdered(a: seq<int>, d: int, b: seq<int>)
    requires StrictlyIncreasing(a) && StrictlyIncreasing(b)
    requires (forall x :: x in a ==> x < d) && (forall x :: x in b ==> d < x)
    ensures StrictlyIncreasing(a + [d] + b)
  {
    var s := a + [d] + b;
    var n := |a|;
    forall i, j | 0 <= i < j < |s| ensures s[i] < s[j] {
      if j < n {
        assert s[i] == a[i] && s[j] == a[j];
      } else if j == n {
        assert s[i] == a[i] && s[j] == d && a[i] in a;
      } else if i < n {
        assert s[i] == a[i] && s[j] == b[j - n - 1];
        assert a[i] in a && b[j - n - 1] in b;
      } else if i == n {
        assert s[i] == d && s[j] == b[j - n - 1] && b[j - n - 1] in b;
      } else {
        assert s[i] == b[i - n - 1] && s[j] == b[j - n - 1];
      }
    }
  }

  /** The BST ordering holds exactly when `inorder` yields strictly ascending values. */
  lemma {:induction false} BstIffInorderIncreasing(t: Tree)
    ensures IsBst(t) <==> StrictlyIncreasing(Inorder(t))
  {
    match t
    case Nil =>
    case Node(l, d, r) =>
      BstIffInorderIncreasing(l);
      BstIffInorderIncreasing(r);
      InorderElements(l);
      InorderElements(r);
      assert forall x :: x in Elements(l) <==> x in Inorder(l);
      assert forall x :: x in Elements(r) <==> x in Inorder(r);
      JoinIncreasing(Inorder(l), d, Inorder(r));
  }

  /** A strictly increasing sequence is determined by the set of its values. */
  lemma {:induction false} IncreasingDetermined(a: seq<int>, b: seq<int>)
    requires StrictlyIncreasing(a) && StrictlyIncreasing(b)
    requires SetOf(a) == SetOf(b)
    ensures a == b
    decreases |a|
  {
    SetOfEmpty(a);
    SetOfEmpty(b);
    if a != [] {
      assert a[0] in SetOf(b);
      assert b != [];
      assert b[0] in SetOf(a);
      HeadIsLeast(a);
      HeadIsLeast(b);
      assert a[0] == b[0];
      assert SetOf(a[1..]) == SetOf(a) - {a[0]} by {
        assert a == [a[0]] + a[1..];
        assert a[0] !in a[1..];
      }
      assert SetOf(b[1..]) == SetOf(b) - {b[0]} by {
        assert b == [b[0]] + b[1..];
        assert b[0] !in b[1..];
      }
      IncreasingDetermined(a[1..], b[1..]);
      assert a == [a[0]] + a[1..];
      assert b == [b[0]] + b[1..];
    }
  }

  lemma {:induction false} SetOfEmpty(s: seq<int>)
    ensures SetOf(s) == {} <==> s == []
  {
    if s != [] {
      assert s[0] in SetOf(s);
    }
  }

  lemma {:induction false} HeadIsLeast(s: seq<int>)
    requires StrictlyIncreasing(s) && s != []
    ensures forall x :: x in s ==> s[0] <= x
  {
    forall x | x in s ensures s[0] <= x {
      var k :| 0 <= k < |s| && s[k] == x;
    }
  }

  lemma {:induction false} SortUniqueOfIncreasing(s: seq<int>)
    requires StrictlyIncreasing(s)
    ensures SortUnique(s) == s
  {
    IncreasingDetermined(SortUnique(s), s);
  }

  // ---------------------------------------------------------------------------
  // Construction

  lemma {:induction false} IncreasingSlice(s: seq<int>, lo: int, hi: int)
    requires StrictlyIncreasing(s) && 0 <= lo <= hi <= |s|
    ensures StrictlyIncreasing(s[lo..hi])
  {
    forall i, j | 0 <= i < j < hi - lo ensures s[lo..hi][i] < s[lo..hi][j] {
      assert s[lo..hi][i] == s[lo + i] && s[lo..hi][j] == s[lo + j];
    }
  }

  /**
   * `build_tree` sorts and deduplicates only once: the tree built from any
   * array is the tree built from its sorted, deduplicated values.
   */
  lemma {:induction false} BuildNormalizes(a: seq<int>)
    ensures Build(a) == Build(SortUnique(a))
  {
    if |a| == 1 {
      SortUniqueOfIncreasing(a);
    } else if |a| >= 2 {
      var s := SortUnique(a);
      BuildUnsorted(a, s);
      SortUniqueOfIncreasing(s);
      if |s| >= 2 {
        BuildSplit(s);
      } else {
        assert s[..0] == [] && s[1..] == [];
      }
    }
  }

  /** On two or more values `build_tree` splits their sorted, deduplicated copy. */
  lemma {:induction false} BuildUnsorted(a: seq<int>, s: seq<int>)
    requires |a| >= 2 && s == SortUnique(a)
    ensures |s| >= 1
    ensures Build(a) == Node(Build(s[..|s| / 2]), s[|s| / 2], Build(s[|s| / 2 + 1..]))
  {
    assert a[0] in SetOf(a);
    assert s != [];
  }

  /** On sorted, distinct values `build_tree` splits at index `length / 2`. */
  lemma {:induction false} BuildSplit(s: seq<int>)
    requires StrictlyIncreasing(s) && |s| >= 2
    ensures Build(s) == Node(Build(s[..|s| / 2]), s[|s| / 2], Build(s[|s| / 2 + 1..]))
  {
    SortUniqueOfIncreasing(s);
    BuildUnsorted(s, s);
  }

  lemma {:induction false} Rejoin(s: seq<int>, mid: nat, x: seq<int>, l: seq<int>, r: seq<int>)
    requires mid < |s| && l == s[..mid] && r == s[mid + 1..] && x == l + [s[mid]] + r
    ensures x == s
  {
    assert s == s[..mid] + [s[mid]] + s[mid + 1..];
  }

  lemma {:induction false} InorderOfSplit(s: seq<int>, mid: nat, t: Tree)
    requires mid < |s| && t.Node? && t.data == s[mid]
    requires Inorder(t.left) == s[..mid] && Inorder(t.right) == s[mid + 1..]
    ensures Inorder(t) == s
  {
    Rejoin(s, mid, Inorder(t), Inorder(t.left), Inorder(t.right));
  }

  lemma {:induction false} BuildSortedInorder(s: seq<int>)
    requires StrictlyIncreasing(s)
    ensures Inorder(Build(s)) == s
    decreases |s|
  {
    if |s| >= 2 {
      var mid := |s| / 2;
      IncreasingSlice(s, 0, mid);
      IncreasingSlice(s, mid + 1, |s|);
      BuildSortedInorder(s[..mid]);
      BuildSortedInorder(s[mid + 1..]);
      BuildSplit(s);
      InorderOfSplit(s, mid, Build(s));
    }
  }

  /** `inorder` of the built tree is the sorted, deduplicated input. */
  lemma {:induction false} BuildInorder(a: seq<int>)
    ensures Inorder(Build(a)) == SortUnique(a)
  {
    BuildNormalizes(a);
    BuildSortedInorder(SortUnique(a));
  }

  /**
   * The built tree is a BST holding exactly the distinct input values, one
   * node per value, and `inorder` yields them strictly ascending.
   */
  lemma {:induction false} BuildIsBst(a: seq<int>)
    ensures IsBst(Build(a))
    ensures Elements(Build(a)) == SetOf(a)
    ensures StrictlyIncreasing(Inorder(Build(a)))
    ensures Size(Build(a)) == |SortUnique(a)|
  {
    BuildInorder(a);
    BstIffInorderIncreasing(Build(a));
    InorderElements(Build(a));
    DepthFirstVisitsEachNodeOnce(Build(a));
    assert |multiset(Inorder(Build(a)))| == |Values(Build(a))|;
    ValuesCount(Build(a));
  }

  /**
   * The search-tree conjunct alone: a built tree is a search tree. The object layer calls this
   * instead of the full lemma so that its proofs carry fewer facts.
   */
  lemma {:induction false} BuiltIsBst(a: seq<int>)
    ensures IsBst(Build(a))
  {
    BuildIsBst(a);
  }

  lemma {:induction false} ValuesCount(t: Tree)
    ensures |Values(t)| == Size(t)
  {
    match t
    case Nil =>
    case Node(l, _, r) =>
      ValuesCount(l);
      ValuesCount(r);
  }

  /** The root of the built tree is the element at index `length / 2` of the sorted, deduplicated input. */
  lemma {:induction false} BuildRoot(a: seq<int>)
    requires a != []
    ensures Build(a).data == SortUnique(a)[|SortUnique(a)| / 2]
  {
    if |a| == 1 {
      SortUniqueOfIncreasing(a);
    }
  }

  /** The depth of a tree built from `n` distinct values: floor(log2 n), and -1 for none. */
  function BuiltDepth(n: nat): (d: int)
    ensures d >= -1 && (d == -1 <==> n == 0)
  {
    if n == 0 then -1 else 1 + BuiltDepth(n / 2)
  }

  lemma {:induction false} BuiltDepthStep(n: nat)
    requires n >= 1
    ensures BuiltDepth(n - 1) <= BuiltDepth(n) <= BuiltDepth(n - 1) + 1
  {
    if n >= 2 && (n - 1) / 2 != n / 2 {
      BuiltDepthStep(n / 2);
    }
  }

  /** The two halves of `n` values differ in built depth by at most one. */
  lemma {:induction false} BuiltDepthHalves(n: nat)
    requires n >= 1
    ensures BuiltDepth(n) == 1 + BuiltDepth(n / 2)
    ensures BuiltDepth(n - n / 2 - 1) <= BuiltDepth(n / 2) <= BuiltDepth(n - n / 2 - 1) + 1
  {
    if n - n / 2 - 1 < n / 2 {
      BuiltDepthStep(n / 2);
    }
  }

  /** A node over halves of sizes `n / 2` and `n - n / 2 - 1` whose depths are those of built trees. */
  lemma {:induction false} BalancedHalves(l: Tree, d: int, r: Tree, n: nat)
    requires n >= 1
    requires Depth(l) == BuiltDepth(n / 2) && Depth(r) == BuiltDepth(n - n / 2 - 1)
    ensures Depth(Node(l, d, r)) == BuiltDepth(n)
    ensures Balanced(Node(l, d, r)) == Some(true)
  {
    BuiltDepthHalves(n);
  }

  lemma {:induction false} BuildSortedIsBalanced(s: seq<int>)
    requires StrictlyIncreasing(s)
    ensures Depth(Build(s)) == BuiltDepth(|s|)
    ensures s != [] ==> Balanced(Build(s)) == Some(true)
    decreases |s|
  {
    if |s| >= 2 {
      var mid := |s| / 2;
      IncreasingSlice(s, 0, mid);
      IncreasingSlice(s, mid + 1, |s|);
      BuildSortedIsBalanced(s[..mid]);
      BuildSortedIsBalanced(s[mid + 1..]);
      BuildSplit(s);
      BalancedHalves(Build(s[..mid]), s[mid], Build(s[mid + 1..]), |s|);
    }
  }

  /**
   * The built tree has depth `BuiltDepth(n)` for its n distinct values, the
   * least any tree of n nodes has (`BuiltDepthIsLeast`), and satisfies
   * `balanced?` at its root: its two halves hold `n / 2` and `n - n / 2 - 1` values.
   */
  lemma {:induction false} BuildIsBalanced(a: seq<int>)
    ensures Depth(Build(a)) == BuiltDepth(|SortUnique(a)|)
    ensures a != [] ==> Balanced(Build(a)) == Some(true)
  {
    BuildNormalizes(a);
    BuildSortedIsBalanced(SortUnique(a));
    if a != [] {
      assert a[0] in SetOf(SortUnique(a));
    }
  }

  /** `balanced?` holds at every node of `t`, not just at its root. */
  predicate BalancedEverywhere(t: Tree) {
    match t
    case Nil => true
    case Node(l, _, r) => Balanced(t) == Some(true) && BalancedEverywhere(l) && BalancedEverywhere(r)
  }

  lemma {:induction false} BuildSortedBalancedEverywhere(s: seq<int>)
    requires StrictlyIncreasing(s)
    ensures BalancedEverywhere(Build(s))
    decreases |s|
  {
    if |s| >= 2 {
      var mid := |s| / 2;
      IncreasingSlice(s, 0, mid);
      IncreasingSlice(s, mid + 1, |s|);
      BuildSortedBalancedEverywhere(s[..mid]);
      BuildSortedBalancedEverywhere(s[mid + 1..]);
      BuildSortedIsBalanced(s);
      BuildSplit(s);
    }
  }

  /** Every subtree `build_tree` makes is split the same way, so each node passes `balanced?`. */
  lemma {:induction false} BuildBalancedEverywhere(a: seq<int>)
    ensures BalancedEverywhere(Build(a))
  {
    BuildNormalizes(a);
    BuildSortedBalancedEverywhere(SortUnique(a));
  }

  /** After `rebalance!` every node passes `balanced?`. */
  lemma {:induction false} RebalanceBalancedEverywhere(t: Tree)
    ensures BalancedEverywhere(Rebalance(t))
  {
    BuildBalancedEverywhere(LevelOrder(t));
  }

  lemma {:induction false} Pow2BuiltDepth(n: nat)
    requires n >= 1
    ensures Pow2(BuiltDepth(n)) <= n
  {
    if n >= 2 {
      Pow2BuiltDepth(n / 2);
    }
  }

  /** No tree of n nodes is shallower than the tree built from n distinct values. */
  lemma {:induction false} BuiltDepthIsLeast(t: Tree)
    ensures BuiltDepth(Size(t)) <= Depth(t)
  {
    DepthBoundsSize(t);
    if Size(t) >= 1 && Depth(t) < BuiltDepth(Size(t)) {
      Pow2BuiltDepth(Size(t));
      Pow2Monotone(Depth(t) + 1, BuiltDepth(Size(t)));
    }
  }

  // ---------------------------------------------------------------------------
  // Lookups

  /** In a BST, `find` reaches a node exactly when the value is stored. */
  lemma {:induction false} FindInBst(v: int, t: Tree)
    requires IsBst(t)
    ensures Find(v, t).Some? <==> v in Elements(t)
  {
    match t
    case Nil =>
    case Node(l, d, r) =>
      if v < d {
        FindInBst(v, l);
      } else if v > d {
        FindInBst(v, r);
      }
  }

  /** In a BST, `find_min` reaches the node holding the least value. */
  lemma {:induction false} FindMinIsLeast(t: Tree)
    requires t.Node? && IsBst(t)
    ensures forall x :: x in Elements(t) ==> FindMin(t).data <= x
  {
    if t.left.Node? {
      FindMinIsLeast(t.left);
    }
  }

  // ---------------------------------------------------------------------------
  // Insertion

  /** Where `insert` as written does not crash, it is the standard leaf insertion. */
  lemma {:induction false} InsertIsInsertLeaf(v: int, t: Tree)
    requires CanInsert(v, t)
    ensures Insert(v, t) == InsertLeaf(v, t)
    decreases t, 0
  {
    if t.data != v {
      InsertBelowIsInsertLeaf(v, Side(v, t));
    }
  }

  lemma {:induction false} InsertBelowIsInsertLeaf(v: int, temp: Tree)
    requires temp.Node?
    ensures InsertBelow(v, temp) == InsertLeaf(v, temp)
    decreases temp, 1
  {
    if temp.left.Nil? && v < temp.data {
      assert InsertLeaf(v, temp.left) == Ok(Leaf(v));
    } else if temp.right.Nil? && v > temp.data {
      assert InsertLeaf(v, temp.right) == Ok(Leaf(v));
    } else {
      InsertIsInsertLeaf(v, temp);
    }
  }

  /** Leaf insertion either raises at a node holding `v` or adds exactly one leaf. */
  lemma {:induction false} InsertLeafGrows(v: int, t: Tree)
    ensures InsertLeaf(v, t).Err? ==> v in Elements(t)
    ensures InsertLeaf(v, t).Ok? ==> GrowsByLeaf(t, InsertLeaf(v, t).value, v)
  {
    match t
    case Nil =>
    case Node(l, d, r) =>
      if d != v {
        if v > d {
          InsertLeafGrows(v, r);
        } else {
          InsertLeafGrows(v, l);
        }
      }
  }

  lemma {:induction false} GrowsByLeafValues(t: Tree, t': Tree, v: int)
    requires GrowsByLeaf(t, t', v)
    ensures Values(t') == Values(t) + multiset{v}
  {
    match t
    case Nil =>
    case Node(l, d, r) =>
      if GrowsByLeaf(l, t'.left, v) && t'.right == r {
        GrowsByLeafValues(l, t'.left, v);
      } else {
        GrowsByLeafValues(r, t'.right, v);
      }
  }

  /** Adding one leaf adds one node and its value, and keeps every other node. */
  lemma {:induction false} GrowsByLeafContents(t: Tree, t': Tree, v: int)
    requires GrowsByLeaf(t, t', v)
    ensures Elements(t') == Elements(t) + {v}
    ensures Values(t') == Values(t) + multiset{v}
    ensures Size(t') == Size(t) + 1
  {
    GrowsByLeafValues(t, t', v);
    ValuesCount(t);
    ValuesCount(t');
    GrowsByLeafElements(t, t', v);
  }

  lemma {:induction false} GrowsByLeafElements(t: Tree, t': Tree, v: int)
    requires GrowsByLeaf(t, t', v)
    ensures Elements(t') == Elements(t) + {v}
  {
    match t
    case Nil =>
    case Node(l, d, r) =>
      if GrowsByLeaf(l, t'.left, v) && t'.right == r {
        GrowsByLeafElements(l, t'.left, v);
      } else {
        GrowsByLeafElements(r, t'.right, v);
      }
  }

  /**
   * In a BST, leaf insertion raises exactly when the value is stored already;
   * otherwise the result is a BST with one more value, `find` reaches the new
   * leaf, and inserting the value again raises.
   */
  lemma {:induction false} InsertLeafInBst(v: int, t: Tree)
    requires IsBst(t)
    ensures InsertLeaf(v, t).Err? <==> v in Elements(t)
    ensures InsertLeaf(v, t).Ok? ==>
      var t' := InsertLeaf(v, t).value;
      IsBst(t') && Elements(t') == Elements(t) + {v} &&
      Find(v, t') == Some(Leaf(v)) && InsertLeaf(v, t').Err?
  {
    InsertLeafRaisesIffPresent(v, t);
    if InsertLeaf(v, t).Ok? {
      InsertLeafKeepsBst(v, t);
      InsertLeafThenFind(v, t);
    }
  }

  /**
   * The search-tree conjunct alone: leaf insertion keeps it. The object layer calls this
   * instead of the full lemma so that its proofs carry fewer facts.
   */
  lemma {:induction false} InsertLeafIsBst(v: int, t: Tree)
    requires IsBst(t)
    ensures InsertLeaf(v, t).Ok? ==> IsBst(InsertLeaf(v, t).value)
  {
    InsertLeafInBst(v, t);
  }

  lemma {:induction false} InsertLeafRaisesIffPresent(v: int, t: Tree)
    requires IsBst(t)
    ensures InsertLeaf(v, t).Err? <==> v in Elements(t)
  {
    match t
    case Nil =>
    case Node(l, d, r) =>
      if v > d {
        InsertLeafRaisesIffPresent(v, r);
        assert v !in Elements(l);
      } else if v < d {
        InsertLeafRaisesIffPresent(v, l);
        assert v !in Elements(r);
      }
  }

  lemma {:induction false} InsertLeafKeepsBst(v: int, t: Tree)
    requires IsBst(t) && InsertLeaf(v, t).Ok?
    ensures IsBst(InsertLeaf(v, t).value)
    ensures Elements(InsertLeaf(v, t).value) == Elements(t) + {v}
  {
    match t
    case Nil =>
    case Node(l, d, r) =>
      if v > d {
        InsertLeafKeepsBst(v, r);
        GrownRight(l, d, r, InsertLeaf(v, r).value, v);
      } else if v < d {
        InsertLeafKeepsBst(v, l);
        GrownLeft(l, d, r, InsertLeaf(v, l).value, v);
      }
  }

  lemma {:induction false} GrownRight(l: Tree, d: int, r: Tree, r': Tree, v: int)
    requires IsBst(Node(l, d, r)) && d < v && IsBst(r') && Elements(r') == Elements(r) + {v}
    ensures IsBst(Node(l, d, r'))
    ensures Elements(Node(l, d, r')) == Elements(Node(l, d, r)) + {v}
  {
  }

  lemma {:induction false} GrownLeft(l: Tree, d: int, r: Tree, l': Tree, v: int)
    requires IsBst(Node(l, d, r)) && v < d && IsBst(l') && Elements(l') == Elements(l) + {v}
    ensures IsBst(Node(l', d, r))
    ensures Elements(Node(l', d, r)) == Elements(Node(l, d, r)) + {v}
  {
  }

  /**
   * Leaf insertion puts the new leaf on the very path `find` follows, so `find`
   * reaches it and a second insertion raises; this holds in any tree.
   */
  lemma {:induction false} InsertLeafThenFind(v: int, t: Tree)
    requires InsertLeaf(v, t).Ok?
    ensures Find(v, InsertLeaf(v, t).value) == Some(Leaf(v))
    ensures InsertLeaf(v, InsertLeaf(v, t).value).Err?
  {
    match t
    case Nil =>
    case Node(l, d, r) =>
      if v > d {
        InsertLeafThenFind(v, r);
      } else if v < d {
        InsertLeafThenFind(v, l);
      }
  }

  /**
   * `insert` as written, on a BST where it does not crash: it raises exactly
   * when the value is stored; otherwise it adds one leaf holding the value,
   * keeps every other node, and keeps the BST ordering.
   */
  lemma {:induction false} InsertInBst(v: int, t: Tree)
    requires CanInsert(v, t) && IsBst(t)
    ensures Insert(v, t).Err? <==> v in Elements(t)
    ensures Insert(v, t).Ok? ==>
      var t' := Insert(v, t).value;
      GrowsByLeaf(t, t', v) && IsBst(t') && Elements(t') == Elements(t) + {v} &&
      Size(t') == Size(t) + 1 && Find(v, t') == Some(Leaf(v))
  {
    InsertIsInsertLeaf(v, t);
    InsertLeafInBst(v, t);
    InsertLeafGrows(v, t);
    if Insert(v, t).Ok? {
      GrowsByLeafContents(t, Insert(v, t).value, v);
    }
  }

  // ---------------------------------------------------------------------------
  // Deletion

  /** Deleting a value that is not stored returns the subtree unchanged (BST or not). */
  lemma {:induction false} DeleteAbsent(v: int, t: Tree)
    requires v !in Elements(t)
    ensures Delete(v, t) == t
  {
    match t
    case Nil =>
    case Node(l, d, r) =>
      if v < d {
        DeleteAbsent(v, l);
      } else if v > d {
        DeleteAbsent(v, r);
      }
  }

  /**
   * In a BST, deletion removes exactly the value (one node fewer when it was
   * stored) and keeps the BST ordering.
   */
  lemma {:induction false} DeleteInBst(v: int, t: Tree)
    requires IsBst(t)
    ensures IsBst(Delete(v, t))
    ensures Elements(Delete(v, t)) == Elements(t) - {v}
    ensures v in Elements(t) ==> Size(Delete(v, t)) == Size(t) - 1
    decreases t
  {
    match t
    case Nil =>
    case Node(l, d, r) =>
      if v < d {
        DeleteInBst(v, l);
        ShrunkLeft(l, d, r, Delete(v, l), v);
      } else if v > d {
        DeleteInBst(v, r);
        ShrunkRight(l, d, r, Delete(v, r), v);
      } else if l.Node? && r.Node? {
        var m := FindMin(r).data;
        FindMinIsLeast(r);
        DeleteInBst(m, r);
        MinMovedUp(l, d, r, m, Delete(m, r));
      } else {
        Unlinked(t);
      }
  }

  lemma {:induction false} ShrunkLeft(l: Tree, d: int, r: Tree, l': Tree, v: int)
    requires IsBst(Node(l, d, r)) && v < d && IsBst(l') && Elements(l') == Elements(l) - {v}
    requires v in Elements(l) ==> Size(l') == Size(l) - 1
    ensures IsBst(Node(l', d, r))
    ensures Elements(Node(l', d, r)) == Elements(Node(l, d, r)) - {v}
    ensures v in Elements(Node(l, d, r)) ==> Size(Node(l', d, r)) == Size(Node(l, d, r)) - 1
  {
  }

  lemma {:induction false} ShrunkRight(l: Tree, d: int, r: Tree, r': Tree, v: int)
    requires IsBst(Node(l, d, r)) && d < v && IsBst(r') && Elements(r') == Elements(r) - {v}
    requires v in Elements(r) ==> Size(r') == Size(r) - 1
    ensures IsBst(Node(l, d, r'))
    ensures Elements(Node(l, d, r')) == Elements(Node(l, d, r)) - {v}
    ensures v in Elements(Node(l, d, r)) ==> Size(Node(l, d, r')) == Size(Node(l, d, r)) - 1
  {
  }

  /** The least value of the right subtree, moved up into the root, keeps the ordering. */
  lemma {:induction false} MinMovedUp(l: Tree, d: int, r: Tree, m: int, r': Tree)
    requires IsBst(Node(l, d, r)) && m in Elements(r) && forall x :: x in Elements(r) ==> m <= x
    requires IsBst(r') && Elements(r') == Elements(r) - {m} && Size(r') == Size(r) - 1
    ensures IsBst(Node(l, m, r'))
    ensures Elements(Node(l, m, r')) == Elements(Node(l, d, r)) - {d}
    ensures Size(Node(l, m, r')) == Size(Node(l, d, r)) - 1
  {
  }

  /** A root with at most one child is replaced by that child. */
  lemma {:induction false} Unlinked(t: Tree)
    requires IsBst(t) && t.Node? && (t.left.Nil? || t.right.Nil?)
    ensures IsBst(Delete(t.data, t))
    ensures Elements(Delete(t.data, t)) == Elements(t) - {t.data}
    ensures Size(Delete(t.data, t)) == Size(t) - 1
  {
  }

  // ---------------------------------------------------------------------------
  // Depth and balance

  function Pow2(n: nat): nat {
    if n == 0 then 1 else 2 * Pow2(n - 1)
  }

  lemma {:induction false} Pow2Monotone(m: nat, n: nat)
    requires m <= n
    ensures Pow2(m) <= Pow2(n)
    decreases n
  {
    if m < n {
      Pow2Monotone(m, n - 1);
    }
  }

  /**
   * `depth` is the number of edges on the longest downward path: fewer than
   * the number of nodes, and a tree of depth `d` has at most 2^(d+1) - 1 nodes.
   */
  lemma {:induction false} DepthBoundsSize(t: Tree)
    ensures Depth(t) < Size(t)
    ensures Size(t) <= Pow2(Depth(t) + 1) - 1
  {
    match t
    case Nil =>
    case Node(l, _, r) =>
      DepthBoundsSize(l);
      DepthBoundsSize(r);
      Pow2Monotone(Depth(l) + 1, Depth(t));
      Pow2Monotone(Depth(r) + 1, Depth(t));
  }

  /**
   * `balanced?` looks at the given node only: this BST passes it at the root
   * while its left child fails it.
   */
  lemma BalancedIsShallow()
    ensures var t := Node(Node(Node(Leaf(1), 2, Nil), 3, Nil), 4, Node(Nil, 5, Leaf(6)));
      IsBst(t) && Balanced(t) == Some(true) && Balanced(t.left) == Some(false)
  {
  }

  // ---------------------------------------------------------------------------
  // Rebalance

  /** The level-order snapshot holds exactly the stored values. */
  lemma {:induction false} LevelOrderElements(t: Tree)
    ensures SetOf(LevelOrder(t)) == Elements(t)
    ensures LevelOrder(t) == [] <==> t.Nil?
  {
    LevelOrderVisitsEachNodeOnce(t);
    ElementsAreValues(t);
    SameValuesSameSet(LevelOrder(t), Values(t), Elements(t));
  }

  lemma {:induction false} SameValuesSameSet(s: seq<int>, m: multiset<int>, e: set<int>)
    requires multiset(s) == m
    requires forall x :: x in e <==> x in m
    ensures SetOf(s) == e
  {
    forall x ensures x in s <==> x in e {
      assert x in s <==> x in multiset(s);
    }
  }

  /**
   * `rebalance!` keeps the stored values; afterwards the tree is a BST whose
   * `inorder` is strictly ascending and which satisfies `balanced?` at its
   * root.
   */
  lemma {:induction false} RebalanceKeepsValues(t: Tree)
    ensures Elements(Rebalance(t)) == Elements(t)
    ensures IsBst(Rebalance(t)) && StrictlyIncreasing(Inorder(Rebalance(t)))
    ensures Rebalance(t).Nil? <==> t.Nil?
    ensures t.Node? ==> Balanced(Rebalance(t)) == Some(true)
  {
    LevelOrderElements(t);
    BuildIsBst(LevelOrder(t));
    BuildIsBalanced(LevelOrder(t));
  }

  /**
   * The search-tree conjunct alone: a rebuilt tree is a search tree. The object layer calls this
   * instead of the full lemma so that its proofs carry fewer facts.
   */
  lemma {:induction false} RebalancedIsBst(t: Tree)
    ensures IsBst(Rebalance(t))
  {
    RebalanceKeepsValues(t);
  }

  /** Rebalancing a BST leaves its `inorder` unchanged. */
  lemma {:induction false} RebalanceKeepsInorder(t: Tree)
    requires IsBst(t)
    ensures Inorder(Rebalance(t)) == Inorder(t)
  {
    RebalanceKeepsValues(t);
    InorderElements(t);
    InorderElements(Rebalance(t));
    BstIffInorderIncreasing(t);
    IncreasingDetermined(Inorder(Rebalance(t)), Inorder(t));
  }

  // ---------------------------------------------------------------------------
  // Level order

  function ForestValues(f: seq<Tree>): multiset<int> {
    if f == [] then multiset{} else Values(f[0]) + ForestValues(f[1..])
  }

  lemma {:induction false} ForestValuesAppend(f: seq<Tree>, g: seq<Tree>)
    ensures ForestValues(f + g) == ForestValues(f) + ForestValues(g)
  {
    if f == [] {
      assert f + g == g;
    } else {
      assert (f + g)[1..] == f[1..] + g;
      ForestValuesAppend(f[1..], g);
    }
  }

  lemma {:induction false} KidsValues(t: Tree)
    requires t.Node?
    ensures ForestValues(Kids(t)) == Values(t.left) + Values(t.right)
  {
    var lk: seq<Tree> := if t.left.Nil? then [] else [t.left];
    var rk: seq<Tree> := if t.right.Nil? then [] else [t.right];
    ForestValuesAppend(lk, rk);
    assert ForestValues(lk) == Values(t.left);
    assert ForestValues(rk) == Values(t.right);
  }

  /** The queue loop yields the value of every node of every queued subtree exactly once. */
  lemma {:induction false} BfsVisitsEachNodeOnce(queue: seq<Tree>)
    ensures multiset(Bfs(queue)) == ForestValues(queue)
    decreases ForestSize(queue), |queue|
  {
    if queue != [] {
      var t := queue[0];
      if t.Nil? {
        BfsVisitsEachNodeOnce(queue[1..]);
      } else {
        ForestSizeAppend(queue[1..], Kids(t));
        KidsSize(t);
        BfsVisitsEachNodeOnce(queue[1..] + Kids(t));
        ForestValuesAppend(queue[1..], Kids(t));
        KidsValues(t);
      }
    }
  }

  /** `level_order` yields every node's value exactly once. */
  lemma {:induction false} LevelOrderVisitsEachNodeOnce(t: Tree)
    ensures multiset(LevelOrder(t)) == Values(t)
  {
    if t.Node? {
      BfsVisitsEachNodeOnce([t]);
    }
  }

  // ---------------------------------------------------------------------------
  // Where the code as written departs from what it evidently intends

  /**
   * `insert` as written needs a child on the value's side of the starting node:
   * on an empty tree, or on a tree whose root has no such child, it would
   * dereference `nil`, although leaf insertion succeeds there.
   */
  lemma {:induction false} InsertNeedsChildOnSide(v: int, t: Tree)
    requires t.Nil? || (t.data != v && Side(v, t).Nil?)
    ensures !CanInsert(v, t)
    ensures InsertLeaf(v, t).Ok? && Elements(InsertLeaf(v, t).value) == Elements(t) + {v}
  {
    if t.Node? {
      assert v !in Elements(Side(v, t));
      if v > t.data {
        assert InsertLeaf(v, t.right) == Ok(Leaf(v));
      } else {
        assert InsertLeaf(v, t.left) == Ok(Leaf(v));
      }
    }
  }

  /** The smallest instance: inserting 3 into the tree built from `[5]`. */
  lemma InsertBelowLoneRoot()
    ensures !CanInsert(3, Build([5]))
    ensures InsertLeaf(3, Build([5])) == Ok(Node(Leaf(3), 5, Nil))
  {
    assert Build([5]) == Leaf(5);
  }

  /**
   * The top-level `delete` as written loses its result when the root itself
   * is unlinked: the value stays in the tree, while the intended deletion
   * removes it.
   */
  lemma {:induction false} DeleteAsWrittenKeepsRoot(v: int, t: Tree)
    requires IsBst(t) && t.Node? && t.data == v && (t.left.Nil? || t.right.Nil?)
    ensures v in Elements(DeleteAsWritten(v, t))
    ensures v !in Elements(Delete(v, t))
  {
    DeleteInBst(v, t);
  }

  /** The smallest instance: deleting 5 from the tree built from `[5]`. */
  lemma DeleteLoneRoot()
    ensures DeleteAsWritten(5, Build([5])) == Leaf(5)
    ensures Delete(5, Build([5])) == Nil
  {
    assert Build([5]) == Leaf(5);
  }
}
