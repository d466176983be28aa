/**
 * Level-by-level reading of `level_order`: its FIFO queue yields the values at
 * distance 0 from the root, then those at distance 1, and so on, each level
 * from left to right; and `depth` is the distance of the deepest level.
 */
module BstLevels {
  import opened Bst

  /** The values at distance `k` from the root of `t`, from left to right. */
  function Level(t: Tree, k: nat): seq<int> {
    match t
    case Nil => []
    case Node(l, d, r) => if k == 0 then [d] else Level(l, k - 1) + Level(r, k - 1)
  }

  /** Levels `lo` up to `hi - 1` of `t`, one after another. */
  function Levels(t: Tree, lo: nat, hi: nat): seq<int>
    decreases hi - lo
  {
    if lo >= hi then [] else Level(t, lo) + Levels(t, lo + 1, hi)
  }

  // ---------------------------------------------------------------------------
  // The same notions for a queue of subtrees

  function ForestLevel(f: seq<Tree>, k: nat): seq<int> {
    if f == [] then [] else Level(f[0], k) + ForestLevel(f[1..], k)
  }

  function ForestLevels(f: seq<Tree>, lo: nat, hi: nat): seq<int>
    decreases hi - lo
  {
    if lo >= hi then [] else ForestLevel(f, lo) + ForestLevels(f, lo + 1, hi)
  }

  /** Every child `level_order` enqueues for the trees of `f`, in queue order. */
  function AllKids(f: seq<Tree>): seq<Tree> {
    if f == [] then [] else Kids(f[0]) + AllKids(f[1..])
  }

  function Max(a: int, b: int): int {
    if a > b then a else b
  }

  function MaxDepth(f: seq<Tree>): int {
    if f == [] then -1 else Max(Depth(f[0]), MaxDepth(f[1..]))
  }

  // ---------------------------------------------------------------------------
  // Depth

  /** Level `k` of `t` holds a value exactly when `k` is at most `depth(t)`. */
  lemma {:induction false} DepthIsDeepestLevel(t: Tree, k: nat)
    ensures Level(t, k) != [] <==> k <= Depth(t)
    decreases t
  {
    match t
    case Nil =>
    case Node(l, _, r) =>
      if k > 0 {
        DepthIsDeepestLevel(l, k - 1);
        DepthIsDeepestLevel(r, k - 1);
      }
  }

  // ---------------------------------------------------------------------------
  // Queue algebra

  lemma {:induction false} ForestLevelAppend(f: seq<Tree>, g: seq<Tree>, k: nat)
    ensures ForestLevel(f + g, k) == ForestLevel(f, k) + ForestLevel(g, k)
  {
    if f == [] {
      assert f + g == g;
    } else {
      assert (f + g)[1..] == f[1..] + g;
      ForestLevelAppend(f[1..], g, k);
    }
  }

  lemma {:induction false} Singleton(t: Tree, k: nat)
    ensures ForestLevel([t], k) == Level(t, k)
  {
    assert [t][1..] == [];
  }

  /** Level `k` of the enqueued children is level `k + 1` of their parent. */
  lemma {:induction false} KidsLevel(t: Tree, k: nat)
    ensures ForestLevel(Kids(t), k) == Level(t, k + 1)
  {
    if t.Node? {
      var lk: seq<Tree> := if t.left.Nil? then [] else [t.left];
      var rk: seq<Tree> := if t.right.Nil? then [] else [t.right];
      ForestLevelAppend(lk, rk, k);
      Singleton(t.left, k);
      Singleton(t.right, k);
    }
  }

  lemma {:induction false} AllKidsLevel(f: seq<Tree>, k: nat)
    ensures ForestLevel(AllKids(f), k) == ForestLevel(f, k + 1)
  {
    if f != [] {
      ForestLevelAppend(Kids(f[0]), AllKids(f[1..]), k);
      KidsLevel(f[0], k);
      AllKidsLevel(f[1..], k);
    }
  }

  lemma {:induction false} AllKidsLevels(f: seq<Tree>, lo: nat, hi: nat)
    ensures ForestLevels(AllKids(f), lo, hi) == ForestLevels(f, lo + 1, hi + 1)
    decreases hi - lo
  {
    if lo < hi {
      AllKidsLevel(f, lo);
      AllKidsLevels(f, lo + 1, hi);
    }
  }

  lemma {:induction false} MaxDepthAppend(f: seq<Tree>, g: seq<Tree>)
    ensures MaxDepth(f + g) == Max(MaxDepth(f), MaxDepth(g))
  {
    if f == [] {
      assert f + g == g;
    } else {
      assert (f + g)[1..] == f[1..] + g;
      MaxDepthAppend(f[1..], g);
    }
  }

  lemma {:induction false} KidsMaxDepth(t: Tree)
    ensures MaxDepth(Kids(t)) == Max(Depth(t) - 1, -1)
  {
    if t.Node? {
      var lk: seq<Tree> := if t.left.Nil? then [] else [t.left];
      var rk: seq<Tree> := if t.right.Nil? then [] else [t.right];
      MaxDepthAppend(lk, rk);
      assert [t.left][1..] == [] && [t.right][1..] == [];
    }
  }

  /** The children of a queue are one level shallower than the queue. */
  lemma {:induction false} AllKidsMaxDepth(f: seq<Tree>)
    ensures MaxDepth(AllKids(f)) == Max(MaxDepth(f) - 1, -1)
  {
    if f != [] {
      MaxDepthAppend(Kids(f[0]), AllKids(f[1..]));
      KidsMaxDepth(f[0]);
      AllKidsMaxDepth(f[1..]);
    }
  }

  /** A queue of empty subtrees yields nothing and enqueues nothing. */
  lemma {:induction false} EmptyForest(f: seq<Tree>)
    requires MaxDepth(f) < 0
    ensures ForestLevel(f, 0) == [] && AllKids(f) == []
  {
    if f != [] {
      EmptyForest(f[1..]);
    }
  }

  // ---------------------------------------------------------------------------
  // The queue empties one level at a time

  /** One round of the queue: the front subtree is dropped, or visited and replaced by its children. */
  lemma {:induction false} BfsStep(q: seq<Tree>)
    requires q != []
    ensures Bfs(q) == if q[0].Nil? then Bfs(q[1..]) else [q[0].data] + Bfs(q[1..] + Kids(q[0]))
  {
  }

  lemma {:induction false} ForestStep(a: seq<Tree>)
    requires a != []
    ensures ForestLevel(a, 0) == Level(a[0], 0) + ForestLevel(a[1..], 0)
    ensures AllKids(a) == Kids(a[0]) + AllKids(a[1..])
  {
  }

  /** One round of the queue `a + b`, whose front is the front of `a`. */
  lemma {:induction false} BfsFront(a: seq<Tree>, b: seq<Tree>)
    requires a != []
    ensures a[0].Nil? ==> Bfs(a + b) == Bfs(a[1..] + b)
    ensures a[0].Node? ==> Bfs(a + b) == [a[0].data] + Bfs(a[1..] + (b + Kids(a[0])))
  {
    assert (a + b)[0] == a[0] && (a + b)[1..] == a[1..] + b;
    BfsStep(a + b);
    assert a[1..] + b + Kids(a[0]) == a[1..] + (b + Kids(a[0]));
  }

  /** An empty subtree at the front of the queue is dropped and contributes nothing. */
  lemma {:induction false} BfsSkip(a: seq<Tree>, b: seq<Tree>)
    requires a != [] && a[0].Nil?
    requires Bfs(a[1..] + b) == ForestLevel(a[1..], 0) + Bfs(b + AllKids(a[1..]))
    ensures Bfs(a + b) == ForestLevel(a, 0) + Bfs(b + AllKids(a))
  {
    BfsFront(a, b);
    ForestStep(a);
    assert Level(a[0], 0) == [] && Kids(a[0]) == [];
    LeftUnit(ForestLevel(a[1..], 0));
    LeftUnit(AllKids(a[1..]));
  }

  /** A node at the front of the queue is visited and its children join the back. */
  lemma {:induction false} BfsVisit(a: seq<Tree>, b: seq<Tree>)
    requires a != [] && a[0].Node?
    requires Bfs(a[1..] + (b + Kids(a[0]))) ==
      ForestLevel(a[1..], 0) + Bfs(b + Kids(a[0]) + AllKids(a[1..]))
    ensures Bfs(a + b) == ForestLevel(a, 0) + Bfs(b + AllKids(a))
  {
    BfsFront(a, b);
    ForestStep(a);
    Associative(b, Kids(a[0]), AllKids(a[1..]));
    Associative([a[0].data], ForestLevel(a[1..], 0), Bfs(b + AllKids(a)));
  }

  lemma {:induction false} LeftUnit<T>(x: seq<T>)
    ensures [] + x == x
  {
  }

  lemma {:induction false} Associative<T>(x: seq<T>, y: seq<T>, z: seq<T>)
    ensures x + y + z == x + (y + z)
  {
  }

  /**
   * Running the queue `a + b` first yields the roots of `a`, then continues
   * with `b` followed by the children of `a`.
   */
  lemma {:induction false} BfsSplit(a: seq<Tree>, b: seq<Tree>)
    ensures Bfs(a + b) == ForestLevel(a, 0) + Bfs(b + AllKids(a))
    decreases |a|
  {
    if a == [] {
      assert a + b == b && b + [] == b;
    } else if a[0].Nil? {
      BfsSplit(a[1..], b);
      BfsSkip(a, b);
    } else {
      BfsSplit(a[1..], b + Kids(a[0]));
      BfsVisit(a, b);
    }
  }

  lemma {:induction false} BfsByLevels(f: seq<Tree>, n: nat)
    requires MaxDepth(f) < n
    ensures Bfs(f) == ForestLevels(f, 0, n)
    decreases n
  {
    BfsSplit(f, []);
    assert f + [] == f;
    assert [] + AllKids(f) == AllKids(f);
    if n == 0 {
      EmptyForest(f);
    } else {
      AllKidsMaxDepth(f);
      BfsByLevels(AllKids(f), n - 1);
      AllKidsLevels(f, 0, n - 1);
    }
  }

  lemma {:induction false} SingletonLevels(t: Tree, lo: nat, hi: nat)
    ensures ForestLevels([t], lo, hi) == Levels(t, lo, hi)
    decreases hi - lo
  {
    if lo < hi {
      Singleton(t, lo);
      SingletonLevels(t, lo + 1, hi);
    }
  }

  /**
   * `level_order` yields level 0 (the root), then level 1, and so on down to
   * level `depth`, each level from left to right.
   */
  lemma {:induction false} LevelOrderByLevels(t: Tree)
    ensures LevelOrder(t) == Levels(t, 0, Depth(t) + 1)
  {
    if t.Node? {
      assert [t][1..] == [];
      assert MaxDepth([t]) == Depth(t);
      BfsByLevels([t], Depth(t) + 1);
      SingletonLevels(t, 0, Depth(t) + 1);
    }
  }
}
