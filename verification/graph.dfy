/**
 * The graph searches: breadth-first search, Dijkstra's algorithm, A*,
 * depth-first search, and the Manhattan distance used as a heuristic.
 *
 * A graph is its neighbour function. Nodes are compared by value, which is
 * what keying the visited sets by `JSON.stringify` achieves. Each search
 * also receives (as a ghost parameter) a finite set of nodes that contains
 * the start and is closed under the neighbour function; only termination
 * depends on it.
 */
module Graph {
  import opened Wrappers
  import opened Paths
  import opened PriorityQueue
  import Helpers

  /** What `bfs` returns: the path and its number of edges. */
  datatype BfsResult<N> = BfsResult(path: seq<N>, distance: int)

  /** What `dijkstra` and `aStar` return: the path and its total cost. */
  datatype CostResult<N> = CostResult(path: seq<N>, cost: int)

  // ---------------------------------------------------------------------
  // Breadth-first search

  ghost function QueueNodes<N(!new)>(q: seq<(N, seq<N>)>): set<N> {
    set k | 0 <= k < |q| :: q[k].0
  }

  lemma QueueNodesAppend<N(!new)>(q: seq<(N, seq<N>)>, e: (N, seq<N>))
    ensures QueueNodes(q + [e]) == QueueNodes(q) + {e.0}
  {
    var q' := q + [e];
    assert q'[|q|] == e;
    forall x | x in QueueNodes(q) ensures x in QueueNodes(q') {
      var k :| 0 <= k < |q| && q[k].0 == x;
      assert q'[k] == q[k];
    }
  }

  lemma QueueNodesShift<N(!new)>(q: seq<(N, seq<N>)>)
    requires |q| > 0
    ensures QueueNodes(q) == {q[0].0} + QueueNodes(q[1..])
  {
    forall x | x in QueueNodes(q) ensures x in {q[0].0} + QueueNodes(q[1..]) {
      var k :| 0 <= k < |q| && q[k].0 == x;
      if k > 0 {
        assert q[1..][k - 1] == q[k];
      }
    }
    forall x | x in QueueNodes(q[1..]) ensures x in QueueNodes(q) {
      var k :| 0 <= k < |q[1..]| && q[1..][k].0 == x;
      assert q[k + 1] == q[1..][k];
    }
  }

  /** Queue paths are sorted by length, all between `lo` and `lo + 1` nodes. */
  ghost predicate Levels<N>(q: seq<(N, seq<N>)>, lo: int) {
    forall i, j :: 0 <= i <= j < |q| ==> lo <= |q[i].1| <= |q[j].1| <= lo + 1
  }

  /** Each queued path is a walk from `start` to its node. */
  ghost predicate Reaches<N(!new)>(nb: N -> seq<N>, start: N, q: seq<(N, seq<N>)>) {
    forall k :: 0 <= k < |q| ==> WalkFrom(nb, start, q[k].1) && Last(q[k].1) == q[k].0
  }

  /** Every walk from `start` to `y` has at least `n` nodes. */
  ghost predicate NoShorterWalk<N(!new)>(nb: N -> seq<N>, start: N, y: N, n: int) {
    forall w :: WalkFrom(nb, start, w) && Last(w) == y ==> n <= |w|
  }

  /** No walk from `start` to a queued node is shorter than its queued path. */
  ghost predicate Shortest<N(!new)>(nb: N -> seq<N>, start: N, q: seq<(N, seq<N>)>) {
    forall k :: 0 <= k < |q| ==> NoShorterWalk(nb, start, q[k].0, |q[k].1|)
  }

  /** Every walk from `start` with fewer than `d` nodes ends in `S`. */
  ghost predicate Below<N(!new)>(nb: N -> seq<N>, start: N, d: int, S: set<N>) {
    forall w :: WalkFrom(nb, start, w) && |w| < d ==> Last(w) in S
  }

  /** Every neighbour of a node of `S` is in `V`. */
  ghost predicate Covered<N(!new)>(nb: N -> seq<N>, S: set<N>, V: set<N>) {
    forall x, k {:trigger nb(x)[k]} :: x in S && 0 <= k < |nb(x)| ==> nb(x)[k] in V
  }

  /**
   * A node first seen while expanding a node at depth `d` has no walk of `d`
   * nodes or fewer: such a walk would end at a node already seen.
   */
  lemma NewEntryShortest<N(!new)>(nb: N -> seq<N>, start: N, S: set<N>, V: set<N>, d: int, y: N)
    requires Below(nb, start, d, S) && Covered(nb, S, V) && start in V && y !in V
    ensures NoShorterWalk(nb, start, y, d + 1)
  {
    forall w | WalkFrom(nb, start, w) && Last(w) == y ensures d + 1 <= |w| {
      if 2 <= |w| <= d {
        WalkPrefix(nb, start, w);
      }
    }
  }

  /**
   * When the queue's front moves from depth `d` to depth `d + 1`, every walk
   * of `d` nodes ends at an expanded node.
   */
  lemma NextLevel<N(!new)>(nb: N -> seq<N>, start: N, d: int, S0: set<N>, S: set<N>, V: set<N>, q: seq<(N, seq<N>)>)
    requires Below(nb, start, d, S0) && Covered(nb, S0, V) && start in V && S0 <= S
    requires V == S + QueueNodes(q) && Shortest(nb, start, q)
    requires forall k :: 0 <= k < |q| ==> d + 1 <= |q[k].1|
    ensures Below(nb, start, d + 1, S)
  {
    forall w | WalkFrom(nb, start, w) && |w| < d + 1 ensures Last(w) in S {
      if |w| == d {
        if |w| >= 2 {
          WalkPrefix(nb, start, w);
        }
        assert Last(w) in V;
        assert Last(w) !in QueueNodes(q);
      }
    }
  }

  lemma BelowAt<N(!new)>(nb: N -> seq<N>, start: N, d: int, S: set<N>, w: seq<N>)
    requires Below(nb, start, d, S) && WalkFrom(nb, start, w)
    ensures |w| < d ==> Last(w) in S
  {
  }

  /** A closed set of nodes without goals leaves every goal unreachable. */
  lemma NoGoalReachable<N(!new)>(nb: N -> seq<N>, start: N, isGoal: N -> bool, S: set<N>)
    requires start in S && Covered(nb, S, S) && forall x :: x in S ==> !isGoal(x)
    ensures !GoalOnSomeWalk(nb, start, isGoal)
  {
    forall w | WalkFrom(nb, start, w) ensures !GoalPath(nb, start, isGoal, w) {
      WalkStaysIn(nb, start, S, w);
    }
  }

  /** Adding a key to a map adds it to the key set. */
  lemma KeysAdd<K, V>(m: map<K, V>, k: K, v: V, S: set<K>)
    requires S == m.Keys
    ensures S + {k} == m[k := v].Keys
  {
  }

  lemma DiffShrinks<N(!new)>(U: set<N>, A: set<N>, B: set<N>, y: N)
    requires A <= B <= U && y in B && y !in A
    ensures |U - B| < |U - A|
  {
    var C, D := U - A, U - B;
    assert C == D + (C - D);
    assert D * (C - D) == {};
    var E := C - D - {y};
    assert C - D == {y} + E;
    assert {y} * E == {};
  }

  /** `p` is a walk from `start` that ends at a goal. */
  ghost predicate GoalPath<N>(nb: N -> seq<N>, start: N, isGoal: N -> bool, p: seq<N>) {
    WalkFrom(nb, start, p) && |p| >= 1 && isGoal(Last(p))
  }

  /** Every walk from `start` to a goal has at least `n` nodes. */
  ghost predicate Fewest<N(!new)>(nb: N -> seq<N>, start: N, isGoal: N -> bool, n: int) {
    forall w :: GoalPath(nb, start, isGoal, w) ==> n <= |w|
  }

  /** Some walk from `start` ends at a goal. */
  ghost predicate GoalOnSomeWalk<N(!new)>(nb: N -> seq<N>, start: N, isGoal: N -> bool) {
    exists w :: GoalPath(nb, start, isGoal, w)
  }

  /** A walk to a goal with the fewest nodes never visits a node twice. */
  lemma FewestDistinct<N(!new)>(nb: N -> seq<N>, start: N, isGoal: N -> bool, p: seq<N>)
    requires GoalPath(nb, start, isGoal, p) && Fewest(nb, start, isGoal, |p|)
    ensures forall i, j :: 0 <= i < j < |p| ==> p[i] != p[j]
  {
    forall i, j | 0 <= i < j < |p| ensures p[i] != p[j] {
      if p[i] == p[j] {
        WalkShortcut(nb, start, p, i, j);
        assert GoalPath(nb, start, isGoal, p[..i + 1] + p[j + 1..]);
      }
    }
  }

  /**
   * `bfs`: the first dequeued goal comes with a walk from `start` that has
   * as few edges as any walk from `start` to any goal; `null` (here `None`)
   * exactly when no goal is reachable.
   */
  method Bfs<N(==,!new)>(start: N, nb: N -> seq<N>, isGoal: N -> bool, ghost U: set<N>)
    returns (r: Option<BfsResult<N>>)
    requires start in U && Closed(nb, U)
    ensures r.Some? ==> GoalPath(nb, start, isGoal, r.value.path)
    ensures r.Some? ==> r.value.distance == |r.value.path| - 1
    ensures r.Some? ==> Fewest(nb, start, isGoal, |r.value.path|)
    ensures r.Some? ==> forall i, j :: 0 <= i < j < |r.value.path| ==> r.value.path[i] != r.value.path[j]
    ensures r.None? <==> !GoalOnSomeWalk(nb, start, isGoal)
  {
    var queue: seq<(N, seq<N>)> := [(start, [start])];
    var visited: set<N> := {start};
    ghost var S: set<N> := {};
    BfsInit(nb, start, isGoal, U);
    while |queue| > 0
      invariant BfsInv(nb, start, isGoal, U, S, visited, queue)
      decreases |U - visited|, |queue|
    {
      var found;
      found, queue, visited, S := BfsRound(nb, start, isGoal, U, S, visited, queue);
      if found.Some? {
        FewestDistinct(nb, start, isGoal, found.value.path);
        return found;
      }
    }
    BfsNone(nb, start, isGoal, U, S, visited, queue);
    return None;
  }

  /** The invariant holds for the queue that holds only the start. */
  lemma BfsInit<N(!new)>(nb: N -> seq<N>, start: N, isGoal: N -> bool, U: set<N>)
    requires start in U
    ensures BfsInv(nb, start, isGoal, U, {}, {start}, [(start, [start])])
  {
    var q := [(start, [start])];
    QueueNodesShift(q);
    assert QueueNodes(q[1..]) == {};
  }

  /** An empty queue leaves every goal unreachable. */
  lemma BfsNone<N(!new)>(nb: N -> seq<N>, start: N, isGoal: N -> bool, U: set<N>,
      S: set<N>, visited: set<N>, queue: seq<(N, seq<N>)>)
    requires BfsInv(nb, start, isGoal, U, S, visited, queue) && |queue| == 0
    ensures !GoalOnSomeWalk(nb, start, isGoal)
  {
    assert QueueNodes(queue) == {};
    NoGoalReachable(nb, start, isGoal, S);
  }

  /**
   * One turn of the `bfs` loop: dequeue the front; answer it if it is a
   * goal, otherwise visit its neighbours.
   */
  method BfsRound<N(==,!new)>(nb: N -> seq<N>, start: N, isGoal: N -> bool, ghost U: set<N>,
      ghost S: set<N>, visited: set<N>, queue: seq<(N, seq<N>)>)
    returns (found: Option<BfsResult<N>>, queue': seq<(N, seq<N>)>, visited': set<N>, ghost S': set<N>)
    requires Closed(nb, U) && BfsInv(nb, start, isGoal, U, S, visited, queue) && |queue| > 0
    ensures found.Some? ==> GoalPath(nb, start, isGoal, found.value.path)
    ensures found.Some? ==> found.value.distance == |found.value.path| - 1
    ensures found.Some? ==> Fewest(nb, start, isGoal, |found.value.path|)
    ensures found.Some? ==> GoalOnSomeWalk(nb, start, isGoal)
    ensures found.None? ==> BfsInv(nb, start, isGoal, U, S', visited', queue')
    ensures found.None? ==> |U - visited'| < |U - visited| || (visited' == visited && |queue'| < |queue|)
  {
    var cur, path := queue[0].0, queue[0].1;
    if isGoal(cur) {
      BfsFound(nb, start, isGoal, U, S, visited, queue);
      found, queue', visited', S' := Some(BfsResult(path, |path| - 1)), queue, visited, S;
    } else {
      ClosedAt(nb, U, cur);
      var q0 := queue[1..];
      queue', visited' := BfsVisit(nb, cur, path, q0, visited, U);
      BfsStep(nb, start, isGoal, U, S, visited, cur, path, queue, q0, queue', visited');
      found, S' := None, S + {cur};
    }
  }

  /** A goal at the front of the queue ends a shortest walk to any goal. */
  lemma BfsFound<N(!new)>(nb: N -> seq<N>, start: N, isGoal: N -> bool, U: set<N>,
      S: set<N>, visited: set<N>, queue: seq<(N, seq<N>)>)
    requires BfsInv(nb, start, isGoal, U, S, visited, queue) && |queue| > 0 && isGoal(queue[0].0)
    ensures GoalPath(nb, start, isGoal, queue[0].1)
    ensures Fewest(nb, start, isGoal, |queue[0].1|)
    ensures GoalOnSomeWalk(nb, start, isGoal)
  {
    assert WalkFrom(nb, start, queue[0].1) && Last(queue[0].1) == queue[0].0;
    WalkStart(nb, start, queue[0].1);
    assert GoalPath(nb, start, isGoal, queue[0].1);
    forall w | GoalPath(nb, start, isGoal, w) ensures |queue[0].1| <= |w| {
      BelowAt(nb, start, |queue[0].1|, S, w);
    }
  }

  /** The loop invariant of `bfs`. */
  ghost predicate BfsInv<N(!new)>(nb: N -> seq<N>, start: N, isGoal: N -> bool, U: set<N>,
      S: set<N>, visited: set<N>, queue: seq<(N, seq<N>)>)
  {
    && visited <= U && start in visited
    && visited == S + QueueNodes(queue)
    && Reaches(nb, start, queue) && Shortest(nb, start, queue)
    && (|queue| > 0 ==> Levels(queue, |queue[0].1|) && Below(nb, start, |queue[0].1|, S))
    && (forall x :: x in S ==> !isGoal(x))
    && Covered(nb, S, visited)
  }

  /**
   * One turn of the `bfs` loop: `cur` with `path` left the front of `qh`,
   * was no goal, and its neighbours were visited.
   */
  ghost predicate BfsTurn<N(!new)>(nb: N -> seq<N>, start: N, isGoal: N -> bool, U: set<N>, S: set<N>,
      V0: set<N>, cur: N, path: seq<N>, qh: seq<(N, seq<N>)>, q0: seq<(N, seq<N>)>,
      q1: seq<(N, seq<N>)>, V1: set<N>)
  {
    && BfsInv(nb, start, isGoal, U, S, V0, qh) && |qh| > 0 && qh[0] == (cur, path) && q0 == qh[1..]
    && !isGoal(cur) && V1 <= U && Expanded(nb, cur, path, q0, V0, q1, V1)
  }

  /** One turn of the `bfs` loop keeps its invariant and makes progress. */
  lemma BfsStep<N(!new)>(nb: N -> seq<N>, start: N, isGoal: N -> bool, U: set<N>, S: set<N>,
      V0: set<N>, cur: N, path: seq<N>, qh: seq<(N, seq<N>)>, q0: seq<(N, seq<N>)>,
      q1: seq<(N, seq<N>)>, V1: set<N>)
    requires BfsTurn(nb, start, isGoal, U, S, V0, cur, path, qh, q0, q1, V1)
    ensures BfsInv(nb, start, isGoal, U, S + {cur}, V1, q1)
    ensures |U - V1| < |U - V0| || (V1 == V0 && |q1| < |qh|)
  {
    BfsStepQueue(nb, start, isGoal, U, S, V0, cur, path, qh, q0, q1, V1);
    BfsStepSeen(nb, start, isGoal, U, S, V0, cur, path, qh, q0, q1, V1);
    if |q1| > 0 {
      BfsHeadStep(nb, start, S, V0, V1, cur, |path|, q1);
    }
    BfsStepProgress(nb, start, isGoal, U, S, V0, cur, path, qh, q0, q1, V1);
  }

  lemma BfsStepQueue<N(!new)>(nb: N -> seq<N>, start: N, isGoal: N -> bool, U: set<N>, S: set<N>,
      V0: set<N>, cur: N, path: seq<N>, qh: seq<(N, seq<N>)>, q0: seq<(N, seq<N>)>,
      q1: seq<(N, seq<N>)>, V1: set<N>)
    requires BfsTurn(nb, start, isGoal, U, S, V0, cur, path, qh, q0, q1, V1)
    ensures Reaches(nb, start, q1) && Shortest(nb, start, q1) && Levels(q1, |path|)
  {
    assert qh[1..] == q0;
    BfsQueueStep(nb, start, S, V0, cur, path, q0, q1);
  }

  lemma BfsStepSeen<N(!new)>(nb: N -> seq<N>, start: N, isGoal: N -> bool, U: set<N>, S: set<N>,
      V0: set<N>, cur: N, path: seq<N>, qh: seq<(N, seq<N>)>, q0: seq<(N, seq<N>)>,
      q1: seq<(N, seq<N>)>, V1: set<N>)
    requires BfsTurn(nb, start, isGoal, U, S, V0, cur, path, qh, q0, q1, V1)
    ensures V1 == (S + {cur}) + QueueNodes(q1) && Covered(nb, S + {cur}, V1)
    ensures start in V1 && V0 <= V1 && Covered(nb, S, V0) && Below(nb, start, |path|, S) && Levels(q1, |path|)
  {
    QueueNodesShift(qh);
    SeenSplit(V0, S, cur, QueueNodes(q0), QueueNodes(q1), V1);
    CoveredStep(nb, S, cur, V0, V1);
    BfsStepQueue(nb, start, isGoal, U, S, V0, cur, path, qh, q0, q1, V1);
  }

  lemma BfsStepProgress<N(!new)>(nb: N -> seq<N>, start: N, isGoal: N -> bool, U: set<N>, S: set<N>,
      V0: set<N>, cur: N, path: seq<N>, qh: seq<(N, seq<N>)>, q0: seq<(N, seq<N>)>,
      q1: seq<(N, seq<N>)>, V1: set<N>)
    requires BfsTurn(nb, start, isGoal, U, S, V0, cur, path, qh, q0, q1, V1)
    ensures |U - V1| < |U - V0| || (V1 == V0 && |q1| < |qh|)
  {
    if V1 != V0 {
      var y :| y in V1 && y !in V0;
      DiffShrinks(U, V0, V1, y);
    }
  }

  lemma CoveredStep<N(!new)>(nb: N -> seq<N>, S: set<N>, cur: N, V0: set<N>, V1: set<N>)
    requires Covered(nb, S, V0) && V0 <= V1
    requires forall k :: 0 <= k < |nb(cur)| ==> nb(cur)[k] in V1
    ensures Covered(nb, S + {cur}, V1)
  {
  }

  /** The front of the queue after a turn sits at depth `d` or `d + 1`. */
  lemma BfsHeadStep<N(!new)>(nb: N -> seq<N>, start: N, S: set<N>, V0: set<N>, V1: set<N>, cur: N, d: int,
      q1: seq<(N, seq<N>)>)
    requires |q1| > 0 && Levels(q1, d) && Below(nb, start, d, S) && Covered(nb, S, V0) && start in V0
    requires V0 <= V1 && V1 == (S + {cur}) + QueueNodes(q1) && Shortest(nb, start, q1)
    ensures Levels(q1, |q1[0].1|) && Below(nb, start, |q1[0].1|, S + {cur})
  {
    if |q1[0].1| == d + 1 {
      NextLevel(nb, start, d, S, S + {cur}, V1, q1);
    }
  }

  lemma ClosedAt<N(!new)>(nb: N -> seq<N>, U: set<N>, x: N)
    requires Closed(nb, U) && x in U
    ensures forall k :: 0 <= k < |nb(x)| ==> nb(x)[k] in U
  {
  }

  /** The seen set stays the expanded nodes plus the queued ones. */
  lemma SeenSplit<N>(V0: set<N>, S: set<N>, cur: N, Q0: set<N>, Q1: set<N>, V1: set<N>)
    requires V0 == S + ({cur} + Q0) && Q1 == Q0 + (V1 - V0) && V0 <= V1
    ensures V1 == (S + {cur}) + Q1
  {
  }

  /**
   * After the neighbours of `cur` (at depth `d`) are queued, the queue still
   * holds walks from `start`, each as short as any walk to its node, sorted
   * by length.
   */
  lemma BfsQueueStep<N(!new)>(nb: N -> seq<N>, start: N, S: set<N>, V: set<N>, cur: N, path: seq<N>,
      q: seq<(N, seq<N>)>, q': seq<(N, seq<N>)>)
    requires Below(nb, start, |path|, S) && Covered(nb, S, V) && start in V
    requires WalkFrom(nb, start, path) && |path| >= 1 && Last(path) == cur
    requires Reaches(nb, start, q) && Shortest(nb, start, q) && Levels(q, |path|)
    requires |q| <= |q'| && q'[..|q|] == q
    requires forall j :: |q| <= j < |q'| ==> q'[j].0 !in V && q'[j].0 in nb(cur) && q'[j].1 == path + [q'[j].0]
    ensures Reaches(nb, start, q') && Shortest(nb, start, q') && Levels(q', |path|)
  {
    forall j | |q| <= j < |q'|
      ensures WalkFrom(nb, start, q'[j].1) && Last(q'[j].1) == q'[j].0
      ensures NoShorterWalk(nb, start, q'[j].0, |q'[j].1|)
    {
      WalkExtend(nb, start, path, q'[j].0);
      NewEntryShortest(nb, start, S, V, |path|, q'[j].0);
    }
    PrefixEntries(q, q');
    LevelsStep(q, q', |path|);
  }

  lemma PrefixEntries<T>(q: seq<T>, q': seq<T>)
    requires |q| <= |q'| && q'[..|q|] == q
    ensures forall j :: 0 <= j < |q| ==> q'[j] == q[j]
  {
    forall j | 0 <= j < |q| ensures q'[j] == q[j] {
      assert q'[..|q|][j] == q[j];
    }
  }

  lemma LevelsStep<N>(q: seq<(N, seq<N>)>, q': seq<(N, seq<N>)>, lo: int)
    requires Levels(q, lo) && |q| <= |q'| && forall j :: 0 <= j < |q| ==> q'[j] == q[j]
    requires forall j :: |q| <= j < |q'| ==> |q'[j].1| == lo + 1
    ensures Levels(q', lo)
  {
  }

  /**
   * `q1` and `V1` are `q0` and `V0` after the neighbours of `cur` are
   * visited: each neighbour is seen, and the ones not seen before are queued
   * in order with `path` extended by them.
   */
  ghost predicate Expanded<N(!new)>(nb: N -> seq<N>, cur: N, path: seq<N>, q0: seq<(N, seq<N>)>, V0: set<N>,
      q1: seq<(N, seq<N>)>, V1: set<N>)
  {
    && V0 <= V1
    && (forall k :: 0 <= k < |nb(cur)| ==> nb(cur)[k] in V1)
    && |q0| <= |q1| && q1[..|q0|] == q0
    && (forall j :: |q0| <= j < |q1| ==> q1[j].0 !in V0 && q1[j].0 in nb(cur) && q1[j].1 == path + [q1[j].0])
    && QueueNodes(q1) == QueueNodes(q0) + (V1 - V0)
    && (V1 == V0 ==> q1 == q0)
  }

  /**
   * The `for` loop of `bfs`: every neighbour of `cur` not seen yet is marked
   * seen and queued with the path extended by it.
   */
  method BfsVisit<N(==,!new)>(nb: N -> seq<N>, cur: N, path: seq<N>,
      queue: seq<(N, seq<N>)>, visited: set<N>, ghost U: set<N>)
    returns (queue': seq<(N, seq<N>)>, visited': set<N>)
    requires visited <= U && forall k :: 0 <= k < |nb(cur)| ==> nb(cur)[k] in U
    ensures visited' <= U && Expanded(nb, cur, path, queue, visited, queue', visited')
  {
    var ns := nb(cur);
    queue', visited' := queue, visited;
    for i := 0 to |ns|
      invariant visited <= visited' <= U
      invariant forall k :: 0 <= k < i ==> ns[k] in visited'
      invariant |queue| <= |queue'| && queue'[..|queue|] == queue
      invariant forall j :: |queue| <= j < |queue'| ==>
                  queue'[j].0 !in visited && queue'[j].0 in ns && queue'[j].1 == path + [queue'[j].0]
      invariant QueueNodes(queue') == QueueNodes(queue) + (visited' - visited)
      invariant visited' == visited ==> queue' == queue
    {
      var y := ns[i];
      if y !in visited' {
        QueueNodesAppend(queue', (y, path + [y]));
        visited' := visited' + {y};
        queue' := queue' + [(y, path + [y])];
      }
    }
  }

  // ---------------------------------------------------------------------
  // Dijkstra's algorithm and A*: shared bookkeeping

  /** `p` is a walk from `start` of cost `c` that ends at a goal. */
  ghost predicate GoalWalk<N>(nb: N -> seq<(N, int)>, start: N, isGoal: N -> bool, p: seq<N>, c: int) {
    CostWalkFrom(nb, start, p, c) && |p| >= 1 && isGoal(Last(p))
  }

  /** No walk from `start` to a goal costs less than `c`. */
  ghost predicate Cheapest<N(!new)>(nb: N -> seq<(N, int)>, start: N, isGoal: N -> bool, c: int) {
    forall w, c' :: GoalWalk(nb, start, isGoal, w, c') ==> c <= c'
  }

  /** Some walk from `start` ends at a goal. */
  ghost predicate GoalReachable<N(!new)>(nb: N -> seq<(N, int)>, start: N, isGoal: N -> bool) {
    exists w, c :: GoalWalk(nb, start, isGoal, w, c)
  }

  /** Some queued entry for `y` has priority at most `b`. */
  ghost predicate Pending<N>(items: seq<Entry<N>>, y: N, b: int) {
    exists k :: 0 <= k < |items| && items[k].item == y && items[k].priority <= b
  }

  /** Every costed walk from `start` to `v` costs at least `b`. */
  ghost predicate NoCheaperWalk<N(!new)>(nb: N -> seq<(N, int)>, start: N, v: N, b: int) {
    forall w, c :: CostWalkFrom(nb, start, w, c) && Last(w) == v ==> b <= c
  }

  /** The estimate `h(_, goal)` never drops by more than the edge it crosses costs. */
  ghost predicate Consistent<N(!new)>(nb: N -> seq<(N, int)>, h: (N, N) -> int, goal: N) {
    forall u, j :: 0 <= j < |nb(u)| ==> h(u, goal) <= nb(u)[j].1 + h(nb(u)[j].0, goal)
  }

  /**
   * The settled nodes are the keys of `dist`, each with the cost it was
   * settled at. The start is settled or queued, and every edge from a settled
   * node to an unsettled one has a queued entry no dearer than taking that
   * edge (with the estimate `h` of its end toward `goal` added, as the queue orders by).
   */
  ghost predicate Frontier<N(!new)>(nb: N -> seq<(N, int)>, start: N, h: (N, N) -> int, goal: N, items: seq<Entry<N>>,
      dist: map<N, int>)
  {
    && (start in dist || Pending(items, start, h(start, goal)))
    && forall v, j :: v in dist && 0 <= j < |nb(v)| && nb(v)[j].0 !in dist ==>
         Pending(items, nb(v)[j].0, dist[v] + nb(v)[j].1 + h(nb(v)[j].0, goal))
  }

  /** Each settled node was settled at the cost of a cheapest walk to it. */
  ghost predicate Settled<N(!new)>(nb: N -> seq<(N, int)>, start: N, dist: map<N, int>) {
    forall v :: v in dist ==> NoCheaperWalk(nb, start, v, dist[v])
  }

  /**
   * Every walk from `start` to an unsettled node is matched by a queued
   * entry whose priority is at most the walk's cost plus the estimate at its
   * end: follow the walk to the first unsettled node.
   */
  lemma {:induction false} FrontierBound<N(!new)>(nb: N -> seq<(N, int)>, start: N, h: (N, N) -> int, goal: N,
      items: seq<Entry<N>>, dist: map<N, int>, w: seq<N>, c: int)
    requires Frontier(nb, start, h, goal, items, dist) && Settled(nb, start, dist) && Consistent(nb, h, goal)
    requires CostWalkFrom(nb, start, w, c) && Last(w) !in dist
    ensures exists k :: 0 <= k < |items| && items[k].priority <= c + h(Last(w), goal)
    decreases |w|
  {
    if |w| >= 2 {
      var u, y := w[|w| - 2], w[|w| - 1];
      var j :| Edge(nb, u, y, j) && CostWalkFrom(nb, start, w[..|w| - 1], c - nb(u)[j].1);
      var w' := w[..|w| - 1];
      assert Last(w') == u;
      if u in dist {
        assert NoCheaperWalk(nb, start, u, dist[u]);
        assert Pending(items, y, dist[u] + nb(u)[j].1 + h(y, goal));
      } else {
        FrontierBound(nb, start, h, goal, items, dist, w', c - nb(u)[j].1);
      }
    }
  }

  /** The front of a sorted queue is no dearer than any walk to an unsettled node. */
  lemma FrontBound<N(!new)>(nb: N -> seq<(N, int)>, start: N, h: (N, N) -> int, goal: N, items: seq<Entry<N>>,
      dist: map<N, int>)
    requires Frontier(nb, start, h, goal, items, dist) && Settled(nb, start, dist) && Consistent(nb, h, goal)
    requires SortedByPriority(items) && |items| > 0
    ensures forall w, c :: CostWalkFrom(nb, start, w, c) && Last(w) !in dist ==> items[0].priority <= c + h(Last(w), goal)
  {
    forall w, c | CostWalkFrom(nb, start, w, c) && Last(w) !in dist
      ensures items[0].priority <= c + h(Last(w), goal)
    {
      FrontierBound(nb, start, h, goal, items, dist, w, c);
    }
  }

  lemma PendingDequeue<N>(items: seq<Entry<N>>, y: N, b: int)
    requires |items| > 0 && items[0].item != y && Pending(items, y, b)
    ensures Pending(items[1..], y, b)
  {
    var k :| 0 <= k < |items| && items[k].item == y && items[k].priority <= b;
    assert items[1..][k - 1] == items[k];
  }

  lemma PendingGrow<N>(items: seq<Entry<N>>, items': seq<Entry<N>>, y: N, b: int)
    requires Pending(items, y, b) && multiset(items) <= multiset(items')
    ensures Pending(items', y, b)
  {
    var k :| 0 <= k < |items| && items[k].item == y && items[k].priority <= b;
    assert items[k] in multiset(items);
    assert items[k] in items';
    var k' :| 0 <= k' < |items'| && items'[k'] == items[k];
  }

  /** Dropping a front entry whose node is settled keeps the frontier. */
  lemma FrontierSkip<N(!new)>(nb: N -> seq<(N, int)>, start: N, h: (N, N) -> int, goal: N, items: seq<Entry<N>>,
      dist: map<N, int>)
    requires Frontier(nb, start, h, goal, items, dist) && |items| > 0 && items[0].item in dist
    ensures Frontier(nb, start, h, goal, items[1..], dist)
  {
    if start !in dist {
      PendingDequeue(items, start, h(start, goal));
    }
    forall v, j | v in dist && 0 <= j < |nb(v)| && nb(v)[j].0 !in dist
      ensures Pending(items[1..], nb(v)[j].0, dist[v] + nb(v)[j].1 + h(nb(v)[j].0, goal))
    {
      PendingDequeue(items, nb(v)[j].0, dist[v] + nb(v)[j].1 + h(nb(v)[j].0, goal));
    }
  }

  /**
   * Settling the front node `x` at cost `g`, once its unsettled neighbours
   * are queued at `g` plus the edge, keeps the frontier.
   */
  lemma FrontierSettle<N(!new)>(nb: N -> seq<(N, int)>, start: N, h: (N, N) -> int, goal: N, items: seq<Entry<N>>,
      dist: map<N, int>, g: int, added: seq<Entry<N>>, items': seq<Entry<N>>)
    requires Frontier(nb, start, h, goal, items, dist) && |items| > 0 && items[0].item !in dist
    requires multiset(items') == multiset(items[1..]) + multiset(added)
    requires forall j :: 0 <= j < |nb(items[0].item)| && nb(items[0].item)[j].0 !in dist.Keys + {items[0].item} ==>
               Pending(items', nb(items[0].item)[j].0, g + nb(items[0].item)[j].1 + h(nb(items[0].item)[j].0, goal))
    ensures Frontier(nb, start, h, goal, items', dist[items[0].item := g])
  {
    var x := items[0].item;
    var dist' := dist[x := g];
    assert dist'.Keys == dist.Keys + {x};
    assert multiset(items[1..]) <= multiset(items');
    if start !in dist' {
      PendingDequeue(items, start, h(start, goal));
      PendingGrow(items[1..], items', start, h(start, goal));
    }
    forall v, j | v in dist' && 0 <= j < |nb(v)| && nb(v)[j].0 !in dist'
      ensures Pending(items', nb(v)[j].0, dist'[v] + nb(v)[j].1 + h(nb(v)[j].0, goal))
    {
      if v != x {
        var b := dist[v] + nb(v)[j].1 + h(nb(v)[j].0, goal);
        PendingDequeue(items, nb(v)[j].0, b);
        PendingGrow(items[1..], items', nb(v)[j].0, b);
      }
    }
  }

  /** A queue entry built from relaxing edge `j` of `cur` is pending at its priority. */
  lemma PendingEntry<N>(items: seq<Entry<N>>, e: Entry<N>)
    requires e in items
    ensures Pending(items, e.item, e.priority)
  {
    var k :| 0 <= k < |items| && items[k] == e;
  }

  /** With nothing queued, the settled nodes are closed under the edges. */
  lemma FrontierEmpty<N(!new)>(nb: N -> seq<(N, int)>, start: N, h: (N, N) -> int, goal: N, dist: map<N, int>)
    requires Frontier(nb, start, h, goal, [], dist)
    ensures start in dist.Keys && CostClosed(nb, dist.Keys)
  {
  }

  // ---------------------------------------------------------------------
  // Dijkstra's algorithm

  /** The estimate Dijkstra's algorithm orders by: none. */
  function Zero<N>(x: N, goal: N): int {
    0
  }

  /** With no negative edge, the zero estimate is consistent. */
  lemma ZeroConsistent<N(!new)>(nb: N -> seq<(N, int)>, goal: N)
    requires NonNegative(nb)
    ensures Consistent(nb, Zero, goal)
  {
  }

  /** A queued entry records a costed walk from `start` that ends at its node. */
  ghost predicate Reached<N(!new)>(nb: N -> seq<(N, int)>, start: N, U: set<N>, e: Entry<N>) {
    |e.path| >= 1 && Last(e.path) == e.item && e.item in U && CostWalkFrom(nb, start, e.path, e.priority)
  }

  ghost predicate AllReached<N(!new)>(nb: N -> seq<(N, int)>, start: N, U: set<N>, items: seq<Entry<N>>) {
    forall e {:trigger Reached(nb, start, U, e)} :: e in items ==> Reached(nb, start, U, e)
  }

  lemma AllReachedTail<N(!new)>(nb: N -> seq<(N, int)>, start: N, U: set<N>, items: seq<Entry<N>>)
    requires AllReached(nb, start, U, items) && |items| > 0
    ensures AllReached(nb, start, U, items[1..])
  {
    assert forall e :: e in items[1..] ==> e in items;
  }

  /** Merging two queues of recorded walks gives a queue of recorded walks. */
  lemma AllReachedMerge<N(!new)>(nb: N -> seq<(N, int)>, start: N, U: set<N>, a: seq<Entry<N>>, b: seq<Entry<N>>,
      c: seq<Entry<N>>)
    requires AllReached(nb, start, U, a) && AllReached(nb, start, U, b)
    requires multiset(c) == multiset(a) + multiset(b)
    ensures AllReached(nb, start, U, c)
  {
    forall e | e in c ensures Reached(nb, start, U, e) {
      assert e in multiset(c);
      assert e in multiset(a) || e in multiset(b);
    }
  }

  /** The entry `dijkstra` queues for edge `j` of `cur`, itself reached at `cost` along `path`. */
  function DijkstraEntry<N>(nb: N -> seq<(N, int)>, cur: N, cost: int, path: seq<N>, j: int): Entry<N>
    requires 0 <= j < |nb(cur)|
  {
    Entry(nb(cur)[j].0, cost + nb(cur)[j].1, path + [nb(cur)[j].0], None)
  }

  /**
   * The entries the neighbour loop of `dijkstra` queues from the first `n`
   * edges of `cur`: one for each edge leading outside `visited`, in order.
   */
  function DijkstraEntries<N>(nb: N -> seq<(N, int)>, cur: N, cost: int, path: seq<N>, visited: set<N>,
      n: nat): seq<Entry<N>>
    requires n <= |nb(cur)|
  {
    if n == 0 then []
    else DijkstraEntries(nb, cur, cost, path, visited, n - 1)
         + (if nb(cur)[n - 1].0 in visited then [] else [DijkstraEntry(nb, cur, cost, path, n - 1)])
  }

  /** The queued entries are exactly those for the edges leading outside `visited`. */
  lemma {:induction false} DijkstraEntriesMembers<N>(nb: N -> seq<(N, int)>, cur: N, cost: int, path: seq<N>,
      visited: set<N>, n: nat)
    requires n <= |nb(cur)|
    ensures forall e :: e in DijkstraEntries(nb, cur, cost, path, visited, n) ==>
              exists j :: 0 <= j < n && nb(cur)[j].0 !in visited && e == DijkstraEntry(nb, cur, cost, path, j)
    ensures forall j :: 0 <= j < n && nb(cur)[j].0 !in visited ==>
              DijkstraEntry(nb, cur, cost, path, j) in DijkstraEntries(nb, cur, cost, path, visited, n)
  {
    if n > 0 {
      DijkstraEntriesMembers(nb, cur, cost, path, visited, n - 1);
    }
  }

  /**
   * What the neighbour loop of `dijkstra` does to the queue: it inserts, in
   * edge order, one entry for each edge of `cur` leading outside `visited`.
   */
  ghost predicate DijkstraRelaxed<N>(nb: N -> seq<(N, int)>, cur: N, cost: int, path: seq<N>, visited: set<N>,
      items0: seq<Entry<N>>, items1: seq<Entry<N>>)
  {
    items1 == InsertAll(items0, DijkstraEntries(nb, cur, cost, path, visited, |nb(cur)|))
  }

  /**
   * The loop invariant of `dijkstra`: the queue is sorted and holds walks,
   * no settled node is a goal, the frontier is kept, and (with no negative
   * edge) every node was settled at its least cost.
   */
  ghost predicate DijkstraInv<N(!new)>(nb: N -> seq<(N, int)>, start: N, isGoal: N -> bool, U: set<N>,
      items: seq<Entry<N>>, dist: map<N, int>)
  {
    && SortedByPriority(items)
    && dist.Keys <= U
    && AllReached(nb, start, U, items)
    && (forall x :: x in dist ==> !isGoal(x))
    && Frontier(nb, start, Zero, start, items, dist)
    && (NonNegative(nb) ==> Settled(nb, start, dist))
  }

  /**
   * `dijkstra`: settle nodes in order of cost, from a priority queue of
   * paths. A result is a costed walk to a goal; when no edge is negative it
   * is a cheapest one; and there is no result exactly when no goal can be
   * reached. (With a negative edge the cost returned need not be least, as
   * a node is settled the first time it is dequeued.)
   */
  method Dijkstra<N(==,!new)>(start: N, nb: N -> seq<(N, int)>, isGoal: N -> bool, ghost U: set<N>)
    returns (r: Option<CostResult<N>>)
    requires start in U && CostClosed(nb, U)
    ensures r.Some? ==> GoalWalk(nb, start, isGoal, r.value.path, r.value.cost)
    ensures r.Some? && NonNegative(nb) ==> Cheapest(nb, start, isGoal, r.value.cost)
    ensures r.None? <==> !GoalReachable(nb, start, isGoal)
  {
    var pq := new MinPriorityQueue<N>();
    pq.Enqueue(start, 0, [start], None);
    var visited: set<N> := {};
    ghost var dist: map<N, int> := map[];
    DijkstraInit(nb, start, isGoal, U, pq.items);
    while !pq.IsEmpty()
      invariant pq.Valid() && visited == dist.Keys
      invariant DijkstraInv(nb, start, isGoal, U, pq.items, dist)
      decreases |U - visited|, |pq.items|
    {
      var found;
      found, visited, dist := DijkstraStep(pq, nb, isGoal, visited, start, U, dist);
      if found.Some? {
        return found;
      }
    }
    DijkstraNone(nb, start, isGoal, U, dist);
    return None;
  }

  /**
   * One turn of the main loop of `dijkstra`: dequeue the cheapest entry,
   * skip it if its node is settled, stop if it is a goal, and otherwise
   * settle it and queue its neighbours.
   */
  method DijkstraStep<N(==,!new)>(pq: MinPriorityQueue<N>, nb: N -> seq<(N, int)>, isGoal: N -> bool,
      visited: set<N>, ghost start: N, ghost U: set<N>, ghost dist: map<N, int>)
    returns (found: Option<CostResult<N>>, visited': set<N>, ghost dist': map<N, int>)
    requires pq.Valid() && |pq.items| > 0 && visited == dist.Keys
    requires CostClosed(nb, U) && DijkstraInv(nb, start, isGoal, U, pq.items, dist)
    modifies pq
    ensures found.Some? ==> GoalWalk(nb, start, isGoal, found.value.path, found.value.cost)
    ensures found.Some? && NonNegative(nb) ==> Cheapest(nb, start, isGoal, found.value.cost)
    ensures found.Some? ==> GoalReachable(nb, start, isGoal)
    ensures found.None? ==> pq.Valid() && visited' == dist'.Keys && DijkstraInv(nb, start, isGoal, U, pq.items, dist')
    ensures found.None? ==>
      |U - visited'| < |U - visited| || (visited' == visited && |pq.items| < |old(pq.items)|)
  {
    ghost var items := pq.items;
    var e := pq.Dequeue();
    var current, cost, path := e.value.item, e.value.priority, e.value.path;
    if current in visited {
      DijkstraSkip(nb, start, isGoal, U, items, dist);
      found, visited', dist' := None, visited, dist;
    } else if isGoal(current) {
      DijkstraFound(nb, start, isGoal, U, items, dist);
      found, visited', dist' := Some(CostResult(path, cost)), visited + {current}, dist;
    } else {
      visited' := visited + {current};
      DijkstraExpand(pq, nb, current, cost, path, visited', start, isGoal, U, items, dist);
      found, dist' := None, dist[current := cost];
      KeysAdd(dist, current, cost, visited);
    }
  }

  /** Settle `cur` at `cost` and queue the walks to its neighbours outside `visited`. */
  method DijkstraExpand<N(==,!new)>(pq: MinPriorityQueue<N>, nb: N -> seq<(N, int)>, cur: N, cost: int,
      path: seq<N>, visited: set<N>, ghost start: N, ghost isGoal: N -> bool, ghost U: set<N>,
      ghost items: seq<Entry<N>>, ghost dist: map<N, int>)
    requires |items| > 0 && pq.Valid() && pq.items == items[1..]
    requires CostClosed(nb, U) && DijkstraInv(nb, start, isGoal, U, items, dist)
    requires items[0] == Entry(cur, cost, path, items[0].gCost) && cur !in dist && !isGoal(cur)
    requires visited == dist.Keys + {cur}
    modifies pq
    ensures pq.Valid() && DijkstraInv(nb, start, isGoal, U, pq.items, dist[cur := cost])
    ensures |U - visited| < |U - dist.Keys|
  {
    DijkstraRelax(pq, nb, cur, cost, path, visited);
    DijkstraSettle(nb, start, isGoal, U, items, dist, pq.items);
    assert Reached(nb, start, U, items[0]);
    DiffShrinks(U, dist.Keys, visited, cur);
  }

  /** The neighbour loop of `dijkstra`. */
  method DijkstraRelax<N(==,!new)>(pq: MinPriorityQueue<N>, nb: N -> seq<(N, int)>, cur: N, cost: int,
      path: seq<N>, visited: set<N>)
    requires pq.Valid()
    modifies pq
    ensures DijkstraRelaxed(nb, cur, cost, path, visited, old(pq.items), pq.items)
  {
    ghost var items0 := pq.items;
    var neighbors := nb(cur);
    for j := 0 to |neighbors|
      invariant DijkstraQueued(nb, cur, cost, path, visited, items0, pq.items, j)
    {
      DijkstraEdge(pq, nb, cur, cost, path, visited, items0, j);
    }
  }

  /** One turn of the neighbour loop: queue the walk along edge `j` unless it leads into `visited`. */
  method DijkstraEdge<N(==,!new)>(pq: MinPriorityQueue<N>, nb: N -> seq<(N, int)>, cur: N, cost: int,
      path: seq<N>, visited: set<N>, ghost items0: seq<Entry<N>>, j: nat)
    requires SortedByPriority(items0) && j < |nb(cur)| && DijkstraQueued(nb, cur, cost, path, visited, items0, pq.items, j)
    modifies pq
    ensures DijkstraQueued(nb, cur, cost, path, visited, items0, pq.items, j + 1)
  {
    var neighbor, edgeCost := nb(cur)[j].0, nb(cur)[j].1;
    if neighbor !in visited {
      ghost var before := pq.items;
      ghost var e := Entry(neighbor, cost + edgeCost, path + [neighbor], None);
      DijkstraQueueEdge(nb, cur, cost, path, visited, items0, before, j, neighbor, edgeCost);
      pq.Enqueue(neighbor, cost + edgeCost, path + [neighbor], None);
      assert pq.items == Insert(before, e);
    } else {
      DijkstraSkipEdge(nb, cur, cost, path, visited, items0, pq.items, j);
    }
  }

  /** `items` is `items0` after the neighbour loop has looked at the first `j` edges. */
  ghost predicate DijkstraQueued<N>(nb: N -> seq<(N, int)>, cur: N, cost: int, path: seq<N>, visited: set<N>,
      items0: seq<Entry<N>>, items: seq<Entry<N>>, j: nat)
  {
    j <= |nb(cur)| && items == InsertAll(items0, DijkstraEntries(nb, cur, cost, path, visited, j))
  }

  /** An edge into `visited` queues nothing. */
  lemma DijkstraSkipEdge<N>(nb: N -> seq<(N, int)>, cur: N, cost: int, path: seq<N>, visited: set<N>,
      items0: seq<Entry<N>>, items: seq<Entry<N>>, j: nat)
    requires j < |nb(cur)| && nb(cur)[j].0 in visited && DijkstraQueued(nb, cur, cost, path, visited, items0, items, j)
    ensures DijkstraQueued(nb, cur, cost, path, visited, items0, items, j + 1)
  {
    DijkstraEntriesSkip(nb, cur, cost, path, visited, j);
  }

  /** An edge leading outside `visited` queues the walk along it. */
  lemma DijkstraQueueEdge<N>(nb: N -> seq<(N, int)>, cur: N, cost: int, path: seq<N>, visited: set<N>,
      items0: seq<Entry<N>>, items: seq<Entry<N>>, j: nat, y: N, c: int)
    requires SortedByPriority(items0) && j < |nb(cur)| && nb(cur)[j] == (y, c) && y !in visited
    requires DijkstraQueued(nb, cur, cost, path, visited, items0, items, j)
    ensures SortedByPriority(items)
    ensures DijkstraQueued(nb, cur, cost, path, visited, items0, Insert(items, Entry(y, cost + c, path + [y], None)), j + 1)
  {
    var es := DijkstraEntries(nb, cur, cost, path, visited, j);
    InsertAllSorted(items0, es);
    DijkstraEntriesNext(nb, cur, cost, path, visited, j, y, c);
    InsertAllStep(items0, es, Entry(y, cost + c, path + [y], None));
  }

  /** The invariant holds with only the start queued. */
  lemma DijkstraInit<N(!new)>(nb: N -> seq<(N, int)>, start: N, isGoal: N -> bool, U: set<N>, items: seq<Entry<N>>)
    requires start in U && items == Insert([], Entry(start, 0, [start], None))
    ensures DijkstraInv(nb, start, isGoal, U, items, map[])
  {
    assert items == [Entry(start, 0, [start], None)];
    assert Reached(nb, start, U, items[0]);
    assert Pending(items, start, Zero(start, start));
  }

  /** Dropping an already settled front entry keeps the invariant. */
  lemma DijkstraSkip<N(!new)>(nb: N -> seq<(N, int)>, start: N, isGoal: N -> bool, U: set<N>,
      items: seq<Entry<N>>, dist: map<N, int>)
    requires DijkstraInv(nb, start, isGoal, U, items, dist) && |items| > 0 && items[0].item in dist
    ensures DijkstraInv(nb, start, isGoal, U, items[1..], dist)
  {
    FrontierSkip(nb, start, Zero, start, items, dist);
    AllReachedTail(nb, start, U, items);
  }

  /**
   * With no negative edge, the front entry is no dearer than any walk to a
   * goal.
   */
  lemma DijkstraFront<N(!new)>(nb: N -> seq<(N, int)>, start: N, isGoal: N -> bool, U: set<N>,
      items: seq<Entry<N>>, dist: map<N, int>)
    requires DijkstraInv(nb, start, isGoal, U, items, dist) && |items| > 0
    ensures NonNegative(nb) ==> Cheapest(nb, start, isGoal, items[0].priority)
  {
    if NonNegative(nb) {
      ZeroConsistent(nb, start);
      FrontBound(nb, start, Zero, start, items, dist);
    }
  }

  /**
   * A goal at the front of the queue was reached along a walk; with no
   * negative edge no walk to a goal is cheaper.
   */
  lemma DijkstraFound<N(!new)>(nb: N -> seq<(N, int)>, start: N, isGoal: N -> bool, U: set<N>,
      items: seq<Entry<N>>, dist: map<N, int>)
    requires DijkstraInv(nb, start, isGoal, U, items, dist) && |items| > 0 && isGoal(items[0].item)
    ensures GoalWalk(nb, start, isGoal, items[0].path, items[0].priority)
    ensures NonNegative(nb) ==> Cheapest(nb, start, isGoal, items[0].priority)
    ensures GoalReachable(nb, start, isGoal)
  {
    assert Reached(nb, start, U, items[0]);
    assert GoalWalk(nb, start, isGoal, items[0].path, items[0].priority);
    DijkstraFront(nb, start, isGoal, U, items, dist);
  }

  /** Settling the front node and queueing its neighbours keeps the invariant. */
  lemma DijkstraSettle<N(!new)>(nb: N -> seq<(N, int)>, start: N, isGoal: N -> bool, U: set<N>,
      items: seq<Entry<N>>, dist: map<N, int>, items1: seq<Entry<N>>)
    requires CostClosed(nb, U) && DijkstraInv(nb, start, isGoal, U, items, dist)
    requires |items| > 0 && items[0].item !in dist && !isGoal(items[0].item)
    requires DijkstraRelaxed(nb, items[0].item, items[0].priority, items[0].path, dist.Keys + {items[0].item},
               items[1..], items1)
    ensures DijkstraInv(nb, start, isGoal, U, items1, dist[items[0].item := items[0].priority])
  {
    var x, g, path := items[0].item, items[0].priority, items[0].path;
    var es := DijkstraEntries(nb, x, g, path, dist.Keys + {x}, |nb(x)|);
    InsertAllMultiset(items[1..], es);
    SortedTail(items);
    InsertAllSorted(items[1..], es);
    assert Reached(nb, start, U, items[0]);
    DijkstraEntriesReached(nb, start, U, x, g, path, dist.Keys + {x}, |nb(x)|);
    AllReachedTail(nb, start, U, items);
    AllReachedMerge(nb, start, U, items[1..], es, items1);
    DijkstraEntriesPending(nb, start, x, g, path, dist.Keys + {x}, items[1..], items1);
    FrontierSettle(nb, start, Zero, start, items, dist, g, es, items1);
    if NonNegative(nb) {
      DijkstraSettled(nb, start, isGoal, U, items, dist);
    }
  }

  lemma SortedTail<T>(items: seq<Entry<T>>)
    requires SortedByPriority(items) && |items| > 0
    ensures SortedByPriority(items[1..])
  {
  }

  /** With no negative edge, the front node is settled at its least cost. */
  lemma DijkstraSettled<N(!new)>(nb: N -> seq<(N, int)>, start: N, isGoal: N -> bool, U: set<N>,
      items: seq<Entry<N>>, dist: map<N, int>)
    requires DijkstraInv(nb, start, isGoal, U, items, dist) && NonNegative(nb)
    requires |items| > 0 && items[0].item !in dist
    ensures Settled(nb, start, dist[items[0].item := items[0].priority])
  {
    ZeroConsistent(nb, start);
    FrontBound(nb, start, Zero, start, items, dist);
    assert NoCheaperWalk(nb, start, items[0].item, items[0].priority);
    SettledExtend(nb, start, dist, items[0].item, items[0].priority);
  }

  lemma SettledExtend<N(!new)>(nb: N -> seq<(N, int)>, start: N, dist: map<N, int>, x: N, g: int)
    requires Settled(nb, start, dist) && NoCheaperWalk(nb, start, x, g)
    ensures Settled(nb, start, dist[x := g])
  {
  }

  /** The entries queued from the edges of `x` record walks. */
  lemma {:induction false} DijkstraEntriesReached<N(!new)>(nb: N -> seq<(N, int)>, start: N, U: set<N>, x: N,
      g: int, path: seq<N>, visited: set<N>, n: nat)
    requires n <= |nb(x)| && CostClosed(nb, U) && x in U
    requires |path| >= 1 && Last(path) == x && CostWalkFrom(nb, start, path, g)
    ensures AllReached(nb, start, U, DijkstraEntries(nb, x, g, path, visited, n))
  {
    if n > 0 {
      DijkstraEntriesReached(nb, start, U, x, g, path, visited, n - 1);
      var y, c := nb(x)[n - 1].0, nb(x)[n - 1].1;
      if y !in visited {
        DijkstraEntriesNext(nb, x, g, path, visited, n - 1, y, c);
        ReachedEdge(nb, start, U, x, g, path, n - 1, y, c);
        AllReachedSnoc(nb, start, U, DijkstraEntries(nb, x, g, path, visited, n - 1), Entry(y, g + c, path + [y], None));
      } else {
        DijkstraEntriesSkip(nb, x, g, path, visited, n - 1);
      }
    }
  }

  /** The walk along edge `j` of `x` gives an entry that records it. */
  lemma ReachedEdge<N(!new)>(nb: N -> seq<(N, int)>, start: N, U: set<N>, x: N, g: int, path: seq<N>,
      j: nat, y: N, c: int)
    requires CostClosed(nb, U) && x in U && j < |nb(x)| && nb(x)[j] == (y, c)
    requires |path| >= 1 && Last(path) == x && CostWalkFrom(nb, start, path, g)
    ensures Reached(nb, start, U, Entry(y, g + c, path + [y], None))
  {
    CostWalkExtend(nb, start, path, g, j);
  }

  lemma AllReachedSnoc<N(!new)>(nb: N -> seq<(N, int)>, start: N, U: set<N>, es: seq<Entry<N>>, e: Entry<N>)
    requires AllReached(nb, start, U, es) && Reached(nb, start, U, e)
    ensures AllReached(nb, start, U, es + [e])
  {
    assert forall e' :: e' in es + [e] ==> e' in es || e' == e;
  }

  lemma DijkstraEntriesNext<N>(nb: N -> seq<(N, int)>, cur: N, cost: int, path: seq<N>, visited: set<N>,
      j: nat, y: N, c: int)
    requires j < |nb(cur)| && nb(cur)[j] == (y, c) && y !in visited
    ensures DijkstraEntries(nb, cur, cost, path, visited, j + 1)
         == DijkstraEntries(nb, cur, cost, path, visited, j) + [Entry(y, cost + c, path + [y], None)]
  {
  }

  lemma DijkstraEntriesSkip<N>(nb: N -> seq<(N, int)>, cur: N, cost: int, path: seq<N>, visited: set<N>, j: nat)
    requires j < |nb(cur)| && nb(cur)[j].0 in visited
    ensures DijkstraEntries(nb, cur, cost, path, visited, j + 1) == DijkstraEntries(nb, cur, cost, path, visited, j)
  {
    var es := DijkstraEntries(nb, cur, cost, path, visited, j);
    assert es + [] == es;
  }

  /** Each edge `dijkstra` relaxes leaves an entry pending at the cost through it. */
  lemma DijkstraEntriesPending<N>(nb: N -> seq<(N, int)>, start: N, x: N, g: int, path: seq<N>, visited: set<N>,
      rest: seq<Entry<N>>, items1: seq<Entry<N>>)
    requires multiset(items1) == multiset(rest) + multiset(DijkstraEntries(nb, x, g, path, visited, |nb(x)|))
    ensures forall j :: 0 <= j < |nb(x)| && nb(x)[j].0 !in visited ==>
              Pending(items1, nb(x)[j].0, g + nb(x)[j].1 + Zero(nb(x)[j].0, start))
  {
    var es := DijkstraEntries(nb, x, g, path, visited, |nb(x)|);
    DijkstraEntriesMembers(nb, x, g, path, visited, |nb(x)|);
    forall j | 0 <= j < |nb(x)| && nb(x)[j].0 !in visited
      ensures Pending(items1, nb(x)[j].0, g + nb(x)[j].1 + Zero(nb(x)[j].0, start))
    {
      var e := DijkstraEntry(nb, x, g, path, j);
      assert e in multiset(es);
      assert e in multiset(items1);
      PendingEntry(items1, e);
    }
  }

  /** When the queue runs dry, no goal can be reached. */
  lemma DijkstraNone<N(!new)>(nb: N -> seq<(N, int)>, start: N, isGoal: N -> bool, U: set<N>, dist: map<N, int>)
    requires DijkstraInv(nb, start, isGoal, U, [], dist)
    ensures !GoalReachable(nb, start, isGoal)
  {
    FrontierEmpty(nb, start, Zero, start, dist);
    forall w, c | CostWalkFrom(nb, start, w, c) ensures !GoalWalk(nb, start, isGoal, w, c) {
      CostWalkStaysIn(nb, start, dist.Keys, w, c);
    }
  }

  // ---------------------------------------------------------------------
  // A*

  /** `p` is a walk from `start` to `goal` of cost `c`. */
  ghost predicate PathTo<N>(nb: N -> seq<(N, int)>, start: N, goal: N, p: seq<N>, c: int) {
    CostWalkFrom(nb, start, p, c) && |p| >= 1 && Last(p) == goal
  }

  /** No walk from `start` to `goal` costs less than `c`. */
  ghost predicate CheapestTo<N(!new)>(nb: N -> seq<(N, int)>, start: N, goal: N, c: int) {
    forall w, c' :: PathTo(nb, start, goal, w, c') ==> c <= c'
  }

  /** Some walk leads from `start` to `goal`. */
  ghost predicate ReachableTo<N(!new)>(nb: N -> seq<(N, int)>, start: N, goal: N) {
    exists w, c :: PathTo(nb, start, goal, w, c)
  }

  /**
   * A queued entry of `aStar` records a walk from `start` to its node, the
   * cost of that walk as `gCost`, and that cost plus the estimate toward
   * `goal` as its priority.
   */
  ghost predicate Estimated<N(!new)>(nb: N -> seq<(N, int)>, start: N, h: (N, N) -> int, goal: N, U: set<N>,
      e: Entry<N>)
  {
    && e.gCost.Some? && |e.path| >= 1 && Last(e.path) == e.item && e.item in U
    && CostWalkFrom(nb, start, e.path, e.gCost.value)
    && e.priority == e.gCost.value + h(e.item, goal)
  }

  ghost predicate AllEstimated<N(!new)>(nb: N -> seq<(N, int)>, start: N, h: (N, N) -> int, goal: N, U: set<N>,
      items: seq<Entry<N>>)
  {
    forall e {:trigger Estimated(nb, start, h, goal, U, e)} :: e in items ==> Estimated(nb, start, h, goal, U, e)
  }

  lemma AllEstimatedTail<N(!new)>(nb: N -> seq<(N, int)>, start: N, h: (N, N) -> int, goal: N, U: set<N>,
      items: seq<Entry<N>>)
    requires AllEstimated(nb, start, h, goal, U, items) && |items| > 0
    ensures AllEstimated(nb, start, h, goal, U, items[1..])
  {
    assert forall e :: e in items[1..] ==> e in items;
  }

  lemma AllEstimatedMerge<N(!new)>(nb: N -> seq<(N, int)>, start: N, h: (N, N) -> int, goal: N, U: set<N>,
      a: seq<Entry<N>>, b: seq<Entry<N>>, c: seq<Entry<N>>)
    requires AllEstimated(nb, start, h, goal, U, a) && AllEstimated(nb, start, h, goal, U, b)
    requires multiset(c) == multiset(a) + multiset(b)
    ensures AllEstimated(nb, start, h, goal, U, c)
  {
    forall e | e in c ensures Estimated(nb, start, h, goal, U, e) {
      assert e in multiset(c);
      assert e in multiset(a) || e in multiset(b);
    }
  }

  /** The entry `aStar` queues for edge `j` of `cur`, itself reached at cost `g` along `path`. */
  function AStarEntry<N>(nb: N -> seq<(N, int)>, h: (N, N) -> int, goal: N, cur: N, g: int, path: seq<N>,
      j: int): Entry<N>
    requires 0 <= j < |nb(cur)|
  {
    Entry(nb(cur)[j].0, g + nb(cur)[j].1 + h(nb(cur)[j].0, goal), path + [nb(cur)[j].0], Some(g + nb(cur)[j].1))
  }

  /**
   * The entries the neighbour loop of `aStar` queues from the first `n`
   * edges of `cur`: one for each edge leading outside `visited`, in order.
   */
  function AStarEntries<N>(nb: N -> seq<(N, int)>, h: (N, N) -> int, goal: N, cur: N, g: int, path: seq<N>,
      visited: set<N>, n: nat): seq<Entry<N>>
    requires n <= |nb(cur)|
  {
    if n == 0 then []
    else AStarEntries(nb, h, goal, cur, g, path, visited, n - 1)
         + (if nb(cur)[n - 1].0 in visited then [] else [AStarEntry(nb, h, goal, cur, g, path, n - 1)])
  }

  /** The queued entries are exactly those for the edges leading outside `visited`. */
  lemma {:induction false} AStarEntriesMembers<N>(nb: N -> seq<(N, int)>, h: (N, N) -> int, goal: N, cur: N,
      g: int, path: seq<N>, visited: set<N>, n: nat)
    requires n <= |nb(cur)|
    ensures forall e :: e in AStarEntries(nb, h, goal, cur, g, path, visited, n) ==>
              exists j :: 0 <= j < n && nb(cur)[j].0 !in visited && e == AStarEntry(nb, h, goal, cur, g, path, j)
    ensures forall j :: 0 <= j < n && nb(cur)[j].0 !in visited ==>
              AStarEntry(nb, h, goal, cur, g, path, j) in AStarEntries(nb, h, goal, cur, g, path, visited, n)
  {
    if n > 0 {
      AStarEntriesMembers(nb, h, goal, cur, g, path, visited, n - 1);
    }
  }

  /** What the neighbour loop of `aStar` does to the queue. */
  ghost predicate AStarRelaxed<N>(nb: N -> seq<(N, int)>, h: (N, N) -> int, goal: N, cur: N, g: int,
      path: seq<N>, visited: set<N>, items0: seq<Entry<N>>, items1: seq<Entry<N>>)
  {
    items1 == InsertAll(items0, AStarEntries(nb, h, goal, cur, g, path, visited, |nb(cur)|))
  }

  /** `items` is `items0` after the neighbour loop has looked at the first `j` edges. */
  ghost predicate AStarQueued<N>(nb: N -> seq<(N, int)>, h: (N, N) -> int, goal: N, cur: N, g: int,
      path: seq<N>, visited: set<N>, items0: seq<Entry<N>>, items: seq<Entry<N>>, j: nat)
  {
    j <= |nb(cur)| && items == InsertAll(items0, AStarEntries(nb, h, goal, cur, g, path, visited, j))
  }

  /**
   * The loop invariant of `aStar`: the queue is sorted and holds walks with
   * their costs, the goal is not settled, the frontier is kept, and (with a
   * consistent estimate) every node was settled at its least cost.
   */
  ghost predicate AStarInv<N(!new)>(nb: N -> seq<(N, int)>, start: N, h: (N, N) -> int, goal: N, U: set<N>,
      items: seq<Entry<N>>, dist: map<N, int>)
  {
    && SortedByPriority(items)
    && dist.Keys <= U
    && AllEstimated(nb, start, h, goal, U, items)
    && goal !in dist
    && Frontier(nb, start, h, goal, items, dist)
    && (Consistent(nb, h, goal) ==> Settled(nb, start, dist))
  }

  /**
   * `aStar`: like `dijkstra` toward the single node `goal`, but the queue
   * orders by the cost so far plus `heuristic(node, goal)`, and the answer
   * carries the cost so far. A result is a costed walk to `goal`; when the
   * estimate is consistent it is a cheapest one; and there is no result
   * exactly when `goal` cannot be reached.
   */
  method AStar<N(==,!new)>(start: N, goal: N, nb: N -> seq<(N, int)>, h: (N, N) -> int, ghost U: set<N>)
    returns (r: Option<CostResult<N>>)
    requires start in U && CostClosed(nb, U)
    ensures r.Some? ==> PathTo(nb, start, goal, r.value.path, r.value.cost)
    ensures r.Some? && Consistent(nb, h, goal) ==> CheapestTo(nb, start, goal, r.value.cost)
    ensures r.None? <==> !ReachableTo(nb, start, goal)
  {
    var pq := new MinPriorityQueue<N>();
    pq.Enqueue(start, h(start, goal), [start], Some(0));
    var visited: set<N> := {};
    ghost var dist: map<N, int> := map[];
    AStarInit(nb, start, h, goal, U, pq.items);
    while !pq.IsEmpty()
      invariant pq.Valid() && visited == dist.Keys
      invariant AStarInv(nb, start, h, goal, U, pq.items, dist)
      decreases |U - visited|, |pq.items|
    {
      var found;
      found, visited, dist := AStarStep(pq, nb, h, goal, visited, start, U, dist);
      if found.Some? {
        return found;
      }
    }
    AStarNone(nb, start, h, goal, U, dist);
    return None;
  }

  /**
   * One turn of the main loop of `aStar`: dequeue the best entry, skip it if
   * its node is settled, stop if it is the goal, and otherwise settle it and
   * queue its neighbours.
   */
  method AStarStep<N(==,!new)>(pq: MinPriorityQueue<N>, nb: N -> seq<(N, int)>, h: (N, N) -> int, goal: N,
      visited: set<N>, ghost start: N, ghost U: set<N>, ghost dist: map<N, int>)
    returns (found: Option<CostResult<N>>, visited': set<N>, ghost dist': map<N, int>)
    requires pq.Valid() && |pq.items| > 0 && visited == dist.Keys
    requires CostClosed(nb, U) && AStarInv(nb, start, h, goal, U, pq.items, dist)
    modifies pq
    ensures found.Some? ==> PathTo(nb, start, goal, found.value.path, found.value.cost)
    ensures found.Some? && Consistent(nb, h, goal) ==> CheapestTo(nb, start, goal, found.value.cost)
    ensures found.Some? ==> ReachableTo(nb, start, goal)
    ensures found.None? ==> pq.Valid() && visited' == dist'.Keys && AStarInv(nb, start, h, goal, U, pq.items, dist')
    ensures found.None? ==>
      |U - visited'| < |U - visited| || (visited' == visited && |pq.items| < |old(pq.items)|)
  {
    ghost var items := pq.items;
    AStarHead(nb, start, h, goal, U, items, dist);
    var e := pq.Dequeue();
    var current, path, gCost := e.value.item, e.value.path, e.value.gCost;
    if current in visited {
      AStarSkip(nb, start, h, goal, U, items, dist);
      found, visited', dist' := None, visited, dist;
    } else if current == goal {
      AStarFound(nb, start, h, goal, U, items, dist);
      found, visited', dist' := Some(CostResult(path, gCost.value)), visited + {current}, dist;
    } else {
      visited' := visited + {current};
      AStarExpand(pq, nb, h, goal, current, gCost.value, path, visited', start, U, items, dist);
      found, dist' := None, dist[current := gCost.value];
      KeysAdd(dist, current, gCost.value, visited);
    }
  }

  /** Settle `cur` at cost `g` and queue the walks to its neighbours outside `visited`. */
  method AStarExpand<N(==,!new)>(pq: MinPriorityQueue<N>, nb: N -> seq<(N, int)>, h: (N, N) -> int, goal: N,
      cur: N, g: int, path: seq<N>, visited: set<N>, ghost start: N, ghost U: set<N>,
      ghost items: seq<Entry<N>>, ghost dist: map<N, int>)
    requires |items| > 0 && pq.Valid() && pq.items == items[1..]
    requires CostClosed(nb, U) && AStarInv(nb, start, h, goal, U, items, dist)
    requires items[0] == Entry(cur, items[0].priority, path, Some(g)) && cur !in dist && cur != goal
    requires visited == dist.Keys + {cur}
    modifies pq
    ensures pq.Valid() && AStarInv(nb, start, h, goal, U, pq.items, dist[cur := g])
    ensures |U - visited| < |U - dist.Keys|
  {
    AStarRelax(pq, nb, h, goal, cur, g, path, visited);
    AStarSettle(nb, start, h, goal, U, items, dist, pq.items);
    assert Estimated(nb, start, h, goal, U, items[0]);
    DiffShrinks(U, dist.Keys, visited, cur);
  }

  /** The neighbour loop of `aStar`. */
  method AStarRelax<N(==,!new)>(pq: MinPriorityQueue<N>, nb: N -> seq<(N, int)>, h: (N, N) -> int, goal: N,
      cur: N, g: int, path: seq<N>, visited: set<N>)
    requires pq.Valid()
    modifies pq
    ensures AStarRelaxed(nb, h, goal, cur, g, path, visited, old(pq.items), pq.items)
  {
    ghost var items0 := pq.items;
    var neighbors := nb(cur);
    for j := 0 to |neighbors|
      invariant AStarQueued(nb, h, goal, cur, g, path, visited, items0, pq.items, j)
    {
      AStarEdge(pq, nb, h, goal, cur, g, path, visited, items0, j);
    }
  }

  /**
   * One turn of the neighbour loop: unless edge `j` leads into `visited`,
   * queue the walk along it with its new cost so far, ordered by that cost
   * plus the estimate.
   */
  method AStarEdge<N(==,!new)>(pq: MinPriorityQueue<N>, nb: N -> seq<(N, int)>, h: (N, N) -> int, goal: N,
      cur: N, g: int, path: seq<N>, visited: set<N>, ghost items0: seq<Entry<N>>, j: nat)
    requires SortedByPriority(items0) && j < |nb(cur)|
    requires AStarQueued(nb, h, goal, cur, g, path, visited, items0, pq.items, j)
    modifies pq
    ensures AStarQueued(nb, h, goal, cur, g, path, visited, items0, pq.items, j + 1)
  {
    var neighbor, edgeCost := nb(cur)[j].0, nb(cur)[j].1;
    if neighbor !in visited {
      ghost var before := pq.items;
      ghost var e := Entry(neighbor, g + edgeCost + h(neighbor, goal), path + [neighbor], Some(g + edgeCost));
      AStarQueueEdge(nb, h, goal, cur, g, path, visited, items0, before, j, neighbor, edgeCost);
      pq.Enqueue(neighbor, g + edgeCost + h(neighbor, goal), path + [neighbor], Some(g + edgeCost));
      assert pq.items == Insert(before, e);
    } else {
      AStarSkipEdge(nb, h, goal, cur, g, path, visited, items0, pq.items, j);
    }
  }

  /** An edge into `visited` queues nothing. */
  lemma AStarSkipEdge<N>(nb: N -> seq<(N, int)>, h: (N, N) -> int, goal: N, cur: N, g: int, path: seq<N>,
      visited: set<N>, items0: seq<Entry<N>>, items: seq<Entry<N>>, j: nat)
    requires j < |nb(cur)| && nb(cur)[j].0 in visited
    requires AStarQueued(nb, h, goal, cur, g, path, visited, items0, items, j)
    ensures AStarQueued(nb, h, goal, cur, g, path, visited, items0, items, j + 1)
  {
    AStarEntriesSkip(nb, h, goal, cur, g, path, visited, j);
  }

  /** An edge leading outside `visited` queues the walk along it. */
  lemma AStarQueueEdge<N>(nb: N -> seq<(N, int)>, h: (N, N) -> int, goal: N, cur: N, g: int, path: seq<N>,
      visited: set<N>, items0: seq<Entry<N>>, items: seq<Entry<N>>, j: nat, y: N, c: int)
    requires SortedByPriority(items0) && j < |nb(cur)| && nb(cur)[j] == (y, c) && y !in visited
    requires AStarQueued(nb, h, goal, cur, g, path, visited, items0, items, j)
    ensures SortedByPriority(items)
    ensures AStarQueued(nb, h, goal, cur, g, path, visited, items0,
      Insert(items, Entry(y, g + c + h(y, goal), path + [y], Some(g + c))), j + 1)
  {
    var es := AStarEntries(nb, h, goal, cur, g, path, visited, j);
    InsertAllSorted(items0, es);
    AStarEntriesNext(nb, h, goal, cur, g, path, visited, j, y, c);
    InsertAllStep(items0, es, Entry(y, g + c + h(y, goal), path + [y], Some(g + c)));
  }

  lemma AStarEntriesNext<N>(nb: N -> seq<(N, int)>, h: (N, N) -> int, goal: N, cur: N, g: int, path: seq<N>,
      visited: set<N>, j: nat, y: N, c: int)
    requires j < |nb(cur)| && nb(cur)[j] == (y, c) && y !in visited
    ensures AStarEntries(nb, h, goal, cur, g, path, visited, j + 1)
         == AStarEntries(nb, h, goal, cur, g, path, visited, j) + [Entry(y, g + c + h(y, goal), path + [y], Some(g + c))]
  {
  }

  /** The invariant holds with only the start queued, at cost 0. */
  lemma AStarInit<N(!new)>(nb: N -> seq<(N, int)>, start: N, h: (N, N) -> int, goal: N, U: set<N>,
      items: seq<Entry<N>>)
    requires start in U && items == Insert([], Entry(start, h(start, goal), [start], Some(0)))
    ensures AStarInv(nb, start, h, goal, U, items, map[])
  {
    assert items == [Entry(start, h(start, goal), [start], Some(0))];
    assert Estimated(nb, start, h, goal, U, items[0]);
    assert Pending(items, start, h(start, goal));
  }

  /** Every queued entry carries its cost so far. */
  lemma AStarHead<N(!new)>(nb: N -> seq<(N, int)>, start: N, h: (N, N) -> int, goal: N, U: set<N>,
      items: seq<Entry<N>>, dist: map<N, int>)
    requires AStarInv(nb, start, h, goal, U, items, dist) && |items| > 0
    ensures items[0].gCost.Some?
  {
    assert Estimated(nb, start, h, goal, U, items[0]);
  }

  /** Dropping an already settled front entry keeps the invariant. */
  lemma AStarSkip<N(!new)>(nb: N -> seq<(N, int)>, start: N, h: (N, N) -> int, goal: N, U: set<N>,
      items: seq<Entry<N>>, dist: map<N, int>)
    requires AStarInv(nb, start, h, goal, U, items, dist) && |items| > 0 && items[0].item in dist
    ensures AStarInv(nb, start, h, goal, U, items[1..], dist)
  {
    FrontierSkip(nb, start, h, goal, items, dist);
    AllEstimatedTail(nb, start, h, goal, U, items);
  }

  /**
   * The goal at the front of the queue was reached along a walk of cost
   * `gCost`; with a consistent estimate no walk to it is cheaper, since its
   * priority is at most any such walk's cost plus the estimate at the goal.
   */
  lemma AStarFound<N(!new)>(nb: N -> seq<(N, int)>, start: N, h: (N, N) -> int, goal: N, U: set<N>,
      items: seq<Entry<N>>, dist: map<N, int>)
    requires AStarInv(nb, start, h, goal, U, items, dist) && |items| > 0 && items[0].item == goal
    ensures items[0].gCost.Some?
    ensures PathTo(nb, start, goal, items[0].path, items[0].gCost.value)
    ensures Consistent(nb, h, goal) ==> CheapestTo(nb, start, goal, items[0].gCost.value)
    ensures ReachableTo(nb, start, goal)
  {
    assert Estimated(nb, start, h, goal, U, items[0]);
    assert PathTo(nb, start, goal, items[0].path, items[0].gCost.value);
    if Consistent(nb, h, goal) {
      FrontBound(nb, start, h, goal, items, dist);
      forall w, c | PathTo(nb, start, goal, w, c) ensures items[0].gCost.value <= c {
        assert items[0].priority <= c + h(goal, goal);
      }
    }
  }

  /** Settling the front node and queueing its neighbours keeps the invariant. */
  lemma AStarSettle<N(!new)>(nb: N -> seq<(N, int)>, start: N, h: (N, N) -> int, goal: N, U: set<N>,
      items: seq<Entry<N>>, dist: map<N, int>, items1: seq<Entry<N>>)
    requires CostClosed(nb, U) && AStarInv(nb, start, h, goal, U, items, dist)
    requires |items| > 0 && items[0].item !in dist && items[0].item != goal && items[0].gCost.Some?
    requires AStarRelaxed(nb, h, goal, items[0].item, items[0].gCost.value, items[0].path,
               dist.Keys + {items[0].item}, items[1..], items1)
    ensures AStarInv(nb, start, h, goal, U, items1, dist[items[0].item := items[0].gCost.value])
  {
    var x, g, path := items[0].item, items[0].gCost.value, items[0].path;
    var es := AStarEntries(nb, h, goal, x, g, path, dist.Keys + {x}, |nb(x)|);
    InsertAllMultiset(items[1..], es);
    SortedTail(items);
    InsertAllSorted(items[1..], es);
    assert Estimated(nb, start, h, goal, U, items[0]);
    AStarEntriesEstimated(nb, start, h, goal, U, x, g, path, dist.Keys + {x}, |nb(x)|);
    AllEstimatedTail(nb, start, h, goal, U, items);
    AllEstimatedMerge(nb, start, h, goal, U, items[1..], es, items1);
    AStarEntriesPending(nb, h, goal, x, g, path, dist.Keys + {x}, items[1..], items1);
    FrontierSettle(nb, start, h, goal, items, dist, g, es, items1);
    if Consistent(nb, h, goal) {
      AStarSettled(nb, start, h, goal, U, items, dist);
    }
  }

  /** With a consistent estimate, the front node is settled at its least cost. */
  lemma AStarSettled<N(!new)>(nb: N -> seq<(N, int)>, start: N, h: (N, N) -> int, goal: N, U: set<N>,
      items: seq<Entry<N>>, dist: map<N, int>)
    requires AStarInv(nb, start, h, goal, U, items, dist) && Consistent(nb, h, goal)
    requires |items| > 0 && items[0].item !in dist && items[0].gCost.Some?
    ensures Settled(nb, start, dist[items[0].item := items[0].gCost.value])
  {
    var x, g := items[0].item, items[0].gCost.value;
    assert Estimated(nb, start, h, goal, U, items[0]);
    FrontBound(nb, start, h, goal, items, dist);
    forall w, c | CostWalkFrom(nb, start, w, c) && Last(w) == x ensures g <= c {
      assert items[0].priority <= c + h(x, goal);
    }
    assert NoCheaperWalk(nb, start, x, g);
    SettledExtend(nb, start, dist, x, g);
  }

  /** The entries queued from the edges of `x` record walks with their costs. */
  lemma {:induction false} AStarEntriesEstimated<N(!new)>(nb: N -> seq<(N, int)>, start: N, h: (N, N) -> int,
      goal: N, U: set<N>, x: N, g: int, path: seq<N>, visited: set<N>, n: nat)
    requires n <= |nb(x)| && CostClosed(nb, U) && x in U
    requires |path| >= 1 && Last(path) == x && CostWalkFrom(nb, start, path, g)
    ensures AllEstimated(nb, start, h, goal, U, AStarEntries(nb, h, goal, x, g, path, visited, n))
  {
    if n > 0 {
      AStarEntriesEstimated(nb, start, h, goal, U, x, g, path, visited, n - 1);
      var y, c := nb(x)[n - 1].0, nb(x)[n - 1].1;
      if y !in visited {
        AStarEntriesNext(nb, h, goal, x, g, path, visited, n - 1, y, c);
        EstimatedEdge(nb, start, h, goal, U, x, g, path, n - 1, y, c);
        AllEstimatedSnoc(nb, start, h, goal, U, AStarEntries(nb, h, goal, x, g, path, visited, n - 1),
          Entry(y, g + c + h(y, goal), path + [y], Some(g + c)));
      } else {
        AStarEntriesSkip(nb, h, goal, x, g, path, visited, n - 1);
      }
    }
  }

  /** The walk along edge `j` of `x` gives an entry that records it. */
  lemma EstimatedEdge<N(!new)>(nb: N -> seq<(N, int)>, start: N, h: (N, N) -> int, goal: N, U: set<N>,
      x: N, g: int, path: seq<N>, j: nat, y: N, c: int)
    requires CostClosed(nb, U) && x in U && j < |nb(x)| && nb(x)[j] == (y, c)
    requires |path| >= 1 && Last(path) == x && CostWalkFrom(nb, start, path, g)
    ensures Estimated(nb, start, h, goal, U, Entry(y, g + c + h(y, goal), path + [y], Some(g + c)))
  {
    CostWalkExtend(nb, start, path, g, j);
  }

  lemma AStarEntriesSkip<N>(nb: N -> seq<(N, int)>, h: (N, N) -> int, goal: N, cur: N, g: int, path: seq<N>,
      visited: set<N>, j: nat)
    requires j < |nb(cur)| && nb(cur)[j].0 in visited
    ensures AStarEntries(nb, h, goal, cur, g, path, visited, j + 1) == AStarEntries(nb, h, goal, cur, g, path, visited, j)
  {
    var es := AStarEntries(nb, h, goal, cur, g, path, visited, j);
    assert es + [] == es;
  }

  lemma AllEstimatedSnoc<N(!new)>(nb: N -> seq<(N, int)>, start: N, h: (N, N) -> int, goal: N, U: set<N>,
      es: seq<Entry<N>>, e: Entry<N>)
    requires AllEstimated(nb, start, h, goal, U, es) && Estimated(nb, start, h, goal, U, e)
    ensures AllEstimated(nb, start, h, goal, U, es + [e])
  {
    assert forall e' :: e' in es + [e] ==> e' in es || e' == e;
  }

  /** Each edge `aStar` relaxes leaves an entry pending at the cost through it plus the estimate. */
  lemma AStarEntriesPending<N>(nb: N -> seq<(N, int)>, h: (N, N) -> int, goal: N, x: N, g: int, path: seq<N>,
      visited: set<N>, rest: seq<Entry<N>>, items1: seq<Entry<N>>)
    requires multiset(items1) == multiset(rest) + multiset(AStarEntries(nb, h, goal, x, g, path, visited, |nb(x)|))
    ensures forall j :: 0 <= j < |nb(x)| && nb(x)[j].0 !in visited ==>
              Pending(items1, nb(x)[j].0, g + nb(x)[j].1 + h(nb(x)[j].0, goal))
  {
    var es := AStarEntries(nb, h, goal, x, g, path, visited, |nb(x)|);
    AStarEntriesMembers(nb, h, goal, x, g, path, visited, |nb(x)|);
    forall j | 0 <= j < |nb(x)| && nb(x)[j].0 !in visited
      ensures Pending(items1, nb(x)[j].0, g + nb(x)[j].1 + h(nb(x)[j].0, goal))
    {
      var e := AStarEntry(nb, h, goal, x, g, path, j);
      assert e in multiset(es);
      assert e in multiset(items1);
      PendingEntry(items1, e);
    }
  }

  /** When the queue runs dry, the goal cannot be reached. */
  lemma AStarNone<N(!new)>(nb: N -> seq<(N, int)>, start: N, h: (N, N) -> int, goal: N, U: set<N>,
      dist: map<N, int>)
    requires AStarInv(nb, start, h, goal, U, [], dist)
    ensures !ReachableTo(nb, start, goal)
  {
    FrontierEmpty(nb, start, h, goal, dist);
    forall w, c | CostWalkFrom(nb, start, w, c) ensures !PathTo(nb, start, goal, w, c) {
      CostWalkStaysIn(nb, start, dist.Keys, w, c);
    }
  }

  // ---------------------------------------------------------------------
  // Depth-first search

  /** Some walk leads from `start` to `x`. */
  ghost predicate Reachable<N(!new)>(nb: N -> seq<N>, start: N, x: N) {
    exists w :: WalkFrom(nb, start, w) && Last(w) == x
  }

  /** No element of `s` occurs twice. */
  predicate Distinct<T(==)>(s: seq<T>) {
    forall i, j :: 0 <= i < j < |s| ==> s[i] != s[j]
  }

  /** The elements of `ns` that are not in `visited`, in order. */
  function Unseen<N>(ns: seq<N>, visited: set<N>): seq<N> {
    if |ns| == 0 then []
    else Unseen(ns[..|ns| - 1], visited) + (if ns[|ns| - 1] in visited then [] else [ns[|ns| - 1]])
  }

  lemma {:induction false} UnseenMembers<N>(ns: seq<N>, visited: set<N>)
    ensures forall x :: x in Unseen(ns, visited) <==> x in ns && x !in visited
  {
    if |ns| > 0 {
      UnseenMembers(ns[..|ns| - 1], visited);
      assert ns == ns[..|ns| - 1] + [ns[|ns| - 1]];
    }
  }

  /**
   * `dfs`: pop a node off the stack; unless it was visited, visit it, hand
   * it to `process` (here: append it to `processed`) and push its unvisited
   * neighbours. The visited set is exactly the set of nodes reachable from
   * `start`; each is processed once, `start` first, and every later one is
   * a neighbour of a node processed before it.
   */
  method Dfs<N(==,!new)>(start: N, nb: N -> seq<N>, ghost U: set<N>) returns (visited: set<N>, processed: seq<N>)
    requires start in U && Closed(nb, U)
    ensures forall x :: x in visited <==> Reachable(nb, start, x)
    ensures forall x :: x in processed <==> x in visited
    ensures Distinct(processed)
    ensures |processed| > 0 && processed[0] == start
    ensures forall i :: 0 < i < |processed| ==> exists k :: 0 <= k < i && processed[i] in nb(processed[k])
  {
    visited, processed := {}, [];
    var stack := [start];
    DfsInit(nb, start, U);
    while |stack| > 0
      invariant DfsInv(nb, start, U, visited, processed, stack)
      decreases |U - visited|, |stack|
    {
      visited, processed, stack := DfsStep(nb, start, U, visited, processed, stack);
    }
    DfsDone(nb, start, U, visited, processed);
  }

  /** The loop invariant of `dfs`. */
  ghost predicate DfsInv<N(!new)>(nb: N -> seq<N>, start: N, U: set<N>, visited: set<N>, processed: seq<N>,
      stack: seq<N>)
  {
    && DfsNodes(nb, start, U, visited, stack)
    && DfsOrder(nb, start, visited, processed, stack)
    && (forall x, k {:trigger nb(x)[k]} :: x in visited && 0 <= k < |nb(x)| ==> nb(x)[k] in visited || nb(x)[k] in stack)
    && (start in visited || start in stack)
  }

  /** Visited and stacked nodes lie in `U` and are reachable. */
  ghost predicate DfsNodes<N(!new)>(nb: N -> seq<N>, start: N, U: set<N>, visited: set<N>, stack: seq<N>) {
    && visited <= U && (forall y :: y in stack ==> y in U)
    && (forall x :: x in visited ==> Reachable(nb, start, x))
    && (forall y :: y in stack ==> Reachable(nb, start, y))
  }

  /** `y` is a neighbour of one of the first `n` nodes of `p`. */
  ghost predicate ParentIn<N>(nb: N -> seq<N>, y: N, p: seq<N>, n: int) {
    exists i :: 0 <= i < n && i < |p| && y in nb(p[i])
  }

  /** Every node of `p` after the first is a neighbour of an earlier one. */
  ghost predicate Discovered<N>(nb: N -> seq<N>, p: seq<N>) {
    forall i :: 0 < i < |p| ==> ParentIn(nb, p[i], p, i)
  }

  /** Every stacked node other than `start` is a neighbour of a processed node. */
  ghost predicate Parented<N>(nb: N -> seq<N>, start: N, p: seq<N>, stack: seq<N>) {
    forall y :: y in stack ==> y == start || ParentIn(nb, y, p, |p|)
  }

  /**
   * `processed` lists the visited nodes once each, `start` first, each later
   * one a neighbour of an earlier one; every stacked node other than `start`
   * is a neighbour of a processed node; before the first visit only `start`
   * is stacked.
   */
  ghost predicate DfsOrder<N(!new)>(nb: N -> seq<N>, start: N, visited: set<N>, processed: seq<N>, stack: seq<N>) {
    && (forall x :: x in processed <==> x in visited)
    && Distinct(processed)
    && (|processed| > 0 ==> processed[0] == start)
    && (|processed| == 0 ==> visited == {} && forall y :: y in stack ==> y == start)
    && Discovered(nb, processed)
    && Parented(nb, start, processed, stack)
  }

  /**
   * One turn of the `dfs` loop: pop the top of the stack; skip it if it was
   * visited, otherwise visit and process it and push its unvisited
   * neighbours.
   */
  method DfsStep<N(==,!new)>(nb: N -> seq<N>, ghost start: N, ghost U: set<N>, visited: set<N>, processed: seq<N>,
      stack: seq<N>) returns (visited': set<N>, processed': seq<N>, stack': seq<N>)
    requires Closed(nb, U) && DfsInv(nb, start, U, visited, processed, stack) && |stack| > 0
    ensures DfsInv(nb, start, U, visited', processed', stack')
    ensures |U - visited'| < |U - visited| || (visited' == visited && |stack'| < |stack|)
  {
    var current := stack[|stack| - 1];
    var rest := stack[..|stack| - 1];
    if current in visited {
      DfsSkip(nb, start, U, visited, processed, stack);
      visited', processed', stack' := visited, processed, rest;
    } else {
      visited' := visited + {current};
      processed' := processed + [current];
      stack' := DfsPush(nb, current, rest, visited');
      DfsVisit(nb, start, U, visited, processed, stack, stack');
      DiffShrinks(U, visited, visited', current);
    }
  }

  /** The neighbour loop of `dfs`: push, in order, the neighbours of `cur` not in `visited`. */
  method DfsPush<N(==)>(nb: N -> seq<N>, cur: N, stack: seq<N>, visited: set<N>) returns (stack': seq<N>)
    ensures stack' == stack + Unseen(nb(cur), visited)
  {
    var ns := nb(cur);
    stack' := stack;
    for i := 0 to |ns|
      invariant stack' == stack + Unseen(ns[..i], visited)
    {
      assert ns[..i + 1][..i] == ns[..i];
      if ns[i] !in visited {
        stack' := stack' + [ns[i]];
      }
    }
    assert ns[..|ns|] == ns;
  }

  lemma DfsInit<N(!new)>(nb: N -> seq<N>, start: N, U: set<N>)
    requires start in U
    ensures DfsInv(nb, start, U, {}, [], [start])
  {
    assert WalkFrom(nb, start, [start]) && Last([start]) == start;
  }

  /** The top of a stack and the rest below it make up its members. */
  lemma PopMembers<N>(stack: seq<N>)
    requires |stack| > 0
    ensures forall y :: y in stack[..|stack| - 1] ==> y in stack
    ensures forall y :: y in stack ==> y in stack[..|stack| - 1] || y == stack[|stack| - 1]
  {
    assert stack == stack[..|stack| - 1] + [stack[|stack| - 1]];
  }

  /** Popping a visited node keeps the invariant. */
  lemma DfsSkip<N(!new)>(nb: N -> seq<N>, start: N, U: set<N>, visited: set<N>, processed: seq<N>, stack: seq<N>)
    requires DfsInv(nb, start, U, visited, processed, stack) && |stack| > 0 && stack[|stack| - 1] in visited
    ensures DfsInv(nb, start, U, visited, processed, stack[..|stack| - 1])
  {
    PopMembers(stack);
  }

  /** Visiting the popped node and pushing its unvisited neighbours keeps the invariant. */
  lemma DfsVisit<N(!new)>(nb: N -> seq<N>, start: N, U: set<N>, visited: set<N>, processed: seq<N>,
      stack: seq<N>, stack': seq<N>)
    requires Closed(nb, U) && DfsInv(nb, start, U, visited, processed, stack) && |stack| > 0
    requires stack[|stack| - 1] !in visited
    requires stack' == stack[..|stack| - 1] + Unseen(nb(stack[|stack| - 1]), visited + {stack[|stack| - 1]})
    ensures DfsInv(nb, start, U, visited + {stack[|stack| - 1]}, processed + [stack[|stack| - 1]], stack')
  {
    var cur, rest := stack[|stack| - 1], stack[..|stack| - 1];
    var pushed := Unseen(nb(cur), visited + {cur});
    UnseenMembers(nb(cur), visited + {cur});
    PopMembers(stack);
    assert forall y :: y in stack' <==> y in rest || y in pushed;
    DfsVisitNodes(nb, start, U, visited, stack, cur, rest, pushed, stack');
    DfsVisitOrder(nb, start, visited, processed, stack, cur, rest, pushed, stack');
    DfsVisitCovered(nb, visited, stack, cur, rest, pushed, stack');
  }

  lemma DfsVisitCovered<N>(nb: N -> seq<N>, visited: set<N>, stack: seq<N>, cur: N, rest: seq<N>,
      pushed: seq<N>, stack': seq<N>)
    requires forall x, k {:trigger nb(x)[k]} :: x in visited && 0 <= k < |nb(x)| ==> nb(x)[k] in visited || nb(x)[k] in stack
    requires forall y :: y in stack ==> y in rest || y == cur
    requires forall y :: y in nb(cur) ==> y in visited + {cur} || y in pushed
    requires forall y :: y in stack' <==> y in rest || y in pushed
    ensures forall x, k {:trigger nb(x)[k]} :: x in visited + {cur} && 0 <= k < |nb(x)| ==>
              nb(x)[k] in visited + {cur} || nb(x)[k] in stack'
  {
    forall x, k | x in visited + {cur} && 0 <= k < |nb(x)|
      ensures nb(x)[k] in visited + {cur} || nb(x)[k] in stack'
    {
      if x == cur {
        assert nb(cur)[k] in nb(cur);
      }
    }
  }

  lemma DfsVisitNodes<N(!new)>(nb: N -> seq<N>, start: N, U: set<N>, visited: set<N>, stack: seq<N>,
      cur: N, rest: seq<N>, pushed: seq<N>, stack': seq<N>)
    requires Closed(nb, U) && DfsNodes(nb, start, U, visited, stack) && cur in stack
    requires forall y :: y in pushed ==> y in nb(cur)
    requires forall y :: y in rest ==> y in stack
    requires forall y :: y in stack' <==> y in rest || y in pushed
    ensures DfsNodes(nb, start, U, visited + {cur}, stack')
  {
    forall y | y in pushed ensures y in U && Reachable(nb, start, y) {
      ReachableStep(nb, start, cur, y);
      var k :| 0 <= k < |nb(cur)| && nb(cur)[k] == y;
    }
  }

  lemma DfsVisitOrder<N(!new)>(nb: N -> seq<N>, start: N, visited: set<N>, processed: seq<N>, stack: seq<N>,
      cur: N, rest: seq<N>, pushed: seq<N>, stack': seq<N>)
    requires DfsOrder(nb, start, visited, processed, stack) && (start in visited || start in stack)
    requires cur in stack && cur !in visited
    requires forall y :: y in pushed ==> y in nb(cur)
    requires forall y :: y in rest ==> y in stack
    requires forall y :: y in stack' <==> y in rest || y in pushed
    ensures DfsOrder(nb, start, visited + {cur}, processed + [cur], stack')
  {
    var p := processed + [cur];
    DistinctSnoc(processed, cur);
    if |processed| > 0 {
      assert processed[0] == start && start in visited;
      assert ParentIn(nb, cur, processed, |processed|);
    }
    DiscoveredSnoc(nb, processed, cur);
    forall y | y in stack' ensures y == start || ParentIn(nb, y, p, |p|) {
      if y in pushed {
        assert p[|processed|] == cur;
      } else if y != start {
        ParentInGrow(nb, y, processed, cur, |processed|);
      }
    }
  }

  lemma DistinctSnoc<T>(s: seq<T>, x: T)
    requires Distinct(s) && x !in s
    ensures Distinct(s + [x])
  {
  }

  lemma ParentInGrow<N>(nb: N -> seq<N>, y: N, p: seq<N>, x: N, n: int)
    requires ParentIn(nb, y, p, n) && n <= |p|
    ensures ParentIn(nb, y, p + [x], n) && ParentIn(nb, y, p + [x], |p| + 1)
  {
    var i :| 0 <= i < n && i < |p| && y in nb(p[i]);
    assert (p + [x])[i] == p[i];
  }

  lemma DiscoveredSnoc<N>(nb: N -> seq<N>, p: seq<N>, x: N)
    requires Discovered(nb, p) && (|p| > 0 ==> ParentIn(nb, x, p, |p|))
    ensures Discovered(nb, p + [x])
  {
    var q := p + [x];
    forall i | 0 < i < |q| ensures ParentIn(nb, q[i], q, i) {
      if i < |p| {
        assert q[i] == p[i];
        ParentInGrow(nb, p[i], p, x, i);
      } else {
        ParentInGrow(nb, x, p, x, |p|);
      }
    }
  }

  lemma ReachableStep<N(!new)>(nb: N -> seq<N>, start: N, x: N, y: N)
    requires Reachable(nb, start, x) && y in nb(x)
    ensures Reachable(nb, start, y)
  {
    var w :| WalkFrom(nb, start, w) && Last(w) == x;
    WalkStart(nb, start, w);
    WalkExtend(nb, start, w, y);
    assert Last(w + [y]) == y;
  }

  /** With the stack empty, the visited set is closed and so holds every reachable node. */
  lemma DfsDone<N(!new)>(nb: N -> seq<N>, start: N, U: set<N>, visited: set<N>, processed: seq<N>)
    requires DfsInv(nb, start, U, visited, processed, [])
    ensures forall x :: x in visited <==> Reachable(nb, start, x)
    ensures |processed| > 0 && processed[0] == start
  {
    assert Closed(nb, visited);
    forall x | Reachable(nb, start, x) ensures x in visited {
      var w :| WalkFrom(nb, start, w) && Last(w) == x;
      WalkStaysIn(nb, start, visited, w);
    }
    assert start in processed;
  }

  // ---------------------------------------------------------------------
  // The Manhattan distance

  /** A point `[x, y]`. */
  type Point = (int, int)

  /** `manhattanDistance`. */
  function ManhattanDistance(p1: Point, p2: Point): (d: int)
    ensures d >= 0 && (d == 0 <==> p1 == p2)
  {
    Helpers.Abs(p1.0 - p2.0) + Helpers.Abs(p1.1 - p2.1)
  }

  /** The distance is a metric: zero exactly between equal points, symmetric, and triangular. */
  lemma ManhattanMetric(a: Point, b: Point, c: Point)
    ensures ManhattanDistance(a, b) >= 0
    ensures ManhattanDistance(a, b) == 0 <==> a == b
    ensures ManhattanDistance(a, b) == ManhattanDistance(b, a)
    ensures ManhattanDistance(a, c) <= ManhattanDistance(a, b) + ManhattanDistance(b, c)
  {
  }

  /**
   * When no edge is shorter than the Manhattan distance between its ends
   * (as with unit steps on a grid), the distance to `goal` is a consistent
   * estimate, so `aStar` with it returns cheapest walks.
   */
  lemma ManhattanConsistent(nb: Point -> seq<(Point, int)>, goal: Point)
    requires forall u, j :: 0 <= j < |nb(u)| ==> ManhattanDistance(u, nb(u)[j].0) <= nb(u)[j].1
    ensures Consistent(nb, ManhattanDistance, goal)
  {
    forall u, j | 0 <= j < |nb(u)|
      ensures ManhattanDistance(u, goal) <= nb(u)[j].1 + ManhattanDistance(nb(u)[j].0, goal)
    {
      ManhattanMetric(u, nb(u)[j].0, goal);
    }
  }

  /**
   * A consistent estimate never overestimates: along any walk, the estimate
   * at its start is at most the walk's cost plus the estimate at its end.
   */
  lemma {:induction false} ConsistentBound<N(!new)>(nb: N -> seq<(N, int)>, h: (N, N) -> int, goal: N,
      start: N, w: seq<N>, c: int)
    requires Consistent(nb, h, goal) && CostWalkFrom(nb, start, w, c)
    ensures |w| >= 1 && h(start, goal) <= c + h(Last(w), goal)
    decreases |w|
  {
    CostWalkStart(nb, start, w, c);
    if |w| >= 2 {
      var u, v := w[|w| - 2], w[|w| - 1];
      var j :| Edge(nb, u, v, j) && CostWalkFrom(nb, start, w[..|w| - 1], c - nb(u)[j].1);
      ConsistentBound(nb, h, goal, start, w[..|w| - 1], c - nb(u)[j].1);
      assert Last(w[..|w| - 1]) == u;
    }
  }
}
