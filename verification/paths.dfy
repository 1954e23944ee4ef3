/**
 * Walks in a graph given by a neighbour function, with and without edge
 * costs. These are the yardsticks the searches are specified against.
 */
module Paths {
  function Last<N>(p: seq<N>): N
    requires |p| > 0
  {
    p[|p| - 1]
  }

  /** `p` is a walk from `start`: every node is a neighbour of the one before it. */
  ghost predicate WalkFrom<N>(nb: N -> seq<N>, start: N, p: seq<N>)
    decreases |p|
  {
    if |p| <= 1 then p == [start]
    else p[|p| - 1] in nb(p[|p| - 2]) && WalkFrom(nb, start, p[..|p| - 1])
  }

  /** No neighbour of a node of `S` lies outside `S`. */
  ghost predicate Closed<N>(nb: N -> seq<N>, S: set<N>) {
    forall x, k {:trigger nb(x)[k]} :: x in S && 0 <= k < |nb(x)| ==> nb(x)[k] in S
  }

  lemma WalkExtend<N>(nb: N -> seq<N>, start: N, p: seq<N>, y: N)
    requires WalkFrom(nb, start, p) && |p| >= 1 && y in nb(Last(p))
    ensures WalkFrom(nb, start, p + [y])
  {
    assert (p + [y])[..|p|] == p;
  }

  lemma {:induction false} WalkPrefix<N>(nb: N -> seq<N>, start: N, p: seq<N>)
    requires WalkFrom(nb, start, p) && |p| >= 2
    ensures WalkFrom(nb, start, p[..|p| - 1])
    ensures Last(p) in nb(Last(p[..|p| - 1]))
  {
    assert Last(p[..|p| - 1]) == p[|p| - 2];
  }

  /** A walk has at least one node and begins at `start`. */
  lemma {:induction false} WalkStart<N>(nb: N -> seq<N>, start: N, p: seq<N>)
    requires WalkFrom(nb, start, p)
    ensures |p| >= 1 && p[0] == start
    decreases |p|
  {
    if |p| >= 2 {
      WalkStart(nb, start, p[..|p| - 1]);
    }
  }

  /** Cutting out the loop between two visits of the same node leaves a walk. */
  lemma {:induction false} WalkShortcut<N>(nb: N -> seq<N>, start: N, p: seq<N>, i: int, j: int)
    requires WalkFrom(nb, start, p) && 0 <= i < j < |p| && p[i] == p[j]
    ensures WalkFrom(nb, start, p[..i + 1] + p[j + 1..])
    ensures Last(p[..i + 1] + p[j + 1..]) == Last(p)
    decreases |p|
  {
    var q := p[..i + 1] + p[j + 1..];
    if j == |p| - 1 {
      assert q == p[..i + 1];
      WalkPrefixes(nb, start, p, i + 1);
    } else {
      var p' := p[..|p| - 1];
      WalkPrefix(nb, start, p);
      WalkShortcut(nb, start, p', i, j);
      var q' := p'[..i + 1] + p'[j + 1..];
      assert p'[..i + 1] == p[..i + 1];
      assert p[j + 1..] == p'[j + 1..] + [Last(p)];
      assert q == q' + [Last(p)];
      assert Last(q') == Last(p');
      WalkExtend(nb, start, q', Last(p));
    }
  }

  /** Every non-empty prefix of a walk is a walk. */
  lemma {:induction false} WalkPrefixes<N>(nb: N -> seq<N>, start: N, p: seq<N>, k: int)
    requires WalkFrom(nb, start, p) && 1 <= k <= |p|
    ensures WalkFrom(nb, start, p[..k])
    decreases |p|
  {
    if k < |p| {
      WalkPrefix(nb, start, p);
      WalkPrefixes(nb, start, p[..|p| - 1], k);
      assert p[..|p| - 1][..k] == p[..k];
    } else {
      assert p[..k] == p;
    }
  }

  /** A walk that starts inside a closed set never leaves it. */
  lemma {:induction false} WalkStaysIn<N>(nb: N -> seq<N>, start: N, S: set<N>, p: seq<N>)
    requires start in S && Closed(nb, S) && WalkFrom(nb, start, p)
    ensures |p| >= 1 && Last(p) in S
    decreases |p|
  {
    if |p| >= 2 {
      WalkPrefix(nb, start, p);
      WalkStaysIn(nb, start, S, p[..|p| - 1]);
      var x := Last(p[..|p| - 1]);
      var k :| 0 <= k < |nb(x)| && nb(x)[k] == Last(p);
    }
  }

  /**
   * `p` is a walk from `start` along edges of `nb` whose costs add up to
   * `c`; where a node lists the same neighbour twice, any one of the edges
   * may be taken.
   */
  ghost predicate CostWalkFrom<N>(nb: N -> seq<(N, int)>, start: N, p: seq<N>, c: int)
    decreases |p|
  {
    if |p| <= 1 then p == [start] && c == 0
    else
      var u, v := p[|p| - 2], p[|p| - 1];
      exists j :: Edge(nb, u, v, j) && CostWalkFrom(nb, start, p[..|p| - 1], c - nb(u)[j].1)
  }

  /** Entry `j` of `u`'s neighbour list is an edge to `v`. */
  ghost predicate Edge<N>(nb: N -> seq<(N, int)>, u: N, v: N, j: int) {
    0 <= j < |nb(u)| && nb(u)[j].0 == v
  }

  /** No neighbour of a node of `S` lies outside `S`, costs aside. */
  ghost predicate CostClosed<N>(nb: N -> seq<(N, int)>, S: set<N>) {
    forall x, j {:trigger nb(x)[j]} :: x in S && 0 <= j < |nb(x)| ==> nb(x)[j].0 in S
  }

  /** Every edge costs at least 0. */
  ghost predicate NonNegative<N(!new)>(nb: N -> seq<(N, int)>) {
    forall x, j :: 0 <= j < |nb(x)| ==> nb(x)[j].1 >= 0
  }

  lemma CostWalkExtend<N>(nb: N -> seq<(N, int)>, start: N, p: seq<N>, c: int, j: int)
    requires CostWalkFrom(nb, start, p, c) && 0 <= j < |nb(Last(p))|
    ensures |p| >= 1
    ensures CostWalkFrom(nb, start, p + [nb(Last(p))[j].0], c + nb(Last(p))[j].1)
  {
    var q := p + [nb(Last(p))[j].0];
    assert q[..|q| - 1] == p;
  }

  lemma CostWalkStart<N>(nb: N -> seq<(N, int)>, start: N, p: seq<N>, c: int)
    requires CostWalkFrom(nb, start, p, c)
    ensures |p| >= 1 && p[0] == start
    decreases |p|
  {
    if |p| >= 2 {
      var j :| Edge(nb, p[|p| - 2], p[|p| - 1], j)
        && CostWalkFrom(nb, start, p[..|p| - 1], c - nb(p[|p| - 2])[j].1);
      CostWalkStart(nb, start, p[..|p| - 1], c - nb(p[|p| - 2])[j].1);
    }
  }

  /** A costed walk that starts inside a closed set never leaves it. */
  lemma {:induction false} CostWalkStaysIn<N>(nb: N -> seq<(N, int)>, start: N, S: set<N>, p: seq<N>, c: int)
    requires start in S && CostClosed(nb, S) && CostWalkFrom(nb, start, p, c)
    ensures |p| >= 1 && Last(p) in S
    decreases |p|
  {
    if |p| >= 2 {
      var j :| Edge(nb, p[|p| - 2], p[|p| - 1], j)
        && CostWalkFrom(nb, start, p[..|p| - 1], c - nb(p[|p| - 2])[j].1);
      CostWalkStaysIn(nb, start, S, p[..|p| - 1], c - nb(p[|p| - 2])[j].1);
    }
  }
}
