/**
 * The minimal priority queue used by the weighted searches: an array of
 * entries kept sorted by priority, re-sorted (stably) after every push,
 * and dequeued from the front.
 */
module PriorityQueue {
  import opened Wrappers

  /**
   * One queued entry: the item, its priority, the path that reached it and
   * its cost so far (`null`, here `None`, when the caller gives none).
   */
  datatype Entry<T> = Entry(item: T, priority: int, path: seq<T>, gCost: Option<int>)

  predicate SortedByPriority<T>(s: seq<Entry<T>>) {
    forall i, j :: 0 <= i < j < |s| ==> s[i].priority <= s[j].priority
  }

  /**
   * Stable insertion of `e` into `s`: `e` goes after every entry it does not
   * sort before, so entries of equal priority keep their arrival order.
   */
  function Insert<T>(s: seq<Entry<T>>, e: Entry<T>): (r: seq<Entry<T>>)
    ensures |r| == |s| + 1
  {
    if |s| == 0 || s[|s| - 1].priority <= e.priority then s + [e]
    else Insert(s[..|s| - 1], e) + [s[|s| - 1]]
  }

  /** A stable sort by priority (`Array.prototype.sort` is stable). */
  function SortByPriority<T>(s: seq<Entry<T>>): (r: seq<Entry<T>>)
    ensures |r| == |s|
  {
    if |s| == 0 then [] else Insert(SortByPriority(s[..|s| - 1]), s[|s| - 1])
  }

  /** How many entries of `s` have priority at most `p`. */
  function Rank<T>(s: seq<Entry<T>>, p: int): (k: nat)
    ensures k <= |s|
  {
    if |s| == 0 then 0
    else Rank(s[..|s| - 1], p) + (if s[|s| - 1].priority <= p then 1 else 0)
  }

  /**
   * In a sorted queue the entries of priority at most `p` are exactly the
   * first `Rank(s, p)` ones.
   */
  lemma {:induction false} RankSplits<T>(s: seq<Entry<T>>, p: int)
    requires SortedByPriority(s)
    ensures forall i :: 0 <= i < Rank(s, p) ==> s[i].priority <= p
    ensures forall i :: Rank(s, p) <= i < |s| ==> s[i].priority > p
  {
    if |s| > 0 {
      var s' := s[..|s| - 1];
      assert SortedByPriority(s');
      RankSplits(s', p);
      if s[|s| - 1].priority > p {
        assert Rank(s, p) == Rank(s', p);
        if Rank(s', p) < |s'| {
          assert s'[|s'| - 1].priority > p;
        }
      } else {
        if Rank(s', p) < |s'| {
          SortedPair(s, Rank(s', p), |s| - 1);
        }
      }
    }
  }

  lemma SortedPair<T>(s: seq<Entry<T>>, i: int, j: int)
    ensures SortedByPriority(s) && 0 <= i < j < |s| ==> s[i].priority <= s[j].priority
  {
  }

  /**
   * Inserting into a sorted queue puts the new entry right after the entries
   * whose priority is at most its own, and leaves the others in order.
   */
  lemma {:induction false} InsertShape<T>(s: seq<Entry<T>>, e: Entry<T>)
    requires SortedByPriority(s)
    ensures Insert(s, e) == s[..Rank(s, e.priority)] + [e] + s[Rank(s, e.priority)..]
  {
    if |s| > 0 {
      var s' := s[..|s| - 1];
      assert SortedByPriority(s');
      if s[|s| - 1].priority <= e.priority {
        RankSplits(s, e.priority);
        assert Rank(s, e.priority) == |s|;
        assert s[..|s|] == s;
      } else {
        InsertShape(s', e);
        var k := Rank(s', e.priority);
        assert Rank(s, e.priority) == k;
        assert s[..k] == s'[..k];
        assert s[k..] == s'[k..] + [s[|s| - 1]];
      }
    }
  }

  /** Inserting adds exactly the one entry. */
  lemma {:induction false} InsertMultiset<T>(s: seq<Entry<T>>, e: Entry<T>)
    ensures multiset(Insert(s, e)) == multiset(s) + multiset{e}
  {
    if |s| > 0 && s[|s| - 1].priority > e.priority {
      var s' := s[..|s| - 1];
      InsertMultiset(s', e);
      assert s == s' + [s[|s| - 1]];
    }
  }

  /** Inserting into a sorted queue keeps it sorted. */
  lemma InsertSorted<T>(s: seq<Entry<T>>, e: Entry<T>)
    requires SortedByPriority(s)
    ensures SortedByPriority(Insert(s, e))
  {
    InsertShape(s, e);
    RankSplits(s, e.priority);
    var k := Rank(s, e.priority);
    var r := Insert(s, e);
    forall i, j | 0 <= i < j < |r| ensures r[i].priority <= r[j].priority {
      if i < k && j > k {
        assert r[i] == s[i] && r[j] == s[j - 1];
      } else if i < k && j == k {
        assert r[i] == s[i] && r[j] == e;
      } else if i == k {
        assert r[i] == e && r[j] == s[j - 1];
      } else if i < k {
        assert r[i] == s[i] && r[j] == s[j];
      } else {
        assert r[i] == s[i - 1] && r[j] == s[j - 1];
      }
    }
  }

  /** The sort puts its entries in order. */
  lemma {:induction false} SortSorted<T>(s: seq<Entry<T>>)
    ensures SortedByPriority(SortByPriority(s))
  {
    if |s| > 0 {
      SortSorted(s[..|s| - 1]);
      InsertSorted(SortByPriority(s[..|s| - 1]), s[|s| - 1]);
    }
  }

  /** The sort is a permutation. */
  lemma {:induction false} SortMultiset<T>(s: seq<Entry<T>>)
    ensures multiset(SortByPriority(s)) == multiset(s)
  {
    if |s| > 0 {
      var s' := s[..|s| - 1];
      SortMultiset(s');
      InsertMultiset(SortByPriority(s'), s[|s| - 1]);
      assert s == s' + [s[|s| - 1]];
    }
  }

  /** Sorting a queue that is already sorted changes nothing. */
  lemma {:induction false} SortIdentity<T>(s: seq<Entry<T>>)
    requires SortedByPriority(s)
    ensures SortByPriority(s) == s
  {
    if |s| > 0 {
      var s' := s[..|s| - 1];
      assert SortedByPriority(s');
      SortIdentity(s');
      assert s == s' + [s[|s| - 1]];
    }
  }

  /** Inserts the entries of `es` one after another, first to last. */
  function InsertAll<T>(s: seq<Entry<T>>, es: seq<Entry<T>>): (r: seq<Entry<T>>)
    ensures |r| == |s| + |es|
  {
    if |es| == 0 then s else Insert(InsertAll(s, es[..|es| - 1]), es[|es| - 1])
  }

  /** Inserting one more entry after a run of insertions. */
  lemma InsertAllStep<T>(s: seq<Entry<T>>, es: seq<Entry<T>>, e: Entry<T>)
    ensures InsertAll(s, es + [e]) == Insert(InsertAll(s, es), e)
  {
    assert (es + [e])[..|es|] == es;
  }

  /** A run of insertions adds exactly its entries. */
  lemma {:induction false} InsertAllMultiset<T>(s: seq<Entry<T>>, es: seq<Entry<T>>)
    ensures multiset(InsertAll(s, es)) == multiset(s) + multiset(es)
  {
    if |es| > 0 {
      var es', x := es[..|es| - 1], es[|es| - 1];
      assert InsertAll(s, es) == Insert(InsertAll(s, es'), x);
      InsertAllMultiset(s, es');
      InsertMultiset(InsertAll(s, es'), x);
      assert es == es' + [x];
      assert multiset(es) == multiset(es') + multiset{x};
    }
  }

  /** A run of insertions into a sorted queue leaves it sorted. */
  lemma {:induction false} InsertAllSorted<T>(s: seq<Entry<T>>, es: seq<Entry<T>>)
    requires SortedByPriority(s)
    ensures SortedByPriority(InsertAll(s, es))
  {
    if |es| > 0 {
      InsertAllSorted(s, es[..|es| - 1]);
      InsertSorted(InsertAll(s, es[..|es| - 1]), es[|es| - 1]);
    }
  }

  /** Entries of equal priority leave the queue in the order they entered. */
  lemma InsertAfterEquals<T>(s: seq<Entry<T>>, e: Entry<T>, i: int)
    requires SortedByPriority(s) && 0 <= i < |s| && s[i].priority == e.priority
    ensures Insert(s, e)[i] == s[i]
  {
    InsertShape(s, e);
    RankSplits(s, e.priority);
  }

  /** The front of a sorted queue has the least priority. */
  lemma FrontMinimal<T>(s: seq<Entry<T>>)
    requires SortedByPriority(s) && |s| > 0
    ensures forall k :: 0 <= k < |s| ==> s[0].priority <= s[k].priority
  {
    forall k | 0 <= k < |s| ensures s[0].priority <= s[k].priority {
      if k > 0 {
        SortedPair(s, 0, k);
      }
    }
  }

  class MinPriorityQueue<T> {
    var items: seq<Entry<T>>

    predicate Valid()
      reads this
    {
      SortedByPriority(items)
    }

    constructor()
      ensures Valid() && items == []
    {
      items := [];
    }

    /**
     * `enqueue`: push the entry, then sort the array by priority. Since the
     * queue was sorted and the sort is stable, this is the stable insertion
     * (see `InsertShape` for where the entry lands).
     */
    method Enqueue(item: T, priority: int, path: seq<T>, gCost: Option<int>)
      requires Valid()
      modifies this
      ensures Valid()
      ensures items == Insert(old(items), Entry(item, priority, path, gCost))
    {
      var e := Entry(item, priority, path, gCost);
      ghost var s := items;
      items := items + [e];
      assert items[..|items| - 1] == s;
      items := SortByPriority(items);
      SortIdentity(s);
      InsertShape(s, e);
      InsertSorted(s, e);
    }

    /** `dequeue`: shift the front entry off; `undefined` (here `None`) when empty. */
    method Dequeue() returns (e: Option<Entry<T>>)
      requires Valid()
      modifies this
      ensures Valid()
      ensures old(items) == [] ==> e == None && items == []
      ensures old(items) != [] ==> e == Some(old(items)[0]) && items == old(items)[1..]
    {
      if items == [] {
        e := None;
      } else {
        e := Some(items[0]);
        items := items[1..];
      }
    }

    /** `isEmpty`. */
    function IsEmpty(): (empty: bool)
      reads this
      ensures empty <==> |items| == 0
    {
      |items| == 0
    }
  }
}
