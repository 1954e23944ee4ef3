/**
 * The general utility functions: folds, counting, ranges and chunks,
 * permutations and combinations, divisibility and primality, and number
 * extraction from text. JavaScript numbers are modelled as unbounded
 * integers.
 */
module Helpers {
  import opened Wrappers
  import opened Strings

  // ---------------------------------------------------------------------
  // sum, product
  // ---------------------------------------------------------------------

  /**
   * `sum`: `reduce((a, b) => a + b, 0)`, folding from the left. A sum of
   * non-negative numbers is non-negative.
   */
  function Sum(s: seq<int>): (total: int)
    ensures (forall k :: 0 <= k < |s| ==> s[k] >= 0) ==> total >= 0
  {
    if s == [] then 0
    else
      assert forall k :: 0 <= k < |s| - 1 ==> s[..|s| - 1][k] == s[k];
      Sum(s[..|s| - 1]) + s[|s| - 1]
  }

  /**
   * `product`: `reduce((a, b) => a * b, 1)`, folding from the left. A
   * product of positive numbers is positive, and a zero factor makes it 0.
   */
  function Product(s: seq<int>): (product: int)
    ensures (forall k :: 0 <= k < |s| ==> s[k] >= 1) ==> product >= 1
    ensures (exists k :: 0 <= k < |s| && s[k] == 0) ==> product == 0
  {
    if s == [] then 1
    else
      var n := |s| - 1;
      assert forall k :: 0 <= k < n ==> s[..n][k] == s[k];
      assert (exists k :: 0 <= k < |s| && s[k] == 0) && s[n] != 0 ==> exists k :: 0 <= k < n && s[..n][k] == 0;
      Product(s[..n]) * s[n]
  }

  lemma SumAppend(s: seq<int>, x: int)
    ensures Sum([]) == 0
    ensures Sum(s + [x]) == Sum(s) + x
  {
    assert (s + [x])[..|s|] == s;
  }

  lemma ProductAppend(s: seq<int>, x: int)
    ensures Product([]) == 1
    ensures Product(s + [x]) == Product(s) * x
  {
    assert (s + [x])[..|s|] == s;
  }

  /** The sum of a concatenation is the sum of the sums. */
  lemma {:induction false} SumConcat(a: seq<int>, b: seq<int>)
    ensures Sum(a + b) == Sum(a) + Sum(b)
    decreases |b|
  {
    if b != [] {
      var n := |b| - 1;
      SumConcat(a, b[..n]);
      assert (a + b)[..|a + b| - 1] == a + b[..n];
    } else {
      assert a + b == a;
    }
  }

  /** The product of a concatenation is the product of the products. */
  lemma {:induction false} ProductConcat(a: seq<int>, b: seq<int>)
    ensures Product(a + b) == Product(a) * Product(b)
    decreases |b|
  {
    if b != [] {
      var n := |b| - 1;
      ProductConcat(a, b[..n]);
      assert (a + b)[..|a + b| - 1] == a + b[..n];
      assert Product(a + b) == Product(a) * Product(b[..n]) * b[n];
    } else {
      assert a + b == a;
    }
  }

  /** Taking the element at `j` out of a sequence takes one copy of it out of its multiset. */
  lemma MultisetRemove<A>(b: seq<A>, j: int, rest: seq<A>)
    requires 0 <= j < |b| && rest == b[..j] + b[j + 1..]
    ensures multiset(b) == multiset(rest) + multiset{b[j]}
  {
    assert b == b[..j] + [b[j]] + b[j + 1..];
  }

  /** One copy of the same element added to both sides of a multiset equation cancels. */
  lemma Cancel<A>(m: multiset<A>, m': multiset<A>, x: A)
    requires m + multiset{x} == m' + multiset{x}
    ensures m == m'
  {
    assert m == (m + multiset{x}) - multiset{x};
  }

  /** Taking one element out of a sequence takes it out of the sum. */
  lemma {:induction false} SumRemove(s: seq<int>, i: int, rest: seq<int>)
    requires 0 <= i < |s| && rest == s[..i] + s[i + 1..]
    ensures Sum(s) == Sum(rest) + s[i]
  {
    var s1, s2 := s[..i], s[i + 1..];
    assert s == s1 + [s[i]] + s2;
    SumConcat(s1 + [s[i]], s2);
    SumConcat(s1, s2);
    SumAppend(s1, s[i]);
  }

  /** The sum depends only on the multiset of the elements: reordering keeps it. */
  lemma {:induction false} SumPermutation(a: seq<int>, b: seq<int>)
    requires multiset(a) == multiset(b)
    ensures Sum(a) == Sum(b)
    decreases |a|
  {
    if a != [] {
      var n := |a| - 1;
      var x := a[n];
      assert a == a[..n] + [x];
      assert x in multiset(b);
      var j :| 0 <= j < |b| && b[j] == x;
      var b' := b[..j] + b[j + 1..];
      MultisetRemove(b, j, b');
      assert multiset(a) == multiset(a[..n]) + multiset{x};
      Cancel(multiset(a[..n]), multiset(b'), x);
      SumPermutation(a[..n], b');
      SumRemove(b, j, b');
    } else {
      assert b == [];
    }
  }

  // ---------------------------------------------------------------------
  // countOccurrences
  // ---------------------------------------------------------------------

  /**
   * `countOccurrences`: a map whose keys are exactly the distinct elements
   * and whose values are the number of positions holding each of them.
   */
  method CountOccurrences<T(==)>(arr: seq<T>) returns (counts: map<T, nat>)
    ensures counts.Keys == set x | x in arr
    ensures forall x :: x in counts ==> counts[x] == multiset(arr)[x]
  {
    counts := map[];
    for i := 0 to |arr|
      invariant counts.Keys == set x | x in arr[..i]
      invariant forall x :: x in counts ==> counts[x] == multiset(arr[..i])[x]
    {
      var item := arr[i];
      assert arr[..i + 1] == arr[..i] + [item];
      counts := counts[item := (if item in counts then counts[item] else 0) + 1];
    }
    assert arr[..|arr|] == arr;
  }

  // ---------------------------------------------------------------------
  // range, chunk
  // ---------------------------------------------------------------------

  /**
   * `range(start, end, step)`: start, start + step, ... while below `end`.
   * The loop only terminates when the step is positive or the range is empty.
   */
  method Range(start: int, end: int, step: int := 1) returns (r: seq<int>)
    requires step > 0 || start >= end
    ensures start >= end ==> r == []
    ensures start < end ==> |r| >= 1 && r[0] == start
    ensures forall k :: 0 <= k < |r| ==> r[k] < end
    ensures forall k :: 0 <= k < |r| - 1 ==> r[k + 1] == r[k] + step
    ensures |r| >= 1 ==> r[|r| - 1] + step >= end
  {
    r := [];
    var i := start;
    while i < end
      invariant |r| == 0 ==> i == start
      invariant |r| >= 1 ==> r[0] == start && i == r[|r| - 1] + step
      invariant forall k :: 0 <= k < |r| ==> r[k] < end
      invariant forall k :: 0 <= k < |r| - 1 ==> r[k + 1] == r[k] + step
      decreases end - i
    {
      r := r + [i];
      i := i + step;
    }
  }

  /** A range with a positive step is strictly increasing. */
  lemma {:induction false} RangeIncreasing(r: seq<int>, step: int, k: int, l: int)
    requires step > 0
    requires forall m :: 0 <= m < |r| - 1 ==> r[m + 1] == r[m] + step
    requires 0 <= k < l < |r|
    ensures r[k] < r[l]
    decreases l - k
  {
    if l > k + 1 {
      RangeIncreasing(r, step, k, l - 1);
    }
  }

  /** The concatenation of a list of sequences. */
  function Flatten<T>(parts: seq<seq<T>>): seq<T>
  {
    if parts == [] then [] else Flatten(parts[..|parts| - 1]) + parts[|parts| - 1]
  }

  /**
   * `chunk(arr, size)`: consecutive slices of `size` elements, the last one
   * holding the 1 to `size` left over; together they spell out `arr`.
   */
  method Chunk<T>(arr: seq<T>, size: int) returns (chunks: seq<seq<T>>)
    requires size > 0 || |arr| == 0
    ensures Flatten(chunks) == arr
    ensures forall k :: 0 <= k < |chunks| - 1 ==> |chunks[k]| == size
    ensures forall k :: 0 <= k < |chunks| ==> 1 <= |chunks[k]| <= size
  {
    chunks := [];
    var i := 0;
    while i < |arr|
      invariant i >= 0
      invariant Flatten(chunks) == arr[..Min(i, |arr|)]
      invariant forall k :: 0 <= k < |chunks| - 1 ==> |chunks[k]| == size
      invariant forall k :: 0 <= k < |chunks| ==> 1 <= |chunks[k]| <= size
      invariant i < |arr| ==> forall k :: 0 <= k < |chunks| ==> |chunks[k]| == size
      decreases |arr| - i
    {
      var piece := arr[i..Min(i + size, |arr|)];
      assert (chunks + [piece])[..|chunks|] == chunks;
      assert arr[..Min(i + size, |arr|)] == arr[..i] + piece;
      chunks := chunks + [piece];
      i := i + size;
    }
    assert arr[..Min(i, |arr|)] == arr;
  }

  function Min(x: int, y: int): int
  {
    if x < y then x else y
  }

  // ---------------------------------------------------------------------
  // permutations, combinations
  // ---------------------------------------------------------------------

  function Factorial(n: nat): nat
  {
    if n == 0 then 1 else n * Factorial(n - 1)
  }

  /**
   * `permutations`: for at most one element the input itself; otherwise, for
   * every position, that element in front of every permutation of the rest.
   * There are |arr|! of them, each a rearrangement of `arr`, and every
   * rearrangement of `arr` is among them.
   */
  method Permutations<T(!new)>(arr: seq<T>) returns (result: seq<seq<T>>)
    ensures |arr| <= 1 ==> result == [arr]
    ensures |result| == Factorial(|arr|)
    ensures forall k :: 0 <= k < |result| ==> multiset(result[k]) == multiset(arr)
    ensures forall p :: Rearranges(p, arr) ==> p in result
    decreases |arr|
  {
    if |arr| <= 1 {
      forall p | Rearranges(p, arr) ensures p in [arr] {
        PermutationSmall(arr, p);
      }
      return [arr];
    }
    var f := Factorial(|arr| - 1);
    result := [];
    for i := 0 to |arr|
      invariant |result| == i * f
      invariant AllRearrange(result, arr)
      invariant forall i', p :: 0 <= i' < i && Rearranges(p, Without(arr, i')) ==> [arr[i']] + p in result
    {
      var perms := Permutations(Without(arr, i));
      ghost var next := result + Headed(arr[i], perms);
      PermutationsStep(arr, i, result, perms, next);
      result := PushHeaded(result, arr[i], perms);
      assert (i + 1) * f == i * f + f;
    }
    forall p | Rearranges(p, arr) ensures p in result {
      var i := PermutationHead(arr, p);
      assert Rearranges(p[1..], Without(arr, i));
      assert [arr[i]] + p[1..] == p;
    }
  }

  /** `p` holds the same elements as `q`, as often. */
  ghost predicate Rearranges<T>(p: seq<T>, q: seq<T>) {
    multiset(p) == multiset(q)
  }

  /** Every list of `lists` rearranges `arr`. */
  ghost predicate AllRearrange<T>(lists: seq<seq<T>>, arr: seq<T>) {
    forall k :: 0 <= k < |lists| ==> multiset(lists[k]) == multiset(arr)
  }

  /** `x` put in front of each of `lists`. */
  function Headed<T>(x: T, lists: seq<seq<T>>): (r: seq<seq<T>>)
    ensures |r| == |lists| && forall k :: 0 <= k < |lists| ==> r[k] == [x] + lists[k]
  {
    seq(|lists|, k requires 0 <= k < |lists| => [x] + lists[k])
  }

  /** The inner loop of `permutations`: `result.push([arr[i], ...perm])` for every `perm`. */
  method PushHeaded<T>(result: seq<seq<T>>, x: T, perms: seq<seq<T>>) returns (r: seq<seq<T>>)
    ensures r == result + Headed(x, perms)
  {
    r := result;
    for j := 0 to |perms|
      invariant r == result + Headed(x, perms[..j])
    {
      assert Headed(x, perms[..j + 1]) == Headed(x, perms[..j]) + [[x] + perms[j]];
      r := r + [[x] + perms[j]];
    }
    assert perms[..|perms|] == perms;
  }

  /** One turn of the outer loop of `permutations` keeps both invariants. */
  lemma PermutationsStep<T(!new)>(arr: seq<T>, i: int, result: seq<seq<T>>, perms: seq<seq<T>>, result': seq<seq<T>>)
    requires 0 <= i < |arr| && result' == result + Headed(arr[i], perms)
    requires AllRearrange(result, arr)
    requires forall i', p :: 0 <= i' < i && Rearranges(p, Without(arr, i')) ==> [arr[i']] + p in result
    requires AllRearrange(perms, Without(arr, i))
    requires forall p :: Rearranges(p, Without(arr, i)) ==> p in perms
    ensures AllRearrange(result', arr)
    ensures forall i', p :: 0 <= i' <= i && Rearranges(p, Without(arr, i')) ==> [arr[i']] + p in result'
  {
    HeadedRearrange(arr, i, result, perms, result');
    forall i', p | 0 <= i' < i + 1 && Rearranges(p, Without(arr, i')) ensures [arr[i']] + p in result' {
      if i' < i {
        assert [arr[i']] + p in result;
      } else {
        var k :| 0 <= k < |perms| && perms[k] == p;
        assert result'[|result| + k] == [arr[i]] + p;
      }
    }
  }

  /** The lists one turn of the outer loop adds rearrange `arr`. */
  lemma HeadedRearrange<T>(arr: seq<T>, i: int, result: seq<seq<T>>, perms: seq<seq<T>>, result': seq<seq<T>>)
    requires 0 <= i < |arr| && result' == result + Headed(arr[i], perms)
    requires AllRearrange(result, arr) && AllRearrange(perms, Without(arr, i))
    ensures AllRearrange(result', arr)
  {
    var h := Headed(arr[i], perms);
    forall k | 0 <= k < |result'| ensures multiset(result'[k]) == multiset(arr) {
      if k >= |result| {
        assert result'[k] == h[k - |result|];
        PutBack(arr, i, perms[k - |result|]);
      }
    }
  }

  /** `arr` without its element at position `i`: `[...arr.slice(0, i), ...arr.slice(i + 1)]`. */
  function Without<T>(arr: seq<T>, i: int): (rest: seq<T>)
    requires 0 <= i < |arr|
    ensures |rest| == |arr| - 1
    ensures multiset(arr) == multiset(rest) + multiset{arr[i]}
  {
    MultisetRemove(arr, i, arr[..i] + arr[i + 1..]);
    arr[..i] + arr[i + 1..]
  }

  /** Putting `arr[i]` in front of a rearrangement of the other elements rearranges `arr`. */
  lemma PutBack<T>(arr: seq<T>, i: int, p: seq<T>)
    requires 0 <= i < |arr| && multiset(p) == multiset(Without(arr, i))
    ensures multiset([arr[i]] + p) == multiset(arr)
  {
  }

  /** A list of at most one element is its only rearrangement. */
  lemma PermutationSmall<T>(arr: seq<T>, p: seq<T>)
    requires |arr| <= 1 && multiset(p) == multiset(arr)
    ensures p == arr
  {
    assert |p| == |multiset(p)| == |multiset(arr)| == |arr|;
    if |arr| == 1 {
      assert p[0] in multiset(arr);
    }
  }

  /**
   * A rearrangement `p` of a non-empty `arr` starts with some `arr[i]` and
   * goes on with a rearrangement of the other elements.
   */
  lemma PermutationHead<T>(arr: seq<T>, p: seq<T>) returns (i: int)
    requires |arr| > 0 && multiset(p) == multiset(arr)
    ensures 0 <= i < |arr| && |p| > 0 && arr[i] == p[0]
    ensures multiset(p[1..]) == multiset(Without(arr, i))
  {
    assert |p| == |multiset(p)| == |multiset(arr)| == |arr|;
    assert p[0] in multiset(arr);
    i :| 0 <= i < |arr| && arr[i] == p[0];
    assert p == [p[0]] + p[1..];
    assert multiset(p) == multiset(p[1..]) + multiset{p[0]};
    Cancel(multiset(p[1..]), multiset(Without(arr, i)), p[0]);
  }

  /** Pascal's triangle: the number of ways to pick `k` of `n` elements. */
  function Binomial(n: nat, k: nat): nat
  {
    if k == 0 then 1 else if n == 0 then 0 else Binomial(n - 1, k - 1) + Binomial(n - 1, k)
  }

  lemma {:induction false} BinomialAbove(n: nat, k: nat)
    requires k > n
    ensures Binomial(n, k) == 0
  {
    if n > 0 {
      BinomialAbove(n - 1, k - 1);
      BinomialAbove(n - 1, k);
    }
  }

  lemma {:induction false} BinomialOne(n: nat)
    ensures Binomial(n, 1) == n
  {
    if n > 0 {
      BinomialOne(n - 1);
    }
  }

  lemma {:induction false} BinomialAll(n: nat)
    ensures Binomial(n, n) == 1
  {
    if n > 0 {
      BinomialAll(n - 1);
      BinomialAbove(n - 1, n);
    }
  }

  /** `c` is an order-preserving subsequence of `s`. */
  ghost predicate IsSubsequence<T>(c: seq<T>, s: seq<T>)
    decreases |s|
  {
    if c == [] then true
    else if s == [] then false
    else (c[0] == s[0] && IsSubsequence(c[1..], s[1..])) || IsSubsequence(c, s[1..])
  }

  lemma {:induction false} SubsequenceSelf<T>(s: seq<T>)
    ensures IsSubsequence(s, s)
  {
    if s != [] {
      SubsequenceSelf(s[1..]);
    }
  }

  /** Putting `s[i]` in front of a subsequence of what follows it gives a subsequence. */
  lemma {:induction false} SubsequenceCons<T>(s: seq<T>, i: int, t: seq<T>)
    requires 0 <= i < |s| && IsSubsequence(t, s[i + 1..])
    ensures IsSubsequence([s[i]] + t, s)
  {
    var c := [s[i]] + t;
    assert c[1..] == t;
    if i > 0 {
      assert s[1..][i - 1 + 1..] == s[i + 1..];
      SubsequenceCons(s[1..], i - 1, t);
    }
  }

  /** A subsequence is no longer than the sequence it is taken from. */
  lemma {:induction false} SubsequenceLength<T>(c: seq<T>, s: seq<T>)
    requires IsSubsequence(c, s)
    ensures |c| <= |s|
    decreases |s|
  {
    if c != [] {
      if c[0] == s[0] && IsSubsequence(c[1..], s[1..]) {
        SubsequenceLength(c[1..], s[1..]);
      } else {
        SubsequenceLength(c, s[1..]);
      }
    }
  }

  /** A subsequence as long as the sequence is the sequence itself. */
  lemma {:induction false} SubsequenceFull<T>(c: seq<T>, s: seq<T>)
    requires IsSubsequence(c, s) && |c| == |s|
    ensures c == s
    decreases |s|
  {
    if s != [] {
      if IsSubsequence(c, s[1..]) {
        SubsequenceLength(c, s[1..]);
        assert false;
      }
      SubsequenceFull(c[1..], s[1..]);
      assert c == [c[0]] + c[1..];
    }
  }

  /**
   * A non-empty subsequence of `s` starts with some `s[i]` and goes on with
   * a subsequence of what follows `s[i]`.
   */
  lemma {:induction false} SubsequenceHead<T>(c: seq<T>, s: seq<T>) returns (i: int)
    requires c != [] && IsSubsequence(c, s)
    ensures 0 <= i < |s| && s[i] == c[0] && IsSubsequence(c[1..], s[i + 1..])
    decreases |s|
  {
    if c[0] == s[0] && IsSubsequence(c[1..], s[1..]) {
      i := 0;
    } else {
      var j := SubsequenceHead(c, s[1..]);
      i := j + 1;
      assert s[1..][j + 1..] == s[i + 1..];
    }
  }

  /** Every list of `lists` has `size` elements and is a subsequence of `arr`. */
  ghost predicate AllChoices<T>(lists: seq<seq<T>>, arr: seq<T>, size: int) {
    forall k :: 0 <= k < |lists| ==> |lists[k]| == size && IsSubsequence(lists[k], arr)
  }

  /**
   * `combinations(arr, size)` for size >= 1: every choice of `size`
   * elements of `arr` kept in their original order, each exactly once when
   * the elements are distinct; there are C(|arr|, size) of them, so none
   * when `size` exceeds |arr|.
   */
  method Combinations<T(!new)>(arr: seq<T>, size: int) returns (result: seq<seq<T>>)
    requires 1 <= size
    ensures |result| == Binomial(|arr|, size)
    ensures AllChoices(result, arr, size)
    ensures forall c :: |c| == size && IsSubsequence(c, arr) ==> c in result
    decreases |arr|
  {
    var n := |arr|;
    if size == 1 {
      BinomialOne(n);
      SingletonChoices(arr);
      return Singletons(arr);
    }
    if size == n {
      BinomialAll(n);
      FullChoice(arr);
      return [arr];
    }
    result := [];
    var bound := if size <= n then n - size + 1 else 0;
    for i := 0 to bound
      invariant |result| + Binomial(n - i, size) == Binomial(n, size)
      invariant AllChoices(result, arr, size)
      invariant forall i', c :: 0 <= i' < i && |c| == size - 1 && IsSubsequence(c, arr[i' + 1..]) ==>
        [arr[i']] + c in result
    {
      var tailCombs := Combinations(arr[i + 1..], size - 1);
      ghost var next := result + Headed(arr[i], tailCombs);
      CombinationsStep(arr, size, i, result, tailCombs, next);
      result := PushHeaded(result, arr[i], tailCombs);
    }
    if size <= n {
      BinomialAbove(size - 1, size);
      ChoicesFromHeads(arr, size, result);
    } else {
      BinomialAbove(n, size);
      SubsequenceBound(arr);
    }
  }

  /** `arr.map(item => [item])`. */
  function Singletons<T>(arr: seq<T>): (r: seq<seq<T>>)
    ensures |r| == |arr| && forall k :: 0 <= k < |arr| ==> r[k] == [arr[k]]
  {
    seq(|arr|, k requires 0 <= k < |arr| => [arr[k]])
  }

  /** The one-element lists of `arr` are exactly its one-element subsequences. */
  lemma SingletonChoices<T(!new)>(arr: seq<T>)
    ensures AllChoices(Singletons(arr), arr, 1)
    ensures forall c :: |c| == 1 && IsSubsequence(c, arr) ==> c in Singletons(arr)
  {
    var r := Singletons(arr);
    forall k | 0 <= k < |arr| ensures IsSubsequence(r[k], arr) {
      assert IsSubsequence([], arr[k + 1..]);
      SubsequenceCons(arr, k, []);
      assert [arr[k]] + [] == r[k];
    }
    forall c | |c| == 1 && IsSubsequence(c, arr) ensures c in r {
      var k := SubsequenceHead(c, arr);
      assert c == [c[0]];
      assert r[k] == c;
    }
  }

  /** `arr` is its only subsequence of its own length. */
  lemma FullChoice<T(!new)>(arr: seq<T>)
    ensures AllChoices([arr], arr, |arr|)
    ensures forall c :: |c| == |arr| && IsSubsequence(c, arr) ==> c in [arr]
  {
    SubsequenceSelf(arr);
    forall c | |c| == |arr| && IsSubsequence(c, arr) ensures c == arr {
      SubsequenceFull(c, arr);
    }
  }

  /** No subsequence of `arr` is longer than `arr`. */
  lemma SubsequenceBound<T(!new)>(arr: seq<T>)
    ensures forall c :: IsSubsequence(c, arr) ==> |c| <= |arr|
  {
    forall c | IsSubsequence(c, arr) ensures |c| <= |arr| {
      SubsequenceLength(c, arr);
    }
  }

  /**
   * Once every head position up to |arr| - size has been combined with
   * every choice from what follows it, every choice of `size` is covered.
   */
  lemma ChoicesFromHeads<T(!new)>(arr: seq<T>, size: int, result: seq<seq<T>>)
    requires 2 <= size <= |arr|
    requires forall i', c :: 0 <= i' < |arr| - size + 1 && |c| == size - 1 && IsSubsequence(c, arr[i' + 1..]) ==>
      [arr[i']] + c in result
    ensures forall c :: |c| == size && IsSubsequence(c, arr) ==> c in result
  {
    forall c | |c| == size && IsSubsequence(c, arr) ensures c in result {
      var i := SubsequenceHead(c, arr);
      SubsequenceLength(c[1..], arr[i + 1..]);
      assert [arr[i]] + c[1..] == c;
    }
  }

  /** One turn of the outer loop of `combinations` keeps its invariants. */
  lemma CombinationsStep<T(!new)>(arr: seq<T>, size: int, i: int, result: seq<seq<T>>, tails: seq<seq<T>>,
      result': seq<seq<T>>)
    requires 2 <= size && 0 <= i < |arr| && result' == result + Headed(arr[i], tails)
    requires AllChoices(result, arr, size) && AllChoices(tails, arr[i + 1..], size - 1)
    requires forall i', c :: 0 <= i' < i && |c| == size - 1 && IsSubsequence(c, arr[i' + 1..]) ==>
      [arr[i']] + c in result
    requires forall c :: |c| == size - 1 && IsSubsequence(c, arr[i + 1..]) ==> c in tails
    ensures AllChoices(result', arr, size)
    ensures forall i', c :: 0 <= i' <= i && |c| == size - 1 && IsSubsequence(c, arr[i' + 1..]) ==>
      [arr[i']] + c in result'
  {
    HeadedChoices(arr, size, i, result, tails, result');
    HeadsCovered(arr, size, i, result, tails, result');
  }

  /** After the turn for head position `i`, the heads up to `i` are covered. */
  lemma HeadsCovered<T>(arr: seq<T>, size: int, i: int, result: seq<seq<T>>, tails: seq<seq<T>>,
      result': seq<seq<T>>)
    requires 2 <= size && 0 <= i < |arr| && result' == result + Headed(arr[i], tails)
    requires forall i', c :: 0 <= i' < i && |c| == size - 1 && IsSubsequence(c, arr[i' + 1..]) ==>
      [arr[i']] + c in result
    requires forall c :: |c| == size - 1 && IsSubsequence(c, arr[i + 1..]) ==> c in tails
    ensures forall i', c :: 0 <= i' <= i && |c| == size - 1 && IsSubsequence(c, arr[i' + 1..]) ==>
      [arr[i']] + c in result'
  {
    forall i', c | 0 <= i' <= i && |c| == size - 1 && IsSubsequence(c, arr[i' + 1..])
      ensures [arr[i']] + c in result'
    {
      if i' < i {
        assert [arr[i']] + c in result;
      } else {
        HeadedIn(arr[i], tails, c);
      }
    }
  }

  /** A list of `lists` with `x` in front is in `Headed(x, lists)`. */
  lemma HeadedIn<T>(x: T, lists: seq<seq<T>>, c: seq<T>)
    requires c in lists
    ensures [x] + c in Headed(x, lists)
  {
    var k :| 0 <= k < |lists| && lists[k] == c;
    assert Headed(x, lists)[k] == [x] + c;
  }

  /** The lists one turn of the outer loop of `combinations` adds are choices from `arr`. */
  lemma HeadedChoices<T>(arr: seq<T>, size: int, i: int, result: seq<seq<T>>, tails: seq<seq<T>>,
      result': seq<seq<T>>)
    requires 1 <= size && 0 <= i < |arr| && result' == result + Headed(arr[i], tails)
    requires AllChoices(result, arr, size) && AllChoices(tails, arr[i + 1..], size - 1)
    ensures AllChoices(result', arr, size)
  {
    var h := Headed(arr[i], tails);
    forall k | 0 <= k < |result'| ensures |result'[k]| == size && IsSubsequence(result'[k], arr) {
      if k >= |result| {
        assert result'[k] == h[k - |result|];
        SubsequenceCons(arr, i, tails[k - |result|]);
      }
    }
  }

  // ---------------------------------------------------------------------
  // gcd, lcm, lcmArray
  // ---------------------------------------------------------------------

  /** `Math.abs`. */
  function Abs(x: int): nat
  {
    if x < 0 then -x else x
  }

  /** `d` divides `n` (0 divides only 0). */
  predicate Divides(d: int, n: int) {
    if d == 0 then n == 0 else n % d == 0
  }

  /**
   * JavaScript's `a % b`: the remainder of division truncated toward zero,
   * which takes the sign of the dividend.
   */
  function JsRem(a: int, b: int): (r: int)
    requires b != 0
    ensures Abs(r) < Abs(b)
    ensures a >= 0 ==> r >= 0
    ensures a < 0 ==> r <= 0
  {
    if a >= 0 then a % b else -((-a) % b)
  }

  /** The quotient that goes with `JsRem`. */
  function JsQuot(a: int, b: int): int
    requires b != 0
  {
    if a >= 0 then a / b else -((-a) / b)
  }

  lemma JsDivision(a: int, b: int)
    requires b != 0
    ensures a == b * JsQuot(a, b) + JsRem(a, b)
  {
    if a < 0 {
      assert -a == b * ((-a) / b) + (-a) % b;
    }
  }

  lemma MulAtLeast(d: int, e: int)
    requires d > 0 && e >= 1
    ensures d * e >= d
  {
    assert d * e == d * (e - 1) + d;
    assert d * (e - 1) >= 0;
  }

  /** A non-zero multiple of `d` is at least as large as `d` in magnitude. */
  lemma MulMagnitude(d: int, e: int)
    requires d != 0 && e != 0
    ensures Abs(d * e) >= Abs(d)
  {
    if d > 0 && e > 0 {
      MulAtLeast(d, e);
    } else if d > 0 {
      MulAtLeast(d, -e);
      assert d * e == -(d * -e);
    } else if e > 0 {
      MulAtLeast(-d, e);
      assert d * e == -(-d * e);
    } else {
      MulAtLeast(-d, -e);
      assert d * e == (-d) * (-e);
    }
  }

  lemma MultipleMod(d: int, k: int)
    requires d != 0
    ensures (d * k) % d == 0
  {
    var q := (d * k) / d;
    var m := (d * k) % d;
    assert d * k == d * q + m;
    assert m == d * (k - q);
    if k - q != 0 {
      MulMagnitude(d, k - q);
    }
  }

  lemma DividesMultiple(d: int, k: int)
    ensures Divides(d, d * k)
  {
    if d != 0 {
      MultipleMod(d, k);
    }
  }

  lemma DividesQuotient(d: int, n: int)
    requires d != 0 && Divides(d, n)
    ensures n == d * (n / d)
  {
  }

  /** Divisors of `x` and `y` divide every `x + y * q`. */
  lemma DividesCombination(d: int, x: int, y: int, q: int)
    requires Divides(d, x) && Divides(d, y)
    ensures Divides(d, x + y * q)
  {
    if d != 0 {
      var i, j := x / d, y / d;
      assert x == d * i && y == d * j;
      assert y * q == d * (j * q);
      assert x + y * q == d * (i + j * q);
      DividesMultiple(d, i + j * q);
    }
  }

  lemma DividesTransitive(a: int, b: int, c: int)
    requires Divides(a, b) && Divides(b, c)
    ensures Divides(a, c)
  {
    if b == 0 {
    } else if a == 0 {
    } else {
      var j := c / b;
      assert c == b * j;
      DividesCombination(a, 0, b, j);
    }
  }

  /** The common divisors of `a` and `b` are those of `b` and `a % b`. */
  lemma CommonDivisorsStep(a: int, b: int)
    requires b != 0
    ensures forall d :: Divides(d, a) && Divides(d, b) <==> Divides(d, b) && Divides(d, JsRem(a, b))
  {
    var q := JsQuot(a, b);
    var r := JsRem(a, b);
    JsDivision(a, b);
    forall d ensures Divides(d, a) && Divides(d, b) <==> Divides(d, b) && Divides(d, r) {
      if Divides(d, a) && Divides(d, b) {
        DividesCombination(d, a, b, -q);
        assert a + b * -q == r;
      }
      if Divides(d, b) && Divides(d, r) {
        DividesCombination(d, r, b, q);
        assert r + b * q == a;
      }
    }
  }

  /**
   * `gcd`: Euclid's algorithm with JavaScript's remainder. The result
   * divides both arguments and every common divisor divides it; it is 0
   * only for gcd(0, 0), and not negative for non-negative arguments.
   */
  function Gcd(a: int, b: int): (g: int)
    ensures b == 0 ==> g == a
    ensures Divides(g, a) && Divides(g, b)
    ensures forall d :: Divides(d, a) && Divides(d, b) ==> Divides(d, g)
    ensures g == 0 <==> a == 0 && b == 0
    ensures a >= 0 && b >= 0 ==> g >= 0
    decreases Abs(b)
  {
    if b == 0 then a
    else
      CommonDivisorsStep(a, b);
      Gcd(b, JsRem(a, b))
  }

  lemma MulDiv(g: int, u: int)
    requires g != 0
    ensures (g * u) / g == u
  {
    var q := (g * u) / g;
    MultipleMod(g, u);
    assert g * u == g * q;
    assert g * (u - q) == 0;
    if u - q != 0 {
      MulMagnitude(g, u - q);
    }
  }

  /**
   * `lcm`: |a * b| / gcd(a, b), a common multiple of `a` and `b`; it is 0
   * exactly when one argument is, and not negative for non-negative
   * arguments. Undefined (0 / 0) when both are 0.
   */
  function Lcm(a: int, b: int): (m: int)
    requires a != 0 || b != 0
    ensures Divides(a, m) && Divides(b, m)
    ensures forall n :: Divides(a, n) && Divides(b, n) ==> Divides(m, n)
    ensures m == 0 <==> a == 0 || b == 0
    ensures a >= 0 && b >= 0 ==> m >= 0
  {
    LcmFacts(a, b);
    forall n | Divides(a, n) && Divides(b, n) ensures Divides(Abs(a * b) / Gcd(a, b), n) {
      LcmLeast(a, b, n);
    }
    Abs(a * b) / Gcd(a, b)
  }

  /**
   * Bezout's identity for the `gcd` above: the result is an integer
   * combination of the two arguments.
   */
  lemma {:induction false} Bezout(a: int, b: int) returns (x: int, y: int)
    ensures Gcd(a, b) == a * x + b * y
    decreases Abs(b)
  {
    if b == 0 {
      x, y := 1, 0;
    } else {
      var q, r := JsQuot(a, b), JsRem(a, b);
      JsDivision(a, b);
      var x', y' := Bezout(b, r);
      BezoutStep(a, b, q, r, x', y');
      x, y := y', x' - q * y';
    }
  }

  lemma BezoutStep(a: int, b: int, q: int, r: int, x: int, y: int)
    requires a == b * q + r
    ensures b * x + r * y == a * y + b * (x - q * y)
  {
    assert r * y == a * y - (b * q) * y;
    assert (b * q) * y == b * (q * y);
  }

  /** Every common multiple of `a` and `b` is a multiple of |a * b| / gcd(a, b). */
  lemma LcmLeast(a: int, b: int, n: int)
    requires a != 0 || b != 0
    requires Divides(a, n) && Divides(b, n)
    ensures Divides(Abs(a * b) / Gcd(a, b), n)
  {
    var m := Abs(a * b) / Gcd(a, b);
    if a == 0 || b == 0 {
      assert n == 0;
      DividesMultiple(m, 0);
    } else {
      var g := Gcd(a, b);
      var x, y := Bezout(a, b);
      var i, j := a / g, b / g;
      DividesQuotient(g, a);
      DividesQuotient(g, b);
      var s := if a * b >= 0 then 1 else -1;
      LcmQuotient(a, b, g, i, j, s);
      var k1, k2 := n / a, n / b;
      DividesQuotient(a, n);
      DividesQuotient(b, n);
      var t := k2 * x + k1 * y;
      LcmCofactor(g, i, j, x, y, k1, k2, n);
      SignCofactor(m, s, i * j * g, t, n);
      DividesMultiple(m, s * t);
    }
  }

  lemma SignCofactor(m: int, s: int, u: int, t: int, n: int)
    requires s == 1 || s == -1
    requires m == s * u && n == u * t
    ensures n == m * (s * t)
  {
    if s == -1 {
      assert m * (s * t) == (-u) * (-t);
    }
  }

  /**
   * With g = a * x + b * y for a = g * i and b = g * j, a common multiple
   * n = a * k1 = b * k2 is (i * j * g) * (k2 * x + k1 * y).
   */
  lemma LcmCofactor(g: int, i: int, j: int, x: int, y: int, k1: int, k2: int, n: int)
    requires g != 0 && g == (g * i) * x + (g * j) * y
    requires n == (g * i) * k1 && n == (g * j) * k2
    ensures n == (i * j * g) * (k2 * x + k1 * y)
  {
    var t := k2 * x + k1 * y;
    calc {
      g * n;
      ((g * i) * x + (g * j) * y) * n;
      (g * i) * x * n + (g * j) * y * n;
      { assert (g * i) * x * n == (g * i) * x * ((g * j) * k2);
        assert (g * j) * y * n == (g * j) * y * ((g * i) * k1); }
      (g * i) * x * ((g * j) * k2) + (g * j) * y * ((g * i) * k1);
      { assert (g * i) * x * ((g * j) * k2) == g * ((i * j * g) * (k2 * x));
        assert (g * j) * y * ((g * i) * k1) == g * ((i * j * g) * (k1 * y)); }
      g * ((i * j * g) * (k2 * x)) + g * ((i * j * g) * (k1 * y));
      g * ((i * j * g) * t);
    }
    MulCancel(g, n, (i * j * g) * t);
  }

  lemma MulCancel(g: int, u: int, v: int)
    requires g != 0 && g * u == g * v
    ensures u == v
  {
    assert g * (u - v) == 0;
    ZeroProduct(g, u - v);
  }

  lemma LcmFacts(a: int, b: int)
    requires a != 0 || b != 0
    ensures Divides(a, Abs(a * b) / Gcd(a, b)) && Divides(b, Abs(a * b) / Gcd(a, b))
    ensures Abs(a * b) / Gcd(a, b) == 0 <==> a == 0 || b == 0
    ensures a >= 0 && b >= 0 ==> Abs(a * b) / Gcd(a, b) >= 0
  {
    LcmOver(a, b, Gcd(a, b));
  }

  /** The quotient |a * b| / g for any common divisor `g` of `a` and `b`. */
  lemma LcmOver(a: int, b: int, g: int)
    requires g != 0 && Divides(g, a) && Divides(g, b)
    requires a >= 0 && b >= 0 ==> g > 0
    ensures Divides(a, Abs(a * b) / g) && Divides(b, Abs(a * b) / g)
    ensures Abs(a * b) / g == 0 <==> a == 0 || b == 0
    ensures a >= 0 && b >= 0 ==> Abs(a * b) / g >= 0
  {
    var i, j := a / g, b / g;
    DividesQuotient(g, a);
    DividesQuotient(g, b);
    var s := if a * b >= 0 then 1 else -1;
    LcmQuotient(a, b, g, i, j, s);
    DividesMultiple(a, s * j);
    DividesMultiple(b, s * i);
    LcmZero(i, j, g, s);
  }

  lemma LcmQuotient(a: int, b: int, g: int, i: int, j: int, s: int)
    requires g != 0 && a == g * i && b == g * j
    requires s == if a * b >= 0 then 1 else -1
    ensures Abs(a * b) / g == s * (i * j * g)
    ensures s * (i * j * g) == a * (s * j) && s * (i * j * g) == b * (s * i)
  {
    Rearrange(g, i, j, s);
    assert Abs(a * b) == g * (s * (i * j * g));
    MulDiv(g, s * (i * j * g));
  }

  lemma LcmZero(i: int, j: int, g: int, s: int)
    requires g != 0 && s != 0
    ensures s * (i * j * g) == 0 <==> i == 0 || j == 0
  {
    ZeroProduct(s, i * j * g);
    ZeroProduct(i * j, g);
    ZeroProduct(i, j);
  }

  /** The products behind `lcm`, rearranged. */
  lemma Rearrange(g: int, i: int, j: int, s: int)
    ensures (g * i) * (g * j) == g * (i * j * g)
    ensures s * (i * j * g) == (g * i) * (s * j)
    ensures s * (i * j * g) == (g * j) * (s * i)
    ensures s == -1 ==> -((g * i) * (g * j)) == g * (s * (i * j * g))
    ensures s == 1 ==> (g * i) * (g * j) == g * (s * (i * j * g))
  {
  }

  lemma ZeroProduct(x: int, y: int)
    ensures x * y == 0 <==> x == 0 || y == 0
  {
    if x != 0 && y != 0 {
      MulMagnitude(x, y);
    }
  }

  /**
   * `lcmArray`: `lcm` folded over the elements from the left. JavaScript's
   * `reduce` without a seed throws on an empty array (`None`). For non-zero
   * elements the result is a non-zero multiple of every element.
   */
  function LcmArray(arr: seq<int>): (m: Option<int>)
    requires forall k :: 0 <= k < |arr| ==> arr[k] != 0
    ensures arr == [] <==> m == None
    ensures m.Some? ==> m.value != 0 && forall k :: 0 <= k < |arr| ==> Divides(arr[k], m.value)
    ensures m.Some? ==> forall n :: (forall k :: 0 <= k < |arr| ==> Divides(arr[k], n)) ==> Divides(m.value, n)
  {
    if |arr| == 0 then None
    else if |arr| == 1 then Some(arr[0])
    else
      var acc := LcmArray(arr[..|arr| - 1]).value;
      var m := Lcm(acc, arr[|arr| - 1]);
      assert forall k :: 0 <= k < |arr| - 1 ==> Divides(arr[k], m) by {
        forall k | 0 <= k < |arr| - 1 ensures Divides(arr[k], m) {
          DividesTransitive(arr[k], acc, m);
        }
      }
      assert forall n :: (forall k :: 0 <= k < |arr| ==> Divides(arr[k], n)) ==> Divides(m, n) by {
        var init := arr[..|arr| - 1];
        forall n | forall k :: 0 <= k < |arr| ==> Divides(arr[k], n) ensures Divides(m, n) {
          forall k | 0 <= k < |init| ensures Divides(init[k], n) {
            assert init[k] == arr[k];
          }
        }
      }
      Some(m)
  }

  // ---------------------------------------------------------------------
  // isPrime
  // ---------------------------------------------------------------------

  /** `n` has no divisor strictly between 1 and itself, and is at least 2. */
  ghost predicate Prime(n: int) {
    n >= 2 && forall d :: 2 <= d < n ==> !Divides(d, n)
  }

  lemma EvenDivisor(n: int, d: int)
    requires d > 0 && d % 2 == 0
    ensures Divides(d, n) ==> Divides(2, n)
  {
    if !Divides(d, n) {
      return;
    }
    var k := n / d;
    assert n == d * k;
    var h := d / 2;
    assert d == 2 * h;
    assert n == 2 * (h * k);
    DividesMultiple(2, h * k);
  }

  /**
   * Trial division only needs divisors below the first `i` with i * i > n:
   * a divisor `d` at or above `i` comes with the cofactor n / d below `i`.
   */
  lemma NoSmallDivisor(n: int, i: int)
    requires n >= 2 && i >= 2 && i * i > n
    requires forall d :: 2 <= d < i ==> !Divides(d, n)
    ensures Prime(n)
  {
    forall d | 2 <= d < n ensures !Divides(d, n) {
      if Divides(d, n) && d >= i {
        var e := n / d;
        DividesQuotient(d, n);
        MulMonotone(d, i, e);
        MulMonotone(e, i, i);
        MulMonotone(1, e, d);
        DividesMultiple(e, d);
      }
    }
  }

  lemma MulMonotone(x: int, y: int, c: int)
    ensures x >= y && c >= 0 ==> x * c >= y * c
    ensures x < y && c > 0 ==> x * c < y * c
  {
    if x >= y && c >= 0 {
      assert x * c - y * c == (x - y) * c;
    }
    if x < y && c > 0 {
      assert y * c - x * c == (y - x) * c;
      MulAtLeast(c, y - x);
    }
  }

  /** One odd trial divisor more: `i` does not divide `n`, and neither does the even `i + 1`. */
  lemma TrialStep(n: int, i: int)
    requires i >= 3 && i % 2 == 1 && i * i <= n && n % 2 != 0 && n % i != 0
    requires forall d :: 2 <= d < i ==> !Divides(d, n)
    ensures i < n && forall d :: 2 <= d < i + 2 ==> !Divides(d, n)
  {
    SquareBelow(n, i);
    EvenDivisor(n, i + 1);
    forall d | 2 <= d < i + 2 ensures !Divides(d, n) {
      if d == i {
        assert n % d != 0;
      }
    }
  }

  /** A trial divisor whose square is at most `n` and that leaves a remainder is below `n`. */
  lemma SquareBelow(n: int, i: int)
    requires i >= 1 && i * i <= n && n % i != 0
    ensures i < n
  {
    MulAtLeast(i, i);
    SelfDivides(i);
  }

  lemma SelfDivides(d: int)
    requires d > 0
    ensures d % d == 0
  {
    assert d == d * 1;
    MultipleMod(d, 1);
  }

  /**
   * `isPrime`: false below 2, true for 2, false for other even numbers, and
   * otherwise trial division by odd numbers while their square is at most n.
   */
  method IsPrime(n: int) returns (prime: bool)
    ensures prime <==> Prime(n)
  {
    if n < 2 {
      return false;
    }
    if n == 2 {
      return true;
    }
    if n % 2 == 0 {
      assert Divides(2, n);
      return false;
    }
    var i := 3;
    while i * i <= n
      invariant 3 <= i && i % 2 == 1
      invariant forall d :: 2 <= d < i ==> !Divides(d, n)
      decreases n - i
    {
      if n % i == 0 {
        assert Divides(i, n);
        return false;
      }
      TrialStep(n, i);
      i := i + 2;
    }
    NoSmallDivisor(n, i);
    return true;
  }

  // ---------------------------------------------------------------------
  // extractNumbers
  // ---------------------------------------------------------------------

  /** The length of the run of digits that `s` starts with. */
  function DigitRun(s: string): (k: nat)
    ensures k <= |s| && AllDigits(s[..k])
    ensures k < |s| ==> !IsDigit(s[k])
  {
    if s == [] || !IsDigit(s[0]) then 0
    else
      var k := 1 + DigitRun(s[1..]);
      assert s[..k] == [s[0]] + s[1..][..k - 1];
      k
  }

  /**
   * `extractNumbers(str, includeNegative)`: the values of the maximal runs of
   * decimal digits, left to right (the regular expression /\d+/g); with
   * `includeNegative`, which is on by default, a run directly after a '-'
   * is read negated (/-?\d+/g).
   */
  function ExtractNumbers(s: string, includeNegative: bool := true): (ns: seq<int>)
    ensures !includeNegative ==> forall k :: 0 <= k < |ns| ==> ns[k] >= 0
    decreases |s|
  {
    if s == [] then []
    else if IsDigit(s[0]) then
      var k := DigitRun(s);
      [DigitsValue(s[..k])] + ExtractNumbers(s[k..], includeNegative)
    else if includeNegative && s[0] == '-' && |s| >= 2 && IsDigit(s[1]) then
      var k := 1 + DigitRun(s[1..]);
      assert s[1..k] == s[1..][..k - 1];
      [-(DigitsValue(s[1..k]) as int)] + ExtractNumbers(s[k..], includeNegative)
    else ExtractNumbers(s[1..], includeNegative)
  }

  /** A string without digits holds no numbers. */
  lemma {:induction false} ExtractNoDigits(s: string, includeNegative: bool)
    requires forall i :: 0 <= i < |s| ==> !IsDigit(s[i])
    ensures ExtractNumbers(s, includeNegative) == []
    decreases |s|
  {
    if s != [] {
      ExtractNoDigits(s[1..], includeNegative);
    }
  }

  /**
   * Reading minus signs only changes signs: both modes find the same runs,
   * and the signed values have the unsigned values as magnitudes.
   */
  lemma {:induction false} ExtractSigns(s: string)
    ensures |ExtractNumbers(s, true)| == |ExtractNumbers(s, false)|
    ensures forall k :: 0 <= k < |ExtractNumbers(s, true)| ==>
      Abs(ExtractNumbers(s, true)[k]) == ExtractNumbers(s, false)[k]
    decreases |s|
  {
    if s == [] {
    } else if IsDigit(s[0]) {
      ExtractSigns(s[DigitRun(s)..]);
    } else if s[0] == '-' && |s| >= 2 && IsDigit(s[1]) {
      var k := 1 + DigitRun(s[1..]);
      ExtractSigns(s[k..]);
      assert s[1..][DigitRun(s[1..])..] == s[k..];
      assert s[1..][..DigitRun(s[1..])] == s[1..k];
    } else {
      ExtractSigns(s[1..]);
    }
  }

  /** A digit run stops at a following non-digit. */
  lemma {:induction false} DigitRunAppend(a: string, t: string)
    requires t != [] && !IsDigit(t[0])
    ensures DigitRun(a + t) == DigitRun(a)
    decreases |a|
  {
    if a == [] {
      assert a + t == t;
    } else if IsDigit(a[0]) {
      assert (a + t)[1..] == a[1..] + t;
      DigitRunAppend(a[1..], t);
    }
  }

  /**
   * A character that is neither a digit nor '-' separates numbers: the
   * numbers of `a + [c] + b` are those of `a` followed by those of `b`.
   */
  lemma ExtractSplit(a: string, c: char, b: string, includeNegative: bool)
    requires !IsDigit(c) && c != '-'
    ensures ExtractNumbers(a + [c] + b, includeNegative)
      == ExtractNumbers(a, includeNegative) + ExtractNumbers(b, includeNegative)
  {
    var t := [c] + b;
    assert a + [c] + b == a + t && t[1..] == b;
    ExtractBefore(a, t, includeNegative);
  }

  /** `ExtractSplit` with `t` the separator followed by the rest of the text. */
  lemma {:induction false} ExtractBefore(a: string, t: string, includeNegative: bool)
    requires t != [] && !IsDigit(t[0]) && t[0] != '-'
    ensures ExtractNumbers(a + t, includeNegative)
      == ExtractNumbers(a, includeNegative) + ExtractNumbers(t[1..], includeNegative)
    decreases |a|, 1
  {
    if a == [] {
      assert a + t == t;
    } else if IsDigit(a[0]) {
      ExtractBeforeRun(a, t, includeNegative);
    } else if includeNegative && a[0] == '-' && |a| >= 2 && IsDigit(a[1]) {
      ExtractBeforeNegative(a, t);
    } else {
      ExtractBeforeSkip(a, t, includeNegative);
    }
  }

  /** `ExtractBefore` when `a` starts with a digit. */
  lemma {:induction false} ExtractBeforeRun(a: string, t: string, includeNegative: bool)
    requires a != [] && IsDigit(a[0])
    requires t != [] && !IsDigit(t[0]) && t[0] != '-'
    ensures ExtractNumbers(a + t, includeNegative)
      == ExtractNumbers(a, includeNegative) + ExtractNumbers(t[1..], includeNegative)
    decreases |a|, 0
  {
    var k := ExtractRunFirst(a, t, includeNegative);
    ExtractBefore(a[k..], t, includeNegative);
    ConsAppend(DigitsValue(a[..k]), ExtractNumbers(a[k..], includeNegative),
      ExtractNumbers(t[1..], includeNegative));
  }

  /** `ExtractBefore` when `a` starts with a negative number. */
  lemma {:induction false} ExtractBeforeNegative(a: string, t: string)
    requires |a| >= 2 && a[0] == '-' && IsDigit(a[1])
    requires t != [] && !IsDigit(t[0]) && t[0] != '-'
    ensures ExtractNumbers(a + t, true) == ExtractNumbers(a, true) + ExtractNumbers(t[1..], true)
    decreases |a|, 0
  {
    var k := ExtractNegativeFirst(a, t);
    ExtractBefore(a[k..], t, true);
    ConsAppend(-(DigitsValue(a[1..k]) as int), ExtractNumbers(a[k..], true),
      ExtractNumbers(t[1..], true));
  }

  /** `ExtractBefore` when the first character of `a` starts no number. */
  lemma {:induction false} ExtractBeforeSkip(a: string, t: string, includeNegative: bool)
    requires a != [] && !IsDigit(a[0])
    requires !(includeNegative && a[0] == '-' && |a| >= 2 && IsDigit(a[1]))
    requires t != [] && !IsDigit(t[0]) && t[0] != '-'
    ensures ExtractNumbers(a + t, includeNegative)
      == ExtractNumbers(a, includeNegative) + ExtractNumbers(t[1..], includeNegative)
    decreases |a|, 0
  {
    ExtractSkipFirst(a, t, includeNegative);
    ExtractBefore(a[1..], t, includeNegative);
  }

  /** Prepending a value commutes with appending. */
  lemma ConsAppend(v: int, x: seq<int>, y: seq<int>)
    ensures [v] + x + y == [v] + (x + y)
  {
  }

  /** A leading digit run of `a` is read the same with or without the text `t` after it. */
  lemma ExtractRunFirst(a: string, t: string, includeNegative: bool) returns (k: int)
    requires a != [] && IsDigit(a[0]) && t != [] && !IsDigit(t[0])
    ensures 1 <= k <= |a| && AllDigits(a[..k])
    ensures ExtractNumbers(a + t, includeNegative)
      == [DigitsValue(a[..k])] + ExtractNumbers(a[k..] + t, includeNegative)
    ensures ExtractNumbers(a, includeNegative) == [DigitsValue(a[..k])] + ExtractNumbers(a[k..], includeNegative)
  {
    k := DigitRun(a);
    DigitRunAppend(a, t);
    var s := a + t;
    assert s[..k] == a[..k];
    assert s[k..] == a[k..] + t;
  }

  /** A leading negative number of `a` is read the same with or without the text `t` after it. */
  lemma ExtractNegativeFirst(a: string, t: string) returns (k: int)
    requires |a| >= 2 && a[0] == '-' && IsDigit(a[1]) && t != [] && !IsDigit(t[0])
    ensures 2 <= k <= |a| && AllDigits(a[1..k])
    ensures ExtractNumbers(a + t, true) == [-(DigitsValue(a[1..k]) as int)] + ExtractNumbers(a[k..] + t, true)
    ensures ExtractNumbers(a, true) == [-(DigitsValue(a[1..k]) as int)] + ExtractNumbers(a[k..], true)
  {
    k := 1 + DigitRun(a[1..]);
    var s := a + t;
    assert s[1..] == a[1..] + t;
    DigitRunAppend(a[1..], t);
    assert s[1..k] == a[1..k] && a[1..][..k - 1] == a[1..k];
    assert s[k..] == a[k..] + t;
  }

  /** A leading character of `a` that starts no number is skipped with or without `t` after it. */
  lemma ExtractSkipFirst(a: string, t: string, includeNegative: bool)
    requires a != [] && !IsDigit(a[0]) && t != [] && !IsDigit(t[0])
    requires !(includeNegative && a[0] == '-' && |a| >= 2 && IsDigit(a[1]))
    ensures ExtractNumbers(a + t, includeNegative) == ExtractNumbers(a[1..] + t, includeNegative)
    ensures ExtractNumbers(a, includeNegative) == ExtractNumbers(a[1..], includeNegative)
  {
    var s := a + t;
    assert s[1..] == a[1..] + t;
    assert |a| == 1 ==> s[1] == t[0];
  }

  /**
   * Integers printed in decimal and joined with a separator that is neither
   * a digit nor '-' extract back to the same integers, in order.
   */
  lemma {:induction false} ExtractJoined(ns: seq<int>, texts: seq<string>, c: char)
    requires !IsDigit(c) && c != '-'
    requires |texts| == |ns| && forall i :: 0 <= i < |ns| ==> texts[i] == ToDecimal(ns[i])
    ensures ExtractNumbers(Join(texts, [c])) == ns
    decreases |ns|
  {
    if |ns| == 1 {
      ExtractDecimal(ns[0]);
    } else if |ns| > 1 {
      ExtractSplit(texts[0], c, Join(texts[1..], [c]), true);
      ExtractDecimal(ns[0]);
      ExtractJoined(ns[1..], texts[1..], c);
      assert ns == [ns[0]] + ns[1..];
    }
  }

  /** The decimal text of an integer holds exactly that integer. */
  lemma ExtractDecimal(n: int)
    ensures ExtractNumbers(ToDecimal(n), true) == [n]
  {
    var t := ToDecimal(n);
    DecimalRoundTrip(n);
    if n >= 0 {
      assert DigitRun(t) == |t|;
      assert t[..|t|] == t;
    } else {
      var ds := t[1..];
      assert DigitRun(ds) == |ds|;
      assert t[1..1 + |ds|] == ds;
      assert t[1 + |ds|..] == [];
    }
  }
}
