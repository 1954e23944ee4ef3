/**
 * Advent of Code 2024, day 1: two columns of location ids, compared by
 * the total distance of their sorted pairing and by a similarity score.
 */
module Year2024Day01 {
  import opened Strings
  import opened InputFetcher
  import Helpers

  // ---------------------------------------------------------------------
  // Reading the two columns

  /**
   * `s.split(/\s+/)`: `s` cut at every maximal run of whitespace; there is
   * always at least one piece. A whitespace character followed by more
   * whitespace belongs to the same run and cuts nothing.
   */
  function SplitWhitespace(s: string): (pieces: seq<string>)
    ensures |pieces| >= 1
    decreases |s|
  {
    if s == [] then [""]
    else if !IsWhitespace(s[0]) then PrependFirst(s[0], SplitWhitespace(s[1..]))
    else if |s| > 1 && IsWhitespace(s[1]) then SplitWhitespace(s[1..])
    else [""] + SplitWhitespace(s[1..])
  }

  /** `w` holds no whitespace character. */
  predicate WhitespaceFree(w: string) {
    forall i :: 0 <= i < |w| ==> !IsWhitespace(w[i])
  }

  /** No piece of `s.split(/\s+/)` holds whitespace. */
  lemma {:induction false} SplitWhitespaceFree(s: string)
    ensures forall k :: 0 <= k < |SplitWhitespace(s)| ==> WhitespaceFree(SplitWhitespace(s)[k])
    decreases |s|
  {
    if s != [] {
      SplitWhitespaceFree(s[1..]);
      var q := SplitWhitespace(s[1..]);
      if !IsWhitespace(s[0]) {
        var p := PrependFirst(s[0], q);
        assert SplitWhitespace(s) == p;
        assert WhitespaceFree(q[0]);
        assert WhitespaceFree([s[0]] + q[0]);
        forall k | 1 <= k < |p| ensures WhitespaceFree(p[k]) {
          assert p[k] == p[1..][k - 1] == q[k];
        }
      } else if !(|s| > 1 && IsWhitespace(s[1])) {
        var p := [""] + q;
        assert SplitWhitespace(s) == p;
        forall k | 1 <= k < |p| ensures WhitespaceFree(p[k]) {
          assert p[k] == q[k - 1];
        }
      } else {
        assert SplitWhitespace(s) == q;
      }
    }
  }

  /**
   * Only the first and the last piece of `s.split(/\s+/)` can be empty: the
   * first exactly when `s` is empty or starts with whitespace, the last
   * exactly when `s` is empty or ends with whitespace.
   */
  lemma {:induction false} SplitWhitespaceEnds(s: string)
    ensures var p := SplitWhitespace(s); forall k :: 0 < k < |p| - 1 ==> p[k] != []
    ensures SplitWhitespace(s)[0] != [] <==> s != [] && !IsWhitespace(s[0])
    ensures var p := SplitWhitespace(s); p[|p| - 1] != [] <==> s != [] && !IsWhitespace(s[|s| - 1])
    ensures s != [] && IsWhitespace(s[0]) ==> |SplitWhitespace(s)| >= 2
    decreases |s|
  {
    if s != [] {
      SplitWhitespaceEnds(s[1..]);
      if |s| > 1 {
        assert s[1..][0] == s[1] && s[1..][|s| - 2] == s[|s| - 1];
      }
    }
  }

  /** Splitting on whitespace a string without any gives it back whole. */
  lemma {:induction false} SplitWhitespaceWord(w: string)
    requires WhitespaceFree(w)
    ensures SplitWhitespace(w) == [w]
    decreases |w|
  {
    if w != [] {
      SplitWhitespaceWord(w[1..]);
      assert [w[0]] + w[1..] == w;
    }
  }

  /**
   * A word, one whitespace character and a text that does not start with
   * whitespace: the word is the first piece and the text is split on.
   */
  lemma {:induction false} SplitWhitespaceLead(w: string, c: char, t: string)
    requires WhitespaceFree(w)
    requires IsWhitespace(c) && (t == [] || !IsWhitespace(t[0]))
    ensures SplitWhitespace(w + [c] + t) == [w] + SplitWhitespace(t)
    decreases |w|
  {
    var s := w + [c] + t;
    if w == [] {
      assert s == [c] + t && s[1..] == t;
    } else {
      assert s[0] == w[0] && s[1..] == w[1..] + [c] + t;
      SplitWhitespaceLead(w[1..], c, t);
      var x := SplitWhitespace(t);
      assert ([w[1..]] + x)[1..] == x;
      assert [w[0]] + w[1..] == w;
    }
  }

  /**
   * Non-empty words without whitespace, joined by single spaces, split
   * back into the same words.
   */
  lemma {:induction false} SplitWhitespaceJoin(ws: seq<string>)
    requires |ws| >= 1
    requires forall k :: 0 <= k < |ws| ==> ws[k] != [] && WhitespaceFree(ws[k])
    ensures SplitWhitespace(Join(ws, " ")) == ws
    decreases |ws|
  {
    if |ws| == 1 {
      SplitWhitespaceWord(ws[0]);
    } else {
      var rest := Join(ws[1..], " ");
      SplitWhitespaceJoin(ws[1..]);
      JoinEnds(ws[1..], " ");
      SplitWhitespaceLead(ws[0], ' ', rest);
      assert ws == [ws[0]] + ws[1..];
    }
  }

  /** The fields of a line: `line.trim().split(/\s+/)`. */
  function Fields(line: string): seq<string> {
    SplitWhitespace(Trim(line))
  }

  /** A line of words separated by single spaces has those words as its fields. */
  lemma FieldsOfWords(ws: seq<string>)
    requires |ws| >= 1
    requires forall k :: 0 <= k < |ws| ==> ws[k] != [] && WhitespaceFree(ws[k])
    ensures Fields(Join(ws, " ")) == ws
  {
    WordsUnpadded(ws);
    SplitWhitespaceJoin(ws);
  }

  /** Trimming leaves a line of words separated by single spaces alone. */
  lemma WordsUnpadded(ws: seq<string>)
    requires |ws| >= 1
    requires forall k :: 0 <= k < |ws| ==> ws[k] != [] && WhitespaceFree(ws[k])
    ensures Trim(Join(ws, " ")) == Join(ws, " ")
  {
    WordsEnds(ws);
    JoinTrimmed(ws, ws[0][0], ws[|ws| - 1][|ws[|ws| - 1]| - 1]);
  }

  /** A line of words starts and ends with non-whitespace. */
  lemma WordsEnds(ws: seq<string>)
    requires |ws| >= 1
    requires forall k :: 0 <= k < |ws| ==> ws[k] != [] && WhitespaceFree(ws[k])
    ensures forall k :: 0 <= k < |ws| ==> |ws[k]| >= 1
    ensures !IsWhitespace(ws[0][0]) && !IsWhitespace(ws[|ws| - 1][|ws[|ws| - 1]| - 1])
  {
    WordEnds(ws[0]);
    WordEnds(ws[|ws| - 1]);
  }

  /** Non-empty words joined by spaces, starting and ending with non-whitespace, survive `trim`. */
  lemma JoinTrimmed(ws: seq<string>, x: char, y: char)
    requires |ws| >= 1 && forall k :: 0 <= k < |ws| ==> |ws[k]| >= 1
    requires ws[0][0] == x && ws[|ws| - 1][|ws[|ws| - 1]| - 1] == y
    requires !IsWhitespace(x) && !IsWhitespace(y)
    ensures Trim(Join(ws, " ")) == Join(ws, " ")
  {
    JoinEnds(ws, " ");
    TrimEnds(Join(ws, " "), x, y);
  }

  /** A word without whitespace neither starts nor ends with whitespace. */
  lemma WordEnds(w: string)
    requires w != [] && WhitespaceFree(w)
    ensures !IsWhitespace(w[0]) && !IsWhitespace(w[|w| - 1])
  {
  }

  /** A line whose first two fields are decimal integers. */
  predicate PairLine(line: string) {
    var f := Fields(line);
    |f| >= 2 && IsDecimal(f[0]) && IsDecimal(f[1])
  }

  /** `const [l, r] = ...map(Number)`: the first field. */
  function LeftOf(line: string): int
    requires PairLine(line)
  {
    DecimalValue(Fields(line)[0])
  }

  /** `const [l, r] = ...map(Number)`: the second field. */
  function RightOf(line: string): int
    requires PairLine(line)
  {
    DecimalValue(Fields(line)[1])
  }

  predicate AllPairLines(lines: seq<string>) {
    forall i :: 0 <= i < |lines| ==> PairLine(lines[i])
  }

  /** Every line of the input holds two integers. */
  predicate WellFormed(input: string) {
    AllPairLines(ParseLines(input))
  }

  /** `f` applied to every element, in order. */
  function MapSeq<A, B>(f: A --> B, s: seq<A>): (r: seq<B>)
    requires forall i :: 0 <= i < |s| ==> f.requires(s[i])
    ensures |r| == |s| && forall i :: 0 <= i < |s| ==> r[i] == f(s[i])
  {
    seq(|s|, i requires 0 <= i < |s| => f(s[i]))
  }

  function Lefts(lines: seq<string>): seq<int>
    requires AllPairLines(lines)
  {
    MapSeq(LeftOf, lines)
  }

  function Rights(lines: seq<string>): seq<int>
    requires AllPairLines(lines)
  {
    MapSeq(RightOf, lines)
  }

  /** The parsing loop: push the two numbers of each line onto `left` and `right`. */
  method ReadColumns(lines: seq<string>) returns (left: seq<int>, right: seq<int>)
    requires AllPairLines(lines)
    ensures left == Lefts(lines) && right == Rights(lines)
  {
    left, right := [], [];
    for i := 0 to |lines|
      invariant |left| == i && forall k :: 0 <= k < i ==> left[k] == LeftOf(lines[k])
      invariant |right| == i && forall k :: 0 <= k < i ==> right[k] == RightOf(lines[k])
    {
      left := left + [LeftOf(lines[i])];
      right := right + [RightOf(lines[i])];
    }
  }

  lemma MapConcat<A, B>(f: A --> B, a: seq<A>, b: seq<A>)
    requires forall i :: 0 <= i < |a| ==> f.requires(a[i])
    requires forall i :: 0 <= i < |b| ==> f.requires(b[i])
    ensures forall i :: 0 <= i < |a + b| ==> f.requires((a + b)[i])
    ensures MapSeq(f, a + b) == MapSeq(f, a) + MapSeq(f, b)
  {
    assert forall i :: 0 <= i < |a + b| ==> (a + b)[i] == if i < |a| then a[i] else b[i - |a|];
    assert MapSeq(f, a + b) == MapSeq(f, a) + MapSeq(f, b);
  }

  /**
   * Taking out the element at `j` takes one copy of it out of the list and
   * one copy of its image out of the mapped list.
   */
  lemma MapRemoveAt<A, B>(f: A --> B, b: seq<A>, j: int, rest: seq<A>)
    requires forall i :: 0 <= i < |b| ==> f.requires(b[i])
    requires 0 <= j < |b| && rest == b[..j] + b[j + 1..]
    ensures forall i :: 0 <= i < |rest| ==> f.requires(rest[i])
    ensures multiset(b) == multiset(rest) + multiset{b[j]}
    ensures multiset(MapSeq(f, b)) == multiset(MapSeq(f, rest)) + multiset{f(b[j])}
  {
    var b1, b2 := b[..j], b[j + 1..];
    assert b == b1 + [b[j]] + b2;
    Helpers.MultisetRemove(b, j, rest);
    MapConcat(f, b1, [b[j]]);
    MapConcat(f, b1 + [b[j]], b2);
    MapConcat(f, b1, b2);
  }

  /** Mapping respects permutations: reordered inputs give reordered outputs. */
  lemma {:induction false} MapPermutation<A, B>(f: A --> B, a: seq<A>, b: seq<A>)
    requires forall i :: 0 <= i < |a| ==> f.requires(a[i])
    requires forall i :: 0 <= i < |b| ==> f.requires(b[i])
    requires multiset(a) == multiset(b)
    ensures multiset(MapSeq(f, a)) == multiset(MapSeq(f, b))
    decreases |a|
  {
    if a == [] {
      assert |b| == |multiset(b)| == 0;
    } else {
      var n := |a| - 1;
      var x := a[n];
      assert x in multiset(b);
      var j :| 0 <= j < |b| && b[j] == x;
      var a', b' := a[..n] + a[n + 1..], b[..j] + b[j + 1..];
      MapRemoveAt(f, a, n, a');
      MapRemoveAt(f, b, j, b');
      Helpers.Cancel(multiset(a'), multiset(b'), x);
      MapPermutation(f, a', b');
    }
  }
  // ---------------------------------------------------------------------
  // Sorting

  predicate Sorted(s: seq<int>) {
    forall k, l :: 0 <= k < l < |s| ==> s[k] <= s[l]
  }

  /** `x` put in front of the first entry of `s` that is not smaller. */
  function InsertSorted(x: int, s: seq<int>): (r: seq<int>)
    ensures |r| == |s| + 1
  {
    if s == [] || x <= s[0] then [x] + s else [s[0]] + InsertSorted(x, s[1..])
  }

  /** Inserting into a sorted list keeps it sorted and adds exactly one `x`. */
  lemma {:induction false} InsertSortedSpec(x: int, s: seq<int>)
    requires Sorted(s)
    ensures InsertSorted(x, s)[0] == x || (s != [] && InsertSorted(x, s)[0] == s[0])
    ensures Sorted(InsertSorted(x, s))
    ensures multiset(InsertSorted(x, s)) == multiset(s) + multiset{x}
  {
    if s != [] && x > s[0] {
      var rest := InsertSorted(x, s[1..]);
      TailSorted(s);
      InsertSortedSpec(x, s[1..]);
      HeadSplit(s);
      HeadSplit([s[0]] + rest);
      assert ([s[0]] + rest)[1..] == rest;
      ConsSorted(s[0], rest);
    } else {
      ConsSorted(x, s);
      HeadSplit([x] + s);
      assert ([x] + s)[1..] == s;
    }
  }

  lemma ConsSorted(y: int, rest: seq<int>)
    requires Sorted(rest) && (rest == [] || y <= rest[0])
    ensures Sorted([y] + rest)
  {
    var r := [y] + rest;
    forall k, l | 0 <= k < l < |r| ensures r[k] <= r[l] {
      if k > 0 {
        assert r[k] == rest[k - 1] && r[l] == rest[l - 1];
      } else {
        assert r[l] == rest[l - 1];
        assert rest[0] <= rest[l - 1];
      }
    }
  }

  lemma TailSorted(a: seq<int>)
    requires Sorted(a) && a != []
    ensures Sorted(a[1..])
  {
    forall k, l | 0 <= k < l < |a| - 1 ensures a[1..][k] <= a[1..][l] {
      assert a[1..][k] == a[k + 1] && a[1..][l] == a[l + 1];
    }
  }

  lemma HeadSplit(a: seq<int>)
    requires a != []
    ensures multiset(a) == multiset{a[0]} + multiset(a[1..])
  {
    assert a == [a[0]] + a[1..];
  }

  /**
   * The arrangement of `s` by insertion, one entry at a time from the
   * left: the model of `sort((a, b) => a - b)`.
   */
  function SortSeq(s: seq<int>): (r: seq<int>)
    ensures |r| == |s|
  {
    if s == [] then [] else InsertSorted(s[|s| - 1], SortSeq(s[..|s| - 1]))
  }

  /** The arrangement is non-decreasing and a permutation of `s`. */
  lemma {:induction false} SortSeqSpec(s: seq<int>)
    ensures Sorted(SortSeq(s)) && multiset(SortSeq(s)) == multiset(s)
  {
    if s != [] {
      var n := |s| - 1;
      SortSeqSpec(s[..n]);
      InsertSortedSpec(s[n], SortSeq(s[..n]));
      assert s == s[..n] + [s[n]];
    }
  }

  lemma SortedHeadIsMin(a: seq<int>, x: int)
    requires Sorted(a) && x in multiset(a)
    ensures a[0] <= x
  {
    var j :| 0 <= j < |a| && a[j] == x;
  }

  lemma TailMultiset(a: seq<int>, b: seq<int>)
    requires a != [] && b != [] && a[0] == b[0] && multiset(a) == multiset(b)
    ensures multiset(a[1..]) == multiset(b[1..])
  {
    HeadSplit(a);
    HeadSplit(b);
    assert multiset(a[1..]) == multiset(a) - multiset{a[0]};
  }

  lemma SameLength(a: seq<int>, b: seq<int>)
    requires multiset(a) == multiset(b)
    ensures |a| == |b|
  {
    assert |multiset(a)| == |a| && |multiset(b)| == |b|;
  }

  /** A list has only one non-decreasing arrangement. */
  lemma {:induction false} SortedUnique(a: seq<int>, b: seq<int>)
    requires Sorted(a) && Sorted(b) && multiset(a) == multiset(b)
    ensures a == b
    decreases |a|
  {
    SameLength(a, b);
    if a != [] {
      assert a[0] in multiset(a) && b[0] in multiset(b);
      SortedHeadIsMin(a, b[0]);
      SortedHeadIsMin(b, a[0]);
      TailMultiset(a, b);
      TailSorted(a);
      TailSorted(b);
      SortedUnique(a[1..], b[1..]);
      assert a == [a[0]] + a[1..] && b == [b[0]] + b[1..];
    }
  }

  /** The arrangement of `s` is fixed by the multiset of `s`. */
  lemma SortSeqPermutation(s: seq<int>, t: seq<int>)
    requires multiset(s) == multiset(t)
    ensures SortSeq(s) == SortSeq(t)
  {
    SortSeqSpec(s);
    SortSeqSpec(t);
    SortedUnique(SortSeq(s), SortSeq(t));
  }

  /**
   * `arr.sort((a, b) => a - b)`: the array is rearranged in place into
   * its non-decreasing order.
   */
  method SortInPlace(a: array<int>)
    modifies a
    ensures a[..] == SortSeq(old(a[..]))
    ensures Sorted(a[..]) && multiset(a[..]) == multiset(old(a[..]))
  {
    SortSeqSpec(a[..]);
    var sorted := SortSeq(a[..]);
    for k := 0 to a.Length
      invariant forall m :: 0 <= m < k ==> a[m] == sorted[m]
    {
      a[k] := sorted[k];
    }
    assert a[..] == sorted;
  }

  // ---------------------------------------------------------------------
  // Part 1: total distance

  /** `Σ |l[i] - r[i]|` over the pairing by position, from the left. */
  function Distance(l: seq<int>, r: seq<int>): int
    requires |l| == |r|
  {
    if l == [] then 0
    else Distance(l[..|l| - 1], r[..|r| - 1]) + Helpers.Abs(l[|l| - 1] - r[|r| - 1])
  }

  lemma DistanceStep(l: seq<int>, r: seq<int>, i: int)
    requires |l| == |r| && 0 <= i < |l|
    ensures Distance(l[..i + 1], r[..i + 1]) == Distance(l[..i], r[..i]) + Helpers.Abs(l[i] - r[i])
  {
    assert l[..i + 1][..i] == l[..i] && r[..i + 1][..i] == r[..i];
  }

  /** A distance is never negative. */
  lemma {:induction false} DistanceNonNegative(l: seq<int>, r: seq<int>)
    requires |l| == |r|
    ensures Distance(l, r) >= 0
  {
    if l != [] {
      DistanceNonNegative(l[..|l| - 1], r[..|r| - 1]);
    }
  }

  /** The distance does not depend on which list comes first. */
  lemma {:induction false} DistanceSymmetric(l: seq<int>, r: seq<int>)
    requires |l| == |r|
    ensures Distance(l, r) == Distance(r, l)
  {
    if l != [] {
      DistanceSymmetric(l[..|l| - 1], r[..|r| - 1]);
    }
  }

  /** What part 1 computes: the distance between the two columns once each is sorted. */
  function SortedDistance(left: seq<int>, right: seq<int>): int
    requires |left| == |right|
  {
    Distance(SortSeq(left), SortSeq(right))
  }

  /**
   * `part1`: read the columns, sort each in place, and add up the
   * distances of the pairs by position.
   */
  method Part1(input: string) returns (totalDistance: int)
    requires WellFormed(input)
    ensures totalDistance == SortedDistance(Lefts(ParseLines(input)), Rights(ParseLines(input)))
  {
    totalDistance := Part1Lines(ParseLines(input));
  }

  /** The body of `part1` once the input is cut into lines. */
  method Part1Lines(lines: seq<string>) returns (totalDistance: int)
    requires AllPairLines(lines)
    ensures totalDistance == SortedDistance(Lefts(lines), Rights(lines))
  {
    var l, r := ReadColumns(lines);
    totalDistance := Part1Columns(l, r);
  }

  /** Sort both columns in place, then add up the distances of the pairs by position. */
  method Part1Columns(l: seq<int>, r: seq<int>) returns (totalDistance: int)
    requires |l| == |r|
    ensures totalDistance == SortedDistance(l, r)
  {
    var left := ToArray(l);
    var right := ToArray(r);
    SortInPlace(left);
    SortInPlace(right);
    totalDistance := TotalDistance(left, right);
  }

  /** A fresh array holding `s`: the JavaScript array the parsing loop filled. */
  method ToArray(s: seq<int>) returns (a: array<int>)
    ensures fresh(a) && a[..] == s
  {
    a := new int[|s|](i requires 0 <= i < |s| => s[i]);
    assert a[..] == s;
  }

  /** The distance loop of `part1` over the two arrays, pair by pair. */
  method TotalDistance(left: array<int>, right: array<int>) returns (totalDistance: int)
    requires left.Length == right.Length
    ensures totalDistance == Distance(left[..], right[..])
  {
    totalDistance := 0;
    for i := 0 to left.Length
      invariant totalDistance == Distance(left[..i], right[..i])
    {
      DistanceStep(left[..], right[..], i);
      assert left[..][..i + 1] == left[..i + 1] && right[..][..i + 1] == right[..i + 1];
      totalDistance := totalDistance + Helpers.Abs(left[i] - right[i]);
    }
    assert left[..left.Length] == left[..] && right[..right.Length] == right[..];
  }

  /** Part 1 never reports a negative distance. */
  lemma SortedDistanceNonNegative(left: seq<int>, right: seq<int>)
    requires |left| == |right|
    ensures SortedDistance(left, right) >= 0
  {
    DistanceNonNegative(SortSeq(left), SortSeq(right));
  }

  /** Reordering the input lines does not change part 1. */
  lemma Part1Reorder(lines: seq<string>, lines': seq<string>)
    requires AllPairLines(lines) && AllPairLines(lines')
    requires multiset(lines) == multiset(lines')
    ensures SortedDistance(Lefts(lines), Rights(lines)) == SortedDistance(Lefts(lines'), Rights(lines'))
  {
    MapPermutation(LeftOf, lines, lines');
    MapPermutation(RightOf, lines, lines');
    SortSeqPermutation(Lefts(lines), Lefts(lines'));
    SortSeqPermutation(Rights(lines), Rights(lines'));
  }

  /** Swapping the two columns of every line does not change part 1. */
  lemma Part1Swap(lines: seq<string>, swapped: seq<string>)
    requires AllPairLines(lines) && AllPairLines(swapped)
    requires Lefts(swapped) == Rights(lines) && Rights(swapped) == Lefts(lines)
    ensures SortedDistance(Lefts(lines), Rights(lines)) == SortedDistance(Lefts(swapped), Rights(swapped))
  {
    DistanceSymmetric(SortSeq(Lefts(lines)), SortSeq(Rights(lines)));
  }

  // ---------------------------------------------------------------------
  // Part 2: similarity score

  /** `Σ x * (occurrences of x in right)` over the left entries, from the left. */
  function Similarity(left: seq<int>, right: seq<int>): int {
    if left == [] then 0
    else
      var x := left[|left| - 1];
      Similarity(left[..|left| - 1], right) + x * multiset(right)[x]
  }

  lemma SimilarityStep(left: seq<int>, right: seq<int>, i: int)
    requires 0 <= i < |left|
    ensures Similarity(left[..i + 1], right) == Similarity(left[..i], right) + left[i] * multiset(right)[left[i]]
  {
    assert left[..i + 1][..i] == left[..i];
  }

  /**
   * `part2`: read the columns, count each number of the right column in a
   * map, then add up each left number times its count (0 when absent).
   */
  method Part2(input: string) returns (similarityScore: int)
    requires WellFormed(input)
    ensures similarityScore == Similarity(Lefts(ParseLines(input)), Rights(ParseLines(input)))
  {
    similarityScore := Part2Lines(ParseLines(input));
  }

  /** The body of `part2` once the input is cut into lines. */
  method Part2Lines(lines: seq<string>) returns (similarityScore: int)
    requires AllPairLines(lines)
    ensures similarityScore == Similarity(Lefts(lines), Rights(lines))
  {
    var left, right := ReadColumns(lines);
    similarityScore := Part2Columns(left, right);
  }

  /**
   * The `rightCounts` map: every number of the right column, mapped to
   * the number of times it occurs there.
   */
  method CountRight(right: seq<int>) returns (rightCounts: map<int, nat>)
    ensures forall x :: x in rightCounts <==> x in right
    ensures forall x :: x in rightCounts ==> rightCounts[x] == multiset(right)[x]
  {
    rightCounts := map[];
    for i := 0 to |right|
      invariant forall x :: x in rightCounts <==> x in right[..i]
      invariant forall x :: x in rightCounts ==> rightCounts[x] == multiset(right[..i])[x]
    {
      var num := right[i];
      assert right[..i + 1] == right[..i] + [num];
      rightCounts := rightCounts[num := (if num in rightCounts then rightCounts[num] else 0) + 1];
    }
    assert right[..|right|] == right;
  }

  /** Weigh each left number by its count in the right column (0 when absent) and add up. */
  method Part2Columns(left: seq<int>, right: seq<int>) returns (similarityScore: int)
    ensures similarityScore == Similarity(left, right)
  {
    var rightCounts := CountRight(right);
    similarityScore := 0;
    for i := 0 to |left|
      invariant similarityScore == Similarity(left[..i], right)
    {
      var num := left[i];
      var count := if num in rightCounts then rightCounts[num] else 0;
      assert count == multiset(right)[num];
      SimilarityStep(left, right, i);
      similarityScore := similarityScore + num * count;
    }
    assert left[..|left|] == left;
  }

  /** The similarity is a sum over the left entries, each weighed by its count. */
  lemma {:induction false} SimilarityAsSum(left: seq<int>, right: seq<int>)
    ensures Similarity(left, right) == Helpers.Sum(MapSeq(x => x * multiset(right)[x], left))
  {
    if left != [] {
      var n := |left| - 1;
      var f := x => x * multiset(right)[x];
      SimilarityAsSum(left[..n], right);
      assert MapSeq(f, left) == MapSeq(f, left[..n]) + [f(left[n])];
      Helpers.SumAppend(MapSeq(f, left[..n]), f(left[n]));
    }
  }

  /** Reordering the input lines does not change part 2. */
  lemma Part2Reorder(lines: seq<string>, lines': seq<string>)
    requires AllPairLines(lines) && AllPairLines(lines')
    requires multiset(lines) == multiset(lines')
    ensures Similarity(Lefts(lines), Rights(lines)) == Similarity(Lefts(lines'), Rights(lines'))
  {
    var l, l' := Lefts(lines), Lefts(lines');
    MapPermutation(LeftOf, lines, lines');
    MapPermutation(RightOf, lines, lines');
    var f := x => x * multiset(Rights(lines))[x];
    var f' := x => x * multiset(Rights(lines'))[x];
    assert forall x :: f(x) == f'(x);
    assert MapSeq(f, l') == MapSeq(f', l');
    SimilarityAsSum(l, Rights(lines));
    SimilarityAsSum(l', Rights(lines'));
    MapPermutation(f, l, l');
    Helpers.SumPermutation(MapSeq(f, l), MapSeq(f, l'));
  }

  // ---------------------------------------------------------------------
  // The example

  /** The six-line example: total distance 11 and similarity score 31. */
  lemma Example()
    ensures SortedDistance([3, 4, 2, 1, 3, 3], [4, 3, 5, 3, 9, 3]) == 11
    ensures Similarity([3, 4, 2, 1, 3, 3], [4, 3, 5, 3, 9, 3]) == 31
  {
    SortedLeftExample();
    SortedRightExample();
    DistanceSteps([1, 2, 3, 3, 3, 4], [3, 3, 3, 4, 5, 9]);
    SimilaritySteps([3, 4, 2, 1, 3, 3], [4, 3, 5, 3, 9, 3]);
  }

  /**
   * The example of the test file, on its text: `part1` gives 11 and
   * `part2` gives 31.
   */
  lemma ExampleInput()
    ensures WellFormed("3   4\n4   3\n2   5\n1   3\n3   9\n3   3")
    ensures var lines := ParseLines("3   4\n4   3\n2   5\n1   3\n3   9\n3   3");
      SortedDistance(Lefts(lines), Rights(lines)) == 11 && Similarity(Lefts(lines), Rights(lines)) == 31
  {
    var lines := PairLines("342133", "435393");
    ExampleText(lines);
    PairColumns("342133", "435393");
    ExampleDigits();
    Example();
  }

  /** The example text is the newline join of its six digit pairs. */
  lemma ExampleText(lines: seq<string>)
    requires lines == PairLines("342133", "435393")
    ensures Join(lines, "\n") == "3   4\n4   3\n2   5\n1   3\n3   9\n3   3"
  {
    JoinSix(lines);
    assert lines[0] == PairText('3', '4') && lines[1] == PairText('4', '3') && lines[2] == PairText('2', '5');
    assert lines[3] == PairText('1', '3') && lines[4] == PairText('3', '9') && lines[5] == PairText('3', '3');
    ExampleChars();
  }

  /** The example text, written out as its lines. */
  lemma ExampleChars()
    ensures "3   4\n4   3\n2   5\n1   3\n3   9\n3   3"
      == PairText('3', '4') + "\n" + PairText('4', '3') + "\n" + PairText('2', '5') + "\n"
      + PairText('1', '3') + "\n" + PairText('3', '9') + "\n" + PairText('3', '3')
  {
  }

  /** A join of six parts, written out. */
  lemma JoinSix(p: seq<string>)
    requires |p| == 6
    ensures Join(p, "\n") == p[0] + "\n" + p[1] + "\n" + p[2] + "\n" + p[3] + "\n" + p[4] + "\n" + p[5]
  {
    assert Join(p[5..], "\n") == p[5];
    assert Join(p[4..], "\n") == p[4] + "\n" + p[5] by { assert p[4..][1..] == p[5..]; }
    assert Join(p[3..], "\n") == p[3] + "\n" + Join(p[4..], "\n") by { assert p[3..][1..] == p[4..]; }
    assert Join(p[2..], "\n") == p[2] + "\n" + Join(p[3..], "\n") by { assert p[2..][1..] == p[3..]; }
    assert Join(p[1..], "\n") == p[1] + "\n" + Join(p[2..], "\n") by { assert p[1..][1..] == p[2..]; }
  }

  /** The values of the example's two digit columns. */
  lemma ExampleDigits()
    ensures DigitValues("342133") == [3, 4, 2, 1, 3, 3]
    ensures DigitValues("435393") == [4, 3, 5, 3, 9, 3]
  {
  }

  /** One line per position: the digit of `ls`, three spaces, the digit of `rs`. */
  function PairLines(ls: string, rs: string): (lines: seq<string>)
    requires |ls| == |rs|
    ensures |lines| == |ls|
  {
    seq(|ls|, k requires 0 <= k < |ls| => PairText(ls[k], rs[k]))
  }

  /** The values of a run of digits, one per digit. */
  function DigitValues(ds: string): (vs: seq<int>)
    requires AllDigits(ds)
    ensures |vs| == |ds|
  {
    seq(|ds|, k requires 0 <= k < |ds| => DigitValue(ds[k]) as int)
  }

  /** Joined by newlines, digit-pair lines parse back, and their columns are their digits. */
  lemma PairColumns(ls: string, rs: string)
    requires |ls| == |rs| >= 1 && AllDigits(ls) && AllDigits(rs)
    ensures var lines := PairLines(ls, rs);
      ParseLines(Join(lines, "\n")) == lines && AllPairLines(lines)
      && Lefts(lines) == DigitValues(ls) && Rights(lines) == DigitValues(rs)
  {
    var lines := PairLines(ls, rs);
    forall k | 0 <= k < |lines|
      ensures |lines[k]| >= 1 && Unpadded(lines[k]) && '\n' !in lines[k]
      ensures PairLine(lines[k]) && LeftOf(lines[k]) == DigitValue(ls[k])
      ensures RightOf(lines[k]) == DigitValue(rs[k])
    {
      DigitPair(ls[k], rs[k]);
    }
    LinesOfJoin(lines);
  }

  /** A line of two digits three spaces apart, as in the example. */
  function PairText(a: char, b: char): string {
    [a, ' ', ' ', ' ', b]
  }

  /** Such a line holds the two digits' values. */
  lemma DigitPair(a: char, b: char)
    requires IsDigit(a) && IsDigit(b)
    ensures var line := PairText(a, b);
      Unpadded(line) && '\n' !in line && PairLine(line)
      && LeftOf(line) == DigitValue(a) && RightOf(line) == DigitValue(b)
  {
    var line := PairText(a, b);
    assert !IsWhitespace(a) && !IsWhitespace(b);
    TrimUnpadded(line);
    SpacedPair(b);
    assert line[1..] == [' ', ' ', ' ', b];
    assert SplitWhitespace(line) == PrependFirst(a, SplitWhitespace(line[1..]));
    assert [a] + [] == [a];
    assert SplitWhitespace(line) == [[a], [b]];
    assert Fields(line) == [[a], [b]];
    assert [a][..0] == [] && [b][..0] == [];
    assert IsDecimal([a]) && IsDecimal([b]);
    assert DecimalValue([a]) == DigitsValue([a]) == DigitValue(a);
    assert DecimalValue([b]) == DigitsValue([b]) == DigitValue(b);
    assert '\n' !in line;
  }

  /** Three spaces and a non-space character: an empty piece, then the character. */
  lemma SpacedPair(b: char)
    requires !IsWhitespace(b)
    ensures SplitWhitespace([' ', ' ', ' ', b]) == [[], [b]]
  {
    var t := [' ', b];
    assert t[1..] == [b] && [b][1..] == [];
    assert SplitWhitespace([]) == [""];
    assert [b] + "" == [b];
    assert SplitWhitespace([b]) == PrependFirst(b, SplitWhitespace([])) == [[b]];
    assert SplitWhitespace(t) == [""] + SplitWhitespace([b]);
    var u := [' ', ' ', b];
    assert u[1..] == t && u[1] == ' ';
    assert SplitWhitespace(u) == SplitWhitespace(t);
    var v := [' ', ' ', ' ', b];
    assert v[1..] == u && v[1] == ' ';
    assert SplitWhitespace(v) == SplitWhitespace(u);
  }

  lemma SortStep(s: seq<int>, init: seq<int>, x: int)
    requires s != [] && init == s[..|s| - 1] && x == s[|s| - 1]
    ensures SortSeq(s) == InsertSorted(x, SortSeq(init))
  {
  }

  lemma SortedLeftExample()
    ensures SortSeq([3, 4, 2, 1, 3, 3]) == [1, 2, 3, 3, 3, 4]
  {
    SortStep([3], [], 3);
    SortStep([3, 4], [3], 4);
    SortStep([3, 4, 2], [3, 4], 2);
    SortStep([3, 4, 2, 1], [3, 4, 2], 1);
    SortStep([3, 4, 2, 1, 3], [3, 4, 2, 1], 3);
    SortStep([3, 4, 2, 1, 3, 3], [3, 4, 2, 1, 3], 3);
    assert InsertSorted(4, [3]) == [3, 4];
    assert InsertSorted(2, [3, 4]) == [2, 3, 4];
    assert InsertSorted(1, [2, 3, 4]) == [1, 2, 3, 4];
    assert InsertSorted(3, [1, 2, 3, 4]) == [1, 2, 3, 3, 4];
    assert InsertSorted(3, [1, 2, 3, 3, 4]) == [1, 2, 3, 3, 3, 4];
  }

  lemma SortedRightExample()
    ensures SortSeq([4, 3, 5, 3, 9, 3]) == [3, 3, 3, 4, 5, 9]
  {
    SortStep([4], [], 4);
    SortStep([4, 3], [4], 3);
    SortStep([4, 3, 5], [4, 3], 5);
    SortStep([4, 3, 5, 3], [4, 3, 5], 3);
    SortStep([4, 3, 5, 3, 9], [4, 3, 5, 3], 9);
    SortStep([4, 3, 5, 3, 9, 3], [4, 3, 5, 3, 9], 3);
    assert InsertSorted(3, [4]) == [3, 4];
    assert InsertSorted(5, [3, 4]) == [3, 4, 5];
    assert InsertSorted(3, [3, 4, 5]) == [3, 3, 4, 5];
    assert InsertSorted(9, [3, 3, 4, 5]) == [3, 3, 4, 5, 9];
    assert InsertSorted(3, [3, 3, 4, 5, 9]) == [3, 3, 3, 4, 5, 9];
  }

  lemma DistanceSteps(sl: seq<int>, sr: seq<int>)
    requires sl == [1, 2, 3, 3, 3, 4] && sr == [3, 3, 3, 4, 5, 9]
    ensures Distance(sl, sr) == 11
  {
    assert Distance(sl[..0], sr[..0]) == 0;
    DistanceStep(sl, sr, 0);
    DistanceStep(sl, sr, 1);
    DistanceStep(sl, sr, 2);
    DistanceStep(sl, sr, 3);
    DistanceStep(sl, sr, 4);
    DistanceStep(sl, sr, 5);
    assert sl[..6] == sl && sr[..6] == sr;
  }

  lemma RightCountsExample(r: seq<int>)
    requires r == [4, 3, 5, 3, 9, 3]
    ensures multiset(r)[3] == 3 && multiset(r)[4] == 1 && multiset(r)[2] == 0 && multiset(r)[1] == 0
  {
    assert multiset(r) == multiset{4, 3, 5, 3, 9, 3};
  }

  lemma SimilaritySteps(l: seq<int>, r: seq<int>)
    requires l == [3, 4, 2, 1, 3, 3] && r == [4, 3, 5, 3, 9, 3]
    ensures Similarity(l, r) == 31
  {
    RightCountsExample(r);
    assert Similarity(l[..0], r) == 0;
    SimilarityStep(l, r, 0);
    SimilarityStep(l, r, 1);
    SimilarityStep(l, r, 2);
    SimilarityStep(l, r, 3);
    SimilarityStep(l, r, 4);
    SimilarityStep(l, r, 5);
    assert l[..6] == l;
  }
}
