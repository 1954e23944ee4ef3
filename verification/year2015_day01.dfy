/**
 * Advent of Code 2015, day 1: Santa follows parentheses up and down the
 * floors of a building, starting on floor 0.
 */
module Year2015Day01 {
  import opened Wrappers
  import opened Strings
  import Helpers

  // ---------------------------------------------------------------------
  // Part 1: the floor reached

  /** The reducer of `part1`: up on "(", down on any other character. */
  function Step(total: int, curr: string): int {
    if curr == "(" then total + 1 else total - 1
  }

  /**
   * `reduce(Step, 0)` from the left: every "(" counts +1 and every other
   * entry -1.
   */
  function Fold(parts: seq<string>): (floor: int)
    ensures floor == multiset(parts)["("] - (|parts| - multiset(parts)["("])
  {
    if parts == [] then 0
    else
      var n := |parts| - 1;
      assert parts == parts[..n] + [parts[n]];
      Step(Fold(parts[..n]), parts[n])
  }

  /** Each character of `s` becomes one entry of `split('')`. */
  lemma {:induction false} CharsCount(s: string, c: char)
    ensures multiset(Chars(s))[[c]] == multiset(s)[c]
  {
    if s != [] {
      var n := |s| - 1;
      CharsCount(s[..n], c);
      assert Chars(s) == Chars(s[..n]) + [[s[n]]];
      assert s == s[..n] + [s[n]];
    }
  }

  /**
   * `part1`: the fold over the characters of the trimmed input, which is
   * the number of '(' minus the number of all other characters.
   */
  function Part1(input: string): (floor: int)
    ensures var t := Trim(input); floor == multiset(t)['('] - (|t| - multiset(t)['('])
  {
    CharsCount(Trim(input), '(');
    Fold(Chars(Trim(input)))
  }

  /**
   * The floor is the number of "(" minus the number of every other
   * character of the trimmed input, so it is at most that length in size.
   */
  lemma Part1Count(input: string)
    ensures var t := Trim(input);
      Part1(input) == multiset(t)['('] - (|t| - multiset(t)['('])
    ensures Helpers.Abs(Part1(input)) <= |Trim(input)| <= |input|
  {
    var t := Trim(input);
    CharsCount(t, '(');
    assert multiset(t)['('] <= |multiset(t)|;
  }

  // ---------------------------------------------------------------------
  // Part 2: the first step into the basement

  /** How one character moves the floor in part 2. */
  function Move(c: char): int {
    if c == '(' then 1 else if c == ')' then -1 else 0
  }

  /** The floor after `s` when only "(" (+1) and ")" (-1) move it. */
  function Level(s: string): int {
    if s == [] then 0 else Level(s[..|s| - 1]) + Move(s[|s| - 1])
  }

  lemma LevelStep(t: string, i: int)
    requires 0 <= i < |t|
    ensures Level(t[..i + 1]) == Level(t[..i]) + Move(t[i])
  {
    assert t[..i + 1][..i] == t[..i];
  }

  /** The level is the number of "(" minus the number of ")"; nothing else counts. */
  lemma {:induction false} LevelCount(s: string)
    ensures Level(s) == multiset(s)['('] as int - multiset(s)[')'] as int
  {
    if s != [] {
      var n := |s| - 1;
      LevelCount(s[..n]);
      assert s == s[..n] + [s[n]];
    }
  }

  /** Position `i` is the first at which the level reaches -1. */
  ghost predicate FirstBasement(t: string, i: int) {
    1 <= i <= |t| && Level(t[..i]) == -1 && forall k :: 0 <= k < i ==> Level(t[..k]) >= 0
  }

  /** The level never drops below 0. */
  ghost predicate NeverBasement(t: string) {
    forall k :: 0 <= k <= |t| ==> Level(t[..k]) >= 0
  }

  /**
   * `part2`: walk the characters of the trimmed input, moving the floor on
   * "(" and ")" only, and return the 1-based position of the first one
   * that reaches floor -1; `None` models the `undefined` the source
   * returns when the basement is never entered.
   */
  method Part2(input: string) returns (position: Option<int>)
    ensures position.Some? ==> FirstBasement(Trim(input), position.value)
    ensures position.None? <==> NeverBasement(Trim(input))
  {
    position := Walk(Trim(input));
  }

  /** The loop of `part2` over the characters of already trimmed text `t`. */
  method Walk(t: string) returns (position: Option<int>)
    ensures position.Some? ==> FirstBasement(t, position.value)
    ensures position.None? <==> NeverBasement(t)
  {
    var lines := Chars(t);
    var floor := 0;
    for index := 0 to |lines|
      invariant floor == Level(t[..index])
      invariant forall k :: 0 <= k <= index ==> Level(t[..k]) >= 0
    {
      var ch := lines[index];
      assert ch == [t[index]];
      if ch == "(" {
        floor := floor + 1;
      } else if ch == ")" {
        floor := floor - 1;
      }
      LevelStep(t, index);
      if floor == -1 {
        return Some(index + 1);
      }
    }
    assert t[..|lines|] == t;
    return None;
  }

  /**
   * On input made only of parentheses the two parts count the same way:
   * the floor of part 1 is the level part 2 tracks.
   */
  lemma {:induction false} PartsAgree(s: string)
    requires forall i :: 0 <= i < |s| ==> s[i] == '(' || s[i] == ')'
    ensures Fold(Chars(s)) == Level(s)
  {
    CharsCount(s, '(');
    LevelCount(s);
    ParenCount(s);
  }

  lemma {:induction false} ParenCount(s: string)
    requires forall i :: 0 <= i < |s| ==> s[i] == '(' || s[i] == ')'
    ensures multiset(s)['('] + multiset(s)[')'] == |s|
  {
    if s != [] {
      var n := |s| - 1;
      ParenCount(s[..n]);
      assert s == s[..n] + [s[n]];
    }
  }

  /** The first example input the puzzle file carries ends on floor -3. */
  lemma Example1()
    ensures Part1(")())())") == -3
  {
    FloorOfExample(")())())");
  }

  lemma FloorOfExample(input: string)
    requires input == ")())())"
    ensures Part1(input) == -3
  {
    assert multiset(input)['('] == 2 by {
      assert multiset(input) == multiset{')', '(', ')', ')', '(', ')', ')'};
    }
    assert Unpadded(input);
    TrimUnpadded(input);
    Part1Count(input);
  }

  /** In the second example input the fifth character enters the basement. */
  lemma Example2()
    ensures FirstBasement("()())", 5)
  {
    var t := "()())";
    assert Level(t[..0]) == 0;
    LevelStep(t, 0);
    LevelStep(t, 1);
    LevelStep(t, 2);
    LevelStep(t, 3);
    LevelStep(t, 4);
  }
}
