/**
 * Advent of Code 2015, day 2: the elves order wrapping paper for presents
 * given as `l x w x h` boxes, one per line.
 */
module Year2015Day02 {
  import opened Strings
  import opened InputFetcher
  import Helpers

  // ---------------------------------------------------------------------
  // calcSurfaceArea

  /** `Math.min(...s)` over a non-empty list: an element no larger than any other. */
  function MinOf(s: seq<int>): (m: int)
    requires |s| > 0
    ensures m in s
    ensures forall k :: 0 <= k < |s| ==> m <= s[k]
  {
    if |s| == 1 then s[0] else Helpers.Min(MinOf(s[..|s| - 1]), s[|s| - 1])
  }

  /** The reducer `(total, current) => total + current * 2`, from the left. */
  function DoubledSum(s: seq<int>): int {
    if s == [] then 0 else DoubledSum(s[..|s| - 1]) + s[|s| - 1] * 2
  }

  /**
   * `calcSurfaceArea`: the surface of the box plus slack equal to its
   * smallest side.
   */
  function CalcSurfaceArea(l: int, w: int, h: int): (area: int)
    ensures var slack := area - 2 * (l * w + w * h + h * l);
      && (slack == l * w || slack == w * h || slack == h * l)
      && slack <= l * w && slack <= w * h && slack <= h * l
  {
    var sides := [l * w, w * h, h * l];
    var minSide := MinOf(sides);
    DoubledSumOfThree(l * w, w * h, h * l);
    assert minSide <= sides[0] && minSide <= sides[1] && minSide <= sides[2];
    DoubledSum(sides) + minSide
  }

  lemma DoubledSumOfThree(a: int, b: int, c: int)
    ensures DoubledSum([a, b, c]) == 2 * (a + b + c)
  {
    assert [a][..0] == [];
    assert DoubledSum([a]) == 2 * a;
    assert [a, b][..1] == [a];
    assert DoubledSum([a, b]) == 2 * (a + b);
    assert [a, b, c][..2] == [a, b];
  }

  /** The order of the three dimensions does not matter. */
  lemma SurfaceAreaSymmetric(l: int, w: int, h: int)
    ensures CalcSurfaceArea(l, w, h) == CalcSurfaceArea(w, l, h)
    ensures CalcSurfaceArea(l, w, h) == CalcSurfaceArea(l, h, w)
    ensures CalcSurfaceArea(l, w, h) == CalcSurfaceArea(h, w, l)
    ensures CalcSurfaceArea(l, w, h) == CalcSurfaceArea(w, h, l)
    ensures CalcSurfaceArea(l, w, h) == CalcSurfaceArea(h, l, w)
  {
    assert w * l == l * w && h * w == w * h && l * h == h * l;
  }

  /** Boxes with non-negative dimensions need a non-negative amount of paper. */
  lemma SurfaceAreaNonNegative(l: nat, w: nat, h: nat)
    ensures CalcSurfaceArea(l, w, h) >= 0
  {
    assert l * w >= 0 && w * h >= 0 && h * l >= 0;
  }

  /** The two boxes of the example input need 58 and 43 square feet. */
  lemma SurfaceAreaExamples()
    ensures CalcSurfaceArea(2, 3, 4) == 58
    ensures CalcSurfaceArea(1, 1, 10) == 43
  {
  }

  // ---------------------------------------------------------------------
  // part1, part2

  /** The pieces of a line cut at each `x`, after trimming. */
  function Dimensions(line: string): seq<string> {
    Split(Trim(line), "x")
  }

  /** A line whose first three `x`-separated pieces are decimal integers. */
  predicate BoxLine(line: string) {
    var p := Dimensions(line);
    |p| >= 3 && IsDecimal(p[0]) && IsDecimal(p[1]) && IsDecimal(p[2])
  }

  /** `calcSurfaceArea(...numbers)` for one line: the first three numbers are used. */
  function BoxArea(line: string): int
    requires BoxLine(line)
  {
    var p := Dimensions(line);
    CalcSurfaceArea(DecimalValue(p[0]), DecimalValue(p[1]), DecimalValue(p[2]))
  }

  predicate AllBoxLines(lines: seq<string>) {
    forall i :: 0 <= i < |lines| ==> BoxLine(lines[i])
  }

  /** The paper for each line's box. */
  function Areas(lines: seq<string>): (areas: seq<int>)
    requires AllBoxLines(lines)
    ensures |areas| == |lines| && forall i :: 0 <= i < |lines| ==> areas[i] == BoxArea(lines[i])
  {
    seq(|lines|, i requires 0 <= i < |lines| => BoxArea(lines[i]))
  }

  /** The reducer of `part1`: the running total of the boxes' paper, from the left. */
  function TotalArea(lines: seq<string>): (total: int)
    requires AllBoxLines(lines)
    ensures (forall i :: 0 <= i < |lines| ==> RealBox(lines[i])) ==> total >= 0
  {
    RealAreas(lines);
    Helpers.Sum(Areas(lines))
  }

  /** Boxes without a negative dimension each need a non-negative amount of paper. */
  lemma RealAreas(lines: seq<string>)
    requires AllBoxLines(lines)
    ensures (forall i :: 0 <= i < |lines| ==> RealBox(lines[i])) ==> forall i :: 0 <= i < |lines| ==> Areas(lines)[i] >= 0
  {
    forall i | 0 <= i < |lines| && RealBox(lines[i]) ensures Areas(lines)[i] >= 0 {
      var p := Dimensions(lines[i]);
      SurfaceAreaNonNegative(DecimalValue(p[0]), DecimalValue(p[1]), DecimalValue(p[2]));
    }
  }

  /** A box line whose three dimensions are not negative. */
  predicate RealBox(line: string)
    requires BoxLine(line)
  {
    var p := Dimensions(line);
    DecimalValue(p[0]) >= 0 && DecimalValue(p[1]) >= 0 && DecimalValue(p[2]) >= 0
  }

  /** Every line of the input describes a box. */
  predicate WellFormed(input: string) {
    AllBoxLines(ParseLines(input))
  }

  /**
   * `part1`: the paper for every box, over the lines of the trimmed input;
   * never negative when no dimension is.
   */
  function Part1(input: string): (total: int)
    requires WellFormed(input)
    ensures var lines := ParseLines(input);
      (forall i :: 0 <= i < |lines| ==> RealBox(lines[i])) ==> total >= 0
  {
    TotalArea(ParseLines(input))
  }

  lemma AllBoxLinesConcat(a: seq<string>, b: seq<string>)
    requires AllBoxLines(a) && AllBoxLines(b)
    ensures AllBoxLines(a + b)
  {
    forall i | 0 <= i < |a + b| ensures BoxLine((a + b)[i]) {
      if i < |a| {
        assert (a + b)[i] == a[i];
      } else {
        assert (a + b)[i] == b[i - |a|];
      }
    }
  }

  /** The total over two lists of lines is the sum of the totals. */
  lemma TotalAreaConcat(a: seq<string>, b: seq<string>)
    requires AllBoxLines(a) && AllBoxLines(b)
    ensures AllBoxLines(a + b)
    ensures TotalArea(a + b) == TotalArea(a) + TotalArea(b)
  {
    AllBoxLinesConcat(a, b);
    assert Areas(a + b) == Areas(a) + Areas(b);
    Helpers.SumConcat(Areas(a), Areas(b));
  }

  /** A well-formed input is never blank: a blank one is the single empty line. */
  lemma WellFormedNotBlank(input: string)
    ensures WellFormed(input) ==> Trim(input) != []
  {
    if Trim(input) == [] {
      assert ParseLines(input) == [""];
      TrimUnpadded("");
      assert Dimensions("") == [""];
    }
  }

  /**
   * `part1` is additive: gluing two well-formed, already trimmed inputs
   * with a newline adds their totals.
   */
  lemma Part1Additive(a: string, b: string)
    requires WellFormed(a) && WellFormed(b)
    requires Trim(a) == a && Trim(b) == b
    ensures WellFormed(a + "\n" + b)
    ensures Part1(a + "\n" + b) == Part1(a) + Part1(b)
  {
    var s := a + "\n" + b;
    WellFormedNotBlank(a);
    WellFormedNotBlank(b);
    assert Unpadded(a) && Unpadded(b);
    assert s[0] == a[0] && s[|s| - 1] == b[|b| - 1];
    TrimUnpadded(s);
    SplitConcat(a, '\n', b);
    assert s == a + ['\n'] + b;
    TotalAreaConcat(ParseLines(a), ParseLines(b));
  }

  /** The example input of the puzzle file needs 58 + 43 = 101 square feet. */
  lemma Part1Example()
    ensures WellFormed("\n2x3x4\n1x1x10\n")
    ensures Part1("\n2x3x4\n1x1x10\n") == 101
  {
    var a, b := ExampleLines();
    ExampleBoxes(a, b);
    assert a[0] == '2' && b[|b| - 1] == '0';
    BoxesJoined(a, b);
    Part1Padded(a + "\n" + b);
  }

  /** Two trimmed box lines glued by a newline: an unpadded, well-formed input. */
  lemma BoxesJoined(a: string, b: string)
    requires WellFormed(a) && WellFormed(b) && Trim(a) == a && Trim(b) == b
    requires a != [] && b != [] && !IsWhitespace(a[0]) && !IsWhitespace(b[|b| - 1])
    ensures Unpadded(a + "\n" + b) && WellFormed(a + "\n" + b)
    ensures Part1(a + "\n" + b) == Part1(a) + Part1(b)
  {
    Part1Additive(a, b);
    assert (a + "\n" + b)[0] == a[0] && (a + "\n" + b)[|a + "\n" + b| - 1] == b[|b| - 1];
  }

  /** A newline on either side of the input does not change `part1`. */
  lemma Part1Padded(m: string)
    requires Unpadded(m) && WellFormed(m)
    ensures WellFormed("\n" + m + "\n")
    ensures Part1("\n" + m + "\n") == Part1(m)
  {
    TrimPadded(m);
    TrimUnpadded(m);
  }

  /** The two lines of the example input, the text written around them. */
  lemma ExampleLines() returns (a: string, b: string)
    ensures a == "2" + "x" + "3" + "x" + "4" && b == "1" + "x" + "1" + "x" + "10"
    ensures "\n2x3x4\n1x1x10\n" == "\n" + (a + "\n" + b) + "\n"
  {
    a, b := "2" + "x" + "3" + "x" + "4", "1" + "x" + "1" + "x" + "10";
  }

  /** The example lines are boxes needing 58 and 43 square feet. */
  lemma ExampleBoxes(a: string, b: string)
    requires a == "2" + "x" + "3" + "x" + "4" && b == "1" + "x" + "1" + "x" + "10"
    ensures WellFormed(a) && Trim(a) == a && Part1(a) == 58
    ensures WellFormed(b) && Trim(b) == b && Part1(b) == 43
  {
    FirstBox(a);
    SecondBox(b);
  }

  lemma FirstBox(a: string)
    requires a == "2" + "x" + "3" + "x" + "4"
    ensures WellFormed(a) && Trim(a) == a && Part1(a) == 58
  {
    assert "2"[..0] == "" && "3"[..0] == "" && "4"[..0] == "";
    assert DecimalValue("2") == 2 && DecimalValue("3") == 3 && DecimalValue("4") == 4;
    ThreePieces("2", "3", "4");
    SingleBox(a, ["2", "3", "4"]);
    TrimUnpadded(a);
    SurfaceAreaExamples();
  }

  lemma SecondBox(b: string)
    requires b == "1" + "x" + "1" + "x" + "10"
    ensures WellFormed(b) && Trim(b) == b && Part1(b) == 43
  {
    assert DigitsValue("1") == 1 by {
      assert "1"[..0] == "";
    }
    assert DecimalValue("10") == 10 by {
      assert "10"[..1] == "1";
    }
    ThreePieces("1", "1", "10");
    SingleBox(b, ["1", "1", "10"]);
    TrimUnpadded(b);
    SurfaceAreaExamples();
  }

  /** Cutting one newline off either end of an unpadded text. */
  lemma TrimPadded(m: string)
    requires Unpadded(m)
    ensures Trim("\n" + m + "\n") == m
  {
    var s := "\n" + m + "\n";
    assert s[1..] == m + "\n";
    assert (m + "\n")[..|m|] == m;
    TrimUnpadded(m);
  }

  /** Three digit runs glued by `x` split back into those runs. */
  lemma ThreePieces(l: string, w: string, h: string)
    requires AllDigits(l) && AllDigits(w) && AllDigits(h)
    ensures Split(l + "x" + w + "x" + h, "x") == [l, w, h]
  {
    assert 'x' !in l && 'x' !in w && 'x' !in h;
    SplitWithout(l, 'x');
    SplitWithout(w, 'x');
    SplitWithout(h, 'x');
    SplitConcat(w, 'x', h);
    assert l + "x" + w + "x" + h == l + ['x'] + (w + ['x'] + h);
    SplitConcat(l, 'x', w + ['x'] + h);
  }

  /** A trimmed single line that is a box: `part1` is that box's paper. */
  lemma SingleBox(line: string, p: seq<string>)
    requires Unpadded(line) && '\n' !in line
    requires Split(line, "x") == p && |p| >= 3
    requires IsDecimal(p[0]) && IsDecimal(p[1]) && IsDecimal(p[2])
    ensures WellFormed(line)
    ensures Part1(line) == CalcSurfaceArea(DecimalValue(p[0]), DecimalValue(p[1]), DecimalValue(p[2]))
  {
    TrimUnpadded(line);
    SplitWithout(line, '\n');
    var lines := ParseLines(line);
    assert lines == [line];
    assert Dimensions(line) == p;
    var areas := Areas(lines);
    assert areas == [BoxArea(line)];
    assert areas[..0] == [];
    assert Helpers.Sum(areas) == BoxArea(line);
  }

  /** `part2` is not implemented in the puzzle file: it returns 0 for every input. */
  function Part2(input: string): (answer: int)
    ensures answer == 0
  {
    var lines := ParseLines(input);
    0
  }
}
