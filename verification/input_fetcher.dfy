/**
 * The text-splitting helpers of the input fetcher: lines, character grids,
 * one number per line, and blank-line separated groups.
 */
module InputFetcher {
  import opened Strings

  /**
   * `parseLines`: the trimmed input cut at every newline. There is always at
   * least one line, no line holds a newline, and joining the lines with
   * newlines gives back the trimmed input.
   */
  function ParseLines(input: string): (lines: seq<string>)
    ensures |lines| >= 1
    ensures Trim(input) == [] ==> lines == [""]
    ensures forall i :: 0 <= i < |lines| ==> '\n' !in lines[i]
    ensures Join(lines, "\n") == Trim(input)
  {
    JoinSplit(Trim(input), "\n");
    NoNewlines(Trim(input));
    Split(Trim(input), "\n")
  }

  /** Splitting on a one-character separator leaves no piece holding it. */
  lemma NoNewlines(s: string)
    ensures forall i :: 0 <= i < |Split(s, "\n")| ==> '\n' !in Split(s, "\n")[i]
  {
    forall i | 0 <= i < |Split(s, "\n")| ensures '\n' !in Split(s, "\n")[i] {
      SplitPiecesFree(s, "\n", i);
      CharOccurs(Split(s, "\n")[i], '\n');
    }
  }

  /** A string holding the character `c` holds the one-character string `[c]`. */
  lemma CharOccurs(p: string, c: char)
    ensures c in p ==> Contains(p, [c])
  {
    if c in p {
      var j :| 0 <= j < |p| && p[j] == c;
      assert OccursAt(p, [c], j);
    }
  }

  /**
   * `parseGrid`: one row per line, and row `i` is line `i` cut into
   * single-character strings.
   */
  function ParseGrid(input: string): (grid: seq<seq<string>>)
    ensures |grid| == |ParseLines(input)|
    ensures forall i :: 0 <= i < |grid| ==> |grid[i]| == |ParseLines(input)[i]|
    ensures forall i, j :: 0 <= i < |grid| && 0 <= j < |grid[i]| ==> grid[i][j] == [ParseLines(input)[i][j]]
  {
    CharGrid(ParseLines(input))
  }

  /** Each line cut into single-character strings. */
  function CharGrid(lines: seq<string>): (grid: seq<seq<string>>)
    ensures |grid| == |lines|
    ensures forall i :: 0 <= i < |grid| ==> |grid[i]| == |lines[i]|
    ensures forall i, j :: 0 <= i < |grid| && 0 <= j < |grid[i]| ==> grid[i][j] == [lines[i][j]]
  {
    seq(|lines|, i requires 0 <= i < |lines| => Chars(lines[i]))
  }

  /** Each row of `parseGrid` concatenates back to its line. */
  lemma ParseGridRows(input: string, i: int)
    requires 0 <= i < |ParseGrid(input)|
    ensures Concat(ParseGrid(input)[i]) == ParseLines(input)[i]
  {
    ConcatChars(ParseLines(input)[i]);
  }

  /** Every line of the input is text that `Number` reads as an integer. */
  predicate NumericLines(input: string) {
    forall i :: 0 <= i < |ParseLines(input)| ==> IsNumberText(ParseLines(input)[i])
  }

  /** `parseNumbers`: `Number` applied to every line. */
  function ParseNumbers(input: string): (ns: seq<int>)
    requires NumericLines(input)
    ensures |ns| == |ParseLines(input)|
  {
    var lines := ParseLines(input);
    seq(|lines|, i requires 0 <= i < |lines| => NumberValue(lines[i]))
  }

  /** The decimal texts of a list of integers. */
  function DecimalTexts(ns: seq<int>): (ts: seq<string>)
    ensures |ts| == |ns|
  {
    seq(|ns|, i requires 0 <= i < |ns| => ToDecimal(ns[i]))
  }

  /** The first and last characters of a join of non-empty parts. */
  lemma {:induction false} JoinEnds(parts: seq<string>, sep: string)
    requires |parts| >= 1 && forall k :: 0 <= k < |parts| ==> |parts[k]| >= 1
    ensures |Join(parts, sep)| >= 1
    ensures Join(parts, sep)[0] == parts[0][0]
    ensures Join(parts, sep)[|Join(parts, sep)| - 1] == parts[|parts| - 1][|parts[|parts| - 1]| - 1]
    decreases |parts|
  {
    if |parts| > 1 {
      JoinEnds(parts[1..], sep);
    }
  }

  /**
   * Writing integers one per line and reading them back with `parseNumbers`
   * gives the same integers.
   */
  lemma ParseNumbersRoundTrip(ns: seq<int>)
    requires |ns| >= 1
    ensures NumericLines(Join(DecimalTexts(ns), "\n"))
    ensures ParseNumbers(Join(DecimalTexts(ns), "\n")) == ns
  {
    var ts := DecimalTexts(ns);
    DecimalTextsRead(ns);
    LinesOfJoin(ts);
  }

  /** Each decimal text reads back as its integer and is a bare line of text. */
  lemma DecimalTextsRead(ns: seq<int>)
    ensures forall k :: 0 <= k < |ns| ==>
      var t := DecimalTexts(ns)[k];
      |t| >= 1 && Unpadded(t) && '\n' !in t && IsNumberText(t) && NumberValue(t) == ns[k]
  {
    var ts := DecimalTexts(ns);
    forall k | 0 <= k < |ts|
      ensures |ts[k]| >= 1 && Unpadded(ts[k]) && '\n' !in ts[k] && IsNumberText(ts[k]) && NumberValue(ts[k]) == ns[k]
    {
      DecimalRoundTrip(ns[k]);
      DecimalUnpadded(ts[k]);
      TrimUnpadded(ts[k]);
    }
  }

  /** Non-empty, unpadded lines without newlines come back out of `parseLines` unchanged. */
  lemma LinesOfJoin(ts: seq<string>)
    requires |ts| >= 1
    requires forall k :: 0 <= k < |ts| ==> |ts[k]| >= 1 && Unpadded(ts[k]) && '\n' !in ts[k]
    ensures ParseLines(Join(ts, "\n")) == ts
  {
    JoinEnds(ts, "\n");
    TrimUnpadded(Join(ts, "\n"));
    SplitJoin(ts, '\n');
  }

  /**
   * `parseGroups`: the trimmed input cut at every blank line ("\n\n"), each
   * group then cut into lines.
   */
  function ParseGroups(input: string): (groups: seq<seq<string>>)
    ensures |groups| >= 1
    ensures forall g :: 0 <= g < |groups| ==> |groups[g]| >= 1
    ensures forall g, l :: 0 <= g < |groups| && 0 <= l < |groups[g]| ==> '\n' !in groups[g][l]
    ensures JoinGroups(groups) == Trim(input)
  {
    LineGroups(Trim(input))
  }

  /** `t` cut at every blank line, each group then cut into lines. */
  function LineGroups(t: string): (groups: seq<seq<string>>)
    ensures |groups| >= 1
    ensures forall g :: 0 <= g < |groups| ==> |groups[g]| >= 1
    ensures forall g, l :: 0 <= g < |groups| && 0 <= l < |groups[g]| ==> '\n' !in groups[g][l]
    ensures JoinGroups(groups) == t
  {
    var blocks := Split(t, "\n\n");
    var groups := seq(|blocks|, g requires 0 <= g < |blocks| => Split(blocks[g], "\n"));
    forall g | 0 <= g < |blocks|
      ensures forall l :: 0 <= l < |groups[g]| ==> '\n' !in groups[g][l]
    {
      NoNewlines(blocks[g]);
    }
    GroupsRoundTrip(blocks, groups);
    JoinSplit(t, "\n\n");
    groups
  }

  /** Joins each group's lines with "\n" and the groups with "\n\n". */
  function JoinGroups(groups: seq<seq<string>>): string
  {
    Join(GroupTexts(groups), "\n\n")
  }

  /** Each group's lines joined with "\n". */
  function GroupTexts(groups: seq<seq<string>>): seq<string>
  {
    seq(|groups|, g requires 0 <= g < |groups| => Join(groups[g], "\n"))
  }

  lemma GroupsRoundTrip(blocks: seq<string>, groups: seq<seq<string>>)
    requires |groups| == |blocks|
    requires forall g :: 0 <= g < |blocks| ==> groups[g] == Split(blocks[g], "\n")
    ensures JoinGroups(groups) == Join(blocks, "\n\n")
  {
    var joined := GroupTexts(groups);
    forall g | 0 <= g < |blocks| ensures joined[g] == blocks[g] {
      JoinSplit(blocks[g], "\n");
    }
    assert joined == blocks;
  }

  /**
   * Groups of non-empty lines without newlines, whose joined text neither
   * starts nor ends with whitespace, come back out of `parseGroups`
   * unchanged.
   */
  lemma GroupsOfJoin(gs: seq<seq<string>>)
    requires |gs| >= 1 && forall g :: 0 <= g < |gs| ==> |gs[g]| >= 1
    requires forall g, l :: 0 <= g < |gs| && 0 <= l < |gs[g]| ==> |gs[g][l]| >= 1 && '\n' !in gs[g][l]
    requires !IsWhitespace(gs[0][0][0])
    requires var last := gs[|gs| - 1][|gs[|gs| - 1]| - 1]; !IsWhitespace(last[|last| - 1])
    ensures ParseGroups(JoinGroups(gs)) == gs
  {
    var blocks := GroupTexts(gs);
    var first, last := gs[0][0], gs[|gs| - 1][|gs[|gs| - 1]| - 1];
    GroupBlocks(gs);
    BlocksText(blocks, first[0], last[|last| - 1]);
    LineGroupsOf(Join(blocks, "\n\n"), blocks, gs);
  }

  /** The texts of groups of non-empty lines without newlines are blocks that split back into the groups. */
  lemma GroupBlocks(gs: seq<seq<string>>)
    requires |gs| >= 1 && forall g :: 0 <= g < |gs| ==> |gs[g]| >= 1
    requires forall g, l :: 0 <= g < |gs| && 0 <= l < |gs[g]| ==> |gs[g][l]| >= 1 && '\n' !in gs[g][l]
    ensures var blocks := GroupTexts(gs);
      && |blocks| == |gs|
      && (forall g :: 0 <= g < |gs| ==> BlockOfLines(blocks[g]) && Split(blocks[g], "\n") == gs[g])
      && blocks[0][0] == gs[0][0][0]
      && var b, last := blocks[|gs| - 1], gs[|gs| - 1][|gs[|gs| - 1]| - 1]; b[|b| - 1] == last[|last| - 1]
  {
    var blocks := GroupTexts(gs);
    forall g | 0 <= g < |gs| ensures BlockOfLines(blocks[g]) && Split(blocks[g], "\n") == gs[g] {
      BlockOfJoin(gs[g]);
    }
    BlockOfJoin(gs[0]);
    BlockOfJoin(gs[|gs| - 1]);
  }

  /** Blocks joined by blank lines, starting and ending with non-whitespace, survive `trim` and split back apart. */
  lemma BlocksText(blocks: seq<string>, x: char, y: char)
    requires |blocks| >= 1 && forall g :: 0 <= g < |blocks| ==> |blocks[g]| >= 1 && BlockOfLines(blocks[g])
    requires blocks[0][0] == x && blocks[|blocks| - 1][|blocks[|blocks| - 1]| - 1] == y
    requires !IsWhitespace(x) && !IsWhitespace(y)
    ensures Trim(Join(blocks, "\n\n")) == Join(blocks, "\n\n")
    ensures Split(Join(blocks, "\n\n"), "\n\n") == blocks
  {
    var text := Join(blocks, "\n\n");
    JoinEnds(blocks, "\n\n");
    TrimEnds(text, x, y);
    SplitBlocks(blocks);
  }

  /** A string that starts and ends with non-whitespace is left alone by `trim`. */
  lemma TrimEnds(s: string, x: char, y: char)
    requires s != [] && s[0] == x && s[|s| - 1] == y
    requires !IsWhitespace(x) && !IsWhitespace(y)
    ensures Trim(s) == s
  {
    TrimUnpadded(s);
  }

  /** `LineGroups` of a text whose blocks split into the given groups. */
  lemma LineGroupsOf(t: string, blocks: seq<string>, gs: seq<seq<string>>)
    requires Split(t, "\n\n") == blocks && |gs| == |blocks|
    requires forall g :: 0 <= g < |blocks| ==> Split(blocks[g], "\n") == gs[g]
    ensures LineGroups(t) == gs
  {
  }

  /** A group of lines, joined, is a block that splits back into the lines. */
  lemma BlockOfJoin(lines: seq<string>)
    requires |lines| >= 1 && forall k :: 0 <= k < |lines| ==> |lines[k]| >= 1 && '\n' !in lines[k]
    ensures |Join(lines, "\n")| >= 1 && Join(lines, "\n")[0] == lines[0][0]
    ensures var b, last := Join(lines, "\n"), lines[|lines| - 1]; b[|b| - 1] == last[|last| - 1]
    ensures BlockOfLines(Join(lines, "\n")) && Split(Join(lines, "\n"), "\n") == lines
  {
    JoinEnds(lines, "\n");
    JoinLinesNoBlank(lines);
    NoBlankLineFree(Join(lines, "\n"));
    SplitJoin(lines, '\n');
    var last := lines[|lines| - 1];
    assert last[|last| - 1] in last;
  }

  /** A non-empty block holding no blank line and not ending in a newline. */
  ghost predicate BlockOfLines(b: string) {
    |b| >= 1 && !Contains(b, "\n\n") && b[|b| - 1] != '\n'
  }

  /** `s` has no two newlines in a row. */
  ghost predicate NoBlankLine(s: string) {
    forall i :: 0 <= i < |s| - 1 ==> !(s[i] == '\n' && s[i + 1] == '\n')
  }

  lemma NoBlankLineFree(s: string)
    requires NoBlankLine(s)
    ensures !Contains(s, "\n\n")
  {
    forall i | 0 <= i && i + 2 <= |s| ensures !OccursAt(s, "\n\n", i) {
      assert s[i..i + 2][0] == s[i] && s[i..i + 2][1] == s[i + 1];
    }
  }

  /** Non-empty lines without newlines, joined by newlines, hold no blank line. */
  lemma {:induction false} JoinLinesNoBlank(lines: seq<string>)
    requires |lines| >= 1 && forall k :: 0 <= k < |lines| ==> |lines[k]| >= 1 && '\n' !in lines[k]
    ensures NoBlankLine(Join(lines, "\n"))
    decreases |lines|
  {
    var s := Join(lines, "\n");
    if |lines| == 1 {
      forall i | 0 <= i < |s| - 1 ensures s[i] != '\n' {
        assert s[i] in lines[0];
      }
    } else {
      var l, r := lines[0], Join(lines[1..], "\n");
      JoinLinesNoBlank(lines[1..]);
      JoinEnds(lines[1..], "\n");
      assert s == l + "\n" + r;
      assert r[0] in lines[1];
      forall i | 0 <= i < |s| - 1 ensures !(s[i] == '\n' && s[i + 1] == '\n') {
        if i < |l| {
          assert s[i] in l;
        } else if i == |l| {
          assert s[i + 1] == r[0];
        } else {
          assert s[i] == r[i - |l| - 1] && s[i + 1] == r[i - |l|];
        }
      }
    }
  }

  /** Blocks without blank lines or trailing newlines, joined by blank lines, split back apart. */
  lemma {:induction false} SplitBlocks(blocks: seq<string>)
    requires |blocks| >= 1 && forall g :: 0 <= g < |blocks| ==> BlockOfLines(blocks[g])
    ensures Split(Join(blocks, "\n\n"), "\n\n") == blocks
    decreases |blocks|
  {
    if |blocks| == 1 {
      SplitFree(blocks[0], "\n\n");
    } else {
      var rest := Join(blocks[1..], "\n\n");
      SplitBlocks(blocks[1..]);
      BlankAfter(blocks[0], rest);
      SplitLead(blocks[0], "\n\n", rest);
      assert blocks == [blocks[0]] + blocks[1..];
    }
  }

  /** In `a + "\n\n" + b`, the first blank line is the one right after `a`. */
  lemma BlankAfter(a: string, b: string)
    requires BlockOfLines(a)
    ensures forall i :: 0 <= i < |a| ==> !OccursAt(a + "\n\n" + b, "\n\n", i)
  {
    var s := a + "\n\n" + b;
    forall i | 0 <= i < |a| ensures !OccursAt(s, "\n\n", i) {
      if i + 2 <= |a| {
        assert s[i..i + 2] == a[i..i + 2];
        assert !OccursAt(a, "\n\n", i);
      } else {
        assert s[i..i + 2][0] == a[|a| - 1];
      }
    }
  }
}
