# aoc-js core, modelled in Dafny

This project models the shared utility library and three puzzle solvers of
an Advent of Code repository written in JavaScript:

- the graph searches (`bfs`, `dijkstra`, `aStar`, `dfs`), their
  `MinPriorityQueue` and `manhattanDistance`;
- the number and combinatorics helpers;
- the grid helpers;
- the input parsers (`parseLines`, `parseGrid`, `parseNumbers`, `parseGroups`);
- the solvers of 2024 day 1 (sorted column distance and similarity score),
  2015 day 1 (floor counting and the first basement step) and 2015 day 2
  (wrapping paper).

Each source file becomes one module:

| source file | modules |
|---|---|
| utils/graph.js | `PriorityQueue`, `Paths`, `Graph` |
| utils/helpers.js | `Helpers` |
| utils/grid.js | `Grid` |
| utils/inputFetcher.js | `InputFetcher` |
| 2024/day01.js | `Year2024Day01` |
| 2015/day01.js | `Year2015Day01` |
| 2015/day02.js | `Year2015Day02` |

- `Strings` models the JavaScript string built-ins the code calls: `trim`, `split` with a string separator, `split('')`, `join`, and `Number`/`parseInt` on decimal integer text. `split(/\s+/)`, used only by 2024 day 1, is `Year2024Day01.SplitWhitespace`.
- `Wrappers` holds `Option`.

The model keeps the form of the code:

- `MinPriorityQueue` is a class whose `items` sequence its methods reassign.
- The searches, `countOccurrences`, `range`, `chunk`, `permutations`, `combinations`, `isPrime`, `rotateGrid90`, `findInGrid`, the 2024 solvers and 2015 part 2 are methods with loops and invariants. Each is proved against a specification function or predicate.
- The expression-style code (`reduce` chains, `gcd`, the parsers, `calcSurfaceArea`) becomes functions with lemmas.

Numbers are unbounded integers. Graph nodes are values of a type with equality; the source compares nodes by their `JSON.stringify` keys instead. The graph is a neighbour function together with a finite set of nodes that it does not leave. That set is a ghost parameter: it bounds the search loops and has no other role.

## Model

| member | source | states |
|---|---|---|
| PriorityQueue.MinPriorityQueue.constructor | utils/graph.js:150-152 | a new queue is empty and sorted |
| PriorityQueue.MinPriorityQueue.Enqueue | utils/graph.js:154-157 | the items stay sorted by priority and become the old items with the new entry inserted after every entry of no greater priority, which is where a stable sort puts the pushed entry |
| PriorityQueue.InsertShape | utils/graph.js:154-157 | insertion places the entry after exactly the entries whose priority is at most its own, with the rest after it: earlier entries of equal priority stay first |
| PriorityQueue.InsertMultiset | utils/graph.js:154-157 | the entries after an enqueue are the previous entries plus the new one |
| PriorityQueue.InsertSorted | utils/graph.js:154-157 | inserting into a priority-sorted list keeps it sorted |
| PriorityQueue.SortIdentity | utils/graph.js:156 | sorting an already sorted list by priority changes nothing, so push-then-sort is insertion |
| PriorityQueue.SortSorted | utils/graph.js:156 | the priority sort yields a sorted list |
| PriorityQueue.SortMultiset | utils/graph.js:156 | the priority sort is a permutation |
| PriorityQueue.MinPriorityQueue.Dequeue | utils/graph.js:159-161 | on an empty queue returns nothing and changes nothing; otherwise returns the front entry and leaves exactly the remaining entries |
| PriorityQueue.FrontMinimal | utils/graph.js:159-161 | the front entry of a sorted queue has priority no greater than any entry |
| PriorityQueue.MinPriorityQueue.IsEmpty | utils/graph.js:163-165 | true exactly when no entries remain |
| Paths.WalkStart | utils/graph.js:13 | every walk the searches build begins at `start` |
| Paths.WalkShortcut | utils/graph.js:23-27 | cutting out the loop between two visits of the same node leaves a walk to the same end |
| Graph.Bfs | utils/graph.js:12-33 | a result's path is a walk from `start` to a goal, `distance` is its length minus one, no walk to any goal is shorter, and no node repeats on it; `null` (`None`) exactly when no walk from `start` reaches a goal |
| Graph.FewestDistinct | utils/graph.js:23-27 | a walk to a goal with the fewest nodes visits no node twice |
| Graph.BfsRound | utils/graph.js:17-29 | one dequeue either returns a goal with a shortest walk or keeps the level-order invariant while marking neighbours visited when they are enqueued, and strictly progresses |
| Graph.Dijkstra | utils/graph.js:42-67 | a result's path is a walk from `start` to a goal whose edge costs add up to `cost`; with no negative edge no walk to a goal costs less; `null` exactly when no goal is reachable |
| Graph.DijkstraFound | utils/graph.js:47-56 | the first goal dequeued carries a goal walk of its priority, least among all goal walks when edges are non-negative |
| Graph.DijkstraNone | utils/graph.js:47-66 | an exhausted queue means no goal is reachable |
| Graph.AStar | utils/graph.js:77-104 | a result's path is a walk from `start` to `goal` and `cost` is its accumulated edge cost (the g value, not the f priority); with a consistent heuristic that cost is least; `null` exactly when `goal` is unreachable |
| Graph.AStarFound | utils/graph.js:82-91 | the dequeued goal entry carries a g cost that is the cost of its path |
| Graph.AStarNone | utils/graph.js:82-103 | an exhausted queue means the goal is unreachable |
| Graph.ConsistentBound | utils/graph.js:96-98 | along any walk, a consistent heuristic drops by at most the cost travelled |
| Graph.ZeroConsistent | utils/graph.js:77-104 | with non-negative edges the zero heuristic is consistent, so A* then orders like Dijkstra |
| Graph.Dfs | utils/graph.js:113-134 | the returned set is exactly the nodes reachable from `start`; `process` sees each of them exactly once, `start` first, and each later one is a neighbour of one processed before it |
| Graph.DfsDone | utils/graph.js:117-133 | once the stack is empty the visited set is the reachable set |
| Graph.ManhattanDistance | utils/graph.js:142-144 | the distance is non-negative and zero exactly between equal points |
| Graph.ManhattanMetric | utils/graph.js:142-144 | the distance is non-negative, zero exactly between equal points, symmetric, and obeys the triangle inequality |
| Graph.ManhattanConsistent | utils/graph.js:142-144 | on a grid whose steps cost at least their Manhattan length, `manhattanDistance` is a consistent A* heuristic |
| Helpers.Sum | utils/helpers.js:10-12 | the sum of non-negative numbers is non-negative |
| Helpers.SumAppend | utils/helpers.js:10-12 | `sum([])` is 0 and appending x adds x |
| Helpers.SumConcat | utils/helpers.js:10-12 | the sum of a concatenation is the sum of the sums |
| Helpers.SumPermutation | utils/helpers.js:10-12 | rearranging the array does not change the sum |
| Helpers.Product | utils/helpers.js:19-21 | the product of numbers ≥ 1 is ≥ 1, and a zero entry makes it 0 |
| Helpers.ProductAppend | utils/helpers.js:19-21 | `product([])` is 1 and appending x multiplies by x |
| Helpers.ProductConcat | utils/helpers.js:19-21 | the product of a concatenation is the product of the products |
| Helpers.CountOccurrences | utils/helpers.js:28-34 | the map's keys are exactly the distinct elements and each count is the element's number of occurrences |
| Helpers.Range | utils/helpers.js:43-49 | empty when start ≥ end; otherwise starts at `start`, each entry is the previous plus `step`, all are below `end`, and the next step would reach `end` |
| Helpers.RangeIncreasing | utils/helpers.js:43-49 | with a positive step the entries strictly increase |
| Helpers.Chunk | utils/helpers.js:57-63 | the chunks concatenate back to the array; all have length `size` except the last, which has 1 to `size` elements |
| Helpers.Permutations | utils/helpers.js:70-82 | `[arr]` for at most one element; otherwise |arr|! arrays, each a rearrangement of `arr`, and every rearrangement of `arr` is among them |
| Helpers.Combinations | utils/helpers.js:90-103 | for size ≥ 1: C(|arr|, size) arrays (none when size > |arr|), each of length `size` and an order-preserving subsequence of `arr`, and every such subsequence is among them |
| Helpers.BinomialOne | utils/helpers.js:92 | C(n, 1) = n, the count of single-element combinations |
| Helpers.BinomialAll | utils/helpers.js:90-103 | C(n, n) = 1 |
| Helpers.BinomialAbove | utils/helpers.js:90-103 | C(n, k) = 0 for k > n |
| Helpers.Bezout | utils/helpers.js:111-113 | the `gcd` is an integer combination of its two arguments |
| Helpers.LcmLeast | utils/helpers.js:121-123 | every common multiple of a and b is a multiple of |a*b| / gcd(a, b) |
| Helpers.JsRem | utils/helpers.js:112 | JavaScript's truncating `%`: smaller in size than the divisor and of the dividend's sign (non-negative for a non-negative dividend, non-positive for a negative one) |
| Helpers.JsDivision | utils/helpers.js:112 | the truncating quotient and remainder reconstruct the dividend |
| Helpers.CommonDivisorsStep | utils/helpers.js:112 | the common divisors of (a, b) and of (b, a % b) are the same |
| Helpers.Gcd | utils/helpers.js:111-113 | `gcd(a, 0) = a`; the result divides both arguments, every common divisor divides it, it is 0 only for (0, 0) and non-negative for non-negative arguments |
| Helpers.Lcm | utils/helpers.js:121-123 | `Math.abs(a*b) / gcd(a, b)` is divisible by both arguments and divides every common multiple of them (it is the least one), is 0 exactly when one argument is 0 and is non-negative for non-negative arguments |
| Helpers.LcmArray | utils/helpers.js:130-132 | the reduce of `lcm`: nothing for an empty array (where `reduce` throws), otherwise a non-zero common multiple of every entry that divides every other common multiple of all entries |
| Helpers.IsPrime | utils/helpers.js:139-148 | true exactly when n ≥ 2 and no d with 2 ≤ d < n divides n, although only 2, 3 and odd trial divisors up to √n are tried |
| Helpers.NoSmallDivisor | utils/helpers.js:143-147 | a number without a divisor up to its square root has none at all |
| Helpers.TrialStep | utils/helpers.js:144-146 | skipping the even candidates loses no divisor |
| Helpers.DigitRun | utils/helpers.js:175-176 | the matched run is all digits and is maximal |
| Helpers.ExtractNumbers | utils/helpers.js:174-177 | with `includeNegative` false every number is non-negative |
| Helpers.ExtractSplit | utils/helpers.js:174-177 | a character that is neither a digit nor '-' separates numbers: the numbers of `a + c + b` are those of a followed by those of b |
| Helpers.ExtractNoDigits | utils/helpers.js:174-177 | a string without digits gives `[]` |
| Helpers.ExtractSigns | utils/helpers.js:174-177 | with and without `includeNegative` the same runs are found, equal up to sign |
| Helpers.ExtractDecimal | utils/helpers.js:174-177 | the printed form of any integer extracts back to that integer |
| Helpers.ExtractJoined | utils/helpers.js:174-177 | integers printed in decimal and joined by a separator that is neither a digit nor '-' extract back to the same list |
| Strings.Trim | utils/inputFetcher.js:79 | `trim()` gives a slice of the input with only whitespace cut off on either side and no whitespace at either end |
| Strings.TrimIdempotent | utils/inputFetcher.js:79 | trimming twice is trimming once |
| Strings.TrimEmpty | utils/inputFetcher.js:79 | the trimmed text is empty exactly when the input is all whitespace |
| Strings.Split | utils/inputFetcher.js:79 | `split(sep)` always yields at least one piece |
| Strings.SplitFree | utils/inputFetcher.js:79 | a text without the separator splits into itself |
| Strings.SplitLead | utils/inputFetcher.js:106 | a first occurrence of the separator cuts off exactly the text before it as the first piece |
| Strings.JoinSplit | utils/inputFetcher.js:79 | joining the pieces of `split(sep)` with `sep` gives the text back |
| Strings.SplitJoin | utils/inputFetcher.js:79 | splitting a join of separator-free pieces on a single-character separator gives the pieces back |
| Strings.SplitPiecesFree | utils/inputFetcher.js:79 | no piece of a split contains the separator |
| Strings.SplitConcat | 2015/day02.js:27 | splitting `a + c + b` on the character c splits a and b separately |
| Strings.Chars | utils/inputFetcher.js:88 | `split('')` yields one single-character string per character, in order |
| Strings.ConcatChars | utils/inputFetcher.js:88 | the characters of `split('')` concatenate back to the line |
| Strings.DecimalRoundTrip | utils/inputFetcher.js:97 | `Number` reads back the decimal text of any integer |
| InputFetcher.ParseLines | utils/inputFetcher.js:78-80 | at least one line, `[""]` for a blank input, no line holds a newline, and joining with newlines gives the trimmed input |
| InputFetcher.ParseGrid | utils/inputFetcher.js:87-89 | one row per line, row i of the same length as line i, cell (i, j) the character j of line i |
| InputFetcher.ParseGridRows | utils/inputFetcher.js:87-89 | each row concatenates back to its line |
| InputFetcher.ParseNumbers | utils/inputFetcher.js:96-98 | one number per line |
| InputFetcher.ParseNumbersRoundTrip | utils/inputFetcher.js:96-98 | printing integers one per line and parsing them gives them back |
| InputFetcher.LinesOfJoin | utils/inputFetcher.js:78-80 | `parseLines` gives back trimmed, newline-free, non-empty lines joined with newlines |
| InputFetcher.ParseGroups | utils/inputFetcher.js:105-107 | at least one group, none empty, no line holds a newline, and joining the lines of each group with newlines and the groups with blank lines gives the trimmed input |
| InputFetcher.GroupsOfJoin | utils/inputFetcher.js:105-107 | joining non-empty groups of non-empty, newline-free lines (no whitespace at the two outer ends) and parsing the text gives the groups back |
| InputFetcher.JoinLinesNoBlank | utils/inputFetcher.js:105-107 | non-empty newline-free lines joined by newlines hold no blank line |
| InputFetcher.SplitBlocks | utils/inputFetcher.js:106 | splitting a blank-line join of non-empty blocks that hold no blank line and do not end in a newline gives the blocks back |
| InputFetcher.GroupsRoundTrip | utils/inputFetcher.js:105-107 | splitting each block on newlines and joining back reconstructs the blocks |
| Grid.CreateGrid | utils/grid.js:12-14 | `rows` rows of `cols` cells, every cell the default value |
| Grid.GetAdjacent4 | utils/grid.js:24-29 | at most 4 neighbours, exactly the in-bounds cells at Manhattan distance 1, in up, down, left, right order |
| Grid.Candidates4 | utils/grid.js:25-27 | the four shifted cells are exactly the cells at Manhattan distance 1 |
| Grid.GetAdjacent8 | utils/grid.js:39-48 | at most 8 neighbours, exactly the in-bounds cells at Chebyshev distance 1, never the cell itself, in the listed direction order |
| Grid.Candidates8 | utils/grid.js:40-46 | the eight shifted cells are exactly the cells at Chebyshev distance 1 |
| Grid.KeepSubsequence | utils/grid.js:28 | the bounds filter keeps the candidates' order |
| Grid.Rotated | utils/grid.js:55-66 | the clockwise rotation of a rows×cols grid is cols×rows with `result[c][rows-1-r] = grid[r][c]` |
| Grid.RotateGrid90 | utils/grid.js:55-66 | the nested loops fill a fresh grid with exactly the rotation; an empty grid, on which the source throws, gives `None` |
| Grid.HalfTurn | utils/grid.js:55-66 | two rotations turn the grid upside down and mirror it |
| Grid.RotateFour | utils/grid.js:55-66 | four rotations give back the grid |
| Grid.TransposeGrid | utils/grid.js:73-75 | the transpose of a non-empty rectangular grid swaps dimensions with `result[c][r] = grid[r][c]`; an empty grid gives `None` |
| Grid.TransposeTwice | utils/grid.js:73-75 | transposing twice gives back the grid |
| Grid.RotateIsTransposeReversed | utils/grid.js:55-75 | each row of the rotation is the reversed row of the transpose |
| Grid.FindInGrid | utils/grid.js:83-93 | the nested loops push exactly the row-major list of matches |
| Grid.FindInGridSpec | utils/grid.js:83-93 | an entry `[r, c, grid[r][c]]` is in the result exactly when the predicate holds at (r, c), and the results are in row-major order |
| Grid.GridMatchesSound | utils/grid.js:83-93 | every result is a matching cell |
| Grid.GridMatchesComplete | utils/grid.js:83-93 | every matching cell is in the result |
| Grid.GridMatchesOrdered | utils/grid.js:83-93 | the results are in row-major order |
| Year2024Day01.SplitWhitespace | 2024/day01.js:26 | `split(/\s+/)` always yields at least one piece |
| Year2024Day01.SplitWhitespaceFree | 2024/day01.js:26 | no piece holds whitespace |
| Year2024Day01.SplitWhitespaceEnds | 2024/day01.js:26 | every inner piece is non-empty; the first piece is empty exactly when the text is empty or starts with whitespace, the last exactly when it is empty or ends with whitespace, so on trimmed non-empty text no piece is empty |
| Year2024Day01.SplitWhitespaceJoin | 2024/day01.js:26 | splitting a space-join of non-empty whitespace-free words gives the words back |
| Year2024Day01.FieldsOfWords | 2024/day01.js:26 | trimming and splitting a space-join of words gives the words back |
| Year2024Day01.ReadColumns | 2024/day01.js:19-29 | the parsing loop pushes the first number of each line onto `left` and the second onto `right`, in line order |
| Year2024Day01.MapPermutation | 2024/day01.js:25-29 | a permutation of the lines gives a permutation of the parsed column |
| Year2024Day01.InsertSortedSpec | 2024/day01.js:32-33 | inserting into a sorted list keeps it sorted and adds exactly one copy of the entry |
| Year2024Day01.SortSeqSpec | 2024/day01.js:32-33 | the sorted column is non-decreasing and a permutation of the parsed column |
| Year2024Day01.SortedUnique | 2024/day01.js:32-33 | a list has only one non-decreasing arrangement, so any correct sort gives the same result |
| Year2024Day01.SortSeqPermutation | 2024/day01.js:32-33 | columns with the same entries sort to the same list |
| Year2024Day01.SortInPlace | 2024/day01.js:32-33 | after `sort((a, b) => a - b)` the array holds the non-decreasing arrangement of its old contents |
| Year2024Day01.TotalDistance | 2024/day01.js:36-41 | the loop adds up `Math.abs(left[i] - right[i])` over all positions |
| Year2024Day01.Part1 | 2024/day01.js:18-42 | `part1` is the sum over positions of the absolute differences of the two sorted parsed columns |
| Year2024Day01.DistanceNonNegative | 2024/day01.js:36-41 | a total distance is never negative |
| Year2024Day01.SortedDistanceNonNegative | 2024/day01.js:36-41 | `part1` is never negative |
| Year2024Day01.DistanceSymmetric | 2024/day01.js:38 | swapping the two lists does not change the distance |
| Year2024Day01.Part1Reorder | 2024/day01.js:25-39 | reordering the input lines does not change `part1` |
| Year2024Day01.Part1Swap | 2024/day01.js:25-39 | swapping the two columns of every line does not change `part1` |
| Year2024Day01.CountRight | 2024/day01.js:63-66 | the `rightCounts` map has exactly the numbers of the right column as keys, each mapped to its number of occurrences |
| Year2024Day01.Part2Columns | 2024/day01.js:63-75 | the score loop adds each left number times its count on the right, 0 when absent |
| Year2024Day01.Part2 | 2024/day01.js:49-76 | `part2` is the sum over the left entries x of x times the occurrences of x in the right column |
| Year2024Day01.SimilarityAsSum | 2024/day01.js:69-75 | the similarity is `sum` over the left entries, each weighted by its count |
| Year2024Day01.Part2Reorder | 2024/day01.js:56-73 | reordering the input lines does not change `part2` |
| Year2024Day01.Example | tests/day01.test.js:13-21 | on the parsed columns of the six-line example the sorted distance is 11 and the similarity score is 31 |
| Year2024Day01.ExampleInput | tests/day01.test.js:5-21 | on the example text itself the input is well formed, `part1` (the sorted distance of its parsed columns) is 11 and `part2` (their similarity) is 31 |
| Year2015Day01.Part1 | 2015/day01.js:22-27 | `part1` is the number of '(' minus the number of all other characters of the trimmed input |
| Year2015Day01.Fold | 2015/day01.js:24-26 | the reduce counts +1 for every "(" and -1 for every other entry |
| Year2015Day01.CharsCount | 2015/day01.js:23 | `split('')` has one entry per character, so it has as many "(" entries as the text has '(' characters |
| Year2015Day01.Part1Count | 2015/day01.js:22-27 | `part1` is the number of '(' minus the number of all other characters of the trimmed input, so its size is at most the trimmed length |
| Year2015Day01.LevelCount | 2015/day01.js:37-44 | the part 2 floor is the number of '(' minus the number of ')'; other characters do not move it |
| Year2015Day01.Part2 | 2015/day01.js:34-49 | a returned index i has 1 ≤ i ≤ length, floor -1 after the first i characters and floor ≥ 0 before; nothing (`undefined`) exactly when the floor never drops below 0 |
| Year2015Day01.Walk | 2015/day01.js:37-48 | the loop with its early return finds the first position whose prefix reaches floor -1 |
| Year2015Day01.PartsAgree | 2015/day01.js:22-49 | on text made only of parentheses both parts count the floor the same way |
| Year2015Day01.Example1 | 2015/day01.js:14 | the first example ends on floor -3 |
| Year2015Day01.Example2 | 2015/day01.js:15 | the second example enters the basement at position 5 |
| Year2015Day02.MinOf | 2015/day02.js:38 | `Math.min(...sides)` is one of the sides and no larger than any |
| Year2015Day02.CalcSurfaceArea | 2015/day02.js:36-40 | the result is 2lw + 2wh + 2hl plus the smallest of lw, wh and hl |
| Year2015Day02.DoubledSumOfThree | 2015/day02.js:39 | the doubling reduce over three sides is twice their sum |
| Year2015Day02.SurfaceAreaSymmetric | 2015/day02.js:36-40 | the area does not depend on the order of the three dimensions |
| Year2015Day02.SurfaceAreaNonNegative | 2015/day02.js:36-40 | boxes of non-negative size need non-negative paper |
| Year2015Day02.SurfaceAreaExamples | 2015/day02.js:16-17 | the example boxes need 58 and 43 square feet |
| Year2015Day02.Part1 | 2015/day02.js:26-34 | the paper total is not negative when no box has a negative dimension |
| Year2015Day02.TotalAreaConcat | 2015/day02.js:29-33 | the reduce over two lists of lines is the sum of the two reduces |
| Year2015Day02.WellFormedNotBlank | 2015/day02.js:27-31 | a blank input is not well formed, since its single empty line has no dimensions |
| Year2015Day02.Part1Additive | 2015/day02.js:26-34 | gluing two well-formed trimmed inputs with a newline adds their `part1` totals |
| Year2015Day02.Part1Example | 2015/day02.js:14-18 | the example input, with its newline on either side, needs 101 square feet |
| Year2015Day02.Part2 | 2015/day02.js:47-53 | `part2` is 0 for every input |

## Left out

- `fetchInput` and `getInput` (HTTP, file cache, environment), every `run` function, `run.js`, and `printGrid`: I/O and console output with no logic to prove.
- `memoize` and `deepClone`: closures and JSON serialisation of arbitrary values.
- `JSON.stringify` keys: nodes are compared by value equality.
- JavaScript numbers are doubles. The model uses unbounded integers, so precision loss, `NaN` and `Infinity` are not modelled.
- `Number`/`parseInt` are modelled on decimal integer text only. Ill-formed lines are excluded by `WellFormed` preconditions, where the source would compute `NaN`.
- Year2015Day02.Part1: `parseInt` stops at the first non-digit and accepts a leading `+`. The model requires whole decimal pieces.
- Strings are sequences of Unicode code points. JavaScript strings are UTF-16 code units, so a character outside the Basic Multilingual Plane counts twice in the source and once here. This affects `split('')` (Strings.Chars, InputFetcher.ParseGrid) and the 2015 day 1 counts (Year2015Day01.Part1, Year2015Day01.Part2, Year2015Day01.Walk): `part1("😀")` is -2 in the source and -1 here.
- Default arguments: `range`'s `step = 1` and `extractNumbers`' `includeNegative = true` are Dafny default parameters. `createGrid`'s `defaultValue = 0` is not, because `CreateGrid` is generic in the cell type and 0 is only a value of the integer grids. `dfs`'s `process = () => {}` corresponds to ignoring the returned `processed` sequence.
- Helpers.Range: requires `step > 0 || start >= end`. For a zero or negative step with `start < end` the source's loop never ends, so those calls are not modelled.
- Helpers.Chunk: requires `size > 0 || |arr| == 0`. For a zero or negative size on a non-empty array the source pushes chunks forever, so those calls are not modelled.
- Grid.CreateGrid: the sizes are `nat`. A negative `rows` or `cols` makes `Array(rows)` throw `RangeError` in the source; that error path is not modelled.
- Helpers.Combinations: requires `size >= 1`. For `size <= 0` the source returns `[[]]` on an empty array and otherwise recurses without end, so those calls are not modelled.
- `lcm(0, 0)` (0/0 in the source): `Lcm` requires a non-zero argument. `LcmArray` requires non-zero entries.
- Ragged grids: `RotateGrid90` and `TransposeGrid` require `Rectangular`. On ragged input the source writes `undefined` holes.
- Rotating or transposing an empty grid throws `TypeError` in the source; the model returns `None` instead.
- Graph.AStar: optimality is only stated under a consistent heuristic, because the source neither checks nor promises admissibility.
- Graph.Dijkstra: least cost is only stated for non-negative edge costs.
- Infinite graphs: every search requires a finite ghost set of nodes closed under the neighbour function. The search loops decrease the unvisited part of that set.
- Graph.Dfs: the `process` callback is modelled as the returned `processed` sequence, in call order, instead of being called.
- Graph.Bfs: the source's `distance` field is returned together with the path, and the path's distinct nodes are proved rather than the at-most-once enqueueing itself, which the invariant keeps.
- Year2024Day01.SortInPlace: the engine's sorting algorithm is not modelled. The method writes the unique non-decreasing arrangement into the array; only the result of `sort` is specified.
- Year2024Day01.Part1 and Year2024Day01.Part2: each source function is split into steps that read the columns, sort, count and add. The model does not repeat the parsing loop inside `part2`, because it is the same loop as in `part1`.
- Year2015Day02.Part1Additive: stated for inputs that are already trimmed. Otherwise padding inside the glued text would become part of a line.
