# Advent of Code 2024 solvers, modelled in Dafny

This project models the puzzle solvers of the `AoC2024` Rust workspace and proves properties
of them. Each solver crate is one Dafny module. The shared grid helper is the `Helpers` module.
The Rust standard-library string functions the solvers call are modelled in `Text`:
`lines`, `split`, `trim`, `split_whitespace`, `parse::<int>` and decimal printing.
Small facts about sequences without duplicates are in `Seqs`. The Rust `Option` and
`Result` types are in `Wrappers`.

- `Helpers`: `Point2D` arithmetic and the `Grid` type. A grid is stored row by row, the first
  input line being row 0. Points are "readable": (0, 0) is the bottom-left cell and y grows
  upward. The module covers the coordinate conversions, the bounds test, cell access and the
  integer key of a point.
- `P1` (day 1): the distance between the sorted lists, and the count-weighted similarity.
- `P2`, `P2Main` (day 2): the safe-report test, with and without the dampener, and the
  counts of safe reports.
- `P3` (day 3): `parse_mul`, the product sum and an explicit scanner. The scanner stands in
  for the `mul\(\d+,\d+\)` regex.
- `P4` (day 4): the word search for `XMAS` along eight directions and for the diagonal
  `MAS` cross, with the quarter-turn rotation.
- `P5` (day 5): the page-ordering rule table (`Ruleset`), the order check, the re-sort and
  both solutions.
- `P6` (day 6): the guard patrol as a class `Map`, whose methods update the grid, the
  position and the direction in place.
- `P7` (day 7): the recursive back-solving over `+` and `*` and over concatenation,
  `concatenated_target` and the input parser.
- `P8` (day 8): the antenna table (`AntennaGrid`), the anti-nodes, the resonant lines and
  both counts.
- `P10` (day 10): the trail map (`ReindeerMap`). It covers the descent steps, the recursive
  score update and the score sum over the trail heads.

Imperative Rust code is modelled by methods with loops and by classes whose methods modify
their fields. Each such method is proved against a specification function. Integers are
unbounded. A Rust panic (an index out of range, `unwrap` on `None`, an empty list) becomes a
precondition. A precondition asks at least what the code needs. Where it asks more, the
member's line under "## Left out" says so.

## Model

| member | source | states |
|---|---|---|
| Helpers.NewPoint | helpers/src/lib.rs:36-43 | `Point2D::new((a, b))` is the point with `x == a` and `y == b`; `Helpers.ConvertRoundTrip` states what the readable conversion built on it returns |
| Helpers.Add | helpers/src/lib.rs:14-23 | the componentwise sum of two points; `Helpers.AddSubInverse` states that it commutes and that `Sub` undoes it |
| Helpers.Sub | helpers/src/lib.rs:25-34 | the componentwise difference of two points; `Helpers.AddSubInverse` states that `Add` undoes it |
| Helpers.AddSubInverse | helpers/src/lib.rs:14-34 | `+` and `-` on points work componentwise, addition commutes, and `(b - a) + a == b` and `(b + a) - a == b` for all points |
| Helpers.Grid.New | helpers/src/lib.rs:54-65 | one row per input line, each row as long as its line, and every cell is the decoding of the character at the same place |
| Helpers.Grid.Iter | helpers/src/lib.rs:50-52 | the rows in storage order; `Helpers.IterMatchesReadable` states that the positions it visits are exactly the in-bounds readable points |
| Helpers.Grid.Height | helpers/src/lib.rs:67-72 | the number of rows, demanding a row as the panic at line 69 does; `Helpers.NewDimensions` states that it is the number of input lines |
| Helpers.Grid.Width | helpers/src/lib.rs:74-82 | the length of row 0, demanding a row and a non-empty first row as the two panics do; `Helpers.NewDimensions` states that it is the length of the first input line |
| Helpers.NewDimensions | helpers/src/lib.rs:54-82 | the height of a parsed grid is the number of lines, and its width is the length of the first line |
| Helpers.Grid.ConvertCoordsReadable | helpers/src/lib.rs:85-87 | storage `(row, column)` to the readable point; `Helpers.ConvertRoundTrip` gives the result and its inverse |
| Helpers.Grid.ConvertCoordsGrid | helpers/src/lib.rs:90-92 | the readable point back to storage `(row, column)`; `Helpers.ConvertRoundTripReadable` states that it is undone by `convert_coords_readable` |
| Helpers.ConvertRoundTrip | helpers/src/lib.rs:85-92 | `convert_coords_readable((r, c))` is `(c, height - 1 - r)`, and `convert_coords_grid` maps it back to `(r, c)` |
| Helpers.ConvertRoundTripReadable | helpers/src/lib.rs:85-92 | for every readable point, converting to storage coordinates and back gives the point again |
| Helpers.Grid.InBounds | helpers/src/lib.rs:99-101 | the bounds test, demanding a non-empty grid only when `x >= 0` because `&&` short-circuits; `Helpers.InBoundsIff` states the box it tests |
| Helpers.InBoundsIff | helpers/src/lib.rs:99-101 | `in_bounds(p)` holds exactly when `0 <= x < width` and `0 <= y < height` |
| Helpers.InBoundsIndexable | helpers/src/lib.rs:94-101 | on a rectangular grid, every in-bounds point can be read by `access_grid` without a panic |
| Helpers.Grid.AccessGrid | helpers/src/lib.rs:94-97 | the cell at a readable point, demanding that the storage cell exist as the indexing panic does; `Helpers.AccessReadable` states which cell it reads |
| Helpers.AccessReadable | helpers/src/lib.rs:85-97 | `access_grid(convert_coords_readable((r, c)))` reads `grid[r][c]` |
| Helpers.IterMatchesReadable | helpers/src/lib.rs:50-97 | on a rectangular grid, the readable forms of the (row, column) positions met by `iter()` are exactly the in-bounds points, and each holds the cell `access_grid` returns |
| Helpers.Grid.PointToInt | helpers/src/lib.rs:104-106 | the key `y * height + x`; `Helpers.PointToIntInjective` states that it tells in-bounds points apart when the grid is no wider than it is tall, `Helpers.PointToIntOneRow` that it does so on every one-row grid, and `Helpers.PointToIntCollides` exhibits a shared key on grids at least two rows high and wider than tall |
| Helpers.PointToIntInjective | helpers/src/lib.rs:104-106 | when the grid is no wider than it is tall, two in-bounds points with the same key are equal |
| Helpers.PointToIntOneRow | helpers/src/lib.rs:104-106 | on a grid one row high, the key of an in-bounds point is its `x`, so two in-bounds points with the same key are equal, whatever the width |
| Helpers.PointToIntCollides | helpers/src/lib.rs:104-106 | when the grid is at least two rows high and wider than it is tall, `(height, 0)` and `(0, 1)` are distinct in-bounds points with the same key |
| P1.Insert | p1/src/main.rs:16-17 | inserting into a sorted list gives a sorted list with the new element added to the multiset |
| P1.Sort | p1/src/main.rs:16-17 | the result is sorted and is a permutation of the input |
| P1.SortedUnique | p1/src/main.rs:16-17 | two sorted lists with the same multiset are equal, so any sorting algorithm gives the same result |
| P1.SortedHeads | p1/src/main.rs:16-17 | two sorted lists with the same multiset start with the same element |
| P1.Distance | p1/src/main.rs:19-26 | the summed distance is never negative |
| P1.SumDistances | p1/src/main.rs:19-27 | the loop total equals the sum of `abs(left[i] - right[i])` over the indices of `left` |
| P1.SolutionOne | p1/src/main.rs:13-28 | the result is the summed distance between the sorted lists, and it is non-negative; `right` must be at least as long as `left` or indexing panics |
| P1.DistancePermutation | p1/src/main.rs:16-27 | the result does not change when either input is permuted |
| P1.DistanceSameElements | p1/src/main.rs:16-27 | two lists with the same multiset are at distance 0 |
| P1.DistanceSelf | p1/src/main.rs:19-26 | a list is at distance 0 from itself |
| P1.SolutionTwo | p1/src/main.rs:30-47 | the count table holds exactly the values of `right` with their multiplicities, and the result is the sum over `left` of `n` times the number of occurrences of `n` in `right` |
| P1.SimilarityAppendRight | p1/src/main.rs:33-46 | one more `y` on the right adds `y` times the number of `y` on the left |
| P1.SimilarityEmptyRight | p1/src/main.rs:30-47 | an empty right list gives 0 |
| P1.SimilaritySymmetric | p1/src/main.rs:30-47 | the similarity is the same with the two lists swapped |
| P1.SimilarityDisjoint | p1/src/main.rs:40-44 | when no value of `left` occurs in `right`, the similarity is 0 |
| P2.RemoveAt | p2/src/lib.rs:57-66 | for an index inside the list, the result has one element less, with the elements before the index kept in place and those after it moved down one; for any other index the list is unchanged |
| P2.DampenLevel | p2/src/lib.rs:57-66 | the loop that skips the damped index builds exactly that list |
| P2.CreateBoundary | p2/src/lib.rs:49-55 | the result has length `|l| - 1` and `result[i] == l[i + 1] - l[i]`; an empty list panics |
| P2.ValidateBoundary | p2/src/lib.rs:26-47 | true exactly when every difference is nonzero and at most 3 in size, and all differences have one sign |
| P2.StepsOfDifferences | p2/src/lib.rs:7-10 | the differences pass that test exactly when the list rises by 1 to 3 at every step or falls by 1 to 3 at every step |
| P2.ValidateList | p2/src/lib.rs:7-10 | true exactly when the report is safe: strictly monotone with steps of 1 to 3 |
| P2.ValidateListWithDamp | p2/src/lib.rs:12-24 | true exactly when the report is safe, or becomes safe with one of its levels removed |
| P2.NoneSafeBelowAll | p2/src/lib.rs:16-23 | when the loop has tried the first `k` removals without success, none of those removals gives a safe report |
| P2.Unsafe | p2/src/lib.rs:26-47 | a report with a step that is not a rise of 1 to 3 and a step that is not a fall of 1 to 3 is unsafe |
| P2.DampenAccepts | p2/src/lib.rs:12-24 | `[1, 3, 2, 4, 5]` is unsafe, but the dampener accepts it |
| P2.DampenRejects | p2/src/lib.rs:12-24 | `[1, 2, 7, 8, 9]` is rejected even with the dampener |
| P2Main.CountSafe | p2/src/main.rs:14-22 | the count of safe reports is at most the number of reports |
| P2Main.CountDampened | p2/src/main.rs:24-32 | the count of reports accepted with the dampener is at most the number of reports |
| P2Main.SolutionOne | p2/src/main.rs:14-22 | the result is the number of reports that `validate_list` accepts |
| P2Main.SolutionTwo | p2/src/main.rs:24-32 | the result is the number of reports that `validate_list_with_damp` accepts |
| P2Main.DampenedCountsMore | p2/src/main.rs:14-32 | part one never counts more than part two, because the dampened check accepts every safe report |
| P2Main.AllSafeCounted | p2/src/main.rs:14-32 | when every report is safe, both parts count all of them |
| P2Main.GetReports | p2/src/main.rs:34-54 | one report per input line, holding the pieces between single spaces that parse as integers |
| P2Main.ReportRoundTrip | p2/src/main.rs:40-48 | a line of printed integers separated by single spaces is read back as those integers |
| P3.ParseMul | p3/src/lib.rs:23-29 | the two integers between `mul(` and `)`, demanding that the slice, the split and both parses succeed as the `unwrap` calls do; `P3.ParseMulToken` and `P3.ParseMulShow` state what it returns |
| P3.ParseMulToken | p3/src/lib.rs:23-29 | every whole match of `mul\(\d+,\d+\)` is accepted by `parse_mul`, which returns the values of its two digit runs |
| P3.ParseMulShow | p3/src/lib.rs:23-29 | `parse_mul("mul(" + show(x) + "," + show(y) + ")") == (x, y)` for all integers, negative ones included |
| P3.ParseMulIgnoresFrame | p3/src/lib.rs:24-25 | only the slice without the first four characters and the last one matters: two strings with the same slice parse alike |
| P3.ParseDigits | p3/src/lib.rs:26-27 | an unsigned digit string parses as its decimal value |
| P3.MulStringsToResultOne | p3/src/lib.rs:31-38 | the result is the sum of `x * y` over the parsed pairs, in order, and 0 for no strings |
| P3.SumOfProductsAppend | p3/src/lib.rs:31-38 | the product sum of two lists one after the other is the sum of their product sums |
| P3.SumOfProductsOfTexts | p3/src/lib.rs:31-38 | for the printed instructions of any pairs, the result is the sum of the pair products |
| P3.DigitRun | p3/src/lib.rs:4 | the run measured is all digits and is followed by a non-digit or by the end of the text |
| P3.DigitRunExact | p3/src/lib.rs:4 | a run of exactly `n` digits followed by a non-digit measures `n` |
| P3.MatchIsToken | p3/src/lib.rs:3-11 | a nonzero match length at `i` covers a whole match of the pattern |
| P3.TokenIsMatch | p3/src/lib.rs:3-11 | wherever a whole match starts, the scanner measures exactly that match |
| P3.MatchLenParts | p3/src/lib.rs:4 | the match length is six plus the lengths of the two digit runs |
| P3.MulPartsAt | p3/src/lib.rs:4 | a match is `mul(`, digits, `,`, digits and `)`, position by position |
| P3.Matches | p3/src/lib.rs:3-11 | every string the scan collects is a whole match of the pattern |
| P3.ParseString | p3/src/lib.rs:3-11 | every string returned is a whole match of `mul\(\d+,\d+\)` |
| P3.ParseStringParses | p3/src/lib.rs:3-38 | `parse_mul` accepts every string `parse_string` returns, so the two compose without a panic |
| P3.MatchesSkip | p3/src/lib.rs:3-11 | text without an `m` holds no match and is passed over |
| P3.MatchesAtToken | p3/src/lib.rs:3-11 | where a match starts, the scan lists it first and goes on after it, which keeps the results in left-to-right order |
| P3.MatchesAt | p3/src/lib.rs:3-11 | a match of the measured length at `i` is listed first, and the scan resumes at its end |
| P3.MatchesSingle | p3/src/lib.rs:81-89 | the text of a single instruction is one match |
| P4.RotateDir | p4/src/lib.rs:103-105 | a quarter turn of a direction; `P4.RotatePerpendicular` and `P4.RotateFour` state its properties |
| P4.RotatePerpendicular | p4/src/lib.rs:103-105 | a quarter turn is perpendicular to the direction it turns, and keeps its length |
| P4.RotateFour | p4/src/lib.rs:103-105 | two quarter turns reverse a direction, and four bring it back |
| P4.RotNNested | p4/src/lib.rs:97 | turning twice or four times in the loop is the nested quarter turn |
| P4.RotNFour | p4/src/lib.rs:81-99 | after its four turns, the direction of `find_x_mas` is the one it started with |
| P4.CrossDirectionsRotate | p4/src/lib.rs:55-60 | the four diagonals of `search_x_mas` are `(1, 1)` turned 0, 1, 2 and 3 quarter turns |
| P4.XmasDirectionsAreKingMoves | p4/src/lib.rs:3-12 | a direction is among the eight of `search_xmas` exactly when it is a nonzero step of at most 1 along each axis |
| P4.WalkStep | p4/src/lib.rs:48 | one more step along `dir` adds `dir` to the position |
| P4.FindXmas | p4/src/lib.rs:27-51 | true exactly when the four cells from `start` along `dir` lie inside the grid and spell `XMAS` |
| P4.FindXMas | p4/src/lib.rs:75-101 | true exactly when `start` plus `dir` and its next three quarter turns lie inside the grid and hold `M`, `M`, `S`, `S` |
| P4.DirSum | p4/src/lib.rs:16-20 | the number of directions that find the word at a cell is at most the number of directions tried |
| P4.LineSumBound | p4/src/lib.rs:14-21 | the finds along a line are at most the number of directions times the cells holding the puzzle's letter |
| P4.RowsSumBound | p4/src/lib.rs:13-23 | the finds over the grid are at most the number of directions times the cells holding the puzzle's letter |
| P4.XmasStartsAtX | p4/src/lib.rs:15-17 | every `XMAS` starts at an in-bounds `X`, so the letter test before the direction loop loses no find |
| P4.XmasNeedsDirection | p4/src/lib.rs:27-51 | the zero direction never finds `XMAS` |
| P4.CrossMasOpposite | p4/src/lib.rs:75-101 | when a cross is found from one diagonal, it is not found from the opposite diagonal |
| P4.Search | p4/src/lib.rs:13-23 | the loops over lines, cells and directions count exactly the (cell holding the letter, direction) pairs that find the word |
| P4.CountFound | p4/src/lib.rs:16-20 | at one cell, the count is the number of directions of the puzzle that find the word |
| P4.SearchXmas | p4/src/lib.rs:1-25 | the count of (cell, direction) pairs that spell `XMAS`, between 0 and eight times the number of `X` cells |
| P4.SearchXMas | p4/src/lib.rs:53-73 | the count of (cell holding `A`, diagonal) pairs that find the `MAS` cross, between 0 and four times the number of `A` cells |
| Text.DigitValue | p3/src/lib.rs:26-27 | the value of a digit is below ten |
| Text.DigitChar | p3/src/lib.rs:26-27 | the character for a value below ten is a digit with that value |
| Text.ShowNat | p3/src/lib.rs:26-27 | the decimal form of a natural number is a non-empty string of digits |
| Text.DigitsValueShowNat | p3/src/lib.rs:26-27 | the value of the decimal form of `n` is `n` |
| Text.ParseIntShow | p3/src/lib.rs:26-27 | `parse::<int>` of a printed integer gives back the integer, negative ones included |
| Text.ShowChars | p3/src/lib.rs:26-27 | a printed integer holds only digits and a leading minus sign |
| Text.ShowAvoids | p3/src/lib.rs:24-27 | a printed integer holds no comma, space, colon or other separator |
| Text.Find | p3/src/lib.rs:25 | the index found is where the separator first occurs, or the end of the text when it does not occur |
| Text.SplitStr | p3/src/lib.rs:25 | `split` always yields at least one piece |
| Text.FindChar | p2/src/main.rs:40 | the first occurrence of a character follows the prefix that does not hold it |
| Text.SplitWithout | p2/src/main.rs:40 | a text without the separator splits into itself alone |
| Text.SplitAt | p2/src/main.rs:40 | a separator after a prefix that does not hold it cuts off exactly that prefix |
| Text.SplitOnce | p3/src/lib.rs:25-27 | a text with exactly one separator splits into the two sides |
| Text.Lines | helpers/src/lib.rs:55-56 | no line holds a newline |
| Text.NoNewlineBefore | helpers/src/lib.rs:55-56 | the text before the first newline holds no newline |
| Text.LinesJoinLines | helpers/src/lib.rs:55-56 | `lines()` of non-empty lines joined by newlines gives back the lines |
| Text.JoinLinesAvoids | p5/src/lib.rs:58 | joined lines hold a character other than a newline only where a line holds it |
| Text.JoinLinesEnds | p5/src/lib.rs:61 | joined non-empty lines start with the first line's first character, and end with the last line's last character |
| Text.NoBlankLine | p5/src/lib.rs:61 | non-empty lines joined by single newlines never hold two newlines in a row |
| Text.RemoveAbsent | p5/src/lib.rs:58 | removing a character the text does not hold changes nothing |
| Text.Remove | p5/src/lib.rs:58 | the filtered text no longer holds the character, and it is no longer than before |
| Text.ParsedInts | p5/src/lib.rs:29-30 | `filter_map` of `parse` keeps at most as many integers as there were pieces |
| Text.Trim | p7/src/lib.rs:86 | a non-empty trimmed text neither starts nor ends with whitespace |
| Text.WordLength | p7/src/lib.rs:88 | the leading run holds no whitespace, and it is followed by whitespace or by the end of the text |
| Text.SplitWhitespace | p7/src/lib.rs:88 | every piece of `split_whitespace` is non-empty |
| Text.WordLengthOf | p7/src/lib.rs:88 | a word followed by whitespace or by nothing is measured exactly |
| Text.SplitWord | p7/src/lib.rs:88 | a non-empty word followed by whitespace or by nothing is split off whole |
| Text.SplitLeadingSpace | p7/src/lib.rs:88 | a leading space separates nothing |
| Text.ShowWord | p7/src/lib.rs:88-89 | a printed integer is non-empty and holds no whitespace |
| Text.SplitWhitespaceSpaced | p7/src/lib.rs:87-90 | a leading space and printed integers separated by single spaces split back into the printed integers |
| Text.ShowsCons | p7/src/lib.rs:87-90 | the printed forms of a list are the first printed form followed by the printed forms of the rest |
| Text.TrimShow | p7/src/lib.rs:86 | a printed integer has nothing to trim |
| Seqs.DistinctCard | p8/src/lib.rs:29-47 | a list without duplicates has as many distinct values as elements |
| Seqs.SubsetCard | p8/src/lib.rs:29-79 | a subset of a finite set has no more elements than the set; this bounds part one's count by part two's |
| Seqs.NoDupsAppend | p10/src/lib.rs:20-42 | two lists without duplicates and with no common value concatenate to a list without duplicates |
| P5.InsertPair | p5/src/lib.rs:20-25 | the entry of `smaller` gains `larger` at its end, and is created empty first when absent; every other entry is unchanged |
| P5.InsertPairOrders | p5/src/lib.rs:20-45 | after inserting `smaller|larger`, `check_order` holds for exactly the pairs it held for before, plus that one |
| P5.TableEntries | p5/src/lib.rs:20-25 | after inserting a list of rules, a page has an entry exactly when some rule starts with it, and the entry lists its successors in insertion order |
| P5.TableOrders | p5/src/lib.rs:39-45 | after inserting a list of rules, `check_order(a, b)` holds exactly when `a|b` is one of the rules |
| P5.RuleIntsShow | p5/src/lib.rs:28-31 | a printed rule `a|b` parses to `[a, b]` |
| P5.Ruleset.New | p5/src/lib.rs:14-18 | a new rule set holds no rules |
| P5.Ruleset.NewFromMap | p5/src/lib.rs:10-12 | the rule set holds a copy of the given table |
| P5.Ruleset.InsertRule | p5/src/lib.rs:20-25 | the table becomes the table with `larger` appended to the entry of `smaller`, so `check_order` gains exactly that pair |
| P5.Ruleset.InsertRuleString | p5/src/lib.rs:27-36 | the rule string must parse to exactly two integers, else it panics; then the first is inserted before the second |
| P5.Ruleset.CustomOrder | p5/src/lib.rs:47-53 | never `Equal`, and `Less` exactly when `check_order` holds |
| P5.Ruleset.CheckOrder | p5/src/lib.rs:39-45 | `second` is in the successor list of `first`, and an absent `first` gives false; `P5.TableOrders` states that after the rules are inserted this holds exactly for the stated pairs |
| P5.CheckList | p5/src/lib.rs:73-84 | true exactly when every page comes before every later page by the rules; an empty list panics |
| P5.InsertBy | p5/src/lib.rs:142 | one insertion step of the sort adds exactly the new page |
| P5.SortBy | p5/src/lib.rs:142 | the sorted list is a permutation of the list |
| P5.CorrectList | p5/src/lib.rs:140-144 | the corrected list is a permutation of the list |
| P5.InsertByOrdered | p5/src/lib.rs:142 | when the rules totally order the pages, inserting a new page into an ordered list keeps it ordered |
| P5.SortByOrdered | p5/src/lib.rs:140-144 | when the rules totally order the distinct pages of a list, the corrected list passes `check_list` |
| P5.TailOrdered | p5/src/lib.rs:73-84 | the tail of an ordered list is ordered |
| P5.TailNoDuplicates | p5/src/lib.rs:140-144 | the tail of a list without duplicates has none, and does not hold the head |
| P5.OrderedHeads | p5/src/lib.rs:140-144 | under a total order, two ordered permutations of the same pages start with the same page |
| P5.TailMultiset | p5/src/lib.rs:140-144 | two permutations with the same head have tails that are permutations of each other |
| P5.OrderedUnique | p5/src/lib.rs:140-144 | under a total order, there is only one ordered permutation of distinct pages, so any sorting algorithm gives the same corrected list |
| P5.SplitInput | p5/src/lib.rs:56-71 | no returned rule line or update line holds a space or a newline; the input must split into exactly two blocks, else it panics |
| P5.SplitPiecesAvoid | p5/src/lib.rs:61 | pieces of a split hold no character the text does not hold |
| P5.LinesAvoid | p5/src/lib.rs:67-68 | lines hold no character the text does not hold |
| P5.FindBlankLine | p5/src/lib.rs:61 | the first blank line after joined non-empty lines is where they end |
| P5.SplitInputRoundTrip | p5/src/lib.rs:56-71 | rule lines and update lines without spaces, written with one blank line between them, split back into exactly those lines |
| P5.RulePairs | p5/src/lib.rs:90-92 | one pair per rule string |
| P5.PageLists | p5/src/lib.rs:93-97 | one page list per update line, being the comma-separated pieces that parse |
| P5.CorrectedPages | p5/src/lib.rs:122-130 | at most one corrected list per update, none of them empty |
| P5.AllOrderedNothingCorrected | p5/src/lib.rs:86-138 | when every update is in order, part two corrects nothing, and part one adds up every middle page |
| P5.CorrectedPagesOrdered | p5/src/lib.rs:122-130 | when the rules totally order the distinct pages of every update, every corrected update passes `check_list` |
| P5.BuildRuleset | p5/src/lib.rs:89-92 | a new rule set holding the rules of the strings, inserted in order |
| P5.SumOrderedUpdates | p5/src/lib.rs:93-102 | the sum of the middle pages of the updates that pass `check_list` |
| P5.SolutionOne | p5/src/lib.rs:86-104 | the sum of the middle pages of the in-order updates, under the table built from the rule lines |
| P5.ParsePages | p5/src/lib.rs:114-121 | one page list per update line |
| P5.CorrectIncorrect | p5/src/lib.rs:122-130 | the updates failing `check_list`, each corrected, in their order |
| P5.SumMiddles | p5/src/lib.rs:132-135 | the sum of the middle pages of the lists |
| P5.SolutionTwo | p5/src/lib.rs:106-138 | the sum of the middle pages of the corrected out-of-order updates |
| P6.RotateCycle | p6/src/lib.rs:82-89 | four right turns bring the guard back to its heading, and the four headings on the way are distinct |
| P6.OffsetTurns | p6/src/lib.rs:91-98 | each step is one cell along one axis, and a right turn turns the step a quarter clockwise on screen |
| P6.OffGrid | p6/src/lib.rs:69-80 | the corrected bounds test: the column against the width of row 0 and the row against the number of rows; `P6.OutOfBoundsSquare` ties it to the test as written |
| P6.OutOfBoundsAsWritten | p6/src/lib.rs:69-80 | the bounds test with the position destructured as `(y, x)`; `P6.OutOfBoundsWideGrid` and `P6.OutOfBoundsTallGrid` show the two ways it misreports |
| P6.OutOfBoundsSquare | p6/src/lib.rs:69-80 | on a square grid, the bounds test as written agrees with the corrected one |
| P6.OutOfBoundsWideGrid | p6/src/lib.rs:70-79 | on a 1-by-3 grid, the test as written reports the last-column guard at `(2, 0)` outside although it stands on the grid |
| P6.OutOfBoundsTallGrid | p6/src/lib.rs:70-79 | on a 3-by-1 grid, the test as written reports the guard at `(1, 0)` inside although it is off the grid |
| P6.Ahead | p6/src/lib.rs:100-115 | `OutOfBounds` when the cell one step ahead is off the grid, and otherwise the content of that cell |
| P6.Turns | p6/src/lib.rs:154-159 | the number of right turns before the cell ahead is not an obstacle: every direction before it is blocked and the one at it is not, with 4 when all four are blocked |
| P6.TurnsFrom | p6/src/lib.rs:154-159 | counting turns from `i` on, the same holds from `i` |
| P6.Mark | p6/src/lib.rs:146-147 | marking a cell keeps the grid's shape |
| P6.Next | p6/src/lib.rs:143-161 | one pass of the loop keeps the grid's shape |
| P6.Patrol | p6/src/lib.rs:142-162 | the patrol keeps the grid's shape |
| P6.PatrolNext | p6/src/lib.rs:143-161 | while the guard is on the grid and can move, the patrol continues from one pass of the loop |
| P6.PatrolDone | p6/src/lib.rs:143 | the patrol ends, `Exited`, as soon as the guard is off the grid |
| P6.PatrolStuck | p6/src/lib.rs:154-159 | when all four directions are blocked, the patrol marks the cell and is `Stuck`, where the source turns forever |
| P6.MarkSafe | p6/src/lib.rs:144-153 | marking leaves the guard on a visited cell and puts no `OutOfBounds` in the grid |
| P6.NextSafe | p6/src/lib.rs:154-160 | the guard only steps onto a cell that is not an obstacle |
| P6.PatrolSafe | p6/src/lib.rs:142-162 | from a start with the guard on an open or visited cell, no state of the patrol reaches the `panic!()` of `resolve_map` |
| P6.OnlyMarksTransitive | p6/src/lib.rs:142-162 | only-marking changes compose |
| P6.MarkOnlyMarks | p6/src/lib.rs:144-149 | marking the guard's cell only turns `Open` into `Visited` |
| P6.PatrolOnlyMarks | p6/src/lib.rs:142-162 | the patrol keeps the grid's shape, and changes a cell only from `Open` to `Visited` |
| P6.PatrolStatus | p6/src/lib.rs:142-162 | `Exited` means the guard is off the grid; otherwise it is on it; `Stuck` means all four directions around it are obstacles |
| P6.RowCount | p6/src/lib.rs:128-133 | a row holds at most as many cells of a kind as it has cells |
| P6.RowCountDisjoint | p6/src/lib.rs:125-136 | the cells of two different kinds in a row are at most the row's length |
| P6.VisitedBound | p6/src/lib.rs:125-136 | visited cells plus obstacles are at most all the cells |
| P6.RowCountGrows | p6/src/lib.rs:125-136 | marking cells of a row does not lower its visited count, nor change its obstacle count |
| P6.OnlyMarksCounts | p6/src/lib.rs:125-168 | the patrol's marking never lowers the visited count and keeps the obstacle count |
| P6.ParseRow | p6/src/lib.rs:31-58 | a parsed row has no more cells than its line has characters, and every cell is open or an obstacle |
| P6.ParseGrid | p6/src/lib.rs:30-60 | one row per input line, each being the parse of that line |
| P6.LastGlyph | p6/src/lib.rs:36-55 | the index found holds a guard glyph and no glyph follows it, or there is no glyph at all |
| P6.GuardStartGlyph | p6/src/lib.rs:27-66 | without a glyph the guard starts at `(0, 0)` facing up; otherwise it starts on the last glyph read, facing that glyph's way |
| P6.ParseRowMapLine | p6/src/lib.rs:32-58 | on a line of map characters, cell `j` comes from character `j` |
| P6.ParseSafe | p6/src/lib.rs:25-67 | a rectangular map with a guard glyph parses into a state in which `resolve_map` does not panic |
| P6.ReadLine | p6/src/lib.rs:31-59 | the inner loop of `new` builds the row of the line, and leaves the guard at the line's last glyph, or as it was when the line has none |
| P6.Map.New | p6/src/lib.rs:25-67 | the new map's fields are the parse of the input |
| P6.Map.RotateDirection | p6/src/lib.rs:82-89 | the direction turns right, and the position and the grid stay as they are |
| P6.Map.MoveGuard | p6/src/lib.rs:91-98 | the step of the direction the guard faces; `P6.OffsetTurns` states its shape and how it turns |
| P6.Map.SearchAhead | p6/src/lib.rs:100-115 | `P6.Ahead` on the map's state, whose contract gives the cell ahead or `OutOfBounds` |
| P6.Map.StepForward | p6/src/lib.rs:117-123 | the guard moves one step in the direction it faces, and nothing else changes |
| P6.Map.CurrentPos | p6/src/lib.rs:138-140 | the cell under the guard, demanding that it exist as the indexing panic does; `P6.Map.VisitCurrent` states the grid after it is marked |
| P6.Map.OutOfBounds | p6/src/lib.rs:69-80 | `P6.OffGrid` on the map's state, demanding a row and a non-empty first row as the two panics do; it is the loop test of `P6.Map.ResolveMap` |
| P6.Map.CountVisited | p6/src/lib.rs:125-136 | the number of `Visited` cells |
| P6.Map.VisitCurrent | p6/src/lib.rs:144-153 | the guard's cell becomes `Visited`, and nothing else changes |
| P6.Map.TurnPastObstacles | p6/src/lib.rs:154-159 | the guard turns right exactly the number of times before the cell ahead is not an obstacle, with the turning stopped after four |
| P6.Map.Advance | p6/src/lib.rs:143-161 | one pass of the loop moves the map to the next state of the patrol, or reports that all four directions are blocked |
| P6.Map.PatrolStep | p6/src/lib.rs:143-161 | one pass of the loop keeps the map on its path to the patrol's end |
| P6.Map.ResolveMap | p6/src/lib.rs:142-162 | the final map state is the end of the patrol; `Exited` when the guard left the grid |
| P6.SolutionOne | p6/src/lib.rs:165-169 | the number of visited cells at the end of the patrol of the parsed map |
| P7.Digits | p7/src/lib.rs:103 | a positive number has at least one decimal digit |
| P7.Pow10 | p7/src/lib.rs:104-106 | a power of ten is at least 1 |
| P7.DigitsBounds | p7/src/lib.rs:103 | a number with `k` digits lies between `10^(k-1)` and `10^k` |
| P7.DigitsShow | p7/src/lib.rs:103 | the digit count is the length of the decimal form |
| P7.DigitsValueAppend | p7/src/lib.rs:73-77 | the value of two digit strings written one after the other is the first times `10^(length of the second)` plus the second |
| P7.Regroup | p7/src/lib.rs:73-77 | proof helper for `P7.DigitsValueAppend`, modelling nothing by itself: `10 * (a * p + c) + e == a * (10 * p) + (10 * c + e)` |
| P7.ConcatIsDecimal | p7/src/lib.rs:73-77 | the number concatenation builds is the value of the two decimal forms written one after the other |
| P7.MulMod | p7/src/lib.rs:41 | a multiple of `p` leaves no remainder, and dividing it by `p` gives back the factor |
| P7.DivUnique | p7/src/lib.rs:41 | quotient and remainder are the unique ones with `a == b * q + r` and `0 <= r < b` |
| P7.MulAtLeast | p7/src/lib.rs:41 | proof helper for `P7.DivUnique`, modelling nothing by itself: a positive multiple of `b` is at least `b` |
| P7.MultipleOfTen | p7/src/lib.rs:97 | a multiple of a positive power of ten is a multiple of 10 |
| P7.TargetAsWritten | p7/src/lib.rs:95-108 | `concatenated_target` as written, in closed form; `P7.ConcatenatedTarget` states that the division loop computes it |
| P7.ConcatTarget | p7/src/lib.rs:95-108 | the corrected `concatenated_target`; `P7.ConcatTargetIff` states exactly when it returns `Ok(v)` |
| P7.ConcatTargetIff | p7/src/lib.rs:95-108 | the corrected check returns `Ok(v)` exactly when `v >= 0` and the target is `v` followed by the digits of the operand |
| P7.ConcatTargetNonNegative | p7/src/lib.rs:100-102 | the corrected check never returns a negative target |
| P7.TargetAsWrittenTests | p7/src/lib.rs:161-173 | the digit test as written gives the five results the unit test expects |
| P7.TargetAsWrittenNotConcat | p7/src/lib.rs:95-108 | the digit test as written returns `Ok(1)` for operand 12 and target 122, and `Ok(0)` for target 22, although neither target ends in 12 |
| P7.ConcatTargetTests | p7/src/lib.rs:161-173 | the corrected check gives the same five results, and rejects both of those targets |
| P7.ConcatenatedTarget | p7/src/lib.rs:95-108 | the loop that divides by 10 once per digit computes the digit test as written |
| P7.DivDiv | p7/src/lib.rs:104-106 | dividing by `m` and then by 10 is dividing by `10 * m` |
| P7.Distribute | p7/src/lib.rs:104-106 | proof helper for `P7.DivDiv`, modelling nothing by itself: `m * (10 * q + r') + r == (10 * m) * q + (m * r' + r)` |
| P7.MulMonotone | p7/src/lib.rs:104-106 | proof helper for `P7.DivDiv`, modelling nothing by itself: multiplying by a positive number keeps an order |
| P7.Values | p7/src/lib.rs:22-82 | the reference: all values the operands produce from left to right with `+` and `*`, and concatenation when asked; `P7.ResolveValues` and `P7.ResolveConcatenateValues` tie the solvers to it |
| P7.ValuesNonNegative | p7/src/lib.rs:22-82 | with a non-negative first operand, every value the operators produce is non-negative |
| P7.MulNonNegative | p7/src/lib.rs:22-82 | proof helper for `P7.ValuesNonNegative`, modelling nothing by itself: a product of non-negative numbers is non-negative |
| P7.UndoProduct | p7/src/lib.rs:41 | `t == v * x` exactly when `x` divides `t` with quotient `v` |
| P7.ValuesBackward | p7/src/lib.rs:36-47 | a target is produced by the operands exactly when undoing the last operand, by subtraction, by division or by removing its digits, gives a value produced by the rest |
| P7.InProducts | p7/src/lib.rs:41 | a target is a product with `x` exactly when `x` divides it and the quotient is one of the earlier values |
| P7.InConcats | p7/src/lib.rs:73-77 | a target is a concatenation with `x` exactly when the corrected check succeeds with one of the earlier values |
| P7.Resolve | p7/src/lib.rs:22-48 | `resolve_computation`; `P7.ResolveValues` states that it says yes exactly when the target is a value of the operands |
| P7.ResolveConcatenate | p7/src/lib.rs:50-82 | `resolve_computation_concatenate` with the corrected check; `P7.ResolveConcatenateValues` states that it says yes exactly when the target is a value with concatenation |
| P7.ResolveConcatenateAsWritten | p7/src/lib.rs:50-82 | `resolve_computation_concatenate` as written; `P7.AsWrittenAcceptsUnreachable` shows it accepting a target no operator choice reaches |
| P7.ResolveValues | p7/src/lib.rs:22-48 | `resolve_computation` says yes exactly when the target is among the values that `+` and `*` produce from left to right |
| P7.ResolveConcatenateValues | p7/src/lib.rs:50-82 | with the corrected check, the solver says yes exactly when the target is among the values that `+`, `*` and concatenation produce |
| P7.ResolveImpliesConcatenate | p7/src/lib.rs:22-82 | every target the first solver reaches, the concatenating solver reaches too |
| P7.AsWrittenAcceptsUnreachable | p7/src/lib.rs:50-82 | as written, the solver says `[1, 12]` reaches 122, and the corrected one says it does not |
| P7.Unreachable122 | p7/src/lib.rs:50-82 | the values of `[1, 12]` are exactly 13, 12 and 112, so 122 is not among them |
| P7.ParseInput | p7/src/lib.rs:84-92 | the target is the trimmed piece before the first `:`, and the operands are the whitespace-separated pieces after it, each parsed |
| P7.JoinSpacedAvoids | p7/src/lib.rs:85 | printed operands hold no `:` |
| P7.SplitProblemLine | p7/src/lib.rs:85 | a printed problem line splits at its `:` into the printed target and the printed operands |
| P7.SplitColon | p7/src/lib.rs:85 | a text with one `:` splits into its two sides |
| P7.ParseInputRoundTrip | p7/src/lib.rs:84-92 | a line `T: a b c` printed from a target and operands parses back into them |
| P7.Problems | p7/src/lib.rs:3-4 | one problem per input line, being that line parsed |
| P7.Calibration | p7/src/lib.rs:1-20 | the sum of the targets the solver reaches; `P7.SolutionOne` and `P7.SolutionTwo` compute it, and `P7.CalibrationGrows` bounds part one by part two |
| P7.CalibrationGrows | p7/src/lib.rs:1-20 | part one's sum is non-negative and at most part two's |
| P7.SolutionOne | p7/src/lib.rs:1-10 | the sum of the targets `resolve_computation` reaches |
| P7.SolutionTwo | p7/src/lib.rs:11-20 | the sum of the targets the concatenating solver reaches |
| P8.CharsParse | helpers/src/lib.rs:58-60 | every character of a `Grid<char>` input parses, so `Grid::new` does not panic |
| P8.FindAntiNode | p8/src/lib.rs:92-94 | `2b - a`; `P8.AntiNodeMidpoint` states that `b` is the midpoint of `a` and the result |
| P8.AntiNodeMidpoint | p8/src/lib.rs:92-94 | `b` is the midpoint of `a` and its anti-node, which lies one displacement `b - a` beyond `b` |
| P8.Ray | p8/src/lib.rs:85-88 | every point of the walk is on the grid |
| P8.Spread | p8/src/lib.rs:87 | proof helper for `P8.RayShape` and `P8.AntiNodeRayShape`, modelling nothing by itself: `a + b + (k - 1) * b == a + k * b` |
| P8.RayShape | p8/src/lib.rs:85-88 | point `k` of the walk is `p + k d`, and the point after the last one is off the grid |
| P8.AntiNodeRayShape | p8/src/lib.rs:81-90 | element `k` of `find_anti_nodes(a, b)` is `b + (k + 1)(b - a)`, all of them are on the grid, and the next point is not |
| P8.AntiNodeStartsRay | p8/src/lib.rs:81-94 | part one's anti-node is on the grid exactly when part two's line is non-empty, and it is then that line's first point |
| P8.AntiNodesMeaning | p8/src/lib.rs:29-47 | a point is a counted anti-node exactly when it is on the grid and reflects one antenna through another, distinct, antenna of the same frequency |
| P8.AntennasResonate | p8/src/lib.rs:55-62 | every antenna of a frequency with two or more antennas is counted in part two |
| P8.AntiNodesWithinResonant | p8/src/lib.rs:29-79 | part one's anti-nodes are among part two's, so part two counts at least as many |
| P8.AscendingAppend | p8/src/lib.rs:18-26 | two ascending runs of cells, the second entirely after the first, make an ascending run |
| P8.RowAntennasIn | p8/src/lib.rs:19-25 | the cells met in a row are exactly its cells that are not `.`, in ascending order |
| P8.AntennasUpToIn | p8/src/lib.rs:18-26 | the cells met in the first rows are exactly their cells that are not `.`, in ascending order |
| P8.AntennasIn | p8/src/lib.rs:18-26 | the cells met are exactly the grid's cells that are not `.`, each with its readable point |
| P8.RecordSnoc | p8/src/lib.rs:24 | recording one more cell pushes its point under its frequency |
| P8.RecordContents | p8/src/lib.rs:24 | after recording, `p` is listed under `c` exactly when it was before or the recorded cells hold `(c, p)` |
| P8.RecordAppend | p8/src/lib.rs:18-26 | recording two runs of cells is recording the first, then the second |
| P8.RecordDistinct | p8/src/lib.rs:18-26 | cells met in ascending order, recorded into an empty table, give lists without duplicates |
| P8.Table | p8/src/lib.rs:17-27 | the table built from an empty one lists no point twice |
| P8.TableMeaning | p8/src/lib.rs:17-27 | the table lists a point under `c` exactly when the grid holds `c` there, with `c` not `.`; `.` has no entry |
| P8.AntennaGrid.New | p8/src/lib.rs:10-15 | the grid of the input's characters, and an empty table |
| P8.AntennaGrid.InitialiseAntennae | p8/src/lib.rs:17-27 | the grid is unchanged, and the table gains every antenna, row by row |
| P8.AntennaGrid.InitialiseRow | p8/src/lib.rs:19-25 | the table gains the antennas of one row, in order |
| P8.AntennaGrid.FindAntiNodes | p8/src/lib.rs:81-90 | the loop computes the points `b + k (b - a)` for `k = 1, 2, ...` while they are on the grid |
| P8.AntennaGrid.CollectAntiNodes | p8/src/lib.rs:33-44 | the seen list stays free of duplicates and gains exactly the in-bounds anti-nodes of the frequency |
| P8.AntennaGrid.CollectAntiNodesFrom | p8/src/lib.rs:34-43 | the inner loop adds the anti-nodes of the pairs whose first antenna is `l[i]` |
| P8.AntennaGrid.CountAntiNodes | p8/src/lib.rs:29-47 | the count of distinct in-bounds anti-nodes, whatever order the frequencies are visited in |
| P8.AntennaGrid.CollectResonantNodes | p8/src/lib.rs:63-76 | the seen list stays free of duplicates and gains every point of every line of the frequency |
| P8.AntennaGrid.CountResonantAntiNodes | p8/src/lib.rs:49-79 | the count of distinct points that are antennas of a shared frequency or lie on a line of a pair |
| P8.AddUnseen | p8/src/lib.rs:56-61 | the contains-before-push loop keeps the list free of duplicates and adds exactly the items |
| P8.Append | p8/src/lib.rs:40-41 | pushing an item not yet listed keeps the list free of duplicates and adds the item |
| P8.PairNodesStep | p8/src/lib.rs:34-43 | one more inner step adds its anti-node when the indices differ and the anti-node is on the grid |
| P8.PairNodesRow | p8/src/lib.rs:33-44 | a finished inner loop moves on to the next first antenna |
| P8.RayNodesStep | p8/src/lib.rs:64-75 | one more inner step adds the points of its line when the indices differ |
| P8.RayNodesRow | p8/src/lib.rs:63-76 | a finished inner loop moves on to the next first antenna |
| P8.AntiNodesOfStep | p8/src/lib.rs:31-45 | one more frequency adds its anti-nodes |
| P8.ResonantNodesOfStep | p8/src/lib.rs:51-77 | one more frequency adds its resonant points |
| P8.SolutionOne | p8/src/lib.rs:97-101 | the number of distinct in-bounds anti-nodes of the input's antennas |
| P8.SolutionTwo | p8/src/lib.rs:102-106 | the number of distinct resonant points of the input's antennas |
| P10.HeightCellDigit | helpers/src/lib.rs:58-60 | a one-character cell parses exactly when it is a digit, and then as the digit's value |
| P10.Offset | p10/src/lib.rs:68-73 | each direction moves one cell along exactly one axis |
| P10.OffsetsDistinct | p10/src/lib.rs:68-73 | the four directions move in four different ways |
| P10.SquareInBounds | helpers/src/lib.rs:94-101 | on a square grid, a point is in bounds exactly when its cell can be read |
| P10.CanStep | p10/src/lib.rs:67-83 | `Ok` exactly when the neighbour is on the grid and one lower, and then it is that neighbour; the error names going out of bounds exactly when the neighbour is off the grid |
| P10.CanStepDescends | p10/src/lib.rs:67-83 | a step lands on the grid at a height one lower and not below zero |
| P10.ParsedHeights | helpers/src/lib.rs:54-65 | a grid parsed from digits has no negative height |
| P10.Bump | p10/src/lib.rs:86-89 | the score of the key goes up by one, a missing key starting at 0, and no other score changes |
| P10.PathsDescend | p10/src/lib.rs:85-104 | a descending walk ends on the grid no higher than it started, strictly lower unless it has no steps, and each point has one walk to itself |
| P10.PathsDirsDescend | p10/src/lib.rs:99-103 | a walk that starts with a step ends strictly lower |
| P10.Branch | p10/src/lib.rs:85-104 | the scores after `step_and_branch(p)`; `P10.BranchCounts` and `P10.BranchOtherKeys` state how each score changes |
| P10.Paths | p10/src/lib.rs:85-104 | the reference: the number of descending walks from `p` to `q`; `P10.PathsDescend` states their shape and `P10.BranchCounts` ties the score update to it |
| P10.BranchCounts | p10/src/lib.rs:85-104 | after `step_and_branch(p)`, the score of every on-grid point `q` has grown by the number of descending walks from `p` to `q`, and the key is present exactly when it was before or such a walk exists |
| P10.BranchDirsCounts | p10/src/lib.rs:99-103 | the same for the direction loop, over the walks that start with one of the remaining directions |
| P10.BranchOtherKeys | p10/src/lib.rs:85-104 | a key that belongs to no on-grid point keeps its score |
| P10.BranchDirsOtherKeys | p10/src/lib.rs:99-103 | the direction loop keeps such a key's score too |
| P10.BranchAllCounts | p10/src/lib.rs:45-49 | after walking from every end point, the score of an on-grid point has grown by the number of descending walks reaching it from any end point |
| P10.SumPathsPositive | p10/src/lib.rs:45-49 | some end point has a walk to `q` exactly when the walk counts add up to more than zero |
| P10.Scan | p10/src/lib.rs:25-34 | every point listed holds the value scanned for |
| P10.TransposeSquare | p10/src/lib.rs:25-34 | on a grid with a cell in its first row and no row shorter than the first, the transposed reads of `new` stay in range exactly when the grid is square |
| P10.Transposed | p10/src/lib.rs:26-28 | the cell `new` reads for entry `i` of row `j` exists |
| P10.ScanPoint | p10/src/lib.rs:27-28 | the point `new` builds for entry `i` of row `j` is on the grid, reads `grid[i][j]`, and is that cell's readable point |
| P10.ColumnScanIn | p10/src/lib.rs:26-33 | the points collected from row `j` are exactly the cells of column `j` met so far that hold the value |
| P10.ColumnScanDistinct | p10/src/lib.rs:26-33 | no point is collected twice from one row |
| P10.ScanUpToIn | p10/src/lib.rs:25-34 | the points collected from the first `j` rows are exactly the cells of the first `j` columns that hold the value, each once |
| P10.ScanMeaning | p10/src/lib.rs:20-42 | despite the swapped coordinate order, `new` lists every point holding the value exactly once, and nothing else |
| P10.SumScoresCountsTrails | p10/src/lib.rs:51-65 | from no scores, the sum `collect_scores` forms after `assign_scores` is the number of descending walks from the end points to the start points |
| P10.ScoresDefined | p10/src/lib.rs:55-62 | `collect_scores` finds a score for every start point exactly when each is reached by a walk from some end point, so otherwise it panics |
| P10.ScanGrid | p10/src/lib.rs:25-34 | the row loop collects the 0 cells and the 9 cells of the grid |
| P10.ScanLine | p10/src/lib.rs:26-33 | the loop over one row collects its 0 cells and its 9 cells |
| P10.ReindeerMap.New | p10/src/lib.rs:20-42 | the parsed grid, its 0 cells as start points, its 9 cells as end points, and no scores |
| P10.ReindeerMap.StepAndBranch | p10/src/lib.rs:85-104 | the scores become the scores after counting `position` and branching in all four directions, and nothing else changes |
| P10.ReindeerMap.AssignScores | p10/src/lib.rs:45-49 | the scores become the scores after one walk from each end point, in order |
| P10.ReindeerMap.CollectScores | p10/src/lib.rs:51-65 | the sum of the scores of the start points |
| P10.SolutionOne | p10/src/lib.rs:107-111 | on a square map of digits where every 0 is reached from some 9, the number of descending walks from the 9 cells to the 0 cells |

## Left out

- File reading and printing: the `main` functions and `get_lists` (p1/src/main.rs:5-11, 49-75), the file handling of `get_reports` (p2/src/main.rs:6-12, 34-54), and p3, p4 and p8 `main.rs`. They open `input.txt` and print. `P2Main.GetReports` models only the parsing of each line.
- `test_helpers`: a test harness with no puzzle logic.
- The regex engine behind `parse_string` (p3/src/lib.rs:4-7). `P3.ParseString` is an explicit left-to-right scanner for `mul\(\d+,\d+\)`, written as a function rather than the push loop over `captures_iter`. The model does not prove that the `regex` crate's matches are exactly the scanner's.
- `parse_string_with_commands` and `process_commands` (p3/src/lib.rs:13-21) always return an empty list. Their tests (p3/src/lib.rs:110-153) expect behaviour the code does not have, so neither is modelled.
- The algorithms of `sort` and `sort_by` (p1/src/main.rs:16-17, p5/src/lib.rs:142). `P1.Sort` and `P5.SortBy` are insertion sorts that stand in for them. For p1, `P1.SortedUnique` shows that any sorting algorithm gives the same list.
- P5.SortBy: the comparator is not a total order in general, so only "a permutation of the list" is claimed for every input. "Passes `check_list`" is claimed only when the rules totally order the pages (`P5.SortByOrdered`). Under a partial order the library's result may differ from the insertion sort.
- P5.CorrectList: its result is fixed to the insertion sort (`sorted == SortBy(...)`). Rust's `sort_by` promises no particular result under a comparator that is not a total order, so on such rules the model picks one of the possible outcomes. The same holds for `P5.SolutionTwo`, whose sum takes the middle page of that sort.
- The concrete test inputs and their expected values: 161 for p3, 4, 18 and 9 for p4, 143 for p5, 41 for p6, 3749 and 11387 for p7, and 14 and 34 for p8. Unfolding the recursive definitions over those literal grids and texts is far beyond what the verifier can evaluate. Each is replaced by the general property it illustrates. The `concatenated_target` tests are stated (`P7.TargetAsWrittenTests`), and so are two small day 2 reports (`P2.DampenAccepts`, `P2.DampenRejects`).
- Integer widths: `i32` and `i128` arithmetic is unbounded `int`, so overflow and the `as i32` casts of indices are not modelled. The day 2 and day 5 values are `i32` and could wrap only on inputs far outside the puzzle's range.
- `dbg!` output in `collect_scores` (p10/src/lib.rs:57-58).
- `HashMap` iteration order (p8/src/lib.rs:31, 51). The count methods of `P8.AntennaGrid` take the frequencies in an arbitrary order, and their results are proved for every order.
- P6.Map.ResolveMap: the patrol runs for at most `fuel` passes of the outer loop. Termination is not claimed: the guard may walk in a cycle forever. When all four directions are blocked, the inner `while true` (p6/src/lib.rs:154-159) never exits; the model reports `Stuck` there.
- P6.Map.ResolveMap: it requires a non-empty first row and no row shorter than the first (`P6.Shaped`). `Map::new` accepts ragged input, and the code panics only when it reads a missing cell.
- P6.SolutionOne: it uses the corrected bounds test (see Findings). On grids that are not square, the code as written stops at a different place or panics.
- P4.Search: it requires every line to be at least as long as the first (`P4.RowsCoverWidth`). The code panics only when a walk reads past the end of a shorter line. The same requirement is on `P4.FindXmas`, `P4.FindXMas`, `P4.SearchXmas` and `P4.SearchXMas`.
- P7.Resolve: every operand after the first must be positive (`P7.Operands`), as in the puzzle input. `resolve_computation` (p7/src/lib.rs:22-48) accepts negative operands and panics only when it reaches `%` with a zero one, so for part one the requirement is stronger than the code's. In the concatenating solver, a negative operand can make `ilog` panic: `ilog` is reached only when the target minus the operand is a non-negative multiple of 10, the case that `P7.TargetAsWritten` requires a positive operand for. The same requirement is on `P7.ResolveConcatenate`, `P7.ResolveConcatenateAsWritten`, `P7.Values`, `P7.Calibration`, `P7.SolutionOne` and `P7.SolutionTwo`.
- P7.SolutionTwo: it uses the corrected `concatenated_target` (see Findings), so on some inputs its sum is smaller than the sum the code as written returns.
- P8.SolutionOne: it requires a grid whose first row is non-empty, unless there are no antennas (`P8.Countable`). The code reaches `width()` only once some frequency has two antennas. The same requirement is on `P8.SolutionTwo`, `P8.AntennaGrid.CountAntiNodes` and `P8.AntennaGrid.CountResonantAntiNodes`.
- P10.SolutionOne: it requires a square map (`P10.Square`). Because `new` reads `grid[i][j]` for entry `i` of row `j`, every rectangular map that is not square panics there (`P10.TransposeSquare`). A ragged map can still get through `new` without a panic: `P10.ReindeerMap.New` requires only that transposed reads stay on the grid (`P10.TransposeIndexable`). The score update and `P10.SolutionOne` require `P10.Square` even so. The same requirement is on `P10.ReindeerMap.StepAndBranch` and `P10.ReindeerMap.AssignScores`. It also requires every 0 to be reached from some 9, which is exactly when `collect_scores` does not panic (`P10.ScoresDefined`).
- P10.SolutionOne: the result is the number of descending walks from the 9 cells to the 0 cells, which is what the code computes. The test at p10/src/lib.rs:132 expects 36, the number of distinct 9 cells reachable from each 0. That value is not claimed.
- `solution_two` of p10 (p10/src/lib.rs:112-114) returns the constant 0, and its test is commented out, so it is not modelled.
- P4.RotateFour: "four turns restore the direction" is stated with nested `rotate_dir` calls. `P4.RotNFour` gives the counted form `RotN(dir, 4) == dir`.
- Helpers.Grid.New: the generic `FromStr` parse of each character is an abstract decoder function passed in. The `expect` panic on a failed parse becomes the requirement that every character decodes (`Helpers.ParsesAll`).
- Text: strings are taken to be ASCII, so a byte index and a character index coincide. `Text.ParseInt` accepts any number of digits, without the bound of the integer type.

## Findings

| source | as written | input that shows it | evidently intended | confidence | as-written member | corrected member |
|---|---|---|---|---|---|---|
| p6/src/lib.rs:69-80 | `out_of_bounds` destructures the position as `(y, x)`, but `new` stores `(column, row)` (line 39). The column is compared with the height and the row with the width. | a 1-by-3 map with the guard at `(2, 0)` is reported off the map; a 3-by-1 map with the guard at `(1, 0)` is reported on it | compare the column with the width and the row with the height; the two tests agree on square maps (`P6.OutOfBoundsSquare`) | high; not executed | P6.OutOfBoundsAsWritten, P6.OutOfBoundsWideGrid, P6.OutOfBoundsTallGrid | P6.OffGrid, P6.PatrolStatus, P6.Map.ResolveMap |
| p7/src/lib.rs:95-108 | `concatenated_target` checks only that `t - d` is a multiple of 10, then drops `digits(d)` digits | `d = 12, t = 122` gives `Ok(1)`, and `[1, 12]` is then said to reach 122, although its values are 13, 12 and 112 | `Ok(v)` exactly when `t` is `v` followed by the digits of `d`, that is, `t - d` is a multiple of `10^digits(d)` | high; not executed | P7.TargetAsWritten, P7.ResolveConcatenateAsWritten, P7.TargetAsWrittenNotConcat, P7.AsWrittenAcceptsUnreachable, P7.Unreachable122 | P7.ConcatTarget, P7.ConcatTargetIff, P7.ResolveConcatenate, P7.ResolveConcatenateValues |
