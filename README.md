# advent-2024 in Dafny

This project models the core of the `advent-2024` C# solutions to Advent of Code 2024 and proves properties of the model:

- **`Map2D<T>`** (module `Grid`). A rectangular, mutable grid of nullable cells, stored as a list of row arrays of one fixed width. The model covers:
  - building a grid from text lines through a per-character mapper;
  - the bounds test;
  - appending rows, copying and cloning;
  - merging one grid onto another and filtering by a mask of values;
  - rendering back to text;
  - enumerating cells in row-major order;
  - `AdventMap2D`'s default mappers, where `.` stands for an empty cell.
- **`CharExtensions`**: converting between a digit character and its value.
- **Day 1** (`Day01`, and the older copy `Day01Legacy`):
  - reading two columns of numbers;
  - the distance between the sorted columns (part one);
  - the similarity score, each left number weighted by how often it occurs on the right (part two).
- **Day 2** (`Day02`). Reports of levels are counted as safe when they move steadily in one direction by 1 to 3. Part two adds a "problem dampener" that forgives one bad level.
- **Day 3** (`Day03`). A corrupted program text is scanned character by character for commands such as `mul(2,4)`. The answer is the sum of the products of the `mul` commands found.
- **Day 5** (`Day05`):
  - page-ordering rules `a|b` kept as per-page rule sets;
  - the validity check of an update;
  - the dependency-tree "sort" of an invalid update;
  - the sum of middle pages.
- **Day 7** (`Day07`): the equation-line parser and the solver built on it.

## How the model is organised

Two modules are shared by the rest:

- **`Results`** holds `Result`, a success value or a failure carrying its reason and the failure that caused it. It also holds the `SolutionVariant` enum.
- **`Text`** holds the .NET string operations the solvers rely on:
  - `string.Split` with and without its options;
  - `int.TryParse` (optional surrounding ASCII white space, an optional sign, the digits '0'..'9', 32-bit range, trailing U+0000 characters allowed) and `int.ToString`;
  - the .NET character classes: `char.IsWhiteSpace`, which `Trim`, `TrimEntries` and `IsNullOrWhiteSpace` use and which includes the Unicode spaces such as U+00A0 and U+3000; and `char.IsDigit`, which accepts the decimal digits of every script;
  - `TextReader.ReadLine`;
  - how far a `while (!string.IsNullOrEmpty(line))` or `IsNullOrWhiteSpace` loop reads.

A `TextReader` becomes the sequence of its lines. Day 3 reads one sequence of characters instead. A nullable `SolutionVariant?` becomes an `Option<SolutionVariant>`, and a value outside the enum behaves like `None`.

Each file's form follows the source:

- **`Map2D<T>` is a class.** Its rows are fresh arrays, and the `Cells` ghost field tracks their contents. Its methods are proved against value-level functions: `MergedCells`, `FilteredCells`, `Render`, `ReadCells` and `RowMajorPoints`.
- **Each solver's loop is a method with loop invariants.** The loops cover parsing, counting, sorting in place, the backwards scans and the character-by-character state machine. Each method is proved equal to a recursive specification function, for example `Tally`, `Parse`, `Scan`, `ReadRules` or `Equations`. The lemmas then state what the source promises about that function.
- **The Day 5 solver is a class.** Its fields are the rule sets and the update sequences, which `ParseInput` fills.

A step that fails where the source throws an exception is a precondition. The cases are:

- a page without a rule set in Day 5's tree building and sorting;
- the middle page of an empty update in `Day05.GetMiddlePart`, where the index is out of range;
- `Array.Copy` from a short row in `AppendRow`, `CopyTo` and the base layer of `Merge`; a grid without rows copies nothing and needs nothing;
- reading past a smaller grid in `Merge`; a loop that runs no pass needs nothing;
- a cell outside the grid in `Map2D.Get` and `Map2D.Set`, where the indexer throws;
- a line shorter than the first in `FromReader`;
- an empty command list in Day 3's scanner, where `Min` throws, and an empty command, where `command[^i]` is out of range.

## Model

| member | source | states |
|---|---|---|
| Grid.Blank | advent-2024/Utilities/Map2D.cs:66 | a new row has exactly `width` cells, all empty |
| Grid.Keeps | advent-2024/Utilities/Map2D.cs:141-143 | the merge loop's mask and null rule: with no mask and nulls included every value is kept, and an empty mask keeps nothing |
| Grid.Map2D.constructor | advent-2024/Utilities/Map2D.cs:47-54 | the new grid has the given width and `height` rows of empty cells, in fresh arrays |
| Grid.Map2D.Shape | advent-2024/Utilities/Map2D.cs:38-41 | the `Width` and `Height` properties are the shape of the stored rows: `Height` rows, each of `Width` cells |
| Grid.Map2D.IsInside | advent-2024/Utilities/Map2D.cs:60-63 | true exactly when 0 <= x < Width and 0 <= y < Height, negative coordinates included |
| Grid.Map2D.IsInsidePoint | advent-2024/Utilities/Map2D.cs:56-59 | a point is inside exactly when both of its coordinates are nonnegative and below `Width` and `Height` |
| Grid.Map2D.Get | advent-2024/Utilities/Map2D.cs:44 | the indexer reads the cell at column x of row y |
| Grid.Map2D.Set | advent-2024/Utilities/Map2D.cs:45 | the indexer's setter changes that one cell and no other; shape and rows are kept |
| Grid.Map2D.AppendRow | advent-2024/Utilities/Map2D.cs:64-76 | one more row, in a fresh array of exactly Width cells; earlier rows unchanged; it holds the first Width values of `data`, or empty cells when there is none; `data` must have at least Width values |
| Grid.Map2D.CopyTo | advent-2024/Utilities/Map2D.cs:93-100 | the other grid is cleared, then gets one row per source row holding that row's first (other width) cells; the source is unchanged and shares no array with the copy; copying a grid onto itself leaves it empty; a source without rows needs no width relation |
| Grid.Map2D.Clone | advent-2024/Utilities/Map2D.cs:81-86 | the clone has the same width and cells, in fresh arrays, so later writes to either grid do not affect the other |
| Grid.MergedCells | advent-2024/Utilities/Map2D.cs:122-150 | a merged grid has as many rows as the taller grid and the chosen width; a cell inside the loop bounds that passes the mask and null rule comes from the source, and any other cell comes from the other grid (or is empty) |
| Grid.Map2D.Merge | advent-2024/Utilities/Map2D.cs:122-150 | width is this grid's when `expand` is set or there is no other grid, else the other's; the result is `MergedCells` of both grids; neither grid is modified; the result is fresh; the grids' sizes are constrained only where a copy or a read actually happens |
| Grid.Map2D.BaseLayer | advent-2024/Utilities/Map2D.cs:124-134 | before the cell loop, the new grid holds the other grid's rows (cut to the new width), padded with empty rows up to this grid's height; an other grid without rows may be narrower |
| Grid.Map2D.OverlayRow | advent-2024/Utilities/Map2D.cs:136-147 | one pass of the inner loop: row y gets the source's cells that pass the mask and null rule; the rest of the row and all other rows are unchanged |
| Grid.Map2D.Filter | advent-2024/Utilities/Map2D.cs:108-111 | a grid of the same shape in which a cell keeps its value exactly when the value is present and in the mask; `includeNulls` has no effect, because it arrives in `expand` |
| Grid.FilteredCells | advent-2024/Utilities/Map2D.cs:108-111 | the grid a filter gives has the source's shape, and every value left in it is the source's value at that cell and a member of the mask |
| Grid.MergeOntoNothingFilters | advent-2024/Utilities/Map2D.cs:108-111 | merging onto no grid with a mask and without nulls is exactly the filter |
| Grid.FilterIdempotent | advent-2024/Utilities/Map2D.cs:108-111 | filtering twice with the same mask is filtering once |
| Grid.FilterEmptyMask | advent-2024/Utilities/Map2D.cs:141-143 | an empty mask keeps nothing: every cell of the result is empty |
| Grid.OpaqueMergeCopies | advent-2024/Utilities/Map2D.cs:140-145 | without a mask and with nulls included, every row inside the loop bounds is the source row, whatever the other grid held |
| Grid.RenderRow | advent-2024/Utilities/Map2D.cs:160-168 | a rendered line has one character per cell: the mapper's character for that cell |
| Grid.Render | advent-2024/Utilities/Map2D.cs:152-170 | one line per row, in order, each rendered by `RenderRow` |
| Grid.Map2D.ToStringLines | advent-2024/Utilities/Map2D.cs:152-170 | the lines are the grid rendered with the given mapper; the default mapper marks present cells `x` and empty ones with a space |
| Grid.Map2D.Points | advent-2024/Utilities/Map2D.cs:173-184 | the points enumerated, row by row and left to right within a row, each with its coordinates |
| Grid.RowMajorPoints | advent-2024/Utilities/Map2D.cs:173-184 | the points row by row, each row left to right; every point's y coordinate is a row of the grid |
| Grid.RowMajorIndex | advent-2024/Utilities/Map2D.cs:173-184 | the enumeration yields Height * Width points, and the cell at (x, y) comes at position y * Width + x |
| Grid.RowMajorLength | advent-2024/Utilities/Map2D.cs:175-183 | a grid of h rows of width w enumerates h * w points |
| Grid.Map2D.Values | advent-2024/Utilities/Map2D.cs:186-200 | the values enumerated are those of the points, in the same row-major order, empty cells included |
| Grid.ReadRow | advent-2024/Utilities/Map2D.cs:227-232 | a row read from a line holds the mapper's value for each of the first `width` characters |
| Grid.ReadCells | advent-2024/Utilities/Map2D.cs:218-234 | one row per line, in order, each read by `ReadRow` |
| Grid.FromReader | advent-2024/Utilities/Map2D.cs:210-236 | no grid when the first line is empty or missing; otherwise the width is the first line's length, and the rows are the lines before the first empty one, read through the mapper (empty cells when none is given) |
| Grid.AppendLine | advent-2024/Utilities/Map2D.cs:225-232 | one loop pass: a new row holding the mapped characters of the line; earlier rows unchanged |
| Grid.DefaultInputMapper | advent-2024/Utilities/Map2D.cs:9-13 | '.' reads as an empty cell and any other character as itself; no cell reads as a literal '.', and `DefaultOutputMapper` writes every character back as it was |
| Grid.DefaultOutputMapper | advent-2024/Utilities/Map2D.cs:14-17 | an empty cell is written as '.' and a value as itself; any character other than '.' comes only from the cell holding it |
| Grid.AdventFromReader | advent-2024/Utilities/Map2D.cs:18-22 | `FromReader` with `DefaultInputMapper` unless a mapper is given |
| Grid.AdventToStringLines | advent-2024/Utilities/Map2D.cs:24-28 | no lines for no grid, else the rendering with `DefaultOutputMapper` unless a mapper is given |
| Grid.DefaultMappersRoundTrip | advent-2024/Utilities/Map2D.cs:9-17 | reading lines of equal width with the default input mapper and rendering them with the default output mapper gives the lines back |
| Grid.DefaultMappersReadBack | advent-2024/Utilities/Map2D.cs:9-17 | a grid without a literal `.` value, rendered and read back with the default mappers, is the same grid |
| CharExtensions.ToDigit | advent-2024/Utilities/CharExtensions.cs:5-10 | a value exactly for '0'..'9'; it lies in 0..9 and converts back to the same character |
| CharExtensions.DigitToChar | advent-2024/Utilities/CharExtensions.cs:11-16 | a character exactly for 0..9, and it lies in '0'..'9' |
| CharExtensions.DigitRoundTrip | advent-2024/Utilities/CharExtensions.cs:5-16 | `ToDigit(DigitToChar(d)) == d` for every digit value |
| CharExtensions.CharRoundTrip | advent-2024/Utilities/CharExtensions.cs:5-16 | `DigitToChar(ToDigit(c)) == c` for every digit character |
| Text.IsWhiteSpace | advent-2024/Solvers/Day01Solver.cs:22-24 | `char.IsWhiteSpace`, the test of `TrimEntries` and `IsNullOrWhiteSpace`: the Unicode white space; it includes every character `int.TryParse` skips, and no decimal digit |
| Text.IsDecimalDigit | advent-2024/Solvers/Day03Solver.cs:97 | `char.IsDigit`: the decimal digits of every script (Unicode Nd); it accepts '0'..'9' and never '(', ',' or ')' |
| Text.TrimStartSuffix | advent-2024/Solvers/Day01Solver.cs:23 | trimming the start leaves a suffix of the text that does not start with a trimmed character |
| Text.TrimEndPrefix | advent-2024/Solvers/Day01Solver.cs:23 | trimming the end leaves a prefix of the text that does not end with a trimmed character |
| Text.Trim | advent-2024/Solvers/Day01Solver.cs:23 | `Trim()` of one piece: no longer than the piece, and a non-empty result neither starts nor ends with white space |
| Text.ParseInt | advent-2024/Solvers/Day02Solver.cs:133 | `int.TryParse` with the default style (ASCII white space around the number, an optional sign, digits '0'..'9', trailing U+0000 allowed): a value read is a 32-bit int, and the empty text does not parse |
| Text.IntToString | advent-2024/Solvers/Day01Solver.cs:122 | `ToString()` of an int: non-empty digits with a leading minus exactly for a negative number |
| Text.ParseIntToString | advent-2024/Solvers/Day02Solver.cs:133 | `int.TryParse` reads back any 32-bit integer from its `ToString()` |
| Text.Split | advent-2024/Solvers/Day02Solver.cs:127 | `Split` gives at least one piece; no piece holds the separator; text without the separator is its own single piece |
| Text.SplitJoinedInts | advent-2024/Solvers/Day05Solver.cs:77 | numbers written with a separator that cannot occur in a number split back into one piece per number, each that number's text |
| Text.ParseJoinedInts | advent-2024/Solvers/Day05Solver.cs:77-84 | 32-bit numbers joined by such a separator, split and parsed piece by piece, give back the numbers |
| Text.RemoveEmpty | advent-2024/Solvers/Day07Solver.cs:60-62 | `RemoveEmptyEntries` leaves no empty piece and never more pieces than it was given |
| Text.RemoveEmptyAppend | advent-2024/Solvers/Day07Solver.cs:60-62 | empty pieces are removed piece by piece, so the kept pieces stay in their order |
| Text.RemoveEmptyCounts | advent-2024/Solvers/Day07Solver.cs:60-62 | every non-empty piece is kept, as often as it occurs, so the argument count is the number of non-empty tokens |
| Text.TrimEach | advent-2024/Solvers/Day01Solver.cs:22-24 | `TrimEntries` keeps one piece per piece |
| Text.UntilEmpty | advent-2024/Solvers/Day02Solver.cs:16-19 | a loop that reads until a missing or empty line consumes the lines before the first empty line, all of which are non-empty |
| Text.ReadsUntilEmpty | advent-2024/Solvers/Day02Solver.cs:16-19 | such a loop continues exactly while it is before that line, and then the line read is the next input line |
| Text.UntilBlank | advent-2024/Solvers/Day05Solver.cs:39 | a loop that reads until a missing or white-space line (Unicode white space, as `IsNullOrWhiteSpace` tests) consumes the lines before the first blank line, none of which is blank |
| Text.DigitsAreDecimalDigits | advent-2024/Solvers/Day03Solver.cs:97 | `char.IsDigit` accepts every digit `int.TryParse` reads, and more, such as U+0663 |
| Text.ParseEach | advent-2024/Solvers/Day02Solver.cs:130-134 | `int.TryParse` applied to each token in turn |
| Text.FirstFailure | advent-2024/Solvers/Day02Solver.cs:130-139 | parsing token by token gives one value per token, or the index of a token that exists |
| Text.ParseInts | advent-2024/Solvers/Day02Solver.cs:130-139 | the same, stated over the tokens |
| Text.FirstFailureAll | advent-2024/Solvers/Day02Solver.cs:130-139 | parsing gets through all tokens exactly when each one parses, and then each value is its token's; otherwise the failing index is the first token that does not parse |
| Text.FirstFailureStep | advent-2024/Solvers/Day02Solver.cs:133-137 | one more token either appends its value or stops at that token's index |
| Text.FirstFailureStays | advent-2024/Solvers/Day02Solver.cs:133-135 | once a token fails, later tokens do not change the outcome |
| Text.ReadLine | advent-2024/Solvers/Day02Solver.cs:16 | `ReadLine()`: a line exactly while lines remain, and then the next input line |
| Text.IsNullOrEmpty | advent-2024/Solvers/Day02Solver.cs:19 | `string.IsNullOrEmpty` on a line read; a missing or empty line is also blank to `IsNullOrWhiteSpace` |
| Text.IsNullOrWhiteSpace | advent-2024/Solvers/Day05Solver.cs:39 | `string.IsNullOrWhiteSpace` with Unicode white space; a line holding a decimal digit is never blank |
| Day01.Tokens | advent-2024/Solvers/Day01Solver.cs:22-24 | `Split(' ', TrimEntries \| RemoveEmptyEntries)`: no token is empty, and there are no more tokens than pieces |
| Day01.ParseLine | advent-2024/Solvers/Day01Solver.cs:22-40 | a line gives two numbers exactly when it has two tokens (split at spaces, trimmed of Unicode white space, empties dropped) and both parse; each number is a 32-bit int |
| Day01.LineResults | advent-2024/Solvers/Day01Solver.cs:18-47 | one parse outcome per line |
| Day01.Collect | advent-2024/Solvers/Day01Solver.cs:20-50 | the lists are gathered exactly when every line parses; then both lists have one entry per line, holding that line's two numbers in order |
| Day01.Parse | advent-2024/Solvers/Day01Solver.cs:18-50 | the two lists read from the lines, or the first bad line's failure; on success both lists have one entry per line, and no lines give two empty lists |
| Day01.TokensOfPair | advent-2024/Solvers/Day01Solver.cs:22-24 | two space-free tokens separated by spaces are the line's tokens |
| Day01.TrimsTrailingWhiteSpace | advent-2024/Solvers/Day01Solver.cs:22-24 | `TrimEntries` trims a trailing white space character off a word |
| Day01.TokensAfterWhiteSpace | advent-2024/Solvers/Day01Solver.cs:22-24 | a white space character other than the space, between the first word and the separating space, is not part of a token |
| Day01.NoBreakSpaceTrimmed | advent-2024/Solvers/Day01Solver.cs:22-40 | a line "a\u00A0 b" of two 32-bit numbers parses to (a, b), because U+00A0 is trimmed |
| Day01.ParseLineRoundTrip | advent-2024/Solvers/Day01Solver.cs:22-43 | a line written as the input writes it gives back its two numbers |
| Day01.CollectReportsFirstFailure | advent-2024/Solvers/Day01Solver.cs:20-40 | a failure is the failure of the first line that does not parse |
| Day01.CollectFailureStays | advent-2024/Solvers/Day01Solver.cs:26-39 | once a line fails, later lines do not change the outcome |
| Day01.CollectStep | advent-2024/Solvers/Day01Solver.cs:20-46 | one more line either appends its two numbers or stops with that line's failure |
| Day01.ParseInput | advent-2024/Solvers/Day01Solver.cs:13-51 | the parse of the lines before the first empty one |
| Day01.Insert | advent-2024/Solvers/Day01Solver.cs:108-109 | inserting into an ascending list keeps it ascending and adds exactly that one element; the smaller of it and the old first element comes first |
| Day01.SortSeq | advent-2024/Solvers/Day01Solver.cs:108-109 | `List.Sort()`: the result is ascending and a permutation of the list |
| Day01.SortedUnique | advent-2024/Solvers/Day01Solver.cs:108-109 | two ascending lists with the same elements are equal, so the sorted order does not depend on the sort |
| Day01.SortSeqByElements | advent-2024/Solvers/Day01Solver.cs:108-109 | permutations of each other sort to the same list |
| Day01.InsertInPlace | advent-2024/Solvers/Day01Solver.cs:108 | one pass of the in-place sort: the prefix grows by one element and stays ascending; the array is a permutation of itself |
| Day01.SortInPlace | advent-2024/Solvers/Day01Solver.cs:108-109 | sorting the array in place leaves exactly `SortSeq` of its old contents |
| Day01.DistanceSum | advent-2024/Solvers/Day01Solver.cs:115-120 | the sum of distances between equal positions is 0 exactly when the lists are equal |
| Day01.DistanceSumSymmetric | advent-2024/Solvers/Day01Solver.cs:118 | the distance sum does not depend on which list is left |
| Day01.DistanceZeroIffSameElements | advent-2024/Solvers/Day01Solver.cs:105-123 | the distance of the sorted lists is 0 exactly when the lists hold the same numbers |
| Day01.SumDistances | advent-2024/Solvers/Day01Solver.cs:115-120 | the loop computes the distance sum of the two arrays |
| Day01.GetSimilarityByDistance | advent-2024/Solvers/Day01Solver.cs:105-123 | both arrays are sorted in place, before the count check; unequal counts fail naming both counts; otherwise the answer is the distance sum of the sorted lists |
| Day01.OccurrenceScore | advent-2024/Solvers/Day01Solver.cs:92-101 | the similarity score: each left number times its count in the right list, summed; an empty right list scores 0 |
| Day01.OccurrenceScoreAppend | advent-2024/Solvers/Day01Solver.cs:92-101 | the similarity score adds up over a split of the left list |
| Day01.OccurrenceScorePermutation | advent-2024/Solvers/Day01Solver.cs:81-104 | the similarity score does not depend on the order of the left list |
| Day01.OccurrenceScoreIgnoresAbsent | advent-2024/Solvers/Day01Solver.cs:95-99 | left numbers absent from the right list add nothing |
| Day01.GetSimilarityByOccurrence | advent-2024/Solvers/Day01Solver.cs:81-104 | the count dictionary and the weighted sum give the similarity score: each left number times its count on the right |
| Day01.Solve | advent-2024/Solvers/Day01Solver.cs:58-79 | a parse failure is wrapped as "Failed to parse input."; part one answers the sorted distance, part two the similarity score, and any other variant fails with "Unknown solution variant" |
| Day01Legacy.Solve | advent-2024/Day01/Day01Solver.cs:52-91 | whatever the variant: a parse failure is wrapped as "Failed to parse input.", else the answer is the distance sum of the sorted lists |
| Day02.StepOk | advent-2024/Solvers/Day02Solver.cs:104-118 | rule 1 (direction) and rule 2 (distance) together: exactly a step of 1 to 3 in the given direction |
| Day02.Safe | advent-2024/Solvers/Day02Solver.cs:87-124 | the rule as the solver applies it: a report of at most one level is safe, and one whose first two levels are equal is not |
| Day02.SafeIffGradual | advent-2024/Solvers/Day02Solver.cs:87-124 | the solver's rule (direction fixed by the first pair, steps of 1 to 3) is exactly "all increasing or all decreasing by 1 to 3"; so an equal first pair is unsafe |
| Day02.TestReportSafety | advent-2024/Solvers/Day02Solver.cs:87-124 | the loop answers exactly that rule; reports of at most one level are safe |
| Day02.Without | advent-2024/Solvers/Day02Solver.cs:71-80 | one level shorter; the levels before index i are kept, and the rest shift down by one |
| Day02.WithoutMultiset | advent-2024/Solvers/Day02Solver.cs:73-79 | exactly the one level at index i is removed |
| Day02.SafeWithoutLast | advent-2024/Solvers/Day02Solver.cs:44-54 | dropping the last level of a safe report of three or more levels leaves a safe report |
| Day02.ProduceDampenedReports | advent-2024/Solvers/Day02Solver.cs:64-84 | one copy per level; copy i is the report without level i |
| Day02.CopyWithout | advent-2024/Solvers/Day02Solver.cs:71-79 | the inner loop builds the report without level i |
| Day02.ParseReport | advent-2024/Solvers/Day02Solver.cs:125-140 | the report's single-space-separated pieces (empty pieces kept) as ints, or a failure naming the 1-based position of the first that does not parse |
| Day02.Report | advent-2024/Solvers/Day02Solver.cs:125-140 | the report a line holds: one value per single-space piece, and a failure only when some piece does not parse |
| Day02.ReportRoundTrip | advent-2024/Solvers/Day02Solver.cs:127-139 | levels written with single spaces read back as those levels |
| Day02.Tally | advent-2024/Solvers/Day02Solver.cs:19-59 | the count of safe reports never exceeds the number of lines |
| Day02.LineTally | advent-2024/Solvers/Day02Solver.cs:21-55 | a line succeeds exactly when it is a report, and then adds 1 to the count exactly when the report counts |
| Day02.TallyStep | advent-2024/Solvers/Day02Solver.cs:21-58 | while no line has failed, one more line does to the count what `LineTally` says; its failure is "Error parsing report on line: n" around the parse failure |
| Day02.TallyFailureStays | advent-2024/Solvers/Day02Solver.cs:22-27 | once a line fails, later lines do not change the outcome |
| Day02.DampenerNeverLowers | advent-2024/Solvers/Day02Solver.cs:40-55 | on the same lines, part two fails exactly when part one does, and otherwise counts at least as many reports |
| Day02.CountsReport | advent-2024/Solvers/Day02Solver.cs:40-55 | a report counts when it is safe or, with the dampener, when some copy without one level is safe |
| Day02.Solve | advent-2024/Solvers/Day02Solver.cs:12-62 | over the lines before the first empty one: the count as text, or the first parse failure wrapped with its 0-based line number |
| Day02.CountReports | advent-2024/Solvers/Day02Solver.cs:16-59 | the loop computes the tally of the lines before the first empty one |
| Day02.CountLine | advent-2024/Solvers/Day02Solver.cs:21-55 | one pass of the loop does what `LineTally` says |
| Day03.MatchesLastStep | advent-2024/Solvers/Day03Solver.cs:24-36 | matching one more character from the end is the match so far plus that character |
| Day03.ShortestSuffixCommand | advent-2024/Solvers/Day03Solver.cs:19-46 | "" exactly when the buffer ends with no command; otherwise a command the buffer ends with, and no shorter one does |
| Day03.ShortestSuffixCommandUnique | advent-2024/Solvers/Day03Solver.cs:19-46 | any answer meeting that description is the one `ShortestSuffixCommand` gives |
| Day03.ExtractAsWritten | advent-2024/Solvers/Day03Solver.cs:19-46 | `ExtractCommandText` as written, the as-written half of the finding: a non-empty answer is one of the available commands, though not always one the buffer ends with |
| Day03.OuterAsWritten | advent-2024/Solvers/Day03Solver.cs:24-44 | the outer loop, at distance i from the end of the buffer: a non-empty answer is one of the remaining candidates |
| Day03.InnerAsWritten | advent-2024/Solvers/Day03Solver.cs:27-40 | the inner loop, with `RemoveAt(ci)` followed by `ci++`: a non-empty answer is one of the remaining candidates |
| Day03.ExtractAsWrittenSkipsCandidate | advent-2024/Solvers/Day03Solver.cs:27-35 | as written, removing a candidate skips the next one: for buffer "bcq" and commands "ax", "bcd" it answers "bcd", which the buffer does not end with |
| Day03.ExtractAsWrittenCanFail | advent-2024/Solvers/Day03Solver.cs:31 | as written, a skipped candidate shorter than the distance reached is then indexed out of range |
| Day03.ExtractAsWrittenSingleCommand | advent-2024/Solvers/Day03Solver.cs:160-165 | with the one command the solver uses, the code as written answers correctly |
| Day03.RemoveAtKeepsOthers | advent-2024/Solvers/Day03Solver.cs:33 | `RemoveAt(i)` keeps every other element, in order |
| Day03.ExtractCommandText | advent-2024/Solvers/Day03Solver.cs:19-46 | with every candidate compared at each position, the answer is the shortest command the buffer ends with, or "" |
| Day03.NarrowCandidates | advent-2024/Solvers/Day03Solver.cs:27-40 | one pass of the inner loop returns a command that the buffer ends with and whose length is the distance reached; otherwise the remaining candidates are exactly the commands still matching, and they are longer than that distance |
| Day03.MinLength | advent-2024/Solvers/Day03Solver.cs:56 | the length of the shortest command |
| Day03.Drop | advent-2024/Solvers/Day03Solver.cs:151-156 | `DropCommand()`: no current command, not inside arguments, the argument buffer cleared; the command buffer, the reading flag and the yielded commands are kept |
| Day03.CommitArg | advent-2024/Solvers/Day03Solver.cs:139-144 | `CommitArg()`: the argument buffer becomes the current command's next argument and is cleared; everything else is kept |
| Day03.Step | advent-2024/Solvers/Day03Solver.cs:71-121 | one character of the state machine: at most one command is yielded, only on ')', and none is taken back |
| Day03.StepDropsCommand | advent-2024/Solvers/Day03Solver.cs:94-117 | inside a command's arguments, a character that is not a digit and not a ',' or ')' ending an argument drops the command, unless it is a '(' that opens a new one |
| Day03.StepOpensOnlyAtParenthesis | advent-2024/Solvers/Day03Solver.cs:73-92 | outside arguments, only a '(' after more characters than the shortest command can open arguments |
| Day03.Scan | advent-2024/Solvers/Day03Solver.cs:65-127 | the state machine over the whole text: at most one command per character, and none for a text without ')' |
| Day03.StepKeepsGood | advent-2024/Solvers/Day03Solver.cs:69-122 | each character keeps the scanner's commands available and their arguments decimal digits (`char.IsDigit`, any script) |
| Day03.ScanYieldsWellFormed | advent-2024/Solvers/Day03Solver.cs:76-118 | every command yielded is an available command whose arguments are all decimal digits of any script (possibly none) |
| Day03.StepOnlyAppends | advent-2024/Solvers/Day03Solver.cs:106-111 | a character never takes back a yielded command |
| Day03.ScanOnlyAppends | advent-2024/Solvers/Day03Solver.cs:48-157 | more text only appends to the commands yielded |
| Day03.BareCommandAtStart | advent-2024/Solvers/Day03Solver.cs:73 | the length test is strict: with the command "mul", "mul(2,4)" at the very start of the text yields nothing |
| Day03.BareParenthesisIsText | advent-2024/Solvers/Day03Solver.cs:73 | "mul(" at the very start of the text only fills the command buffer |
| Day03.CommandOpened | advent-2024/Solvers/Day03Solver.cs:73-91 | after another character, "mul(" starts a `mul` command with no arguments and clears the buffer |
| Day03.FirstArgumentRead | advent-2024/Solvers/Day03Solver.cs:94-104 | then "2," commits "2" as the first argument and keeps reading arguments |
| Day03.SecondArgumentRead | advent-2024/Solvers/Day03Solver.cs:94-118 | then "4" is held as the next argument |
| Day03.CommandAfterOtherCharacter | advent-2024/Solvers/Day03Solver.cs:73-112 | after any other character, "mul(2,4)" yields `mul` with the arguments "2" and "4" |
| Day03.EmptyArgumentCommitted | advent-2024/Solvers/Day03Solver.cs:101-111 | the reading-argument flag is never reset, so "xmul(2,)" yields `mul` with "2" and an empty argument |
| Day03.UnknownParenthesisSkipped | advent-2024/Solvers/Day03Solver.cs:73-92 | an unknown command's '(' is dropped but the text before it is kept, so "xxmu(l(2,4)" yields `mul` with "2" and "4" |
| Day03.SpaceInArgumentsDrops | advent-2024/Solvers/Day03Solver.cs:113-117 | a space inside the arguments drops the command: "xmul(2, 4)" yields nothing |
| Day03.NestedCommandLost | advent-2024/Solvers/Day03Solver.cs:113-121 | a command starting inside another's arguments drops the outer one and is itself too short to open: "xmul(2,mul(3,4)" yields nothing |
| Day03.ReadCommands | advent-2024/Solvers/Day03Solver.cs:48-157 | the state machine's loop yields exactly the commands of `Scan`, which tests argument characters with `char.IsDigit` and extracts commands with the corrected extraction; for the single command "mul" the solver uses, that is the code's extraction |
| Day03.ArgValue | advent-2024/Solvers/Day03Solver.cs:176-180 | `int.TryParse`'s value, or 0 when it fails, since the failure is discarded: always a 32-bit int, and 0 for an empty argument |
| Day03.UnparsableArgZeroes | advent-2024/Solvers/Day03Solver.cs:176-180 | the failure built for an unparsable argument is discarded and the argument counts as 0, so the product is 0 |
| Day03.OtherScriptDigitArgIsZero | advent-2024/Solvers/Day03Solver.cs:97-176 | an argument holding a digit `char.IsDigit` accepts but `int.TryParse` does not read, such as U+0663, counts as 0 |
| Day03.Product | advent-2024/Solvers/Day03Solver.cs:173-181 | the product of the argument values; it is non-zero exactly when every argument's value is |
| Day03.CommandResult | advent-2024/Solvers/Day03Solver.cs:169-183 | a `mul` command's product, else 0; a non-zero result comes from a `mul` whose argument values are all non-zero |
| Day03.Total | advent-2024/Solvers/Day03Solver.cs:166-186 | the sum of the command results; 0 when no command is `mul` |
| Day03.ProductOfPair | advent-2024/Solvers/Day03Solver.cs:171-182 | `mul(X,Y)` contributes X * Y |
| Day03.TotalAppend | advent-2024/Solvers/Day03Solver.cs:166-186 | the sum adds up over a split of the commands |
| Day03.TotalStep | advent-2024/Solvers/Day03Solver.cs:166-186 | the sum over one more command adds that command's contribution |
| Day03.MultiplyArgs | advent-2024/Solvers/Day03Solver.cs:173-182 | the inner loop computes the product of the argument values |
| Day03.Solve | advent-2024/Solvers/Day03Solver.cs:158-192 | whatever the variant, the sum over the commands scanned with "mul" (arguments read with `char.IsDigit`) of the `mul` products |
| Day05.AddRule | advent-2024/Solvers/Day05Solver.cs:56-66 | both pages get a rule set if they lacked one; `right` is appended to the pages `left` must come before; `left` is appended to the pages `right` must come after; no other rule set changes |
| Day05.NoRulesRepresented | advent-2024/Solvers/Day05Solver.cs:21 | the empty dictionary holds no rules |
| Day05.AddRuleRepresents | advent-2024/Solvers/Day05Solver.cs:56-66 | after a rule is added, the rule sets hold exactly the rules read so far plus that one |
| Day05.AddedBefore | advent-2024/Solvers/Day05Solver.cs:62-63 | after the addition, `b` is a page `a` must come before exactly when `a\|b` has been read |
| Day05.AddedAfter | advent-2024/Solvers/Day05Solver.cs:65-66 | after the addition, `a` is a page `b` must come after exactly when `a\|b` has been read |
| Day05.ValidIffRespectsRules | advent-2024/Solvers/Day05Solver.cs:216-255 | with rule sets that hold the rules read, an update passes exactly when for every rule `a\|b` each `b` in it comes strictly after each `a` (so a rule `a\|a` rejects any update with `a`) |
| Day05.TestRuleSet | advent-2024/Solvers/Day05Solver.cs:232-255 | true exactly when no page at or before the subject is one it must come before, and no page after it is one it must come after |
| Day05.Solver.TestUpdateSequence | advent-2024/Solvers/Day05Solver.cs:216-230 | true exactly when every page that has a rule set obeys it |
| Day05.Walk | advent-2024/Solvers/Day05Solver.cs:110-139 | the walk keeps the node's page at the top |
| Day05.WalkPlacesOnce | advent-2024/Solvers/Day05Solver.cs:110-139 | a walk ending at a node the page has no rule with leaves the tree unchanged (the page is dropped); otherwise it adds the page once |
| Day05.WalkKeepsOrdered | advent-2024/Solvers/Day05Solver.cs:113-136 | placing a page keeps left subtrees made of pages the rules put before the node and right subtrees of pages put after it |
| Day05.Build | advent-2024/Solvers/Day05Solver.cs:94-145 | no tree exactly for no pages; otherwise the first page is at the top |
| Day05.BuildElements | advent-2024/Solvers/Day05Solver.cs:94-145 | the tree holds no page more often than the update |
| Day05.BuildOrdered | advent-2024/Solvers/Day05Solver.cs:94-145 | the tree built from an update is ordered by the rules |
| Day05.GetDependencyTree | advent-2024/Solvers/Day05Solver.cs:94-145 | the loop builds the tree of `Build` |
| Day05.InOrder | advent-2024/Solvers/Day05Solver.cs:195-211 | `GetNodeResult(node)`: the left subtree's pages, the node's page, the right subtree's pages; one page per node, the top page included |
| Day05.InOrderElements | advent-2024/Solvers/Day05Solver.cs:195-211 | collapsing the tree keeps exactly the pages in it |
| Day05.InOrderMembers | advent-2024/Solvers/Day05Solver.cs:195-211 | every page of the collapsed order is in the tree |
| Day05.OrderedInOrder | advent-2024/Solvers/Day05Solver.cs:195-211 | in the collapsed order of an ordered tree, the top page stands after every page the rules put before it and before every page they put after it |
| Day05.Sorted | advent-2024/Solvers/Day05Solver.cs:190-215 | the re-ordered update holds only pages of the update, no more often, is no longer, and always keeps the first page |
| Day05.SortSequence | advent-2024/Solvers/Day05Solver.cs:190-215 | the method builds and collapses the tree into `Sorted` |
| Day05.GetMiddlePart | advent-2024/Solvers/Day05Solver.cs:184-188 | a page of the update, at index Length / 2, rounded down; for an odd length as many pages come before it as after |
| Day05.Contribution | advent-2024/Solvers/Day05Solver.cs:159-178 | what one update adds to the sum for the variant; it is 0 or a page of the update |
| Day05.MiddleSum | advent-2024/Solvers/Day05Solver.cs:156-179 | the sum of the updates' contributions; not negative when no page is |
| Day05.MiddleSumStep | advent-2024/Solvers/Day05Solver.cs:157-179 | one more update adds its middle page in part one if it is valid, in part two the middle of its re-ordering if it is not, otherwise nothing |
| Day05.OtherVariantSumsToZero | advent-2024/Solvers/Day05Solver.cs:172-175 | a variant other than the two parts adds up to 0 |
| Day05.PartsAreDisjoint | advent-2024/Solvers/Day05Solver.cs:162-171 | no update adds to both parts' sums |
| Day05.RuleLine | advent-2024/Solvers/Day05Solver.cs:44-54 | a rule line read: on success the line holds '\|' and both pages are 32-bit ints; otherwise the source's message for the first check that fails |
| Day05.RuleLineRoundTrip | advent-2024/Solvers/Day05Solver.cs:44-54 | a rule `a\|b` written as the input writes it reads back as (a, b) |
| Day05.UpdateLine | advent-2024/Solvers/Day05Solver.cs:77-84 | an update line read: on success one page per comma-separated piece; otherwise "Failed to parse update" naming the first bad piece and the line |
| Day05.UpdateLineRoundTrip | advent-2024/Solvers/Day05Solver.cs:77-84 | pages written comma-separated read back as those pages |
| Day05.UpdateLineNonEmpty | advent-2024/Solvers/Day05Solver.cs:77-84 | an update that reads has at least one page |
| Day05.ReadRules | advent-2024/Solvers/Day05Solver.cs:39-91 | the rule loop, then the update loop: update sequences are only appended, and success is `Ok(true)` |
| Day05.ReadUpdates | advent-2024/Solvers/Day05Solver.cs:71-91 | the update loop: update sequences are only appended, the rule sets are untouched, and success is `Ok(true)` |
| Day05.ReadUpdatesNonEmpty | advent-2024/Solvers/Day05Solver.cs:73-89 | reading updates never adds an empty one |
| Day05.ReadRulesNonEmpty | advent-2024/Solvers/Day05Solver.cs:39-89 | nor does reading the whole input |
| Day05.ReadUpdatesAppends | advent-2024/Solvers/Day05Solver.cs:73-89 | reading updates only appends update sequences and leaves the rule sets alone |
| Day05.Solver.constructor | advent-2024/Solvers/Day05Solver.cs:21-28 | a new solver has no rule sets and no updates |
| Day05.Solver.ParseInput | advent-2024/Solvers/Day05Solver.cs:30-92 | rule lines up to the first line that is missing or Unicode white space only, then update lines up to the next, each failure naming its line; the fields hold what was read before a failure |
| Day05.RuleBlockEnds | advent-2024/Solvers/Day05Solver.cs:39-72 | at the first blank line the rule loop ends and the update loop starts on the line after it |
| Day05.RuleLineStep | advent-2024/Solvers/Day05Solver.cs:39-68 | a rule line before the first blank line adds its rule, and reading goes on at the next line |
| Day05.RulesEndAtFirstBlank | advent-2024/Solvers/Day05Solver.cs:39-89 | when the lines before the first blank line (`UntilBlank`) are all rules, they are added in order and the updates are read from the line after it |
| Day05.IdeographicSpaceEndsBlocks | advent-2024/Solvers/Day05Solver.cs:39-89 | a line of U+3000 ends the rules and another ends the updates |
| Day05.ParseRuleLine | advent-2024/Solvers/Day05Solver.cs:44-54 | the rule loop's checks give `RuleLine`: a separator, two pieces, a left and a right number, each failure with its own message |
| Day05.Solver.AddRuleSets | advent-2024/Solvers/Day05Solver.cs:56-66 | the dictionary becomes `AddRule` of the old one; the updates are unchanged |
| Day05.ParseUpdateLine | advent-2024/Solvers/Day05Solver.cs:77-84 | the loop over an update line's pieces gives `UpdateLine` |
| Day05.Solver.SumMiddleParts | advent-2024/Solvers/Day05Solver.cs:156-179 | the loop computes the sum of middle pages the variant selects |
| Day05.Solver.Solve | advent-2024/Solvers/Day05Solver.cs:148-182 | a parse failure is wrapped as "Failed to parse input"; otherwise the answer is that sum for the updates read |
| Day07.EquationOf | advent-2024/Solvers/Day07Solver.cs:46-76 | what `ParseEquation` returns: an equation only for a line with ':', and its value is a 32-bit int |
| Day07.Arguments | advent-2024/Solvers/Day07Solver.cs:64-72 | one value per argument, and a failure only when there is an argument |
| Day07.NoColonNoSides | advent-2024/Solvers/Day07Solver.cs:51-53 | a line without a colon fails with "Unable to find sides of equation" |
| Day07.ParseEquation | advent-2024/Solvers/Day07Solver.cs:46-76 | exactly two sides around ':', then the value, then the arguments; each failure has its own message |
| Day07.ParseArguments | advent-2024/Solvers/Day07Solver.cs:64-72 | each argument parses, in order, or the failure names the 1-based position of the first that does not |
| Day07.RemoveEmptyKeepsNonEmpty | advent-2024/Solvers/Day07Solver.cs:60-62 | removing empty entries leaves a list without empty entries as it is |
| Day07.EquationRoundTrip | advent-2024/Solvers/Day07Solver.cs:46-76 | an equation written as the input writes it ("value: a b c") reads back as itself |
| Day07.EquationTextSides | advent-2024/Solvers/Day07Solver.cs:51 | the colon splits such a line into the value's text and the arguments' text |
| Day07.ArgumentTexts | advent-2024/Solvers/Day07Solver.cs:60-62 | the space after the colon only adds an empty entry, which is removed |
| Day07.LineEquations | advent-2024/Solvers/Day07Solver.cs:30 | one parse outcome per line |
| Day07.Collect | advent-2024/Solvers/Day07Solver.cs:26-41 | the reading loop over the per-line outcomes: every failure is "Error on line ..." around the bad line's failure |
| Day07.Equations | advent-2024/Solvers/Day07Solver.cs:21-44 | the equations on the lines; on success one per line |
| Day07.CollectAllLines | advent-2024/Solvers/Day07Solver.cs:21-44 | reading succeeds exactly when every line parses, and then gives the equations in order |
| Day07.CollectFirstBadLine | advent-2024/Solvers/Day07Solver.cs:28-33 | a failure is "Error on line N" around the first bad line's failure, N counted from 1 |
| Day07.CollectStep | advent-2024/Solvers/Day07Solver.cs:26-41 | one more line either appends its equation or stops with that line's failure |
| Day07.CollectFailureStays | advent-2024/Solvers/Day07Solver.cs:31-33 | once a line fails, later lines do not change the outcome |
| Day07.ReadEquations | advent-2024/Solvers/Day07Solver.cs:21-44 | the equations on the lines before the first empty one |
| Day07.Solve | advent-2024/Solvers/Day07Solver.cs:78-93 | never succeeds: a read failure is wrapped as "Failed to read equations", and otherwise the answer is "No solution found" |

## Left out

- Console input and output, the program entry point, the solver registry built on reflection, the option and interface declarations, and the stub solvers of days 4, 6 and 8 to 11: none of them holds logic of the core.
- `TextReader`: the model reads from a sequence of lines. Day 3 reads one sequence of characters, without its 1024-character chunks and without the command's `Location`, which counts chunks rather than characters. That location only appears in a failure message that the solver discards.
- 32-bit overflow. All sums, products and counts are unbounded integers, which covers:
  - Day01.SumDistances, Day01.GetSimilarityByOccurrence and Day01.GetSimilarityByDistance: the running sums do not wrap, and the difference of two numbers is exact. In C# that subtraction wraps, and when it wraps to `int.MinValue`, `Math.Abs` throws `OverflowException` instead of returning (advent-2024/Solvers/Day01Solver.cs:118 and advent-2024/Day01/Day01Solver.cs:86). The model returns the exact distance there.
  - Day02.Solve: the safety test's difference is exact. In C# it wraps, and `Math.Abs` throws `OverflowException` when it wraps to `int.MinValue` (advent-2024/Solvers/Day02Solver.cs:113); the model judges the exact step instead.
  - Day03.MultiplyArgs and Day03.Solve: products and the sum do not wrap.
  - Day05.Solver.SumMiddleParts: the middle sum does not wrap.
  
  Parsed numbers are limited to the 32-bit range, as `int.TryParse` does.
- `int.TryParse` culture rules. Only the digits '0'..'9', an optional `+` or `-`, the ASCII white space it skips and the trailing U+0000 characters it allows are modelled. Thousands separators and culture-specific signs are not.
- Strings are sequences of Unicode scalar values, where C# strings hold UTF-16 code units. A character outside the Basic Multilingual Plane is one character here and two in C#, so lengths differ for such text. Among others, these are Map2D widths and Day 3's buffer lengths. `IsDecimalDigit` covers the digits of one code unit, as `char.IsDigit` sees them.
- Day03.ReadCommands: `Scan` extracts the command with the corrected `ShortestSuffixCommand`, not the as-written `ExtractAsWritten` (see "## Findings"). The two agree for a single command (`Day03.ExtractAsWrittenSingleCommand`), and the solver only ever passes the single command "mul". With two or more commands the source can return a command the buffer does not end with, or throw, and the model does neither.
- `List.Sort()` is an introsort. The model sorts by insertion. The two agree on the result, because an ascending permutation of a list is unique (`Day01.SortedUnique`); they differ only in the order of the element moves.
- Day05: the tree nodes are values, not objects with a `Parent` link, and the walk rebuilds the path it descends. The `Parent` link is never set or read.
- `Math.Floor(Length / 2d)` is integer division, which is the same for a non-negative length.
- The "unexpected result type" and null-report branches: the solvers' own parsers never produce them. The `Dictionary`/`List` laziness of `IEnumerable` and `yield return`: enumerations are returned as whole sequences.
- Exceptions are preconditions, not behaviour. These are the cases listed under "How the model is organised": Day 5's missing rule sets and empty updates, `Array.Copy` from a short row, reading past a smaller grid in `Merge`, a cell outside the grid in `Get` and `Set`, a short line in `FromReader`, and an empty command list or empty command in Day 3.
- `Day07.Solve` follows the code. The solver never produces an answer, and a reading failure is reported as "Failed to read equations" before the unconditional "No solution found".

## Findings

| source | as written | input that shows it | evidently intended | confidence | as-written member | corrected member |
|---|---|---|---|---|---|---|
| advent-2024/Solvers/Day03Solver.cs:27-35 | a mismatching candidate is removed with `RemoveAt(ci)` and the `continue` then advances `ci`, so the candidate that moved into slot `ci` is not compared at this position; it can later be returned though the buffer does not end with it, or be indexed out of range | buffer "bcq" with commands "ax", "bcd": "bcd" is returned; buffer "zb" with "ax", "b": index out of range | every remaining candidate is compared at each position, so the answer is the shortest command the buffer ends with, or "" | not executed; with the single command "mul" the solver uses, the two agree (`Day03.ExtractAsWrittenSingleCommand`) | Day03.ExtractAsWrittenSkipsCandidate | Day03.ExtractCommandText |
