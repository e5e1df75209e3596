# Advent of Code 2022 solutions, modelled in Dafny

This project models the puzzle solutions of jrgold/advent-2022, a Rust
repository with one file per puzzle day. It covers days 1, 2, 3, 4, 6, 7,
12, 13, 14, 15, 16, 17, 18, 20, 21, 23 and 24. Each file is one Dafny module
named after its day (`Day07` in `day07.dfy`). Four shared modules sit beside
them:

- `Text` (`text.dfy`) models the string helpers the solutions call:
  `str::parse` for signed integers, `split`, `split_once`, `lines`,
  `starts_with`. It also has a decimal renderer used to state round trips.
- `Sorting` (`sorting.dfy`) models `sort_unstable` and `sort_by` as an
  insertion sort on sequences.
- `SetSums`, `Extremes` and `Arith` (`common.dfy`) hold sums over finite
  sets, `min`/`max` over a set, and modular arithmetic facts.
- `Wrappers` (`common.dfy`) holds the `Option` datatype.

The model follows the form of each source file:

- Parsing and scoring written as iterator chains are functions with lemmas.
  Examples are days 1 to 4, the packet order of day 13 and the bit masks of
  day 16.
- Loops that update variables or collections are methods with loop
  invariants, proved against a function or ghost predicate that states what
  the loop computes. Examples are the distance relaxation of day 12 (a
  worklist kept as a stack), the breadth-first path search of day 16, the
  flood fill of day 18, the minute-by-minute frontier of day 24, the sand
  simulation of day 14, the zone merging of day 15, the
  rock simulation of day 17, the rounds of day 23 and the mixing of day 20.
- Vectors the source fills and then indexes are `array`s where the source
  updates them in place. Examples are the position arrays of day 20 and the
  distance lookup table of day 16.
- `HashMap` and `HashSet` become `map` and `set`. Iteration over a hash
  collection picks any element, so no result depends on hash order.
- A panic (`unwrap` on `None`, `unreachable!`, an index out of bounds)
  becomes a precondition where the caller can state it. Where the panic
  depends on values computed inside the loop, it becomes a `None` result.

Integers are unbounded throughout. Where the source's `i32`/`i64` range
matters for parsing, the parser checks it (`Text.ParseBounded`).
Arithmetic overflow is not modelled; see "Left out".

## Model

| member | source | states |
|---|---|---|
| Text.ParseBounded | src/day_1.rs:6 | `str::parse::<i32>`: a result exists only for an optionally signed decimal numeral whose value lies in the type's range, and it is that numeral's value |
| Text.ParseShowInt | src/day_4.rs:4 | parsing the decimal rendering of any integer gives the integer back |
| Text.ParseShowBounded | src/day_1.rs:6 | parsing the rendering of a value in the type's range gives it back: the parser is a left inverse of rendering |
| Text.SplitOnce | src/day_4.rs:3 | `split_once`: the text is the part before, the separator and the part after, and the separator does not occur earlier; None exactly when it does not occur at all |
| Text.SplitOnceJoin | src/day_4.rs:9 | splitting `a + sep + b` where `a` holds no separator gives back `(a, b)` |
| Text.SplitAll | src/day_1.rs:3 | `split`: always at least one piece |
| Text.JoinSplitAll | src/day_1.rs:3 | the pieces of `split`, joined with the separator, give back the text: nothing is lost or invented |
| Text.SplitAllJoinChar | src/day_1.rs:3 | the other way round: splitting pieces joined by a character none of them holds gives the pieces back |
| Text.SplitAllJoinBlank | src/day_1.rs:3 | splitting at blank lines text made of paragraphs joined by blank lines gives the paragraphs back |
| Text.JoinLinesParagraph | src/day_1.rs:3-5 | non-empty lines joined by newlines hold no blank line and no newline at either end |
| Text.SplitAllNoSeparator | src/day_1.rs:5 | no piece of a split at one character holds that character |
| Text.StripCr | src/day_1.rs:5 | the line loses exactly one final carriage return, and only when it has one |
| Text.Lines | src/day_1.rs:5 | `lines`: no line holds a newline; the carriage return of a `\r\n` ending is dropped and the empty piece after a final newline is not a line |
| Text.SplitAllFirst | src/day_1.rs:5 | splitting text whose first piece holds no separator peels that piece off |
| Text.SplitTerminated | src/day_1.rs:5 | splitting lines each ended by `\n` or `\r\n` at newlines gives each line with the ending's carriage return, then one empty piece |
| Text.TerminatedFirst | src/day_1.rs:5 | ended lines begin with the first line, its carriage return if any, and a newline |
| Text.LinesTerminated | src/day_1.rs:5 | round trip: lines without newlines, each ended by `\n` or `\r\n`, read back as the same lines |
| Text.LinesJoined | src/day_1.rs:5 | round trip: non-empty lines joined by newlines read back as the same lines |
| Sorting.AscendingInts | src/day_1.rs:23 | `sort_unstable` on integers: the result is a permutation of the input (same multiset) in ascending order |
| Sorting.SortBy | src/day_13.rs:87-91 | `sort_by`: the result is a permutation of the input |
| Sorting.SortBySorted | src/day_13.rs:87-91 | with a total comparison, every element of the `sort_by` result may come before the next |
| Sorting.InsertAt | src/day_13.rs:87-91 | an element is inserted in front of the first element it may come before, past only elements it may not |
| Sorting.InsertBySplit | src/day_13.rs:87-91 | insertion puts the element at that place and keeps the others in their order |
| Sorting.SortByStable | src/day_13.rs:87-91 | `sort_by` is stable: the result takes each input position once, and two elements each of which may come before the other keep their input order |
| Sorting.StableInsert | src/day_13.rs:87-91 | inserting an earlier element in front of every element it may come before keeps an arrangement stable |
| Extremes.MinOf | src/day_23.rs:107-111 | `min()` over a non-empty set: a value attained by some element, and no element has a smaller value |
| Extremes.MaxOf | src/day_23.rs:107-111 | `max()` over a non-empty set: a value attained by some element, and no element has a larger value |
| Day01.GroupValues | src/day_1.rs:4-7 | one value per line of a group, in order, each the line parsed as an i32 |
| Day01.ElfTotals | src/day_1.rs:1-14 | one total per group of the text split at blank lines (at least one group) |
| Day01.ShowIntLine | src/day_1.rs:5-6 | a rendered value is a non-empty line with no newline and no final carriage return |
| Day01.GroupLines | src/day_1.rs:4-5 | the lines of one written group are its rendered values, and the group holds no blank line |
| Day01.GroupValuesRender | src/day_1.rs:4-7 | reading back one written group gives the elf's values |
| Day01.ElfTotalsRender | src/day_1.rs:1-14 | round trip: the elves' lists written as input (values one per line, elves separated by blank lines) are well formed and give back each elf's sum, in order |
| Day01.Max | src/day_1.rs:15 | the maximum is one of the totals and no total exceeds it |
| Day01.Part1 | src/day_1.rs:12-16 | part 1 is the largest elf total: it is one of them and bounds all of them |
| Day01.TopThree | src/day_1.rs:23-24 | the result is the sum of the last three elements of an ascending permutation of the totals |
| Day01.TopThreeAreLargest | src/day_1.rs:18-25 | the three summed totals are three of the totals, counted with multiplicity, and each remaining total is no larger than any of them |
| Day01.TopThreeWitness | src/day_1.rs:23-24 | the three last elements of the sorted totals are such three totals |
| Day01.Part2 | src/day_1.rs:19-25 | part 2 is the sum of three of the totals, counted with multiplicity, each no smaller than any other total |
| Day02.LosesAgainst | src/day_2.rs:9-15 | the move returned beats its argument under the rules of the game |
| Day02.WinsAgainst | src/day_2.rs:17-23 | the argument beats the move returned |
| Day02.BeatsIsCyclic | src/day_2.rs:9-23 | `b` is `wins_against(a)` exactly when `a` beats `b`, and `a` is `loses_against(b)` exactly then; two different moves always have a winner; no two moves beat each other |
| Day02.LosesWinsInverse | src/day_2.rs:9-23 | `loses_against` and `wins_against` undo each other and never return their argument |
| Day02.FromThemInput | src/day_2.rs:25-32 | decoding A, B, C inverts the letter encoding of the three moves; other letters are excluded, as the source reaches `unreachable!` on them |
| Day02.FromUsInput | src/day_2.rs:34-41 | decoding X, Y, Z inverts the letter encoding of the three moves; other letters are excluded |
| Day02.FromToInput | src/day_2.rs:25-41 | encoding a move as a letter and decoding it gives the move back |
| Day02.SelectionScore | src/day_2.rs:43-49 | rock scores 1, paper 2, scissors 3, and only those |
| Day02.RoundScoreFollowsRules | src/day_2.rs:69-71 | a round scores 0 exactly when the opponent beats us, 3 exactly on a draw and 6 exactly when we beat the opponent |
| Day02.StrategyFromText | src/day_2.rs:52-61 | one entry per line, holding the line's first and third characters |
| Day02.Part1Score | src/day_2.rs:66-73 | a round scores between 1 and 9 |
| Day02.Part1 | src/day_2.rs:64-75 | the total lies between the number of rounds and nine times it |
| Day02.ChosenMoveReachesOutcome | src/day_2.rs:80-88 | the move part 2 picks loses on X, draws on Y and wins on Z, and part 2's score equals part 1's scoring of that move |
| Day02.Part2Score | src/day_2.rs:78-90 | a round scores between 1 and 9: part 1's scoring of the move chosen for the outcome the second letter asks for (which outcome that move reaches is stated by `Day02.ChosenMoveReachesOutcome`) |
| Day02.Part2 | src/day_2.rs:78-90 | the total lies between the number of rounds and nine times it |
| Day03.Priority | src/day_3.rs:10-16 | a..z score 1..26 and A..Z score 27..52 |
| Day03.PriorityIsBijection | src/day_3.rs:10-16 | priority maps the item letters one-to-one onto 1..52 (it has an inverse on both sides) |
| Day03.SmallestCommon | src/day_3.rs:23-25 | the first element of an ordered-set intersection: the smallest item of the first group found in all others; None exactly when no item is common |
| Day03.MisplacedItem | src/day_3.rs:22-25 | the smallest item found in both halves of a rucksack split at `len / 2` |
| Day03.Part1 | src/day_3.rs:19-29 | the sum of the misplaced items' priorities, between 1 and 52 per rucksack |
| Day03.BadgeOf | src/day_3.rs:35-38 | the smallest item common to every rucksack of the group; None exactly when there is none |
| Day03.Chunks | src/day_3.rs:34 | `chunks(3)`: groups of one to three rucksacks (all of three when the count is a multiple of three) whose concatenation is the input |
| Day03.BadgeSum | src/day_3.rs:40-41 | the sum of the badges' priorities, between 1 and 52 per group |
| Day03.Part2 | src/day_3.rs:32-42 | the sum over the groups of three, between 1 and 52 per group |
| Day04.ParseRange | src/day_4.rs:2-5 | a parsed range comes from text `x-y` split at the first dash (`x` holds none), both sides i32 numerals |
| Day04.ParsePair | src/day_4.rs:8-11 | a parsed line comes from text `a,b` split at the first comma (`a` holds none), both sides parsed ranges |
| Day04.NoOccurrenceNoSeparator | src/day_4.rs:3 | the part before the first occurrence of a separator holds none of it |
| Day04.ParseShowRange | src/day_4.rs:2-5 | parsing the rendering of a range of non-negative i32 values gives the range back |
| Day04.ParseShowPair | src/day_4.rs:8-11 | parsing the rendering of a pair of such ranges gives the pair back |
| Day04.TestsAreSymmetric | src/day_4.rs:17-29 | neither part's test depends on which range comes first |
| Day04.TestsMatchSections | src/day_4.rs:17-29 | for well-formed ranges, part 1's test holds exactly when one range's sections all lie in the other, and part 2's test holds exactly when the ranges share a section |
| Day04.Count | src/day_4.rs:16-19 | a count never exceeds the number of pairs |
| Day04.CountMonotone | src/day_4.rs:15-30 | counting with a weaker test gives at least as much |
| Day04.CountMatches | src/day_4.rs:16-19 | the count is the number of positions whose pair passes the test |
| Day04.Part1 | src/day_4.rs:15-20 | the number of lines one of whose ranges contains the other |
| Day04.Part2 | src/day_4.rs:23-31 | the number of lines whose ranges overlap |
| Day04.Part1AtMostPart2 | src/day_4.rs:15-31 | with well-formed ranges, part 2's count is at least part 1's |
| Day06.DistinctPairwise | src/day_6.rs:12-14 | a window is free of repeats exactly when no two of its positions hold the same byte |
| Day06.Distinct4IsDistinct | src/day_6.rs:12-14 | part 1's six comparisons hold exactly when the four bytes are pairwise different |
| Day06.ElemsCardinality | src/day_6.rs:32 | a window has at most as many different bytes as positions, and exactly as many when it has no repeat |
| Day06.Part1From | src/day_6.rs:9-16 | the first window of four searched from a start index: it ends a marker, and no window ending earlier (from that start) does |
| Day06.Part1 | src/day_6.rs:8-17 | part 1 is the end of a marker of four, and no smaller index ends one |
| Day06.CountsDecideMarker | src/day_6.rs:36 | the count map has `marker_size` keys exactly when its window is a marker |
| Day06.Insert | src/day_6.rs:21-23 | the `insert` closure: the map counts the window extended by the byte |
| Day06.Remove | src/day_6.rs:24-27 | the `remove` closure: the map counts the window without its first byte, and bytes that no longer occur have no entry |
| Day06.Slide | src/day_6.rs:33-35 | one step: the map counts the window moved one place to the right |
| Day06.FirstMarkerFrom | src/day_6.rs:19-41 | the reference definition: the least marker end at or after a start index |
| Day06.FindMarker | src/day_6.rs:19-41 | `find_marker`: returns the end of a marker of the given size, and no smaller index ends one; the caller must supply a stream that has a marker, where the source reaches `unreachable!` |
| Day06.Scan | src/day_6.rs:33-40 | the sliding loop stops exactly at the first marker end past the first window |
| Day06.Part1IsFindMarker4 | src/day_6.rs:8-17 | part 1's six-comparison search and `find_marker` with size four agree |
| Day06.Part2 | src/day_6.rs:44-54 | part 2 is the first end of a marker of fourteen |
| Day07.ParseInfo | src/day_7.rs:36-41 | a `dir` line is `dir ` followed by the name; a file line's size fits in an `i32` (a size that does not parse is the panic, None) |
| Day07.OutputFromLines | src/day_7.rs:25-47 | the loop builds exactly the commands of the fold over the lines |
| Day07.Step | src/day_7.rs:26-44 | one line of the fold: `$ ls` and a line starting `$ cd` open a new command after all the earlier ones, failing exactly on a bare `$ cd`; any other line adds its parsed entry to the end of the open `ls`, failing exactly when no `ls` is open or the line does not parse |
| Day07.FoldPrefix | src/day_7.rs:25-47 | a transcript the fold reads without a panic has every prefix readable too |
| Day07.ParseRenderInfo | src/day_7.rs:36-41 | a listing entry written out as `dir NAME` or `SIZE NAME` is read back as the same entry, and is never mistaken for a command |
| Day07.ParseRenderDir | src/day_7.rs:36-37 | `dir NAME` is read back as that directory entry |
| Day07.ParseRenderFile | src/day_7.rs:38-41 | `SIZE NAME` is read back as that file entry, the name being everything after the first space |
| Day07.StepInfo | src/day_7.rs:34-43 | a listing line extends the open `ls` by its entry |
| Day07.FoldInfos | src/day_7.rs:34-43 | reading a listing's lines after `$ ls` gives an `ls` holding those entries in order |
| Day07.FoldAppend | src/day_7.rs:25-47 | reading one more line applies one step to what was read so far |
| Day07.StepCd | src/day_7.rs:32-33 | `$ cd NAME` (other than `/` and `..`) is read as a move into NAME |
| Day07.FoldLs | src/day_7.rs:26-27 | a written `ls` with its listing is read back as that command |
| Day07.FoldCd | src/day_7.rs:28-33 | a written `cd` is read back as that command |
| Day07.FoldCommand | src/day_7.rs:26-44 | any writable command is read back as itself |
| Day07.FoldRender | src/day_7.rs:23-48 | round trip: writing a command list out as a transcript and reading it back gives the same list |
| Day07.AddNew | src/day_7.rs:58-60 | the directory gains exactly the listed names; entries already present are kept unchanged, and each new one is taken from the listing |
| Day07.NamedInit | src/day_7.rs:58-60 | the names of a listing are those of all but its last entry, and the last one's |
| Day07.FromInit | src/day_7.rs:58-60 | an entry taken from all but the last listing entry is taken from the listing |
| Day07.MergeLsInto | src/day_7.rs:50-61 | `merge_ls_into` walks the path and adds the new entries: the result is the merge specification |
| Day07.ExtendsReflexive | src/day_7.rs:50-61 | every tree extends itself |
| Day07.ExtendsTransitive | src/day_7.rs:50-61 | extending is transitive, so a sequence of merges only grows the tree |
| Day07.ReplaceExtends | src/day_7.rs:51-56 | giving the directory at the path more entries, keeping the old ones, extends the tree and leaves those entries at the path |
| Day07.MergeNeverReplaces | src/day_7.rs:58-60 | a merge never drops or replaces an entry, and the directory at the path holds its old entries plus the listed names |
| Day07.Contents | src/day_7.rs:74-79 | a listing becomes entries with the same names: empty directories and files of the listed sizes |
| Day07.ReplayPrefix | src/day_7.rs:63-87 | a command list that replays without a panic has every prefix replayable |
| Day07.FilesystemFromOutput | src/day_7.rs:63-87 | `filesystem_from_output`: the loop's tree is the replay of the commands from an empty root |
| Day07.ReplayRootIsDirectory | src/day_7.rs:66-86 | the root stays a directory, which `all_directory_sizes` relies on |
| Day07.ReplayOnlyGrows | src/day_7.rs:68-84 | replaying more commands never loses or replaces what an earlier prefix built |
| Day07.SizeOfEntriesRemove | src/day_7.rs:91-100 | the total of a directory does not depend on the order in which its entries are visited |
| Day07.ResolveBelow | src/day_7.rs:93-96 | looking below entry NAME of a directory is looking inside that entry |
| Day07.RecordEntry | src/day_7.rs:91-100 | one loop step: a file records nothing, a subdirectory records every directory below it with its size |
| Day07.AllDirectorySizesRec | src/day_7.rs:89-103 | returns the directory's total size and records, under its full path, the size of every directory at or below it, keeping earlier records |
| Day07.AllDirectorySizes | src/day_7.rs:105-111 | the map has a key exactly for each directory path of the tree, the root under the empty path, holding that directory's size |
| Day07.Part1 | src/day_7.rs:114-119 | the sum, over the recorded directories, of the sizes at most 100000 |
| Day07.Part2 | src/day_7.rs:122-128 | the smallest recorded size that is at least 30000000 minus the free space left on a disk of 70000000 |
| Day12.Height | src/day_12.rs:13-23 | a letter's height lies between 0 and 25, and so do the heights of `S` and `E` |
| Day12.HeightsFollowLetters | src/day_12.rs:13-23 | heights follow the order of the letters, `S` is as low as `a` and `E` as high as `z` |
| Day12.HeightmapFromLines | src/day_12.rs:3-29 | the map has a key exactly for each square of the lines, holding its height, and start and end are the squares marked `S` and `E` |
| Day12.NextRow | src/day_12.rs:10-26 | finishing a row of the reading loop is starting the next one |
| Day12.ReadRow | src/day_12.rs:11-25 | the inner reading loop stores the height of every square of the row and notes `S` and `E` |
| Day12.EqualLinesMakeAGrid | src/day_12.rs:8-26 | lines of one length give a rectangular map with its corner at (0, 0) |
| Day12.Extent | src/day_12.rs:32-33 | the largest column and the largest row among the keys, each attained |
| Day12.GridBounds | src/day_12.rs:32-44 | on a rectangular map the bounds test keeps exactly the squares of the map |
| Day12.KeepSteps | src/day_12.rs:44-45 | the filters keep exactly the squares in bounds that are at most one below the current height |
| Day12.Bordering | src/day_12.rs:42-46 | the bordering squares are exactly the in-bounds neighbours from which the climber may step onto the current square |
| Day12.ClimbsWithinMonotone | src/day_12.rs:31-57 | a climb within d steps is a climb within any larger number of steps |
| Day12.PotentialNonNegative | src/day_12.rs:39-54 | the termination measure of the search is never negative |
| Day12.WriteKeepsConsistent | src/day_12.rs:48-51 | recording a strictly better distance keeps every recorded distance backed by a neighbour one step nearer the end |
| Day12.WriteLowersPotential | src/day_12.rs:48-51 | the same write lowers the termination measure, so the worklist loop ends |
| Day12.WriteKeepsSettled | src/day_12.rs:48-51 | lowering one square's distance leaves every other settled square settled |
| Day12.RecordedDistancesAreClimbs | src/day_12.rs:31-57 | every recorded distance is the length of a real climb to the end |
| Day12.ClimbsAreRecorded | src/day_12.rs:31-57 | once every recorded square is settled, every climb to the end is recorded at no more than its length |
| Day12.SearchIsExact | src/day_12.rs:31-57 | at the fixed point the recorded distances are exactly the shortest climbs |
| Day12.Relax | src/day_12.rs:47-53 | each bordering square ends at most one more than the current square, the stack only grows by squares that were improved, and the measure drops by at least the pushes |
| Day12.RelaxOne | src/day_12.rs:48-52 | one bordering square is recorded at no more than one more than the current square, and no distance rises |
| Day12.RelaxWrite | src/day_12.rs:49-51 | writing a better distance and pushing the square keeps the inner loop's invariant |
| Day12.VisitSettles | src/day_12.rs:39-54 | after visiting the top of the stack, every recorded square off the stack is settled |
| Day12.MinDistancesToEnd | src/day_12.rs:31-57 | the end is at 0, and a square is recorded exactly when it can reach the end, at the length of its shortest climb |
| Day12.Part1 | src/day_12.rs:60-64 | the fewest steps from `S` to `E` |
| Day12.Part2 | src/day_12.rs:67-74 | the fewest steps to `E` from any square of height 0 that can reach it |
| Day13.Height | src/day_13.rs:2-5 | a list packet has nesting depth at least 1 |
| Day13.MaxHeight | src/day_13.rs:2-5 | no element of a list is deeper than the list's maximum |
| Day13.HeightOfSingleton | src/day_13.rs:15-16 | wrapping an integer gives a list of depth 1, which is what makes the mixed cases terminate |
| Day13.Compare | src/day_13.rs:12-26 | `compare_elements`: a packet is never decided against itself, comparing it with itself says `None` |
| Day13.CompareFrom | src/day_13.rs:18-23 | the zipped walk over a list and itself finds no decision |
| Day13.CompareSwap | src/day_13.rs:12-26 | swapping the packets flips a decided answer and leaves an undecided one undecided |
| Day13.CompareFromSwap | src/day_13.rs:18-23 | the same for the zipped walk over two lists |
| Day13.ProperPrefixComesFirst | src/day_13.rs:20-23 | a list comes before every longer list that it begins |
| Day13.IntegerActsAsSingleton | src/day_13.rs:15-16 | an integer compares with any packet exactly as the one-element list holding it |
| Day13.AppendToTop | src/day_13.rs:42 | only the innermost open list changes, gaining the element at its end |
| Day13.FindDelimiter | src/day_13.rs:48 | the position of the first `,` or `]`, or None when there is none |
| Day13.ParsePacket | src/day_13.rs:28-55 | `parse_packet`'s loop gives what the reading function gives from the whole line and no open list |
| Day13.ReadInteger | src/day_13.rs:47-52 | an integer followed by a delimiter is read as one element of the innermost list |
| Day13.ReadElement | src/day_13.rs:28-55 | a written element followed by a delimiter is appended to the innermost open list |
| Day13.ReadList | src/day_13.rs:33-45 | a written list is read as one element of the list around it |
| Day13.ReadOpen | src/day_13.rs:33-36 | `[` opens a new, empty innermost list |
| Day13.ReadClose | src/day_13.rs:37-45 | `]` closes the innermost list into the one around it |
| Day13.AppendAll | src/day_13.rs:42-50 | only the innermost open list changes, gaining all the elements in order |
| Day13.ReadItems | src/day_13.rs:31-54 | written elements separated by commas are appended, in order, to the innermost open list |
| Day13.ReadCommaThenItems | src/day_13.rs:46 | the first element and the comma after it, then the rest of the items |
| Day13.RunComma | src/day_13.rs:46 | a comma is skipped |
| Day13.ParseRender | src/day_13.rs:28-55 | round trip: parsing a written list packet gives it back, whatever text follows it |
| Day13.Part1 | src/day_13.rs:67-74 | the sum of the 1-based indices of the pairs in the right order lies between 0 and 1 + 2 + ... + n |
| Day13.Part1Swapped | src/day_13.rs:67-74 | each decided pair is in the right order exactly one way round, so part 1 of the pairs plus part 1 of the swapped pairs is 1 + 2 + ... + n |
| Day13.LeTotal | src/day_13.rs:87-91 | the order the sort uses is total: of any two packets, one may come before the other |
| Day13.FlattenPairs | src/day_13.rs:81-82 | the packets of the pairs, left then right, in order |
| Day13.AllPackets | src/day_13.rs:81-86 | the packets of the pairs followed by the two dividers |
| Day13.Position | src/day_13.rs:92-93 | the first position holding the packet |
| Day13.Part2Sorted | src/day_13.rs:77-95 | the sorted sequence is a permutation of the packets and dividers, in order, and holds both dividers, so the two positions exist |
| Day13.Part2 | src/day_13.rs:77-95 | the decoder key lies between 1 and the square of the number of packets and dividers, and is the product of the 1-based first positions of the two dividers in an ordering of exactly those packets that is sorted between neighbours and stable: a packet that compares equal to a divider keeps its input place before or after it |
| Day13.DecoderKey | src/day_13.rs:92-94 | the product of two 1-based positions, between 1 and the square of the length |
| Day13.MarkersInOrder | src/day_13.rs:79-80 | the divider `[[2]]` comes before `[[6]]` |
| Day14.Column | src/day_14.rs:28-30 | the points of a column between two rows, each once, both ends included |
| Day14.Row | src/day_14.rs:31-33 | the points of a row between two columns, each once, both ends included |
| Day14.SegmentPoints | src/day_14.rs:24-35 | a window of two corners yields exactly the points of its segment (a column when the columns agree, else a row), each once |
| Day14.CoordsFromPathMembers | src/day_14.rs:21-37 | a point is yielded exactly when it lies on the segment of some window of the path (points shared by two windows are yielded twice) |
| Day14.CornersAreRock | src/day_14.rs:21-37 | on an axis-aligned path of two or more corners, every corner is rock |
| Day14.Elements | src/day_14.rs:14 | the set of the yielded points |
| Day14.CaveFromPathsMembers | src/day_14.rs:3-18 | a square is rock exactly when some path yields it |
| Day14.Below | src/day_14.rs:43-51 | a grain moves down, else down-left, else down-right, onto a free square, and stops exactly when all three are taken |
| Day14.Fall | src/day_14.rs:39-56 | a grain that comes to rest does so above the bailout row, inside the cone below where it started, on a blocked square that is free or where it started |
| Day14.FallsIntoTheVoid | src/day_14.rs:39-56 | a grain at or below the lowest rock reaches the bailout row |
| Day14.RestsWhereBlocked | src/day_14.rs:51-54 | a grain on a blocked square above the bailout row rests where it is |
| Day14.AddSandVoid | src/day_14.rs:39-56 | the loop returns true exactly when the grain comes to rest, and then adds its resting square to the cave, else leaves the cave as it was |
| Day14.FloorLands | src/day_14.rs:58-76 | with a floor, every grain rests on a free square, on the row just above the floor or on a blocked square |
| Day14.AddSandFloor | src/day_14.rs:58-76 | the loop adds the grain's resting square above the floor to the cave |
| Day14.FloorAddsOne | src/day_14.rs:58-76 | while the entry is free, each grain fills one more square |
| Day14.MaxRow | src/day_14.rs:81 | the largest row of the rock, attained by some square |
| Day14.Cone | src/day_14.rs:97-100 | the squares a grain from the entry can reach above the floor |
| Day14.Part1 | src/day_14.rs:79-89 | the cave filled is the simulation of exactly the counted number of grains, each of which came to rest, and the next grain falls past the lowest rock; every rested grain is on a blocked square inside the cone below the entry, and the count is the number of squares filled |
| Day14.VoidDropsNext | src/day_14.rs:84-86 | one more grain that comes to rest extends the simulation by its resting square |
| Day14.VoidStep | src/day_14.rs:84-86 | one grain that rests keeps part 1's loop invariant and raises the count by one |
| Day14.GrowingKeepsBlocked | src/day_14.rs:84-86 | squares that were blocked stay blocked as sand is added |
| Day14.Part2 | src/day_14.rs:92-103 | the cave filled is the simulation of exactly the counted number of grains, the entry was free before each of them and is filled after the last; the count is the number of squares filled, all inside the cone, each resting on the floor or on a blocked square |
| Day14.FloorDropsNext | src/day_14.rs:97-100 | one more grain dropped while the entry is free extends the simulation by its resting square |
| Day14.FloorStep | src/day_14.rs:97-100 | one grain keeps part 2's loop invariant and fills one more square of the cone, which is the loop's termination measure |
| Day14.AddKeepsResting | src/day_14.rs:97-100 | grains that rest keep resting when another comes to rest |
| Day14.FillOne | src/day_14.rs:97-100 | filling a new square of the cone raises the count by one and leaves one square fewer free |
| Day15.Overlap | src/day_15.rs:18-24 | a hull exactly when the two zones share an integer; the hull holds both zones and covers exactly their integers |
| Day15.OverlapCommutes | src/day_15.rs:18-24 | the order of the two zones does not matter |
| Day15.Absorb | src/day_15.rs:30-37 | the growing zone holds the new zone and every merged zone it absorbed, covers exactly their integers, and is apart from every merged zone it did not absorb |
| Day15.GrowKeepsApart | src/day_15.rs:32-37 | a merged zone found apart from the growing zone stays apart when the growing zone absorbs another, since the merged zones are disjoint |
| Day15.ReplaceKeepsDisjoint | src/day_15.rs:38-39 | removing the absorbed zones and inserting the grown one keeps the set disjoint and adds exactly the new zone's integers |
| Day15.MergeZones | src/day_15.rs:26-43 | the merged zones are pairwise disjoint, cover exactly the integers the input zones cover, and each input zone lies within one of them |
| Day15.MergedStart | src/day_15.rs:27 | the empty set is what merging no zones gives |
| Day15.MergedDisjoint | src/day_15.rs:29-40 | the set built so far is disjoint |
| Day15.MergedAll | src/day_15.rs:29-42 | after every zone, the loop invariant gives the properties of `merge_zones` |
| Day15.MergeStep | src/day_15.rs:29-40 | one round of the outer loop takes one more zone into the invariant |
| Day15.InsideKept | src/day_15.rs:38-39 | after a round, every zone seen so far still lies within some merged zone |
| Day15.CoverPrefix | src/day_15.rs:29 | the integers covered by one more zone of the input |
| Day15.Cells | src/day_15.rs:69 | a nonempty zone has end - start + 1 integers |
| Day15.CoveredCells | src/day_15.rs:66 | the integers some zone of the set covers |
| Day15.CoveredCellsRemove | src/day_15.rs:69 | the covered integers are those of one zone plus those of the rest |
| Day15.DisjointLengths | src/day_15.rs:69 | for disjoint nonempty zones the sum of the lengths counts the covered integers |
| Day15.SumLengths | src/day_15.rs:69 | the coverage loop's sum is the sum of the zone lengths |
| Day15.RowZone | src/day_15.rs:50-57 | the zone of the target row within the sensor's beacon distance, nonempty, None when the row is out of reach |
| Day15.RowZones | src/day_15.rs:49-58 | every zone of a sensor that reaches the row is nonempty |
| Day15.RowZonesCover | src/day_15.rs:49-58 | the row zones cover exactly the squares of the row that some sensor reaches |
| Day15.Part1 | src/day_15.rs:46-72 | the number of squares of the row some sensor reaches, less the beacons already on them |
| Day15.InRangeOfAny | src/day_15.rs:74-76 | true exactly when some sensor is within its beacon distance of the point |
| Day15.JustBeyondIsTheBorder | src/day_15.rs:78-84 | the four diagonal edges hold exactly the points one step beyond the sensor's range |
| Day15.CandidatesMembers | src/day_15.rs:96-97 | every border point of every sensor is searched |
| Day15.FirstGap | src/day_15.rs:96-100 | the first searched point, in candidate order, that lies in the box and that no sensor reaches; None when every searched point in the box is reached |
| Day15.SensorsOf | src/day_15.rs:92-94 | each sensor paired with the distance to its beacon |
| Day15.UniqueGapIsFound | src/day_15.rs:87-103 | when exactly one square of the box is out of every sensor's reach, the search finds it and part 2 is its tuning frequency |
| Day15.Part2 | src/day_15.rs:87-103 | the tuning frequency of a square of the box, just beyond some sensor's border, that no sensor reaches |
| Day16Paths.MaxDegree | src/day_16.rs:48 | no valve has more neighbours than the bound |
| Day16Paths.QueueWeightAppend | src/day_16.rs:56 | pushing a path adds its weight to the termination measure of the search |
| Day16Paths.PathLength | src/day_16.rs:53 | a path of distinct valves has at most as many valves as the network |
| Day16Paths.GetAShortestPath | src/day_16.rs:41-60 | a path found is a walk of at least one step from start to target through tunnels, repeating no valve when start and target differ, and then no walk from start to target is shorter; None only when no path leads from start to target |
| Day16Paths.Extend | src/day_16.rs:48-58 | the inner loop: it returns the popped path followed by the target when the target is a neighbour, else queues every extension by a valve not yet on the path, losing no path that could still reach the target, keeping the queue ordered by length within one valve of the popped path, and lowering the termination measure |
| Day16Paths.Shortcut | src/day_16.rs:53 | cutting the loops out of a walk leaves a path between the same two valves that is no longer |
| Day16Paths.LayeredRest | src/day_16.rs:46 | taking the front path off a breadth-first queue leaves paths of its length or one more, in order of length |
| Day16Paths.BandLayered | src/day_16.rs:46-58 | such a queue is again a breadth-first queue |
| Day16Paths.BandPush | src/day_16.rs:54-56 | pushing a path one valve longer than the popped one keeps the queue in that band |
| Day16Paths.FoundPath | src/day_16.rs:49-51 | the path returned on reaching the target is a walk from start to target repeating no valve before the target, a path when start and target differ, and then a shortest one |
| Day16Paths.FoundIsShortest | src/day_16.rs:49-51 | when the target is next to the front path of a breadth-first queue that covers every open path, no walk reaches the target in fewer valves than that path plus the target |
| Day16Paths.Arrives | src/day_16.rs:49-51 | a queued path followed by the target is a walk from start to target |
| Day16Paths.NoneLeftPending | src/day_16.rs:48-58 | once every neighbour has been tried, every open path is in the queue or was looked at |
| Day16Paths.StartExtending | src/day_16.rs:46-47 | taking the front path off the queue leaves every open path it began pending on its neighbours |
| Day16Paths.ExtendCovers | src/day_16.rs:53-57 | pushing an extension keeps covered every open path that continued that way |
| Day16Paths.SkipCovers | src/day_16.rs:53 | skipping a neighbour already on the path loses no open path, since such a path would repeat a valve |
| Day16Paths.GaveUp | src/day_16.rs:46 | with the queue empty and the target never next, no path leads to the target |
| Day16Paths.ShortestPathLengths | src/day_16.rs:29-39 | every two valves of interest get an entry both ways round, the table is symmetric, each entry between two different valves is their distance one way or the other, and only valves of interest are keys; when no valve is listed twice, the entry from an earlier valve to a later one is exactly the distance from the earlier to the later |
| Day16Paths.ForwardAdd | src/day_16.rs:33-35 | with no valve listed twice, storing a shortest walk's length both ways round keeps every entry from an earlier valve to a later one the distance that way, since the backward key of a pair is never the forward key of another |
| Day16Paths.NextRowDone | src/day_16.rs:31-37 | after a row of the outer loop, one more valve of interest has all its later pairs recorded |
| Day16Paths.AddRow | src/day_16.rs:32-36 | the inner loop records the pairs of one valve with every later valve of interest, keeping earlier entries and the table's invariant |
| Day16Paths.AddPair | src/day_16.rs:33-35 | one pair: the length of the shortest walk found is stored both ways round, keeping the table's invariant |
| Day16Paths.StoreWalk | src/day_16.rs:33-35 | storing the length of a walk no walk undercuts both ways round keeps the table symmetric with distances and its keys valves of interest |
| Day16Paths.WalkMeasures | src/day_16.rs:33 | a walk that no walk between the same ends undercuts gives their distance |
| Day16Paths.WalkJoins | src/day_16.rs:33 | a walk joins its two ends by its number of steps (its length less one) |
| Day16Paths.KeysFromAdd | src/day_16.rs:34-35 | adding a pair of valves of interest keeps every key a pair of valves of interest |
| Day16Paths.SymmetricAdd | src/day_16.rs:34-35 | storing a distance both ways round keeps the table symmetric |
| Day16Paths.Backwards | src/day_16.rs:33-35 | the valves of a walk in the opposite order |
| Day16Paths.BackwardsWalk | src/day_16.rs:33-35 | in a network whose tunnels go both ways, a walk read backwards is a walk |
| Day16Paths.UndirectedDistance | src/day_16.rs:33-35 | in such a network the distance is the same both ways, so storing it both ways round is exact |
| Day16Paths.MeasuresUndirected | src/day_16.rs:34-35 | in such a network an entry that is the distance one way is the distance both ways |
| Day16Paths.IndexBounds | src/day_16.rs:65 | the slot of a pair of valves lies inside the table |
| Day16Paths.AllIndexBounds | src/day_16.rs:63-65 | every pair of valves has its slot inside the table |
| Day16Paths.IndexInjective | src/day_16.rs:65 | different pairs have different slots |
| Day16Paths.EverySlotIsAPair | src/day_16.rs:63-65 | every slot is the slot of one pair |
| Day16Paths.TableWrite | src/day_16.rs:65 | writing one pair's value into its slot fills in that pair only |
| Day16Paths.LookupArray | src/day_16.rs:62-68 | the table has size*size slots; each pair's slot holds its value from the map, or the default when the map has none |
| Day16Search.OpenValve | src/day_16.rs:83-88 | moving to a closed valve and opening it closes one valve fewer and adds the minutes left times its rate to the total |
| Day16Search.HighestBit | src/day_16.rs:80-82 | `63 - leading_zeros` picks the highest closed valve of a nonempty mask |
| Day16Search.SkipClosed | src/day_16.rs:80-82 | mask bits of valves already open add nothing to the choice |
| Day16Search.BiggestVentPressure | src/day_16.rs:70-97 | the shared maximum ends as the larger of its old value and the best total reachable from the state |
| Day16Search.NextBit | src/day_16.rs:81-94 | one bit of the loop folds the choice of that valve into the maximum |
| Day16Search.BestAboveBounds | src/day_16.rs:79-96 | the best from a state is at least its own total and at least what each move that still has time leads to |
| Day16Search.BestAboveWitness | src/day_16.rs:79-96 | the best from a state is its own total or what one of its moves leads to |
| Day16Search.BestIsAnUpperBound | src/day_16.rs:70-97 | no order of opening valves, each while time is left, releases more than the best total |
| Day16Search.BestIsAchieved | src/day_16.rs:70-97 | some order of opening valves releases exactly the best total |
| Day16Team.Key | src/day_16.rs:110 | `target_mask & !remaining_mask`: the valves of interest the state has opened |
| Day16Team.Record | src/day_16.rs:110-112 | the entry for the key becomes the larger of its old value and the total, or the total when new; other entries are unchanged |
| Day16Team.BuildVentSetPressures | src/day_16.rs:99-131 | the table only grows; every order the searcher can follow from the state has its total recorded at least under the vent set it opens; and every changed entry is the total of such an order |
| Day16Team.RecordStart | src/day_16.rs:110-112 | the first update records the state's own total under its vent set |
| Day16Team.LoopStart | src/day_16.rs:109-113 | before the loop, the orders starting with no valve are recorded |
| Day16Team.RunFirst | src/day_16.rs:116-127 | an order starting with a valve is that move followed by an order from the state it leads to |
| Day16Team.LoopStep | src/day_16.rs:114-129 | one bit of the loop keeps the invariant: orders starting at or above that valve are recorded and every entry explained |
| Day16Team.OpenExplained | src/day_16.rs:127 | entries added by the recursion into a valve are explained by orders starting with that valve |
| Day16Team.OpenRecorded | src/day_16.rs:127 | after the recursion into a valve, the orders starting with it are recorded |
| Day16Team.LoopDone | src/day_16.rs:113-130 | with every closed valve tried, every order is recorded |
| Day16Team.Entries | src/day_16.rs:134 | the table's entries, each once |
| Day16Team.BestPairStep | src/day_16.rs:137-143 | pairing one more entry with the later ones extends the best pair so far |
| Day16Team.PairWithLater | src/day_16.rs:138-142 | the inner loop: the maximum grows to at least every sum of the entry with a later disjoint entry, and is its old value or one such sum |
| Day16Team.FastestTeamEffort | src/day_16.rs:133-145 | the largest sum of two different vent sets with no valve in common, at least 0, and 0 or attained by such a pair |
| Day16Team.FromEntries | src/day_16.rs:134-144 | the best pair among the entries is the best pair of the table |
| Day16Team.PairBound | src/day_16.rs:137-143 | each pair of the table is bounded by the best pair of the entries, in whichever order the two come |
| Day16Team.Targets | src/day_16.rs:152 | the valves worth visiting: those with a flow and the starting valve, in increasing order |
| Day16Team.TargetMask | src/day_16.rs:157 | the target mask holds exactly the valves with a flow |
| Day16Team.DistanceArray | src/day_16.rs:152-154 | the flattened distance array holds, both ways round, the distance from each valve worth visiting to every later one (the valves are listed in increasing order, each once) |
| Day16Team.Part1 | src/day_16.rs:148-163 | the best total one searcher can release in 30 minutes from the starting valve, moving along shortest walks between the valves worth visiting |
| Day16Team.Part2 | src/day_16.rs:166-185 | with the distances between the valves worth visiting, every order one searcher can follow in 26 minutes is recorded under its vent set, and the answer is the best sum of two disjoint recorded vent sets |
| Day17.JetOf | src/day_17.rs:8 | `<` pushes left and every other character pushes right |
| Day17.Dx | src/day_17.rs:51 | a jet moves the rock one column, left or right |
| Day17.Wrap | src/day_17.rs:35-36 | a position within a repeating cycle |
| Day17.WrapIsMod | src/day_17.rs:130-131 | the position within a cycle is the remainder the program computes |
| Day17.RocksWellShaped | src/day_17.rs:17-23 | the five shapes have their cells in a 4-by-4 box from the corner, with a cell on the bottom row and one on the top row of their stated height |
| Day17.RockWellShaped | src/day_17.rs:17-23 | the same, one shape at a time |
| Day17.CellsIff | src/day_17.rs:60-61 | a cell is covered exactly when it is one of the rock's offsets moved to the corner |
| Day17.CellsClearIff | src/day_17.rs:26-28 | the ordered check in `shift_sideways` means every moved cell is inside the walls and free |
| Day17.AnyBelowIff | src/day_17.rs:55-57 | the ordered check means some cell just below the rock is settled |
| Day17.ShiftSideways | src/day_17.rs:25-30 | the rock moves by the jet exactly when every moved cell is inside the walls and free, and stays put otherwise |
| Day17.ShiftKeepsClear | src/day_17.rs:25-30 | a rock that is clear stays clear when a jet pushes it |
| Day17.FloorStops | src/day_17.rs:39 | a rock just above the floor row cannot drop further |
| Day17.DropOne | src/day_17.rs:64-66 | a rock with nothing below it is above the floor and stays clear one row lower |
| Day17.Fall | src/day_17.rs:49-67 | the rock comes to rest clear and obstructed, no higher than it appeared and not below row 1, having used at least one jet |
| Day17.Initial | src/day_17.rs:38-41 | before the first rock only the floor is settled and the height is 0 |
| Day17.SpawnClear | src/day_17.rs:44-45 | a rock appearing two units from the left wall with three empty rows below it is clear |
| Day17.RockAt | src/day_17.rs:36 | the shapes repeat, each well shaped |
| Day17.NoRestInTheAir | src/day_17.rs:55-63 | a rock rests no higher than one above the tower |
| Day17.CellsInside | src/day_17.rs:59-61 | the cells of a clear rock lie between the walls and within its height |
| Day17.Settle | src/day_17.rs:58-63 | the rock's cells join the settled ones, and the height grows by at most the rock's height |
| Day17.Step | src/day_17.rs:44-67 | one rock: the height never drops and grows by at most the shape's height, one more rock and at least one more jet are used, and nothing settled moves |
| Day17.After | src/day_17.rs:43-68 | after n rocks the tower is at most 4n high |
| Day17.DropRock | src/day_17.rs:44-67 | the drop loop leaves the chamber one rock further on |
| Day17.StepIs | src/day_17.rs:44-67 | the chamber after a step, given where the rock came to rest |
| Day17.Drop | src/day_17.rs:49-67 | the inner loop gives where the rock rests and how many jets it used |
| Day17.FallUnfold | src/day_17.rs:50-66 | one step of the fall: the rock is pushed, then rests or drops one row |
| Day17.DropRocks | src/day_17.rs:43-68 | the loop of `part_1`: the tower's height after the given number of rocks |
| Day17.Part1 | src/day_17.rs:33-71 | the tower's height after 2022 rocks (a parameter) of the five shapes |
| Day17.Patterns | src/day_17.rs:100-134 | the notes after each rock: jet index, rock index and height |
| Day17.FindCycle | src/day_17.rs:136-139 | the closest earlier note with the same jet and rock index as the last one, or None when there is none |
| Day17.FindFrom | src/day_17.rs:137-139 | the search backwards from a given distance |
| Day17.SkipCycles | src/day_17.rs:141-176 | if the tower grows by the same amount every cycle, skipping whole cycles adds that much per cycle |
| Day17.NoteRocks | src/day_17.rs:102-134 | the noting loop leaves the chamber after the warm-up rocks and the notes of each |
| Day17.DropMore | src/day_17.rs:147-174 | the leftover loop leaves the tower's height after the given number of rocks |
| Day17.SkipAhead | src/day_17.rs:86-177 | the answer is the height after the warm-up and the leftover rocks plus the skipped cycles times the gain of the last cycle; when the tower really repeats with that period, it is the height after the target number of rocks |
| Day17.DivMod | src/day_17.rs:143-145 | whole cycles and the leftover rocks make up the rocks still to drop |
| Day17.Part2 | src/day_17.rs:86-177 | the same for the five shapes |
| Day18.NeighboursAreAdjacent | src/day_18.rs:18-25 | the six cubes `set_neighbours` writes are exactly the cubes sharing a face with the cube |
| Day18.NeighboursDistinct | src/day_18.rs:18-25 | the six neighbours are six different cubes |
| Day18.SetNeighbours | src/day_18.rs:18-25 | the six-cube buffer is filled in place with the neighbours in the program's order, and nothing else changes |
| Day18.Count | src/day_18.rs:35 | `filter(..).count()` counts at most the list's length |
| Day18.CountAgree | src/day_18.rs:35 | tests that agree on the list count the same |
| Day18.CountMonotone | src/day_18.rs:115 | a weaker test counts no more |
| Day18.CountIsCardinality | src/day_18.rs:35 | on a list without repeats, the count is the number of different cubes passing the test |
| Day18.CountFaces | src/day_18.rs:32-36 | the sum, over the droplet's cubes, of the faces whose neighbour passes the test |
| Day18.Part1 | src/day_18.rs:28-37 | the surface area: every face of a droplet cube whose neighbour is not in the droplet |
| Day18.CountComplement | src/day_18.rs:35 | each face is open or covered |
| Day18.OpenFacesCount | src/day_18.rs:32-36 | a cube shows six faces less one for each droplet cube touching it |
| Day18.LoneCube | src/day_18.rs:28-37 | a lone cube shows all six faces |
| Day18.TwoTouchingCubes | src/day_18.rs:28-37 | two cubes sharing a face show ten faces |
| Day18.OutOfBoundsIsOutsideBox | src/day_18.rs:39-43 | a cube is out of bounds exactly when it is not a cube of the box |
| Day18.BodyBounds | src/day_18.rs:88-94 | each bound is the droplet's smallest or largest coordinate, attained by some cube |
| Day18.ReachesSelf | src/day_18.rs:45-79 | air reaches itself |
| Day18.WalkSnoc | src/day_18.rs:70-73 | a walk through the air extends by a neighbouring air cube |
| Day18.ReachesStep | src/day_18.rs:70-73 | air reaching a cube reaches its air neighbours |
| Day18.WalkJoin | src/day_18.rs:45-79 | two walks meeting at a cube join into one |
| Day18.ReachesTransitive | src/day_18.rs:45-79 | reaching is transitive |
| Day18.WalkBack | src/day_18.rs:45-79 | a walk read backwards is a walk |
| Day18.ReachesSymmetric | src/day_18.rs:45-79 | air flows both ways |
| Day18.SoundCachesDisjoint | src/day_18.rs:48-49 | the inside and outside caches are disjoint and hold no droplet cube |
| Day18.WalkStaysIn | src/day_18.rs:77-78 | a walk starting in a set of air cubes closed under air neighbours stays in it |
| Day18.ClosedIsTrapped | src/day_18.rs:77-78 | such a set inside the bounds holds only air that never escapes |
| Day18.SpreadEscape | src/day_18.rs:59-65 | when the fill meets escaping air, everything it has seen escapes |
| Day18.SpreadTrapped | src/day_18.rs:66-68 | when the fill meets trapped air, everything it has seen is trapped |
| Day18.Unseen | src/day_18.rs:73 | the neighbours not yet seen |
| Day18.WeightLast | src/day_18.rs:55-75 | the termination measure of one more stack entry |
| Day18.WeightAppend | src/day_18.rs:73 | the termination measure of a stack is the sum over its parts |
| Day18.WeightUnseen | src/day_18.rs:73 | pushing unseen cubes adds at most one per cube to the measure |
| Day18.FillingStart | src/day_18.rs:52-53 | the fill starts with nothing seen and the classifee on the stack |
| Day18.FillingSkip | src/day_18.rs:57-58 | popping a droplet cube keeps the fill's invariant |
| Day18.FillingPopped | src/day_18.rs:56 | a popped air cube, like every seen one, is reached from the classifee |
| Day18.FillingVisit | src/day_18.rs:69-74 | visiting new in-bounds air marks it seen and pushes its unseen neighbours, keeping the invariant |
| Day18.FillingDone | src/day_18.rs:77-78 | with the stack empty, everything seen is trapped air |
| Day18.Classify | src/day_18.rs:45-79 | the caches stay sound (outside cubes escape, inside cubes are trapped air), only grow, only one of them grows, and an air classifee ends in one of them |
| Day18.ClassifyFaces | src/day_18.rs:98-110 | after classifying the neighbour of every face, every air neighbour of the droplet is in one cache |
| Day18.OutOfTightBounds | src/day_18.rs:39-43 | with the droplet's own bounds, leaving them is getting past the droplet along some axis |
| Day18.EscapesIsExterior | src/day_18.rs:59-62 | escaping the bounds is being exterior air |
| Day18.Part2 | src/day_18.rs:82-117 | the exterior surface area: every face of a droplet cube whose neighbour is air that can flow beyond the droplet |
| Day18.NotExteriorInBody | src/day_18.rs:57-58 | droplet cubes are never exterior air |
| Day18.ExteriorWithinSurface | src/day_18.rs:112-116 | the exterior surface area is at most the surface area |
| Day20.Move | src/day_20.rs:27-42 | taking an element out and putting it back at another index keeps the length |
| Day20.Remove | src/day_20.rs:27-42 | the list without one element is one shorter |
| Day20.MovePermutes | src/day_20.rs:27-42 | a move keeps every element: the result is a permutation |
| Day20.MoveLands | src/day_20.rs:27-42 | the moved element lands at its target, and the others keep their order |
| Day20.MoveAt | src/day_20.rs:28-40 | element by element: the slots between the two indices shift by one toward the old place, the rest stay |
| Day20.Target | src/day_20.rs:15-23 | the reduced target is an index of the list, the same place on the circle, modulo len - 1, as moving the value's number of steps along it |
| Day20.RemainderStep | src/day_20.rs:18-21 | subtracting `(len - 1) * div_euclid(t, len - 1)` leaves the Euclidean remainder |
| Day20.ReduceTarget | src/day_20.rs:15-23 | the two `while` loops end with the target index |
| Day20.Pairs | src/day_20.rs:9-10 | each number paired with its original position |
| Day20.Values | src/day_20.rs:46 | the numbers alone, in buffer order |
| Day20.Locate | src/day_20.rs:15 | the first slot carrying the number first at the given position |
| Day20.MixStepAt | src/day_20.rs:14-43 | one step of the mix moves the number from its slot to its target |
| Day20.ValuesMove | src/day_20.rs:27-46 | moving a slot moves its number |
| Day20.MixStepPermutes | src/day_20.rs:14-43 | a step keeps the length and the numbers |
| Day20.MixFromPermutes | src/day_20.rs:14-43 | a round keeps the length and the numbers |
| Day20.MixingPermutes | src/day_20.rs:13-46 | mixing only rearranges the numbers |
| Day20.ValuesOfPairs | src/day_20.rs:9-10 | before any mixing the buffer holds the numbers in their original order |
| Day20.TracksAt | src/day_20.rs:24-26 | the invariant the panic checks: each number's entry gives its value and current slot, and the slot holds it |
| Day20.TracksStart | src/day_20.rs:9-10 | both arrays start tracked |
| Day20.TracksLocate | src/day_20.rs:15 | in a tracked buffer, the slot the order array gives is the first to carry the number |
| Day20.TracksOpen | src/day_20.rs:27 | taking the number out of its slot leaves a hole there |
| Day20.HoleClose | src/day_20.rs:41-42 | putting the number into the hole restores the invariant |
| Day20.HoleLeft | src/day_20.rs:30-32 | moving the number at j down into the hole at j - 1 moves the hole up |
| Day20.HoleRight | src/day_20.rs:36-38 | moving the number at j up into the hole at j + 1 moves the hole down |
| Day20.ShiftDown | src/day_20.rs:28-33 | the forward loop shifts the slots after the hole up to the target down by one, moving the hole to the target and updating each moved number's entry |
| Day20.ShiftUp | src/day_20.rs:34-39 | the backward loop shifts the slots from the target up to the hole up by one, moving the hole to the target |
| Day20.MixOne | src/day_20.rs:14-43 | one turn: the number first at i moves to its target and the arrays stay tracked |
| Day20.MixRound | src/day_20.rs:14-43 | one round moves every number once, in original order |
| Day20.NewArrays | src/day_20.rs:9-10 | the two arrays start as the numbers with their positions |
| Day20.Mix | src/day_20.rs:8-47 | `mix` returns the numbers after the given rounds, a permutation of the input, and the input itself after no rounds |
| Day20.FirstZero | src/day_20.rs:50 | the first position holding 0 |
| Day20.RotateAt | src/day_20.rs:51-53 | the rotated list reads the list round the circle |
| Day20.RotateKeepsZero | src/day_20.rs:50 | rotation keeps the 0 |
| Day20.OnlyZero | src/day_20.rs:50 | with one 0, any 0 found is the first |
| Day20.CoordinateSumOfRotation | src/day_20.rs:49-56 | with a single 0, the coordinate sum depends only on the circle, not on where the list starts |
| Day20.ZeroOfRotation | src/day_20.rs:50 | the 0 of the rotated list is the list's 0 moved back |
| Day20.SameCoordinates | src/day_20.rs:51-55 | the three coordinates of the rotated list are those of the list |
| Day20.CoordinatesAt | src/day_20.rs:49-56 | the sum is the numbers 1000, 2000 and 3000 places after the first 0, round the circle |
| Day20.ModAddModTo | src/day_20.rs:51-53 | reducing before adding does not change the remainder |
| Day20.ModSwap | src/day_20.rs:51-53 | adding two offsets modulo n in either order gives the same place |
| Day20.RotatedCoordinate | src/day_20.rs:51-55 | k places after the rotated 0 is k places after the 0 |
| Day20.Part1 | src/day_20.rs:59-63 | the coordinate sum after one round of mixing |
| Day20.Decrypt | src/day_20.rs:68 | every number times 811589153 |
| Day20.Part2 | src/day_20.rs:66-71 | the coordinate sum after ten rounds of mixing the decrypted numbers |
| Day21.OpOf | src/day_21.rs:22-28 | the character at position 5 names one of the four operators; no line names the equality |
| Day21.ParseLine | src/day_21.rs:17-30 | a line is split at the first `": "`; a number job fits in an `i64`; an operation job has a four-letter left name and an ordinary operator |
| Day21.NoColonNoSeparator | src/day_21.rs:18 | a name without a colon holds no `": "`, so the split falls right after it |
| Day21.SpaceIsNotNumber | src/day_21.rs:19-21 | a job with a space in it is not a number, so it is read as an operation |
| Day21.ParseShowLine | src/day_21.rs:17-30 | round trip: reading a line printed as the puzzle writes it gives back the monkey and its job |
| Day21.RiddleFromLines | src/day_21.rs:14-32 | one entry per line, a later line for the same name replacing an earlier one |
| Day21.DivExact | src/day_21.rs:55 | dividing an exact multiple by a positive number gives the factor back |
| Day21.QuotExact | src/day_21.rs:55 | dividing an exact multiple with `i64` division, rounding toward zero, gives the factor back whatever the signs |
| Day21.ForwardSound | src/day_21.rs:50-60 | evaluating forwards gives the value of every exact solution |
| Day21.SolveRightSound | src/day_21.rs:61-71 | solving for the right operand gives its value in every exact solution |
| Day21.SolveLeftSound | src/day_21.rs:72-82 | solving for the left operand gives its value in every exact solution |
| Day21.InversesExact | src/day_21.rs:63-75 | for `+` and `-` each inverse gives exactly the operand that makes the equation hold |
| Day21.Visit | src/day_21.rs:47-92 | a visit learns the value of one name not yet known, after which the monkey's names are all known; a monkey whose names are all known learns nothing; a panic comes only from `*`, `/` or the equality |
| Day21.VisitSound | src/day_21.rs:49-90 | what a visit learns is the value every exact solution gives that name |
| Day21.LearnSound | src/day_21.rs:58-89 | learning a value keeps the known values those of every exact solution |
| Day21.Start | src/day_21.rs:35-42 | the numbers are known and the operations unfinished |
| Day21.Pass | src/day_21.rs:45-93 | one pass, in any order: no panic when the riddle has only `+` and `-` or has part 2's shape; known values only grow and stay sound; every finished monkey has its names known; an empty pass learns nothing and no unfinished monkey could learn anything; in part 2's shape the equality is never learned and stays unfinished until a name it depends on is known |
| Day21.TameVisit | src/day_21.rs:47-90 | in part 2's shape (the equality on top, only `+` and `-` below it) a visit never panics and never learns the equality, and a name on the human's side is learned only from a known name on that side |
| Day21.GuardLearn | src/day_21.rs:58-59 | learning one value keeps the equality unknown, and unfinished until it can be finished |
| Day21.Solve | src/day_21.rs:34-101 | the answers keep the numbers, are the values of every exact solution, and nothing more can be learned; a riddle with only `+` and `-`, or with part 2's shape, never panics, and in part 2's shape root stays unknown |
| Day21.StuckKnowsAll | src/day_21.rs:44-98 | when no operation can teach more, every monkey of an acyclic riddle with only `+` and `-` is known |
| Day21.Part1 | src/day_21.rs:104-108 | root's number, the one every exact solution gives root; a root that yells a number is its own answer; an answer is always found for an acyclic riddle with only `+` and `-` that has a root |
| Day21.Rewrite | src/day_21.rs:112-115 | part 2's riddle: root's operator becomes the equality with the same operands, the human's entry is gone, and every other monkey keeps its job |
| Day21.Part2 | src/day_21.rs:111-118 | the number the human must yell, the same in every exact solution of the rewritten riddle; an answer is always found when the riddle is acyclic with only `+` and `-`, and the human is below exactly one operand of every monkey on its side |
| Day21.HumanOnceIsTame | src/day_21.rs:112-115 | such a riddle, rewritten, has part 2's shape with the human's side as the names root depends on |
| Day21.OffSideKnown | src/day_21.rs:44-98 | once part 2's solve is stuck, every monkey off the human's side, root aside, is known |
| Day21.NextOnSide | src/day_21.rs:61-90 | with root unknown, a known monkey on the human's side, or root, has its operand on the human's side known too |
| Day21.HumanKnown | src/day_21.rs:116-117 | following the human's side down from root reaches the human, whose number is then known, so `answers["humn"]` does not panic |
| Day23.DirectionsCycle | src/day_23.rs:8-19 | the cycle N, S, W, E has length four, and four consecutive directions are all different |
| Day23.IthPeriodic | src/day_23.rs:17-19 | the direction k steps on depends only on k modulo four |
| Day23.NeedToCheck | src/day_23.rs:30-37 | three cells are checked ahead |
| Day23.MovementChecked | src/day_23.rs:21-37 | the step is the middle cell checked, and it leaves the cell |
| Day23.Neighbours | src/day_23.rs:54-65 | eight cells |
| Day23.NeighboursAround | src/day_23.rs:54-65 | the neighbours are exactly the other cells within one step in each coordinate, each once |
| Day23.CheckedAreNeighbours | src/day_23.rs:30-65 | the cells checked ahead are neighbours |
| Day23.TryFromChoice | src/day_23.rs:72-88 | the proposal is the step in the first direction whose three cells are clear, or staying when none is |
| Day23.ProposalIsStep | src/day_23.rs:78-85 | an elf that proposes to move proposes a free cell one step north, south, west or east |
| Day23.StayingElves | src/day_23.rs:73-77 | an elf with no elf around it stays, and so does one whose four directions are all blocked |
| Day23.ProposalOf | src/day_23.rs:72-91 | the body of the `'position` loop for one elf gives its proposal |
| Day23.IthNext | src/day_23.rs:17-19 | the next direction of the cycle |
| Day23.StayerUnclaimed | src/day_23.rs:90-91 | no elf proposes the cell of an elf that stays |
| Day23.CountProposals | src/day_23.rs:68-92 | the first loop records each elf's proposal and, for each proposed cell, the number of elves that proposed it |
| Day23.TallyStart | src/day_23.rs:68-69 | the empty tally counts no elf |
| Day23.TallyMove | src/day_23.rs:83-85 | a moving elf adds one to the count of its proposal |
| Day23.TallyStay | src/day_23.rs:90 | a staying elf's cell is proposed by it alone |
| Day23.ProposersGrow | src/day_23.rs:71-92 | one more elf adds itself to the proposers of its proposal only |
| Day23.Round | src/day_23.rs:67-105 | the elves whose proposal no other elf shares move there; the others stay |
| Day23.DestInjective | src/day_23.rs:94-102 | two elves never end a round on the same cell |
| Day23.InjectiveImage | src/day_23.rs:94-102 | a set mapped without collisions keeps its size |
| Day23.RoundKeepsElves | src/day_23.rs:94-104 | a round keeps every elf: as many positions after as before |
| Day23.RoundSteps | src/day_23.rs:94-102 | each elf stays or takes one step, and an elf whose proposal another shares stays |
| Day23.QuietRound | src/day_23.rs:73-77 | when no elf has another next to it, nothing moves |
| Day23.InRect | src/day_23.rs:107-113 | a cell is in the rectangle exactly when both coordinates are within its bounds |
| Day23.RowCardinality | src/day_23.rs:112 | a row of the rectangle has width cells |
| Day23.RectCardinality | src/day_23.rs:112 | a w-by-h rectangle has w * h cells |
| Day23.AreaCoversElves | src/day_23.rs:107-113 | the bounding rectangle holds every elf, so its area is at least the number of elves |
| Day23.AfterKeepsElves | src/day_23.rs:118-120 | rounds never lose or merge elves |
| Day23.Part1 | src/day_23.rs:116-122 | the empty ground in the bounding rectangle after the given rounds (10 in the puzzle), never negative |
| Day23.Part2 | src/day_23.rs:125-135 | the number of the first round in which no elf moves, or None within the round bound |
| Day24.Tick | src/day_24.rs:35-56 | a tick keeps the blizzard's direction |
| Day24.TickStep | src/day_24.rs:36-52 | a tick moves a blizzard by its direction's step, corrected on at most one axis when the step reaches a wall, and keeps its direction |
| Day24.AroundStep | src/day_24.rs:44-51 | a step past one wall comes back in at the other side, and any other step is kept |
| Day24.TickWraps | src/day_24.rs:35-56 | a blizzard inside the valley stays inside, each coordinate moving one step round a circle the width or height of the inside |
| Day24.TickAll | src/day_24.rs:35-56 | every blizzard ticked, in the same order |
| Day24.TickBlizzards | src/day_24.rs:31-59 | the blizzards a minute later, and exactly the cells they are on |
| Day24.AfterKeeps | src/day_24.rs:62-85 | blizzards keep their number and their directions through any number of minutes |
| Day24.AfterAdd | src/day_24.rs:101-103 | minutes add up: t minutes from the state after s minutes is the state after s + t |
| Day24.Moves | src/day_24.rs:71 | waiting, then north, south, west and east |
| Day24.MovesAreAdjacent | src/day_24.rs:71-72 | the five moves reach exactly the cells at most one orthogonal step away |
| Day24.WalkStart | src/day_24.rs:63-64 | standing at the start is a walk |
| Day24.WalkExtend | src/day_24.rs:71-79 | a walk goes on by a move to a cell kept at the next minute |
| Day24.FrontierStep | src/day_24.rs:70-84 | a cell of the frontier after a minute comes by one move from a cell of the frontier before, and is kept |
| Day24.FrontierHasWalk | src/day_24.rs:62-85 | every cell of the frontier is where some walk of that many minutes ends |
| Day24.FrontierGrows | src/day_24.rs:77-78 | a move from the frontier to a cell kept at the next minute is in the next frontier |
| Day24.WalkLast | src/day_24.rs:70-84 | the last step of a walk is a move to a kept cell |
| Day24.WalkInFrontier | src/day_24.rs:62-85 | where a walk ends is a cell of the frontier |
| Day24.FrontierIsWalks | src/day_24.rs:62-85 | the frontier after t minutes is exactly the set of ends of walks of t minutes |
| Day24.ArrivesFrom | src/day_24.rs:73-74 | the end is reached by one move from a cell of the previous frontier |
| Day24.ArrivesNext | src/day_24.rs:73-74 | a cell of the frontier next to the end reaches it a minute later |
| Day24.ArrivesIsWalk | src/day_24.rs:62-85 | arriving at minute t means exactly that some walk of t - 1 minutes ends next to the end |
| Day24.Expand | src/day_24.rs:71-80 | one cell's five candidates: it reports finding the end exactly when a move reaches it, and otherwise adds exactly the kept candidates |
| Day24.KeptIs | src/day_24.rs:71-80 | the kept candidates among the first k moves |
| Day24.KeptAll | src/day_24.rs:71-80 | all five moves give the successors of the cell |
| Day24.SuccessorsUnion | src/day_24.rs:70-81 | the successors of one more cell are added to those of the others |
| Day24.Solve | src/day_24.rs:62-88 | the first minute the end can be reached (within the minute bound), with the blizzards of that minute; None only when no minute up to the bound reaches it |
| Day24.Part1 | src/day_24.rs:91-95 | the first minute the end can be reached |
| Day24.Part2 | src/day_24.rs:98-106 | the sum of three legs, each as quick as it can be, each starting with the blizzards the previous one left: start to end, back, and to the end again; None only when no such round trip has every leg within the minute bound |
| Day24.FirstArrivalUnique | src/day_24.rs:101-103 | a leg has one first arrival, so each leg's time and the blizzards it hands on are determined |
| Day24.ArrivesLater | src/day_24.rs:62-88 | no leg arrives at minute 0 |
| Day24.NoFirstLeg | src/day_24.rs:101 | with no arrival on the first leg within the bound, no round trip fits the bound |
| Day24.NoSecondLeg | src/day_24.rs:101-102 | with the first leg done and no arrival back within the bound, no round trip fits the bound |
| Day24.NoThirdLeg | src/day_24.rs:101-103 | with the first two legs done and no third arrival within the bound, no round trip fits the bound |

## Left out

- Reading the puzzle input from disk (the `*_from_file` functions, `read_valve_network`) and the `main.rs` dispatcher are not modelled: they are file I/O and printing. Where a day has a line parser (days 1, 2, 4, 7, 13, 21; `Day12.HeightmapFromLines`), the parser is modelled on the text of the lines.
- Iteration order of `HashMap` and `HashSet` is not modelled: the model picks any element, so every stated result holds for every order.
- Overflow of `i32`, `i64` and `usize` arithmetic is not modelled, because integers are unbounded. This includes day 20's product with 811589153 and the sums of days 15, 17 and 21. Parsing checks the range where the source's `parse` would fail.
- The `u64` bit masks of day 16 are modelled as sets of bit positions below 64. `Day16Team.Part1` and `Day16Team.Part2` require every valve with a flow to have an index below 64, because the source shifts a `u64` by those indices; the starting valve and the valves without a flow are never shifted.
- `hash_top_structure` in day 17 is not modelled: the source computes it but never uses it. The cycle is matched by jet index and rock index only, as in the source.
- Day17.SkipAhead: the answer is proved equal to the true tower height only when the tower is periodic from the cycle found (`Periodic`). The source assumes this without checking it.
- Day17.Part2: the same condition as `Day17.SkipAhead`.
- Day16Paths.ShortestPathLengths: for a list of valves of interest that names no valve twice (as `Day16Team.Targets` never does) each entry is proved to be the distance from the earlier valve to the later one, stored both ways round as in the source; for a list with repeats only a distance in one direction or the other is proved. The two directions agree when every tunnel goes both ways, as in the puzzle's scans (`Day16Paths.UndirectedDistance`); the parser does not check this.
- Day16Paths.GetAShortestPath: when start and target are the same valve, the loop found is not proved to be a shortest one; the source never searches from a valve to itself.
- Day24.Solve: the source's minute loop has no bound. The model runs for at most `fuel` minutes and returns `None` when no walk arrives within them.
- Day24.Part1: the same fuel bound as `Day24.Solve`.
- Day24.Part2: the same fuel bound as `Day24.Solve`, for each of the three legs; `None` means no round trip has all three legs within it.
- Day14.Part1: the source loops without end when the entry point itself fills up. The model runs for at most `fuel` grains and returns `None` when they run out.
- Day14.Part2: requires a nonempty cave, because the source unwraps the largest rock row. It also requires the floor (that row plus 2) to lie below the entry's row 0: some rock must have a row number of -1 or more. On a cave whose rock all has row numbers of -2 or less, the floor's row number is 0 or less. Then the source's test `y + 1 == floor_y` never holds for a grain falling from row 0, and nothing below it is rock, so the grain falls until the `i32` row overflows. The termination proof rests on this requirement.
- Day23.Part2: the source's round loop has no bound. The model runs for at most `fuel` rounds.
- The puzzle constants are parameters rather than literals: day 17's 2022 rocks, the 10000 warm-up rocks and the 10^12 target; day 23's 10 rounds; day 15's row 2000000 and box bound 4000000.
- `sort_unstable` and `sort_by` are modelled as a stable insertion sort on sequences, not an in-place sort. The sorted order, the permutation and stability are stated.
- Day13.Part2Sorted: the packet order is proved total but not transitive, so the sorted list is stated only as ordered between neighbours.
- Day13.Part2: the key is stated through an ordering that is sorted between neighbours and stable. With a transitive order that ordering is unique; transitivity of the packet order is not proved, so uniqueness is not either.
- Day20.Mix: requires that a list of one element hold 0, because the source divides by zero there.
- Day20.Part1 and Day20.Part2 require that the list hold 0, because the source unwraps the position of 0.
- Day21.Part1: that an answer is found is proved only for riddles without `*` and `/` whose monkeys can be ranked so that every operand ranks below its monkey. Where the source panics (a division by zero inside `solve`, or `answers["root"]` when root was never solved) the model returns `None`.
- Day21.Part2: root being in the riddle as an operation is a precondition, where the source panics (`riddle["root"]` and the `let ... else { unreachable!() }` on root's job). A panic inside `solve`, or `answers["humn"]` when the human's number was never found, becomes `None`. That an answer is found is proved only for riddles without `*` and `/`, ranked as for part 1, in which no monkey has the human below both of its operands; for other riddles no answer is promised.
- Day21.Solve: the source panics on a division by zero and in the `Op::Eq => unreachable!()` arms, reached when the equality has both operands known, or is known itself with one operand known. The model returns `None` there (a visit `Panics`). `solve` reads names only through `get`, so a missing name is no panic there. Its results are proved sound with respect to exact solutions, where every integer division leaves no remainder.
- Day18.BodyBounds: requires a nonempty droplet, because the source unwraps the first cube.
- Day03 treats only the ASCII letters `a` to `z` as lower case. The puzzle input holds only ASCII letters, while `is_lowercase` also accepts other Unicode letters.
