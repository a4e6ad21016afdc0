# Lota simulation: a Dafny model

The system is a Monte Carlo simulator of "Lota", a tombola game (`lota/main.ts`).
A card ("board") is a 3 × 9 grid. Column j holds numbers from the decade
10j..10j+9, and each row has four blanks. A game shuffles the numbers 0..89 and
draws them one at a time, marking each drawn number on every card. It records the
first turn, and the number of cards, at which three milestones are reached, in
this order:

- Pick: some card has a marked non-zero number (see below for why 0 does not count).
- Line: some card has a fully marked row.
- Lota: some card is fully marked.

Over many games the driver reports averages and 90th percentiles of these records.

The model has five modules:

- `Sampler` models `pickN`. The random shuffle becomes a parameter: the shuffled order, which must be a permutation of the input.
- `Boards` models the card, `boardAddNumber` (with the `findIndex` it relies on) and the three win predicates `boardHasPick`, `boardHasLine` and `boardHasLota`.
- `Cards` models `newBoard`. Its random choices are a `Layout` parameter: for each column, the shuffled order of the offsets 0..9; for each row, the shuffled order of the column positions 0..8.
- `Games` models `Game`, `newGame` and `playGame`. The game loop is the recursive function `Run`. It is proved against a reference definition: each milestone fires at the first turn after the previous milestone at which some card satisfies it, judged on the cards as marked after that many draws.
- `Statistics` models `nintiethPercentile`. It includes JavaScript's default sort, which compares `String(e)` texts code unit by code unit.

The model follows the code in four places where a prose reading of the game would expect something else:

- A card row holds five numbers and four pre-marked blanks. Each column j gets three distinct offsets, one per row, giving 10j + offset; then four of the nine cells of each row are blanked.
- `boardAddNumber` marks only the first cell of each row equal to the drawn number. On the cards `newBoard` builds, no row repeats a number, so this is the same as marking every equal cell (`Boards.AddNumberMarksEveryOccurrence`, `Cards.NewBoardDistinctRows`).
- The 90th percentile is taken in text order, not numeric order. For example, 10 sorts before 9, and -1 sorts before every turn.
- `boardHasPick` compares a cell with the blank `" "` using the loose `!=`. `0 != " "` is false in JavaScript, so a marked 0 never counts as a Pick. The model keeps this behaviour (`Boards.LooselyNotBlank`).

## Model

| member | source | states |
|---|---|---|
| Sampler.PickN | lota/main.ts:1-5 | The result has min(n, length) elements. It is a sub-multiset of the input, so every element comes from the input, and a distinct input gives a distinct result. |
| Sampler.PermutationOfRange | lota/main.ts:115-119 | A shuffle of 0..89 has no repeated number and holds exactly the integers in [0, 90). |
| Boards.FindIndex | lota/main.ts:67 | The result is -1 exactly when the number is not in the row. Otherwise it is the index of the number's first occurrence. |
| Boards.MarkRow | lota/main.ts:66-71 | A cell of the row ends up marked exactly when it was already marked or it is the first cell equal to the number. |
| Boards.AddNumber | lota/main.ts:65-73 | The card keeps its shape and its numbers. Each cell ends up marked exactly when it was marked before or it is the first occurrence of the number in its row. No mark is ever cleared. |
| Boards.AddNumberIdempotent | lota/main.ts:65-73 | Marking the same number twice gives the same card as marking it once. |
| Boards.AddAbsentNumber | lota/main.ts:65-73 | Marking a number that appears in no row leaves the card unchanged. |
| Boards.AddNumberMarksEveryOccurrence | lota/main.ts:65-73 | If no row repeats a number, marking the first occurrence marks every cell equal to the number. |
| Boards.MarkedZeroIsNoPick | lota/main.ts:75-84 | Because the blank test is loose, a card whose only marked number is 0 has no Pick; the same card with 1 in place of 0 has one. |
| Boards.Flatten | lota/main.ts:96 | A value occurs in the flattened grid exactly when it occurs in some row. |
| Boards.LotaIffEveryCell | lota/main.ts:95-97 | Lota holds exactly when every cell of every row is marked. |
| Boards.LotaImpliesLine | lota/main.ts:86-97 | On a card with at least one row, Lota implies Line. |
| Boards.PickMonotone | lota/main.ts:65-84 | A card that has a Pick still has one after any number is marked. |
| Boards.LineMonotone | lota/main.ts:65-93 | A card that has a Line still has one after any number is marked. |
| Boards.LotaMonotone | lota/main.ts:65-97 | A card that has a Lota still has one after any number is marked. |
| Cards.Offsets | lota/main.ts:30 | Each column gets three distinct offsets, all in 0..9. |
| Cards.Blanks | lota/main.ts:42 | Each row gets four distinct blank positions, all in 0..8. |
| Cards.NewBoard | lota/main.ts:23-63 | A new card passes the shape checks of lines 55-60: 3 rows of 9 cells in both grids. A cell starts marked exactly when it is blank. How many cells are blank and which numbers fill the others are stated by `Cards.NewBoardRows`, `Cards.NewBoardDecades` and `Cards.NewBoardNumbersDistinct`. |
| Cards.NewBoardRows | lota/main.ts:41-53 | Every row has exactly four blanks and five numbers. A cell starts marked exactly when it is blank. |
| Cards.NewBoardDecades | lota/main.ts:29-34 | A number in column j lies in [10j, 10j + 10), so every number lies in [0, 90). |
| Cards.NewBoardNumbersDistinct | lota/main.ts:29-34 | No number appears twice on a new card. |
| Cards.NewBoardDistinctRows | lota/main.ts:29-34 | No row of a new card repeats a number. |
| Cards.NewBoardLineImpliesPick | lota/main.ts:75-93 | On a card laid out by newBoard, however it has been marked since, Line implies Pick. Only column 0 can hold the number 0, and every row has a number outside column 0. In a full row that number is marked and non-zero, so the loose blank test counts it. |
| Games.Winners | lota/main.ts:159 | The count of cards satisfying a milestone is at most the number of cards. |
| Games.WinnersZero | lota/main.ts:159-160 | The count is zero exactly when no card satisfies the milestone. |
| Games.MarkAll | lota/main.ts:156 | Each card is marked with the drawn number; the number of cards is unchanged. |
| Games.NewGame | lota/main.ts:133-146 | A new game is unplayed, with all six records at -1. It holds the 90 numbers 0..89, each exactly once, and `boardCount` new cards. |
| Games.Advance | lota/main.ts:158-178 | One turn's milestone check changes only the records: the numbers, the cards and the played flag stay the same. |
| Games.Run | lota/main.ts:154-184 | The loop keeps the draw and the played flag, keeps the number of cards, and leaves every card well formed. |
| Games.PlayGame | lota/main.ts:148-185 | A game already played is returned unchanged. Afterwards the game is played, with the same draw and the same number of well-formed cards. |
| Games.AdvancePick | lota/main.ts:158-164 | While Pick is awaited, a turn records Pick exactly when its winner count that turn is positive, and then records that count. |
| Games.AdvanceLine | lota/main.ts:165-171 | While Line is awaited (after Pick), a turn records Line exactly when its winner count that turn is positive, and then records that count. |
| Games.AdvanceLota | lota/main.ts:172-178 | While Lota is awaited (after Line), a turn records Lota exactly when its winner count that turn is positive, and then records that count. |
| Games.DoneRecords | lota/main.ts:179-181 | Once all three milestones have fired, the records stay correct however many more turns are considered. |
| Games.AdvanceRecords | lota/main.ts:156-183 | One loop iteration takes correct records up to turn i to correct records up to turn i + 1. |
| Games.RunRecords | lota/main.ts:154-184 | The loop invariant. Given correct records up to turn i and cards marked with the first i numbers, the loop ends with correct records for the whole draw. Its cards are then marked with every number up to the turn after Lota fired, or with the whole draw. |
| Games.PlayGameRecordsFirstWins | lota/main.ts:148-185 | In a played fresh game, Pick is recorded at the first turn at which some card has a Pick, Line at the first turn after that with a full row, and Lota at the first turn after that with a full card. Each comes with its winner count at that turn, or -1 and -1 if no such turn exists. |
| Games.PlayGameBounds | lota/main.ts:148-185 | Each recorded turn is -1 or lies in 1..(length of the draw). Each count is -1 exactly when its turn is -1. Otherwise the count lies in 1..(number of cards) and equals the number of winning cards at that turn. Line is recorded only after Pick, and Lota only after Line. |
| Games.HoldsMonotone | lota/main.ts:65-97 | Marking a number never takes a milestone away from a card. |
| Games.WinnersGrow | lota/main.ts:156-159 | Marking a number on every card never lowers a winner count. |
| Games.WinnersNondecreasing | lota/main.ts:155-159 | Winner counts never fall from one turn to the next. |
| Statistics.Digits | lota/main.ts:12 | The decimal form of a natural number is non-empty and made only of digits. It has no leading zero, except for 0 itself. A number of 10 or more has at least two digits. |
| Statistics.DigitsRoundTrip | lota/main.ts:12 | Reading the digits of n back gives n. |
| Statistics.DecimalRoundTrip | lota/main.ts:12 | Reading `String(n)` back gives n, for negative n too. |
| Statistics.DecimalStringInjective | lota/main.ts:12 | Different numbers have different strings, so the sort never ties two different numbers. |
| Statistics.StrLessIrreflexive | lota/main.ts:12 | No string sorts before itself. |
| Statistics.StrLessAsymmetric | lota/main.ts:12 | If a sorts before b, then b does not sort before a. |
| Statistics.StrLessTransitive | lota/main.ts:12 | The string order is transitive. |
| Statistics.StrLessTotal | lota/main.ts:12 | Of two different strings, one sorts before the other. |
| Statistics.BeforeTotal | lota/main.ts:12 | Of two different numbers, one sorts before the other in text order. |
| Statistics.LeqTransitive | lota/main.ts:12 | Text order on numbers is transitive. |
| Statistics.NegativeFirst | lota/main.ts:12 | A negative number sorts before every non-negative number. |
| Statistics.TenBeforeNine | lota/main.ts:12 | 10 sorts before 9, so text order differs from numeric order. |
| Statistics.Insert | lota/main.ts:12 | Inserting into a sorted sequence gives a sorted sequence with exactly one more copy of the new element. |
| Statistics.SortByString | lota/main.ts:12 | The sorted copy is a permutation of the array and is in text order. |
| Statistics.SortedUnique | lota/main.ts:12 | Two sorted permutations of one array are equal, so the sort's result does not depend on the engine's algorithm. |
| Statistics.SortCounts | lota/main.ts:12 | Sorting leaves unchanged, for any value v, how many elements sort before v and how many sort at or before it. |
| Statistics.RankAt | lota/main.ts:12-13 | The element at index k of a sorted sequence has at most k elements before it and more than k elements at or before it. |
| Statistics.PercentileIndex | lota/main.ts:13 | The index is floor(0.9 × length): 10k ≤ 9 × length < 10k + 10. For a non-empty array it is a valid index. |
| Statistics.NinetiethPercentile | lota/main.ts:11-14 | There is no result exactly when the array is empty (the code reads `undefined`). Otherwise the result is an element of the array whose text-order rank covers floor(0.9 × length): at most that many elements sort before it, and more than that many sort at or before it. |
| Statistics.RankDetermines | lota/main.ts:11-14 | At most one value has its rank covering a given index, so the contract of the percentile determines its result. |
| Statistics.PercentileOfAnySort | lota/main.ts:11-14 | The percentile is the element at index floor(0.9 × length) of any sorted permutation of the array. |
| Statistics.PercentileOfTwoAndTen | lota/main.ts:11-14 | The percentile of [2, 10] is 2, because the copy sorts to [10, 2]. Numerically it would be 10. |

## Left out

- Random shuffling in `pickN` and `randomNumbers` (`lota/main.ts:2-3`, `117-118`): the random comparator is not modelled. The shuffled orders are parameters constrained to be permutations of what is shuffled: `Layout` for `newBoard`, `draw` for `newGame`.
- `average` (`lota/main.ts:7-9`) and the ">1 board" ratios (`lota/main.ts:218-219`): floating-point results, not modelled.
- `printStatistics`, `printHeader`, `printBoard`, the `RUNS` constant and the sweep over card counts (`lota/main.ts:105-113`, `188-250`): output and driver code.
- The commented-out demonstration after line 251 is not modelled.
- `assert` (`lota/main.ts:99-103`): never throws for a card `newBoard` builds, so its checks appear as `Cards.NewBoard`'s postconditions.
- Statistics.PercentileIndex: `Math.floor(length * 0.9)` is computed in floating point. The model uses the integer 9 × length / 10. The two agree for every length below 10^14; the driver uses 5000.
- Statistics.DecimalString: covers integers only, written without exponent notation. `String(e)` uses exponent notation from 10^21 upward. The percentile only ever sees turns (-1..90).
- Boards.AddNumber, Boards.HasPick: require the card shape `newBoard` asserts (equal row counts, equal row lengths). Every card in the program comes from `newBoard`, and `boardHasPick` reads every row up to the first row's length.
