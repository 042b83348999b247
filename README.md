# js-sudoku generator, modelled in Dafny

js-sudoku fills a 9x9 Sudoku grid at random. Each cell shares three
candidate sets with its neighbours: its "row", its column and its 3x3 box.
A cell's options are the digits 1..9 left in all three sets. Collapsing a
cell picks one option at random and deletes it from the three sets.

`Field.generate` repeats one fill round until no cell is left. A round
shuffles the list of unresolved cells, scans it for the first cell with the
fewest options, collapses that cell and splices it out of the list. A cell
with no options aborts the attempt. The whole grid is then rebuilt and
filled again, at most 100 times.

The project has four modules:

- `Arrays` (`arrays.dfy`): the in-place Fisher-Yates `shuffleArray` and `splice(i, 1)`.
  - `Math.random` becomes a nondeterministic choice of the swap partner in the range the source can produce.
  - The choices made are returned as a ghost sequence.
  - The pure function `Shuffled` says which arrangement those choices give.
- `Sudoku` (`sudoku.dfy`): the pure part of the generator.
  - Grid geometry and the arena layout of the 27 sets.
  - The `filter` behind `options`.
  - The first-minimum scan as a predicate over option counts.
  - The grid invariant `Consistent` and the target `Solved`.
  - The lemmas that collapsing keeps the invariant and that a complete grid is solved.
- `Cells` (`cell.dfy`): class `Cell` with its value and the arena indices of its three sets; `options` and `collapse`.
- `Fields` (`field.dfy`): class `Field` with the 81 cells and the arena of 27 sets; `initialize`, the fill loop of `generate` with its scan, `generate` itself and `at`.

Representation choices:

- The 27 shared `Set<number>` objects are one arena `array<set<int>>`.
  - Row sets are at 0..8, column sets at 9..17, box sets at 18..26.
  - A cell keeps three indices into the arena, so aliasing becomes index equality.
- Cell `y * 9 + x` uses `rows[x]`, `cols[y]` and `grps[floor(y / 3) * 3 + floor(x / 3)]`, exactly as the code wires them. So the sets called rows are indexed by the x coordinate. The model keeps the code's naming.
- Each candidate set starts as {1, ..., 10}, as the code builds it from `Array.from({ length: 10 }, (_, i) => i + 1)`. The 10 is never inspected by `options`, so it is never deleted. The invariant records that it stays.
- The list `remainingFields` holds cells. The model holds their indices into the cell array. The cell at position `p` of the list is `cells[remaining[p]]`.
- `OverconstrainedError` becomes a `Result` or `Outcome` value carrying `UnsolvableCell` or `UnsolvableField`. `generate`'s `catch` becomes "discard the attempt and retry".

`at(x, y)` returns the `Cell` object at slot `y * 9 + x`, not its digit; the model returns the cell too.

## Model

| member | source | states |
|---|---|---|
| `Arrays.ShuffleArray` | source/index.ts:9-20 | returns the same array; every swap partner lies in `[0, idx]` after the decrement; the new contents are `Shuffled(old contents, choices)` and a permutation of the old contents |
| `Arrays.Swap` | source/index.ts:16 | the destructuring swap exchanges the two positions and leaves every other position as it was |
| `Arrays.ShuffledPermutes` | source/index.ts:9-20 | whatever the random choices, the shuffled arrangement has the same multiset of elements as the input |
| `Arrays.IdentityChoices` | source/index.ts:12-17 | when every partner is the position itself, the shuffle leaves the array unchanged, so the identity is one possible outcome |
| `Arrays.Splice` | source/index.ts:123 | the list without position `i`: elements before `i` stay, later ones move down by one, and exactly one copy of the removed element leaves the multiset |
| `Cells.PickOption` | source/index.ts:52-53 | the digit taken is the first element of a shuffle of the options, and so one of the options |
| `Cells.Cell.constructor` | source/index.ts:29-33 | a new cell has value 0 and keeps the three sets it is given |
| `Cells.Cell.Options` | source/index.ts:39-43 | at most 9 digits, strictly ascending, and a digit is listed if and only if it is in 1..9 and in all three of the cell's sets; reads the sets and changes nothing |
| `Cells.Cell.EmptyOptions` | source/index.ts:46-47 | the option list is empty exactly when no digit 1..9 is in all three sets |
| `Cells.Cell.Collapse` | source/index.ts:45-61 | with no options it fails with `UnsolvableCell` and changes neither the value nor any set; otherwise the value becomes a digit 1..9 present in all three sets at entry, it is returned, and it is deleted from exactly the cell's three sets, with every other digit and set untouched |
| `Sudoku.KeepShared` | source/index.ts:40-42 | the filter keeps an element if and only if it is in all three sets, never lengthens the list and keeps an ascending list ascending |
| `Sudoku.KeepHead` | source/index.ts:40-42 | putting the head of an ascending list before a filtered part of its tail stays ascending |
| `Sudoku.Candidates` | source/index.ts:39-43 | the options of three sets: at most 9, ascending, exactly the digits 1..9 in all three |
| `Sudoku.CellIndex` | source/index.ts:88 | `y * 9 + x` lies in `[0, 81)` and gives back `x` as its remainder and `y` as its quotient by 9, so distinct positions get distinct slots |
| `Sudoku.BoxIndex` | source/index.ts:86 | `floor(y / 3) * 3 + floor(x / 3)` lies in 0..8, with band `y / 3` and stack `x / 3` |
| `Sudoku.FirstMinimumUnique` | source/index.ts:104-114 | every non-empty list of counts has a first minimum, and only one |
| `Sudoku.CountsAt` | source/index.ts:107-108 | entry `j` of the counts is the number of options of the cell at list position `j` |
| `Sudoku.FewestOptions` | source/index.ts:104-114 | the scanned cell has no more options than any listed cell, and strictly fewer than every cell listed before it |
| `Sudoku.OptionsAreLegal` | source/index.ts:39-43 | under the invariant, a digit is an option of a cell if and only if no cell sharing a row, column or box with it holds that digit |
| `Sudoku.CollapsePreservesConsistent` | source/index.ts:52-58 | committing an unresolved cell to a digit in all three of its sets, and deleting that digit from exactly those sets, keeps the grid invariant |
| `Sudoku.CollapseKeepsDistinct` | source/index.ts:53 | after such a collapse, no two cells sharing a set hold the same digit |
| `Sudoku.CollapseKeepsHeld` | source/index.ts:56-58 | after such a collapse, a digit is absent from a set if and only if some cell of that set holds it |
| `Sudoku.InitialConsistent` | source/index.ts:69-90 | the freshly built grid, all values 0 and all sets 1..10, satisfies the invariant |
| `Sudoku.IndicesOnce` | source/index.ts:98 | the initial list holds every cell exactly once |
| `Sudoku.ResolveOne` | source/index.ts:122 | setting an unresolved cell to a digit takes exactly that cell off the unresolved ones |
| `Sudoku.ListedUnresolved` | source/index.ts:98-101 | a list holding exactly the unresolved cells lists only cells whose value is still 0 |
| `Sudoku.EmptyListSolved` | source/index.ts:99-126 | under the invariant, once the list of unresolved cells has run empty the grid is solved |
| `Sudoku.CompleteIsSolved` | source/index.ts:99-126 | when no cell is left unresolved, the invariant makes the grid solved: every value in 1..9, no digit twice in a row, column or box |
| `Fields.Field.constructor` | source/index.ts:66 | a new field has 81 empty cell slots |
| `Fields.Field.At` | source/index.ts:136-138 | on a built field, the cell at `(x, y)` is the one wired to `rows[x]`, `cols[y]` and the box of `(x, y)` |
| `Fields.Field.Initialize` | source/index.ts:68-91 | all 27 sets are new and hold 1..10, all 81 cells are new with value 0, and every cell is wired to the sets of its position |
| `Fields.Field.NewSets` | source/index.ts:69-79 | 27 new sets, each 1..10 |
| `Fields.Field.PlaceCells` | source/index.ts:81-90 | slot `y * 9 + x` holds a new cell of value 0 wired to row set `x`, column set `9 + y` and box set `18 + floor(y / 3) * 3 + floor(x / 3)` |
| `Fields.Field.PlaceColumn` | source/index.ts:84-89 | the inner loop for one `x`: the nine slots of that `x` get their cells, and every other slot is unchanged |
| `Fields.Field.FindLowest` | source/index.ts:104-114 | finds no cell exactly when the list is empty; otherwise returns the position of the first minimum of the option counts and the cell listed there |
| `Fields.Field.ShuffleIndices` | source/index.ts:101 | the list is shuffled in place and still lists the same cells |
| `Fields.Field.PickLowest` | source/index.ts:100-114 | the list is shuffled and nothing else changes; the cell found is the first with the fewest options in the new order, and none is found only for an empty list |
| `Fields.Field.Round` | source/index.ts:99-123 | one round: the list is shuffled in place; an empty list fails with `UnsolvableField`; otherwise the round fails, with `UnsolvableCell` and nothing but the list's order changed, exactly when the first cell with the fewest options has none, leaving an unresolved cell without options; on success exactly that cell gains a digit, the invariant holds and the new list is the shuffled one with that position spliced out, matching the unresolved cells |
| `Fields.Field.CollapseListed` | source/index.ts:121-123 | fails exactly when the listed cell has no options, with `UnsolvableCell`, nothing changed and an unresolved cell without options left in the grid; on success that cell gains a digit, the invariant holds, and the new list is the old one with position `at` spliced out, matching the unresolved cells |
| `Fields.Field.SpliceResolved` | source/index.ts:123 | `splice` of the entry whose cell just got a digit: the new list is the old one without position `at`, and it still holds exactly the unresolved cells |
| `Fields.Field.StuckOn` | source/index.ts:46-48 | a listed cell without options, in a list of exactly the unresolved cells, is an unresolved cell with no options left |
| `Fields.Field.CollapseCell` | source/index.ts:122 | `collapse` seen from the field: it fails exactly when cell `i` has no options, and then nothing changes; on success only cell `i` changes, to a digit 1..9, the sets become those with the digit deleted from `i`'s three sets, and the invariant holds |
| `Fields.Field.Fill` | source/index.ts:96-126 | one attempt collapses at most 81 cells; a complete attempt collapsed all 81 and leaves a solved grid; a failed attempt reports `UnsolvableCell`, never `UnsolvableField`, and stops with some unresolved cell that has no options left |
| `Fields.Field.Generate` | source/index.ts:93-134 | makes between 1 and 100 attempts; returns false only after all 100 failed; on true every cell holds a digit 1..9 and no digit repeats in a row, column or box |

## Left out

- `Math.random` (source/index.ts:13) is a nondeterministic choice in its range. Nothing is claimed about the uniformity of the shuffle or the chance that 100 attempts succeed.
- `Field.log` and the top-level script (source/index.ts:140-153) are console output and program entry, so they are not modelled.
- `console.warn` and `debugger` in the `catch` block are side effects only. The `catch` is "discard the attempt and retry".
- `OverconstrainedError` is not defined in the file. Only the fact of the failure and which of the two throw sites raised it are modelled, not the class or its message.
- Arrays.Splice: `splice` shortens the list in place, but a Dafny array has a fixed length, so the shorter list is a new array. The fill loop continues with that new array.
- `remainingFields` holds cell indices rather than cell objects. Since `cells` is never changed during a fill, `cells[remaining[p]]` is the listed cell.
- Fields.Field.Generate: nothing is stated about the grid after a `false` result. The source leaves it as the last failed attempt left it.
- `FIELD_SIZE` is written as its value 9, and 81 and 27 are derived from it.
