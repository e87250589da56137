# SudokuSolver in Dafny

A model of the sudoku engine in `sudoku.rb`, the Ruby class
`SudokuSolver`. The engine works on a flat board of 81 cells. Each cell
holds a digit 0..9, and 0 means an empty cell. The model has the same
layers as the Ruby class:

- **Index mapping** (`Indexes.dfy`): `row_indexes`, `col_indexes` and
  `grid_indexes` turn a cell index into the 9 indices of its row, column
  or 3x3 grid.
- **Candidates** (`Board.dfy`): `list_candidates` lists the digits 1..9
  that no cell of the union of those three lists holds.
- **Single-candidate propagation** (`Propagation.dfy`, `Solver.dfy`):
  `scan_and_fix` walks the cells in index order. It writes the only
  candidate of every empty cell that has exactly one. Later cells see the
  digits written earlier in the same pass. `basic_solve` wraps it in a
  loop.
- **Depth-first search** (`Snapshot.dfy`, `Search.dfy`, `Solver.dfy`):
  `deep_solve` keeps a stack of board snapshots. A snapshot is the board
  joined into an 81-character digit string. For the first empty cell of
  the popped snapshot, `simulate` returns one snapshot per candidate.

`SudokuSolver` is a class whose one field, `field: array<int>`, is
`@field`. `ScanAndFix` and `WriteEach` (the `c.each` loop of `simulate`)
are loops that write into that array in place. `BasicSolve` loops over
`ScanAndFix`. `Simulate` replaces the array by a freshly parsed board
and then calls `WriteEach`. `DeepSolve` loops over a stack of snapshots
and changes `field` only through `Simulate`. The pure parts are functions
on `seq<int>`: the index lists, the candidates, the pass `FixPass`, the
snapshot encoding `Join`/`Parse` and the search step `Children`. Each
method is proved against them.

The Ruby library calls the engine uses are modelled in `ArrayOps.dfy`:
`step`, `to_a`, `flatten`, `uniq`, `select`, `values_at`, `-`, `index`
and `sort`.

Properties proved:

- Each index list has 9 strictly ascending cells. They are exactly the
  cells that share the row, column or grid of the given cell.
- A digit is a candidate iff it is in 1..9 and no peer holds it. The
  candidate list is strictly ascending.
- A pass changes only empty cells. Each changed cell gets the single
  candidate computed on the board as already updated. A pass keeps every
  given and keeps a valid partial board valid.
- `basic_solve` performs exactly one pass, because `old_field` aliases
  `@field`.
- `simulate` returns one snapshot per candidate of the first empty cell,
  in ascending digit order. Each snapshot parses back to the input board
  with that candidate written in.
- `deep_solve` terminates. The measure is the sum over the stack of 10 to
  the number of empty cells. Any answer it returns has no `'0'`. When the
  start board is a valid partial board, the answer is a solved grid that
  keeps every given of the start.

Three facts about the code shape the model:

- A pass is sequential (sudoku.rb:21-27). `scan_and_fix` writes into
  `@field` as it goes, so a digit written at cell i is visible to every
  later cell of the same pass.
- `basic_solve` runs exactly one pass (sudoku.rb:30-36), although its
  comment at sudoku.rb:29 says it repeats `scan_and_fix` until the board
  stops changing. `BasicSolve` models the code; `Propagate` models the
  comment (see "## Findings").
- `initialize` (sudoku.rb:8-10) does not validate the board it reads, so
  the constructor has no error path. Its precondition only asks for 81
  digits 0..9.

## Model

| member | source | states |
|---|---|---|
| ArrayOps.Step | sudoku.rb:107-109 | `from.step(limit, stride)` is empty iff from > limit. Element k is from + k*stride. The last element is at most limit and the next step would pass it. |
| ArrayOps.Range | sudoku.rb:99 | `(lo..hi).to_a` holds exactly lo..hi, strictly ascending, with hi-lo+1 elements. |
| ArrayOps.Flatten | sudoku.rb:84 | x is in the flattened list iff it is in one of the inner lists. |
| ArrayOps.Uniq | sudoku.rb:84 | `uniq` keeps exactly the same elements and leaves no duplicates. |
| ArrayOps.Select | sudoku.rb:88 | `select` keeps exactly the elements that satisfy the block. |
| ArrayOps.ValuesAt | sudoku.rb:87 | `values_at` has one element per index, and element k is the value at index k. |
| ArrayOps.Difference | sudoku.rb:89 | `a - b` holds exactly the elements of a not in b, no more of them than a has, and stays strictly ascending when a is. |
| ArrayOps.IndexOf | sudoku.rb:47 | `index` is nil iff x is absent. Otherwise it is an in-range position holding x with no x before it. |
| ArrayOps.Insert | sudoku.rb:130 | Inserting into a sorted list keeps it sorted and adds exactly x to its multiset. The result is strictly ascending when the list was and x is new. |
| ArrayOps.Sort | sudoku.rb:130 | `sort` returns a sorted permutation. The result is strictly ascending when the input has no duplicates. |
| ArrayOps.SortKeepsMembers | sudoku.rb:130 | `sort` keeps the length and exactly the same elements. |
| ArrayOps.SingleValue | sudoku.rb:24-25 | A strictly ascending list whose only value is d is exactly [d]. |
| Indexes.RowIndexes | sudoku.rb:94-100 | 9 strictly ascending indices: exactly the cells in the row of idx. |
| Indexes.ColIndexes | sudoku.rb:102-111 | 9 strictly ascending indices: exactly the cells in the column of idx. |
| Indexes.ColumnStep | sudoku.rb:107-109 | `x.step(80, 9)` for a column x yields 9 strictly ascending cells, exactly those of column x. |
| Indexes.GridIndexes | sudoku.rb:114-131 | 9 strictly ascending (sorted) indices: exactly the cells of the 3x3 grid of idx. |
| Indexes.GridTriples | sudoku.rb:126-129 | Mapping `start.step(start + 2, 1)` to `[n, n+9, n+18]` gives the three column triples of the grid starting at start. |
| Indexes.FlattenTriples | sudoku.rb:127-130 | The three `[n, n+9, n+18]` triples flatten to 9 distinct cells. |
| Indexes.GridCells | sudoku.rb:114-131 | The flattened triples from the grid's top-left cell are exactly the 9 cells of that grid. |
| Board.Zeros | sudoku.rb:44-54 | The number of empty cells, the measure behind the termination of the search and of repeated passes: 0 iff the board has no 0, and never more than the length. |
| Board.AllNumber | sudoku.rb:5 | `ALL_NUMBER` is 1..9 in strictly ascending order. |
| Board.ListCandidates | sudoku.rb:78-91 | For an empty cell, d is listed iff d is in 1..9 and no peer holds d. The list is strictly ascending with at most 9 entries. |
| Board.PeerIndexes | sudoku.rb:80-84 | The flattened, de-duplicated index list holds exactly the peers of idx. |
| Board.HeldDigits | sudoku.rb:87-89 | A digit 1..9 is missing from the non-zero peer values iff it is a candidate. |
| Board.CandidateDigits | sudoku.rb:89 | Every candidate is a digit 1..9. |
| Board.FillKeepsValid | sudoku.rb:25 | Writing a candidate into an empty cell of a valid partial board keeps it valid and keeps every other digit. |
| Board.TwoCandidates | sudoku.rb:25 | A cell with two different candidates has a candidate list of length at least 2, so the loop step for that cell, run on this board (`FixCell`), leaves it empty. |
| Board.OnlyCandidate | sudoku.rb:24-25 | A cell whose only candidate is d has candidate list exactly [d]. |
| Propagation.FixCell | sudoku.rb:22-25 | One loop step changes at most cell i. Cell i changes iff it was empty with exactly one candidate, and it then holds that candidate. |
| Propagation.FixCellKeepsValid | sudoku.rb:25 | One loop step keeps a valid partial board valid. |
| Propagation.ScanFrame | sudoku.rb:22-26 | Cells the scan has not reached still hold their first value. A visited cell is never written again. |
| Propagation.ScanKeepsGivens | sudoku.rb:24 | Every non-zero cell survives the scan unchanged. |
| Propagation.ScanKeepsValid | sudoku.rb:25 | Every prefix of the scan keeps a valid partial board valid. |
| Propagation.ScanUpTo | sudoku.rb:22-26 | The board after the `@field.size.times` loop has visited cells 0..n-1; it is again a board of 81 digits. ScanFrame and PassWrites prove which cells it changes and to what. |
| Propagation.FixPass | sudoku.rb:21-27 | One whole `scan_and_fix` pass; it is again a board of 81 digits. PassWrites proves what it writes, PassKeeps that it keeps the givens and validity, StableIffNoSingle exactly when it changes nothing. |
| Propagation.ScanIsPrefixOfPass | sudoku.rb:22-26 | When the loop reaches cell k, cells 0..k-1 already hold what the whole pass leaves in them and cells k..80 still hold the input. |
| Propagation.PassWrites | sudoku.rb:21-27 | A pass changes cell k iff k was empty with exactly one candidate on the board as updated by cells 0..k-1 (by ScanIsPrefixOfPass, the pass's own output on 0..k-1 and the input from k on). It then writes that candidate. |
| Propagation.PassKeeps | sudoku.rb:21-27 | A pass keeps every given and keeps a valid partial board valid. |
| Propagation.ZerosDecrease | sudoku.rb:25 | Filling empty cells and changing nothing else lowers the empty count unless nothing changed. |
| Propagation.PassProgress | sudoku.rb:29-36 | A pass that changes the board has strictly fewer empty cells. |
| Propagation.StableIffNoSingle | sudoku.rb:21-27 | A pass leaves a board unchanged iff no empty cell of the board has exactly one candidate. |
| Propagation.StableScan | sudoku.rb:21-27 | On a board the pass leaves unchanged, every prefix of the scan is the board itself. |
| Propagation.ScanIdle | sudoku.rb:22-25 | On a board with no empty cell that has exactly one candidate, no step of the scan changes anything. |
| Propagation.Propagated | sudoku.rb:29 | Repeating passes until one changes nothing ends, at a board the pass leaves unchanged. By StableIffNoSingle, no empty cell of that board has exactly one candidate. |
| Propagation.PropagatedKeeps | sudoku.rb:29-36 | Repeated passes keep every given of the board and keep a valid partial board valid. |
| Propagation.PropagatedIdempotent | sudoku.rb:29 | Repeating passes again on the result of repeated passes changes nothing. |
| Snapshot.DigitChar | sudoku.rb:42 | `to_s` of a digit is a character '0'..'9'. |
| Snapshot.CharToInt | sudoku.rb:62 | `to_i` of a character is in 0..9 and inverts DigitChar on digit characters. |
| Snapshot.Join | sudoku.rb:42 | `join` of a board has one digit character per cell. |
| Snapshot.DeleteNewlines | sudoku.rb:62 | `delete("\n")` keeps exactly the non-newline characters and is the identity on strings without a newline. |
| Snapshot.Parse | sudoku.rb:62 | Parsing gives digits 0..9, one per character of a newline-free string. |
| Snapshot.ParseJoin | sudoku.rb:62 | Parsing a joined board gives the board back. |
| Snapshot.JoinParse | sudoku.rb:62-71 | Parsing a snapshot gives a board, and joining it gives the snapshot back. |
| Snapshot.IndexOfZero | sudoku.rb:47 | `index("0")` on a snapshot equals `index(0)` on its board. |
| Search.FirstEmpty | sudoku.rb:64 | `@field.index(0)` is a cell holding 0, with no 0 before it. |
| Search.Branches | sudoku.rb:68-72 | One snapshot per digit of c, in order: snapshot k is the board with digit k written into idx. |
| Search.BranchesSnoc | sudoku.rb:68-72 | One more loop step appends exactly one snapshot. |
| Search.Children | sudoku.rb:61-74 | The list `simulate` returns: one snapshot per candidate of the first empty cell. ChildrenBoards proves what each snapshot is and their order, ChildrenKeepValid that they stay valid and keep the start's givens. |
| Search.ChildrenBoards | sudoku.rb:61-74 | simulate returns one snapshot per candidate of the first empty cell, empty iff that cell has no candidate. Snapshot k parses to the input board with candidate k written in, and the written digits ascend. |
| Search.ChildAt | sudoku.rb:68-72 | Snapshot k parses to the board with candidate k in the first empty cell, and that digit is a candidate. |
| Search.FilledSnapshot | sudoku.rb:70-71 | The snapshot of a board with one digit written in parses back to that board. |
| Search.ChildrenKeepValid | sudoku.rb:50-53 | Every child of a valid partial board that extends start is a valid partial board that extends start. |
| Search.ZerosFill | sudoku.rb:70 | Writing a digit into an empty cell lowers the empty count by exactly one. |
| Search.MeasureAppend | sudoku.rb:52-53 | The measure of `stack + list` is the sum of the two measures. |
| Search.MeasureUniform | sudoku.rb:52-53 | n snapshots of equal weight w measure n*w. |
| Search.ChildrenLighter | sudoku.rb:50-53 | The children of a board weigh strictly less than the board. |
| Search.ChildrenWeight | sudoku.rb:50-53 | The children of a board with k empty cells weigh at most 9*10^(k-1). |
| Search.UniformBound | sudoku.rb:50-53 | At most nine snapshots of weight w weigh at most 9*w. |
| Search.ChildWeight | sudoku.rb:70 | Each child has exactly one empty cell fewer than its parent. |
| Search.PushChildren | sudoku.rb:46-53 | Replacing the popped snapshot by its children keeps every entry well formed. It keeps every entry valid and extending the start when that held before, and strictly lowers the measure. |
| Solver.SudokuSolver.constructor | sudoku.rb:8-10 | The solver's field is a fresh array holding the given board. |
| Solver.SudokuSolver.ScanAndFix | sudoku.rb:21-27 | The in-place loop leaves @field equal to FixPass of the old board. |
| Solver.SudokuSolver.BasicSolve | sudoku.rb:30-36 | Because `old_field = @field` aliases, the loop ends after one pass: @field equals FixPass of the old board. |
| Solver.SudokuSolver.Propagate | sudoku.rb:29-36 | Repeating passes against a copy of the board leaves @field equal to Propagated of the old board: a fixpoint of the pass that keeps every given and keeps a valid partial board valid. |
| Solver.SudokuSolver.Simulate | sudoku.rb:61-74 | simulate replaces @field by the parsed snapshot and returns Children of that board. @field is left as the last returned snapshot, or the parsed board when none is returned. |
| Solver.SudokuSolver.WriteEach | sudoku.rb:68-72 | The `c.each` loop returns Branches of the board and leaves @field holding the last digit written. |
| Solver.SudokuSolver.DeepSolve | sudoku.rb:40-56 | The search terminates. A returned snapshot is an 81-digit string with no '0'. From a valid partial start, that snapshot parses to a solved grid that keeps every given of the start. A board with no empty cell is returned as its own snapshot and @field is left untouched. From a valid partial start, @field ends as a valid partial board that keeps every given of the start. |
| Snapshot.ZeroInSnapshot | sudoku.rb:47 | A snapshot contains '0' iff its board has an empty cell. |
| Examples.RowZeroCandidates | sudoku.rb:78-91 | With row 0 = 5 3 _ 6 7 8 9 1 2 and the rest empty, cell 2 has the candidate list [4]. |
| Examples.RowZeroPass | sudoku.rb:21-27 | One pass on that board writes 4 into cell 2. |
| Findings.Witness | sudoku.rb:30-36 | The witness board is well formed. Its non-zero cells are cells 2..8 and 28. |
| Findings.WitnessValid | sudoku.rb:30-36 | The witness is a valid partial board. |
| Findings.LowerCellUndecided | sudoku.rb:25 | After cell 1 is filled, every empty witness cell below row 0 still has two candidates. |
| Findings.FirstCellUndecided | sudoku.rb:25 | Cell 0 of the witness has two candidates, so the first pass skips it. |
| Findings.SecondCellForced | sudoku.rb:24-25 | Cell 1 of the witness has the single candidate 1. |
| Findings.ScanFirstTwo | sudoku.rb:22-25 | After cells 0 and 1 the scan has filled only cell 1, with 1. |
| Findings.LaterCellKept | sudoku.rb:22-25 | From cell 2 on, the first pass changes nothing. |
| Findings.ScanStable | sudoku.rb:21-27 | Every prefix of the first pass from cell 2 on yields the witness with cell 1 = 1. |
| Findings.FirstCellForcedLater | sudoku.rb:24-25 | Once cell 1 holds 1, cell 0 has the single candidate 2. |
| Findings.OnePassNotFixpoint | sudoku.rb:29-36 | On the valid witness one pass fills only cell 1, and a second pass fills cell 0 with 2. So one pass is not a fixpoint. |

## Left out

- `initialize` (reading the board from the script's `DATA` section) is file input. The constructor takes the board as an argument instead. The code does no validation, so there is no error path.
- `display` and the `if __FILE__ == $0` driver only print. They are not modelled.
- Ruby's `flatten!`, `uniq!` and `select!` return nil when they change nothing. Where the engine calls them that return value is unused or cannot be nil: list_candidates runs only on an empty cell, so `select!` always removes that cell's 0. They are modelled by their effect on the list.
- `.dup` in `simulate` only copies a fresh string, so it has no model of its own.
- ArrayOps.Flatten: states which elements the result holds, not their order.
- ArrayOps.Uniq: states which elements the result holds and that none repeats, not that the first occurrences keep their order.
- ArrayOps.Select: states which elements the result holds, not their order.
- ArrayOps.Sort: modelled on integer lists only, the only use in the engine.
- Solver.SudokuSolver.DeepSolve: does not state which complete snapshot is returned (the depth-first order) or that None means the board has no solution. Only termination and soundness of a returned answer are stated. When the start board has an empty cell, `@field` ends as the board the last `simulate` left, which depends on the search order. The contract states only that it stays a valid partial board keeping the start's givens. Callers read only the returned string (sudoku.rb:142-144).
- Solver.SudokuSolver.WriteEach: this loop is a separate method so that each method's proof stays small. The Ruby code has it inline in `simulate`.
- Integers are unbounded. Ruby integers do not overflow, so no wrap-around is modelled.

## Findings

| source | as written | input that shows it | evidently intended | confidence | as-written member | corrected member |
|---|---|---|---|---|---|---|
| sudoku.rb:29-36 | `old_field = @field` makes `old_field` the same array that `scan_and_fix` then updates. So `until @field == old_field` holds after the first pass and `basic_solve` runs exactly one pass. | Row 0 = `0 0 3 4 5 6 7 8 9`, cell 28 (row 3, column 1) = 2, every other cell 0. The pass skips cell 0 (candidates 1 and 2) and fills cell 1 with 1. A second pass would fill cell 0 with 2, but `basic_solve` stops. | Repeat `scan_and_fix` until a pass changes nothing, comparing against a copy taken before each pass (the comment at line 29). | high; not executed | Findings.OnePassNotFixpoint | Solver.SudokuSolver.Propagate |
