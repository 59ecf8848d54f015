# Sudoku board, groups and backtracking solver

A model of the game core of a Java Sudoku application:

- the 9×9 board (`SudokuBoard`). Its cells are held in one row-major store, and its 27 groups (rows, columns and 3×3 boxes) are views over that same store. It provides guarded writes, final moves that are refused when they break the rules, a trial-move query, the legality check, random hole-punching for a new game, cloning and equality;
- a single cell (`SudokuField`);
- a group of nine cells (`SudokuGroup`) with its duplicate-digit check;
- the randomised backtracking solver (`BacktrackingSudokuSolver`);
- the difficulty tiers (`Difficulty`).

The modules are:

| module | file | models |
|---|---|---|
| `Outcomes` | outcomes.dfy | the exceptions, as `Status` / `Result` values |
| `Fields` | field.dfy | `SudokuField` as a class with one mutable `value` |
| `Grids` | grid.dfy | the grid as a value. It holds the coordinate maps, the duplicate-digit rule, legality, completions and the effect of one write on legality |
| `Groups` | group.dfy | `SudokuGroup` as a class over the board's shared store |
| `Difficulties` | difficulty.dfy | `Difficulty` |
| `Boards` | board.dfy | `SudokuBoard` as a class over an `array<int>` of 81 cells |
| `Solvers` | solver.dfy | `BacktrackingSudokuSolver` |
| `Puzzles` | puzzle.dfy | the repository's test puzzle and a solution of it |
| `Scenarios` | scenarios.dfy | the behaviours the repository's tests check, and the new-game sequence |

The cells of a board are `int`s in one `array<int>`. A row, column or box is a `Group` that holds the same array and the nine positions it refers to, so a write through any view is seen by `Get` and by every other view of that cell. This is what the Java code gets by sharing `SudokuField` objects.

A Java exception becomes a returned failure: `Failed(e)` for a `void` method, `Err(e)` for one that returns a value.

Randomness becomes a parameter:

- `Collections.shuffle` is a stream `shuffles: nat -> seq<int>` of permutations of 1..9;
- `Random.nextInt(9)` pairs are a stream `draw: nat -> (int, int)` of cells.

## Model

| member | source | states |
|---|---|---|
| Fields.Field.constructor | Model/src/main/java/org/example/SudokuField.java:33-36 | the new field holds the given value, unchecked |
| Fields.Field.GetValue | Model/src/main/java/org/example/SudokuField.java:39-41 | the stored value, read without side effects |
| Fields.Field.SetValue | Model/src/main/java/org/example/SudokuField.java:43-53 | a value in [0,9] is stored; any other value fails with `InvalidValue` and keeps the old value |
| Fields.Field.Clone | Model/src/main/java/org/example/SudokuField.java:55-63 | the copy is a new object with the same value, and it is equal to the original both ways |
| Fields.Field.Equals | Model/src/main/java/org/example/SudokuField.java:72-82 | equal exactly when the other field is not null and holds the same value |
| Fields.Field.CompareTo | Model/src/main/java/org/example/SudokuField.java:89-97 | null fails with `NullArgument`; otherwise the result is -1, 0 or 1, negative exactly when this value is smaller and 0 exactly when the values are equal |
| Fields.EqualsAgreesWithCompareTo | Model/src/main/java/org/example/SudokuField.java:72-97 | `Equals` is reflexive, symmetric and transitive; `CompareTo` gives 0 exactly for equal fields and is antisymmetric |
| Groups.Group.constructor | Model/src/main/java/org/example/SudokuGroup.java:32-34 | the group refers to the given store positions (a shallow copy of the references) |
| Groups.Group.GetFieldValue | Model/src/main/java/org/example/SudokuGroup.java:36-38 | the value at a place is the value of the shared cell that place refers to |
| Groups.Group.SetFieldValue | Model/src/main/java/org/example/SudokuGroup.java:40-42 | a value in [0,9] is written to the shared cell and no other cell changes; any other value fails and changes nothing |
| Groups.Group.Verify | Model/src/main/java/org/example/SudokuGroup.java:44-55 | the counting check returns true exactly when no digit 1..9 occurs twice among the nine values |
| Groups.Group.Clone | Model/src/main/java/org/example/SudokuGroup.java:57-71 | the copy is a new group over the same cells, of the same kind |
| Groups.Group.Equals | Model/src/main/java/org/example/SudokuGroup.java:80-90 | equal exactly when the other group is not null, of the same kind and sees equal values place by place |
| Groups.EqualsIsEquivalence | Model/src/main/java/org/example/SudokuGroup.java:57-90 | group equality is reflexive and symmetric, and a clone equals its original |
| Grids.CountsDecideDuplicates | Model/src/main/java/org/example/SudokuGroup.java:44-55 | for values in [0,9], every digit counted at most once is the same as no duplicate digit |
| Grids.ViewsShareCell | Model/src/main/java/org/example/SudokuBoard.java:68-105 | row r at place c, column c at place r and box `r/3*3+c/3` at place `r%3*3+c%3` all name cell (r, c) |
| Grids.BoxCoordinates | Model/src/main/java/org/example/SudokuBoard.java:92-98 | the box-number and in-box-position maps are undone by the box coordinates, so no two cells land on the same box place |
| Grids.BoxPlacesDistinct | Model/src/main/java/org/example/SudokuBoard.java:94-96 | two distinct cells are never filed at the same place of the same box |
| Grids.LegalAfterWrite | Model/src/main/java/org/example/SudokuBoard.java:119-129 | on a legal grid, writing a digit keeps it legal exactly when no other cell of that row, column or box holds the digit |
| Grids.LegalBelow | Model/src/main/java/org/example/SudokuBoard.java:54-66 | emptying cells of a legal grid leaves it legal |
| Grids.IllegalIsUnsolvable | Model/src/main/java/org/example/BacktrackingSudokuSolver.java:47-48 | an illegal grid has no legal completion, so the solver may abandon it |
| Grids.UnsolvableByEveryDigit | Model/src/main/java/org/example/BacktrackingSudokuSolver.java:44-53 | if none of the nine digits in an empty cell leads to a legal completion, the grid has none |
| Grids.NoEmptyCellIsFull | Model/src/main/java/org/example/SudokuBoard.java:54-66 | with values in [0,9], no zero means every cell holds a digit |
| Grids.OccurrencesAfterWrite | Model/src/main/java/org/example/SudokuBoard.java:64 | a write changes the count of a value by exactly the old and new value of that cell |
| Difficulties.Difficulty.CellsToFill | Model/src/main/java/org/example/Difficulty.java:4-16 | the number of cells a tier keeps is at most 81 |
| Difficulties.TierConstants | Model/src/main/java/org/example/Difficulty.java:4-6 | Easy keeps 45, Medium 30 and Hard 17 cells; harder tiers keep fewer |
| Boards.BoxNumberOnBoard | Model/src/main/java/org/example/SudokuBoard.java:153-156 | for a cell of the board, the truncating box number is the box that holds the cell |
| Boards.Board.InitializeFields | Model/src/main/java/org/example/SudokuBoard.java:44-52 | a new store of 81 cells, all 0 |
| Boards.Board.InitializeRows | Model/src/main/java/org/example/SudokuBoard.java:68-74 | nine row views; row k refers to cells (k, 0)..(k, 8) of the given store |
| Boards.Board.InitializeColumns | Model/src/main/java/org/example/SudokuBoard.java:76-86 | nine column views; column k refers to cells (0, k)..(8, k) of the given store |
| Boards.Board.FileBoxes | Model/src/main/java/org/example/SudokuBoard.java:90-98 | filing every cell under its box number at its in-box position gives, under box b, exactly the positions of box b in order |
| Boards.Board.InitializeBoxes | Model/src/main/java/org/example/SudokuBoard.java:88-105 | nine box views; place p of box b refers to the cell whose box number is b and in-box position is p |
| Boards.Board.constructor | Model/src/main/java/org/example/SudokuBoard.java:36-42 | a new board: all cells 0 and all 27 views wired to its own store |
| Boards.Board.Get | Model/src/main/java/org/example/SudokuBoard.java:111-113 | the value of cell (row, col), always in [0,9] |
| Boards.Board.ViewsShareCells | Model/src/main/java/org/example/SudokuBoard.java:68-113 | the row, column and box views of a cell read the same value as `Get` |
| Boards.Board.ViewsSeeGroups | Model/src/main/java/org/example/SudokuBoard.java:177-184 | view k of each kind sees row, column or box k of the grid |
| Boards.Board.Set | Model/src/main/java/org/example/SudokuBoard.java:115-117 | a value in [0,9] is written to that one cell; any other value fails and changes nothing |
| Boards.Board.SetMove | Model/src/main/java/org/example/SudokuBoard.java:119-129 | a final move that leaves the board illegal is undone and fails with `ImpossibleMove`; on a legal board a final digit succeeds exactly when its row, column and box do not already hold it |
| Boards.Board.CheckBoard | Model/src/main/java/org/example/SudokuBoard.java:177-184 | true exactly when all 27 groups pass the duplicate-digit rule |
| Boards.Board.GetRow | Model/src/main/java/org/example/SudokuBoard.java:135-142 | an index in [0,8] gives the view of that row over the board's cells; any other fails with `IndexOutOfBounds` |
| Boards.Board.GetColumn | Model/src/main/java/org/example/SudokuBoard.java:144-151 | the same for a column |
| Boards.Board.GetBox | Model/src/main/java/org/example/SudokuBoard.java:153-161 | fails exactly when the truncating box number is outside [0,8]; for a cell of the board, the box view holds that cell at its in-box position |
| Boards.Board.IsValidMove | Model/src/main/java/org/example/SudokuBoard.java:167-175 | 0 is accepted without a write; a value outside [0,9] fails; a digit gives whether the board with it is legal, and the cell is left 0 (see Findings) |
| Boards.Board.IsValidMoveRestoring | Model/src/main/java/org/example/SudokuBoard.java:167-175 | the same answer, with the board left exactly as it was |
| Boards.Board.RemoveFields | Model/src/main/java/org/example/SudokuBoard.java:54-66 | empties exactly `81 - CellsToFill` filled cells and changes no other cell; a full board is left with `CellsToFill` filled cells |
| Boards.Board.Clone | Model/src/main/java/org/example/SudokuBoard.java:186-195 | a new board with its own store, the same cell values, and equal to the original both ways |
| Boards.Board.Equals | Model/src/main/java/org/example/SudokuBoard.java:209-219 | equal exactly when the other board is not null and every cell holds the same value |
| Boards.CellsByCoordinates | Model/src/main/java/org/example/SudokuBoard.java:218 | two grids are equal exactly when they agree at every (row, column) |
| Solvers.RecursiveSolve | Model/src/main/java/org/example/BacktrackingSudokuSolver.java:40-58 | on success the board is full and keeps every given digit, and it is legal unless it was full on entry; a full board is accepted unchanged; on failure the board is unchanged and has no legal completion |
| Solvers.TryDigits | Model/src/main/java/org/example/BacktrackingSudokuSolver.java:44-53 | at an empty cell, success leaves the board full, legal and keeping its digits; failure leaves the board unchanged, and then no digit in that cell, and so no completion at all, is legal |
| Solvers.KeptDigitSolves | Model/src/main/java/org/example/BacktrackingSudokuSolver.java:47-49 | a digit kept because the search below it succeeded yields a full, legal grid that keeps every digit of the grid before the digit was written |
| Solvers.Solve | Model/src/main/java/org/example/BacktrackingSudokuSolver.java:36-38 | the board ends unchanged or full, legal and keeping its digits; whenever a legal completion exists, it ends full and legal |
| Puzzles.SolutionIsLegal | Model/src/test/java/SudokuTestSetup.java:23-33 | the solution of the test puzzle passes all 27 groups |
| Puzzles.PuzzleIsSolvable | Model/src/test/java/SudokuTestSetup.java:23-33 | the test puzzle has values in [0,9], is not full and has a legal completion |
| Scenarios.LoadPuzzle | Model/src/test/java/SudokuTestSetup.java:35-41 | copying the puzzle cell by cell gives a board holding exactly the puzzle |
| Scenarios.SolveTestPuzzle | Model/src/test/java/SudokuBacktrackingTests.java:7-15 | whatever the shuffles, solving the test puzzle gives a full, legal board that keeps the givens |
| Scenarios.EmptyIsSolvable | ViewProject/src/main/java/org/example/SudokuPlayController.java:50-51 | the empty board has a legal completion, so solving it fills it |
| Scenarios.NewGame | ViewProject/src/main/java/org/example/SudokuPlayController.java:50-52 | solving an empty board and then removing cells leaves a legal board with exactly the tier's number of filled cells |
| Scenarios.WriteThroughRow | Model/src/test/java/SudokuBoardTests.java:25-32 | a value written through row 0 is read back by the row and by `Get` |
| Scenarios.WriteThroughColumn | Model/src/test/java/SudokuBoardTests.java:34-41 | a value written through column 1 is read back by the column and by row 1 |
| Scenarios.WriteThroughBox | Model/src/test/java/SudokuBoardTests.java:43-50 | a value written at the middle of the box of (1, 1) is read back by the box and by `Get` at (1, 1) |
| Scenarios.SetOutOfRange | Model/src/test/java/SudokuBoardTests.java:52-57 | writing 25 fails with `InvalidValue` and the cell stays 0 |
| Scenarios.EmptyIsLegal | Model/src/test/java/SudokuBoardTests.java:70-78 | the empty grid is legal |
| Scenarios.FirstMoveIsFree | Model/src/test/java/SudokuBoardTests.java:70-78 | on the empty grid any digit may be placed anywhere, and the result is legal |
| Scenarios.SecondFiveClashes | Model/src/test/java/SudokuBoardTests.java:80-89 | after a 5 at (0, 0), a 5 at (0, 1) makes the grid illegal |
| Scenarios.SecondFiveInRowRefused | Model/src/test/java/SudokuBoardTests.java:70-89 | the first final move succeeds; the second fails with `ImpossibleMove` and leaves the cell 0 |
| Scenarios.IndexChecks | Model/src/test/java/SudokuBoardTests.java:91-110 | row 53, column 53 and box (15, 53) fail; (-1, 0) names box 0 and (0, 9) names box 3 |
| Scenarios.CloneIsIndependent | Model/src/test/java/SudokuBoardTests.java:112-129 | a clone equals its original, and no longer does once the original is written |
| Scenarios.ZeroTrialOffBoard | Model/src/main/java/org/example/SudokuBoard.java:167-175 | trying 0 is accepted even at a row and column off the board, and the board stays empty |
| Scenarios.TrialClearsCell | Model/src/main/java/org/example/SudokuBoard.java:167-175 | trying 5 in a cell that holds 5 answers true and leaves the cell 0 |
| Scenarios.RestoringTrialKeepsCell | Model/src/main/java/org/example/SudokuBoard.java:167-175 | the restoring trial answers true and the cell still holds 5 |

## Left out

- Logging, `toString`, `hashCode` and serialisation are left out. They carry no state that the modelled operations read.
- `SudokuField`'s `PropertyChangeSupport` notification is left out. It only informs the user interface.
- `SudokuBoard.getField` is left out. The board stores `int` cells rather than `SudokuField` objects, so there is no field object to hand out. Sharing between views is modelled by the shared store.
- `SudokuBoard.solveGame` and `getSudokuSolver` are left out: they only forward to, or return, the solver the board was built with. `Solvers.Solve` is called with the board directly.
- `BacktrackingSudokuSolver`'s `clone`, `equals` and `hashCode` are left out. The solver has no state.
- The `SudokuRow`, `SudokuColumn` and `SudokuBox` subclasses are not part of this model. Their only effect, the class that `equals` compares, is modelled by `Groups.Kind`.
- Boards.Board.Get, Boards.Board.Set, Boards.Board.SetMove: a row or column outside [0,8] is a precondition. The Java code throws `ArrayIndexOutOfBoundsException` there. The same holds for `Boards.Board.IsValidMove` with a digit; with value 0 it accepts any row and column, as the code does, and the same applies to `Groups.Group.GetFieldValue` and `SetFieldValue` for a place outside the group.
- Groups.Group.Verify requires the nine values to be in [0,9]. Every board write guarantees that; a value outside it would make the Java count table throw.
- Boards.BoxNumber does not model 32-bit overflow of `row / 3 * 3 + col / 3` for arguments near the `int` limits.
- Boards.Board.RemoveFields requires at least `81 - CellsToFill` filled cells. With fewer, the Java loop does not terminate: once every filled cell has been emptied, each `do … while (get(r, c) == 0)` search finds only empty cells. A new board has 0 filled cells, so `removeFields(EASY)` on it never returns. The model excludes that input rather than modelling the divergence.
- Boards.Board.RemoveFields: `Random` is replaced by a stream of drawn cells. The stream is assumed to keep drawing every cell (`FairDraws`), which stands in for the fact that the Java loop ends with probability 1. The distribution of the removed cells is not modelled.
- Boards.Board.InitializeBoxes: the loop that files each cell under its box (lines 90-98) is the separate method `Boards.Board.FileBoxes`; the two-dimensional array of fields becomes a two-dimensional array of store positions.
- Solvers.RecursiveSolve: the loop over the nine shuffled digits (lines 44-53) is the separate method `Solvers.TryDigits`, which calls back into `RecursiveSolve`. `Collections.shuffle` is replaced by a stream of permutations. A board already full on entry is returned as solved without being checked, as in the code, so legality is promised only when a cell was filled. The test that two solves give different boards depends on the random order and is not modelled.

## Findings

| source | as written | input that shows it | evidently intended | confidence | as-written member | corrected member |
|---|---|---|---|---|---|---|
| Model/src/main/java/org/example/SudokuBoard.java:171 | after the trial write, `isValidMove` writes 0 into the cell | a cell holding 5, then `isValidMove(r, c, 5)`: the answer is true and the cell is left empty | put back the value the cell held before the trial, as the final-move `set` does at lines 120 and 125 | medium, not executed | Scenarios.TrialClearsCell | Boards.Board.IsValidMoveRestoring |

The user interface asks `isValidMove` about every edit of a cell. When the cell already holds a digit and the new digit is refused, the board keeps 0 while the text field still shows the old digit. `Boards.Board.IsValidMove` models the code as written, and `Scenarios.TrialClearsCell` exhibits the emptied cell. `Boards.Board.IsValidMoveRestoring` proves that the board is left unchanged and that the answer is the same.

`getBox` does not check the row and the column separately, only the computed box number. So `getBox(-1, 0)` returns box 0 and `getBox(0, 9)` returns box 3 (`Scenarios.IndexChecks`). The model follows the code here. The repository's test only probes `(15, 53)`, which fails either way.
