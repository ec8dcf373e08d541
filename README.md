# Sudoku solver core, modelled in Dafny

The model covers the sequential core of a Java Sudoku solver, together with the grid utilities and the board-expansion step that use it.

- **The engine (`SudokuEngine`)** does the following:
  - it converts a 9x9 board of `Character`s into an integer grid, where 0 means empty;
  - `isValid` rebuilds one 9-bit mask per row, column and 3x3 sub-matrix, and reports every duplicate digit;
  - `solveRecursively` solves by depth-first backtracking in place, counting each placement in `attempt`;
  - it converts the solved grid back to characters.

  Here, *sub-matrix* means the 3x3 block `(i/3)*3 + j/3` of cell [i][j]. *Placement* means one digit written into a cell during the search.
- **The test driver's `readMap`** parses a free-form string into a grid. It keeps the characters '1'..'9' and '.' in row-major order and ignores all others.
- **The web bean** has these parts:
  - it clears, sanitises and copies the board;
  - it validates a board through the engine;
  - its *root expansion* turns the board into a queue of sub-boards. Each sub-board has one blank cell filled with a digit the engine accepts. These sub-boards are the tasks of the solving workers.

Files and modules:

- `wrappers.dfy` (`Wrappers`): `Option` and `Result`, for Java's `null` results and thrown exceptions.
- `cells.dfy` (`Cells`): a board cell as a nullable `Character`, and the character/integer conversions.
- `rules.dfy` (`Rules`): rows, columns and sub-matrices; the collisions `isValid` reports and the text of its exception. Masks are modelled as sets of digits.
- `search.dfy` (`SearchSpec`): a functional reference for the backtracking search, with its soundness, completeness and attempt-count lemmas.
- `engine.dfy` (`Engine`): the class `SudokuEngine`, whose methods are proved against `SearchSpec` and `Rules`.
- `sudoku_map.dfy` (`SudokuMap`): `readMap` and the facts about what it reads.
- `bean.dfy` (`Web`): the board operations of the bean. It includes the root expansion, specified by the function `Picks` of the root board.

Representation choices:

- The engine's `int[][]` map is an `array<int>` of 81 cells in row-major order: cell [i][j] is element `9 * i + j`.
- The bean's `Character[][]` boards are `array2<Cell>`, where `Cell = Null | Ch(c)`. `Flatten` gives their row-major contents.
- A Java mask `m` is the set of digits whose bits are set: `m | 1 << (d-1)` is `m + {d}`, and `~m & 0x1FF` is `AllDigits - m`.
- The candidate loop of `solveRecursively` keeps the integer `available` and shifts it one bit at a time. `Rules.Bits` turns a digit set into that integer.

The Java `solveSudokuUsingThreads` expands every blank cell of the root in row-major order while fewer than 100 tasks are queued. The cap is tested only before each cell, so a started cell always queues all of its accepted digits. The expansion does not stop after the first one or two empty cells, and the model follows the code.

## Model

`Web.SanitizedBoard` (sanitising applied to a flattened board) and `Web.Acceptance` (the table of `Accepts` over all cells and digits) have no rows. They are vocabulary for the rows that use them: `SanitizeIdempotent`, `SanitizeKeepsValues`, `SanitizeNoNull`, `TabulatedAt` and `PicksValid`.

| member | source | states |
|---|---|---|
| Cells.CellValue | SudokuSolver/src/main/java/tanvir/project/sudoku/engine/SudokuEngine.java:59-63 | the engine's value of a board cell is always in 0..9 |
| Cells.CharOf | SudokuSolver/src/main/java/tanvir/project/sudoku/engine/SudokuEngine.java:85-89 | the character written back for an integer cell is ' ' or one of '1'..'9' |
| Cells.Values | SudokuSolver/src/main/java/tanvir/project/sudoku/engine/SudokuEngine.java:57-65 | every integer the engine reads from a board is between 0 and 9, whatever the board holds |
| Cells.Chars | SudokuSolver/src/main/java/tanvir/project/sudoku/engine/SudokuEngine.java:83-91 | the board built from any integers holds only blanks and digit characters |
| Cells.CellRoundTrip | SudokuSolver/src/main/java/tanvir/project/sudoku/engine/SudokuEngine.java:57-65 | an integer converted from a ' ' or '1'..'9' cell converts back to that cell |
| Cells.ValueRoundTrip | SudokuSolver/src/main/java/tanvir/project/sudoku/engine/SudokuEngine.java:82-92 | a cell value 0..9 converted to a character converts back to the same value |
| Cells.BoardRoundTrip | SudokuSolver/src/main/java/tanvir/project/sudoku/engine/SudokuEngine.java:57-65 | a board of ' ' and '1'..'9', converted to integers and back, is the board it started as |
| Rules.UnitOf | SudokuSolver/src/main/java/tanvir/project/sudoku/engine/SudokuEngine.java:289 | the row, column and sub-matrix index `(i/3)*3 + j/3` of a cell are each in 0..8 |
| Rules.OccursBeforeIff | SudokuSolver/src/main/java/tanvir/project/sudoku/engine/SudokuEngine.java:264-306 | the recursive "digit already seen in this unit" holds exactly when an earlier cell of the unit holds the digit |
| Rules.CellConflicts | SudokuSolver/src/main/java/tanvir/project/sudoku/engine/SudokuEngine.java:266-296 | defines the collisions one cell reports: none for an empty cell, otherwise one for each of its row, column and sub-matrix where its digit already stands in an earlier cell |
| Rules.ConflictsUpTo | SudokuSolver/src/main/java/tanvir/project/sudoku/engine/SudokuEngine.java:264-306 | defines the collisions of cells 0..n-1, in the order `isValid` scans them |
| Rules.Conflicts | SudokuSolver/src/main/java/tanvir/project/sudoku/engine/SudokuEngine.java:264-306 | defines every collision `isValid` reports for a map, in order; the lemmas below state what they mean |
| Rules.ConflictsSound | SudokuSolver/src/main/java/tanvir/project/sudoku/engine/SudokuEngine.java:269-296 | every reported collision has a 1-based unit index and a digit that stands in two cells of that unit |
| Rules.ConflictsComplete | SudokuSolver/src/main/java/tanvir/project/sudoku/engine/SudokuEngine.java:264-306 | every pair of equal digits in one unit is reported, naming the unit's 1-based index and the digit; reporting does not stop at the first collision |
| Rules.ConflictsEmptyIff | SudokuSolver/src/main/java/tanvir/project/sudoku/engine/SudokuEngine.java:307-310 | no collision is reported exactly when no row, column or sub-matrix holds a digit twice |
| Rules.ConflictsUpToGrow | SudokuSolver/src/main/java/tanvir/project/sudoku/engine/SudokuEngine.java:264-306 | a collision found in the first cells of the scan stays in the report as the scan goes on |
| Rules.MasksStart | SudokuSolver/src/main/java/tanvir/project/sudoku/engine/SudokuEngine.java:250-257 | the 27 empty masks are exact for the empty prefix of the scan |
| Rules.MaskStep | SudokuSolver/src/main/java/tanvir/project/sudoku/engine/SudokuEngine.java:299-303 | recording a filled cell in a matching unit's mask, and not otherwise, keeps that mask exact one cell further |
| Rules.MasksStep | SudokuSolver/src/main/java/tanvir/project/sudoku/engine/SudokuEngine.java:299-303 | recording cell n in the masks of its row, column and sub-matrix keeps all 27 masks exact for cells 0..n; an empty cell changes no mask |
| Rules.Coords | SudokuSolver/src/main/java/tanvir/project/sudoku/engine/SudokuEngine.java:145 | cell [i][j] lies in row i, column j and sub-matrix `(i/3)*3 + j/3` |
| Rules.OccursPlace | SudokuSolver/src/main/java/tanvir/project/sudoku/engine/SudokuEngine.java:157 | writing a digit into an empty cell adds it to the cell's three units and to no other unit |
| Rules.MaskPlace | SudokuSolver/src/main/java/tanvir/project/sudoku/engine/SudokuEngine.java:157-164 | adding the placed digit to one unit's mask, if the cell lies in that unit, keeps the mask exact |
| Rules.MasksPlace | SudokuSolver/src/main/java/tanvir/project/sudoku/engine/SudokuEngine.java:157-164 | the per-branch mask copies with the placed digit added are exact for the grid with the digit placed |
| Rules.MasksPlaceAt | SudokuSolver/src/main/java/tanvir/project/sudoku/engine/SudokuEngine.java:159-164 | the same, with row i, column j and sub-matrix `(i/3)*3 + j/3` as the engine indexes them |
| Rules.HitByMask | SudokuSolver/src/main/java/tanvir/project/sudoku/engine/SudokuEngine.java:269-289 | with a mask exact up to the cell, the mask test says whether the cell's digit occurs earlier in its unit |
| Rules.CellConflictsByMasks | SudokuSolver/src/main/java/tanvir/project/sudoku/engine/SudokuEngine.java:266-296 | the three mask tests give a cell's collisions in the engine's row, column, sub-matrix order |
| Rules.ConflictsUpToSound | SudokuSolver/src/main/java/tanvir/project/sudoku/engine/SudokuEngine.java:269-296 | a collision found in cells 0..n-1 names a digit that stands twice among those cells in that unit |
| Rules.Bits | SudokuSolver/src/main/java/tanvir/project/sudoku/engine/SudokuEngine.java:145-155 | defines the integer `available` for a set of free digits: bit k is set exactly when digit lo+k is free |
| Rules.BitsLow | SudokuSolver/src/main/java/tanvir/project/sudoku/engine/SudokuEngine.java:155-181 | the low bit of `available` says whether the current digit is a candidate, and shifting right moves on to the next digit |
| Rules.BitsZero | SudokuSolver/src/main/java/tanvir/project/sudoku/engine/SudokuEngine.java:150-155 | `available` is 0 exactly when no digit from the current one on is a candidate |
| Rules.NatString | SudokuSolver/src/main/java/tanvir/project/sudoku/engine/SudokuEngine.java:274 | a number prints as one or more decimal digits |
| Rules.IntString | SudokuSolver/src/main/java/tanvir/project/sudoku/engine/SudokuEngine.java:274 | an int prints as a non-empty string |
| Rules.Describe | SudokuSolver/src/main/java/tanvir/project/sudoku/engine/SudokuEngine.java:274-294 | each collision is worded as a non-empty "<Row/Col/Sub-matrix> k has multiple d's" |
| Rules.Message | SudokuSolver/src/main/java/tanvir/project/sudoku/engine/SudokuEngine.java:261-296 | the exception text is empty exactly when there is no collision |
| Rules.MessageSnoc | SudokuSolver/src/main/java/tanvir/project/sudoku/engine/SudokuEngine.java:271-274 | each further collision is appended after ", ", and the first one without it |
| SearchSpec.Zeros | SudokuSolver/src/main/java/tanvir/project/sudoku/engine/SudokuEngine.java:143 | the number of empty cells is at most the number of cells |
| SearchSpec.ZerosPlace | SudokuSolver/src/main/java/tanvir/project/sudoku/engine/SudokuEngine.java:157-173 | each placement leaves one empty cell fewer, so the recursion terminates |
| SearchSpec.ZerosNone | SudokuSolver/src/main/java/tanvir/project/sudoku/engine/SudokuEngine.java:196-205 | there are no empty cells exactly when no cell is 0 |
| SearchSpec.FirstEmptyFrom | SudokuSolver/src/main/java/tanvir/project/sudoku/engine/SudokuEngine.java:141-143 | the scan from a cell stops at the first 0 cell, or at 81 when there is none |
| SearchSpec.Candidate | SudokuSolver/src/main/java/tanvir/project/sudoku/engine/SudokuEngine.java:145-156 | defines that digit d may go into cell q: d is 1..9 and not yet in the cell's row, column or sub-matrix |
| SearchSpec.FirstEmpty | SudokuSolver/src/main/java/tanvir/project/sudoku/engine/SudokuEngine.java:141-143 | in an incomplete grid, the cell the search fills is empty and every earlier cell is filled |
| SearchSpec.TrySkipped | SudokuSolver/src/main/java/tanvir/project/sudoku/engine/SudokuEngine.java:155-181 | a digit that is not a candidate is passed over without a placement |
| SearchSpec.TryPlaced | SudokuSolver/src/main/java/tanvir/project/sudoku/engine/SudokuEngine.java:155-181 | a candidate is placed, counted once plus its sub-search; that search's solution is returned, or the next digit is tried |
| SearchSpec.PlaceKeepsValid | SudokuSolver/src/main/java/tanvir/project/sudoku/engine/SudokuEngine.java:145-157 | writing a digit absent from the cell's row, column and sub-matrix into an empty cell breaks no rule |
| SearchSpec.SolutionDigitIsCandidate | SudokuSolver/src/main/java/tanvir/project/sudoku/engine/SudokuEngine.java:145-149 | the digit a solution has in an empty cell of the puzzle is a candidate for that cell |
| SearchSpec.SolutionOfPlaced | SudokuSolver/src/main/java/tanvir/project/sudoku/engine/SudokuEngine.java:157 | a solution still solves the puzzle once one of its own digits is placed |
| SearchSpec.Search | SudokuSolver/src/main/java/tanvir/project/sudoku/engine/SudokuEngine.java:135-189 | a grid the search returns is complete: every cell holds a digit 1..9 |
| SearchSpec.TryDigits | SudokuSolver/src/main/java/tanvir/project/sudoku/engine/SudokuEngine.java:155-182 | a grid the digit loop returns is complete: every cell holds a digit 1..9 |
| SearchSpec.SearchSound | SudokuSolver/src/main/java/tanvir/project/sudoku/engine/SudokuEngine.java:135-189 | a grid the search returns for a valid puzzle is complete, keeps every clue and breaks no rule |
| SearchSpec.TryDigitsSound | SudokuSolver/src/main/java/tanvir/project/sudoku/engine/SudokuEngine.java:155-181 | the same for the digit loop at one cell |
| SearchSpec.SearchFinds | SudokuSolver/src/main/java/tanvir/project/sudoku/engine/SudokuEngine.java:95-101 | a puzzle that has a solution gets one from the search |
| SearchSpec.TryDigitsFinds | SudokuSolver/src/main/java/tanvir/project/sudoku/engine/SudokuEngine.java:155-181 | the digit loop finds a solution while the solution's own digit is still ahead |
| SearchSpec.SearchComplete | SudokuSolver/src/main/java/tanvir/project/sudoku/engine/SudokuEngine.java:95-101 | when the search reports no solution, the puzzle has none |
| SearchSpec.SearchAttemptsCoverBlanks | SudokuSolver/src/main/java/tanvir/project/sudoku/engine/SudokuEngine.java:166 | a found solution took at least one placement per empty cell of the puzzle |
| SearchSpec.TryDigitsAttempts | SudokuSolver/src/main/java/tanvir/project/sudoku/engine/SudokuEngine.java:166 | the digit loop's count covers the placements so far plus one per empty cell |
| SearchSpec.TryDigitsCountsUp | SudokuSolver/src/main/java/tanvir/project/sudoku/engine/SudokuEngine.java:166 | the placement count never falls below the placements already made |
| SearchSpec.PatternValid | SudokuSolver/src/main/java/tanvir/project/sudoku/engine/SudokuEngine.java:248-311 | a concrete filled grid breaks no rule, so `isValid` accepts it |
| SearchSpec.EmptySolvable | SudokuSolver/src/main/java/tanvir/project/sudoku/engine/SudokuEngine.java:114-189 | the search of the empty puzzle finds a solution, so the "solved" side of `getSolution` is reachable |
| SearchSpec.CompleteNeedsNoAttempts | SudokuSolver/src/main/java/tanvir/project/sudoku/engine/SudokuEngine.java:136-137 | a complete grid is returned as it is, with no placement |
| SearchSpec.NoCandidateFails | SudokuSolver/src/main/java/tanvir/project/sudoku/engine/SudokuEngine.java:150-152 | when no digit fits the first empty cell, the search fails at once with no placement |
| SearchSpec.NoCandidateTries | SudokuSolver/src/main/java/tanvir/project/sudoku/engine/SudokuEngine.java:155-182 | with no candidate among the remaining digits, the loop places nothing and fails |
| SearchSpec.AvailableAt | SudokuSolver/src/main/java/tanvir/project/sudoku/engine/SudokuEngine.java:145-149 | with exact masks, the digits whose bits survive in the complement of the three masks, within 0x1FF, are exactly the cell's candidates |
| SearchSpec.NoneAvailableAt | SudokuSolver/src/main/java/tanvir/project/sudoku/engine/SudokuEngine.java:150-155 | when the remaining bits of `available` are clear, trying the remaining digits places nothing and fails |
| Engine.SudokuEngine.Init | SudokuSolver/src/main/java/tanvir/project/sudoku/engine/SudokuEngine.java:56-64 | a new engine holds the given 9x9 grid of cells 0..9 with attempt 0; `Create` fills in the masks afterwards, as `isValid` does |
| Engine.SudokuEngine.Create | SudokuSolver/src/main/java/tanvir/project/sudoku/engine/SudokuEngine.java:51-72 | a board that is not 9x9 fails with the shape error and its message "Sudoku Table must be 9x9"; otherwise it fails with `isValid`'s message exactly when the converted grid breaks a rule; on success the engine holds the converted grid, attempt 0 and exact masks |
| Engine.SudokuEngine.IsValid | SudokuSolver/src/main/java/tanvir/project/sudoku/engine/SudokuEngine.java:248-311 | valid exactly when no unit holds a digit twice; the message lists every collision in scan order; afterwards each mask holds exactly its unit's digits |
| Engine.SudokuEngine.ResetRules | SudokuSolver/src/main/java/tanvir/project/sudoku/engine/SudokuEngine.java:250-257 | nine empty masks each for rows, columns and sub-matrices |
| Engine.SudokuEngine.ScanRow | SudokuSolver/src/main/java/tanvir/project/sudoku/engine/SudokuEngine.java:265-305 | after row i, the masks are exact and the report is complete for the rows so far |
| Engine.SudokuEngine.ScanCell | SudokuSolver/src/main/java/tanvir/project/sudoku/engine/SudokuEngine.java:266-304 | one cell of the scan keeps the masks exact and appends that cell's collisions |
| Engine.SudokuEngine.CheckCell | SudokuSolver/src/main/java/tanvir/project/sudoku/engine/SudokuEngine.java:267-296 | the three mask tests report exactly the cell's collisions, in row, column, sub-matrix order |
| Engine.SudokuEngine.Report | SudokuSolver/src/main/java/tanvir/project/sudoku/engine/SudokuEngine.java:271-275 | one report extends the message by that collision and marks the map invalid |
| Engine.SudokuEngine.RecordCell | SudokuSolver/src/main/java/tanvir/project/sudoku/engine/SudokuEngine.java:299-303 | the cell's digit is added to the masks of its row, column and sub-matrix, which stay exact |
| Engine.SudokuEngine.IsMapComplete | SudokuSolver/src/main/java/tanvir/project/sudoku/engine/SudokuEngine.java:196-205 | true exactly when every cell holds 1..9 |
| Engine.SudokuEngine.SolveFrom | SudokuSolver/src/main/java/tanvir/project/sudoku/engine/SudokuEngine.java:135-189 | the recursive solver returns the map itself exactly when the reference search finds a solution, and the map then holds it; on null the map is as it was on entry; attempt grows by the reference's placement count |
| Engine.SudokuEngine.FillCell | SudokuSolver/src/main/java/tanvir/project/sudoku/engine/SudokuEngine.java:143-184 | the digit loop at the first empty cell matches the reference's digit loop; an empty candidate set returns null at once; a failed cell is cleared again |
| Engine.SudokuEngine.TryDigit | SudokuSolver/src/main/java/tanvir/project/sudoku/engine/SudokuEngine.java:156-181 | one pass of the candidate loop matches one step of the reference's digit loop, including the count |
| Engine.SudokuEngine.Descend | SudokuSolver/src/main/java/tanvir/project/sudoku/engine/SudokuEngine.java:157-177 | the placement is counted once and the sub-search, with the mask copies, matches the reference search of the grid with the digit placed |
| Engine.SudokuEngine.SolveRecursively | SudokuSolver/src/main/java/tanvir/project/sudoku/engine/SudokuEngine.java:114-125 | an invalid map gives null with no search and no attempt; otherwise the result, the map and the count match the reference search, and a returned grid solves the puzzle |
| Engine.SudokuEngine.GetPrimitiveToWrapped | SudokuSolver/src/main/java/tanvir/project/sudoku/engine/SudokuEngine.java:78-93 | null for null; otherwise a new 9x9 board with '1'..'9' for values 1..9 and ' ' for everything else |
| Engine.SudokuEngine.GetSolution | SudokuSolver/src/main/java/tanvir/project/sudoku/engine/SudokuEngine.java:99-101 | null exactly when the map breaks a rule or has no solution, and then the map is unchanged; otherwise a new board that converts back to the grid the reference search finds first (depth-first, lowest digit first), which solves the puzzle; the masks describe the original map; the attempt count is unchanged for an invalid map and grows by the reference search's placements otherwise |
| SudokuMap.IsSignificant | SudokuSolver/src/main/java/tanvir/project/sudoku/test/SudokuMap.java:27-35 | defines the characters `readMap` stops at and consumes: the digits '1'..'9' and '.'; every other character except DONE is skipped |
| SudokuMap.DigitOf | SudokuSolver/src/main/java/tanvir/project/sudoku/test/SudokuMap.java:33-37 | a digit character gives its value and '.' gives 0; every result is in 0..9 |
| SudokuMap.DoneFrom | SudokuSolver/src/main/java/tanvir/project/sudoku/test/SudokuMap.java:27-30 | the iterator reports DONE at the first U+FFFF or at the end of the text, whichever comes first |
| SudokuMap.FilterUpTo | SudokuSolver/src/main/java/tanvir/project/sudoku/test/SudokuMap.java:27-29 | the characters kept from a prefix are no more than its length, and each is significant |
| SudokuMap.Significant | SudokuSolver/src/main/java/tanvir/project/sudoku/test/SudokuMap.java:23-38 | the characters `readMap` consumes come from before the first DONE, and each is significant |
| SudokuMap.Decode | SudokuSolver/src/main/java/tanvir/project/sudoku/test/SudokuMap.java:33-37 | every cell read from the map is between 0 and 9 |
| SudokuMap.FilterPrefix | SudokuSolver/src/main/java/tanvir/project/sudoku/test/SudokuMap.java:25-39 | what has been read is always a prefix of what is read later |
| SudokuMap.FilterExtension | SudokuSolver/src/main/java/tanvir/project/sudoku/test/SudokuMap.java:25-39 | text after the cursor does not change what has been read so far |
| SudokuMap.DoneFromSkip | SudokuSolver/src/main/java/tanvir/project/sudoku/test/SudokuMap.java:27-28 | skipping characters other than DONE does not move the end of the input |
| SudokuMap.SkipsInsignificant | SudokuSolver/src/main/java/tanvir/project/sudoku/test/SudokuMap.java:27-29 | removing a character that is neither significant nor DONE changes nothing the reader sees |
| SudokuMap.ExtraIgnored | SudokuSolver/src/main/java/tanvir/project/sudoku/test/SudokuMap.java:25-41 | once 81 significant characters have been read, appended text changes none of them |
| SudokuMap.SkipInsignificant | SudokuSolver/src/main/java/tanvir/project/sudoku/test/SudokuMap.java:27-29 | the cursor stops at the next significant character or at DONE, and reads nothing on the way |
| SudokuMap.ReadMap | SudokuSolver/src/main/java/tanvir/project/sudoku/test/SudokuMap.java:20-42 | fails with the invalid-input message exactly when fewer than 81 significant characters come before DONE; otherwise cell (i,j) is the value of the (9i+j)-th significant character, every cell in 0..9 |
| SudokuMap.Mark | SudokuSolver/src/main/java/tanvir/project/sudoku/test/SudokuMap.java:61-70 | each cell of a sample layout is written as a significant character |
| SudokuMap.LayoutMarks | SudokuSolver/src/main/java/tanvir/project/sudoku/test/SudokuMap.java:61-70 | a layout of n cells has n significant characters, one per cell in order, and no DONE |
| SudokuMap.Layout | SudokuSolver/src/main/java/tanvir/project/sudoku/test/SudokuMap.java:61-70 | defines the text of a grid written as the sample inputs are: nine lines of nine marks |
| SudokuMap.ReadLayout | SudokuSolver/src/main/java/tanvir/project/sudoku/test/SudokuMap.java:61-70 | reading a grid laid out as the driver's nine lines of nine marks gives the grid back |
| Web.Sanitized | SudokuSolver/src/main/java/tanvir/project/sudoku/Bean.java:370-372 | a sanitised cell is never null, and a cell that is not null is kept |
| Web.SanitizeIdempotent | SudokuSolver/src/main/java/tanvir/project/sudoku/Bean.java:366-376 | sanitising twice is the same as sanitising once |
| Web.SanitizeKeepsValues | SudokuSolver/src/main/java/tanvir/project/sudoku/Bean.java:366-376 | sanitising does not change the grid the engine reads from the board |
| Web.SanitizeNoNull | SudokuSolver/src/main/java/tanvir/project/sudoku/Bean.java:370 | a board without null cells is left as it is |
| Web.Accepts | SudokuSolver/src/main/java/tanvir/project/sudoku/Bean.java:182-191 | defines that cell q of the root is blank and the board with digit d written there passes `validateSudoku` |
| Web.CellPicks | SudokuSolver/src/main/java/tanvir/project/sudoku/Bean.java:182-192 | defines the tasks the digit loop queues for one blank cell, digits in ascending order |
| Web.PicksFrom | SudokuSolver/src/main/java/tanvir/project/sudoku/Bean.java:180-195 | defines the queue after the cells from q on are expanded, stopping at 81 cells or once 100 tasks are queued |
| Web.Picks | SudokuSolver/src/main/java/tanvir/project/sudoku/Bean.java:176-195 | defines the queue of the root expansion; the lemmas below state what it holds |
| Web.CellPicksLength | SudokuSolver/src/main/java/tanvir/project/sudoku/Bean.java:183-192 | the first n digits of one cell add at most n tasks |
| Web.CellPicksSound | SudokuSolver/src/main/java/tanvir/project/sudoku/Bean.java:183-192 | each task of one cell names that cell and an accepted digit among those tried so far |
| Web.CellPicksAscending | SudokuSolver/src/main/java/tanvir/project/sudoku/Bean.java:183 | one cell's tasks come in ascending digit order |
| Web.CellPicksComplete | SudokuSolver/src/main/java/tanvir/project/sudoku/Bean.java:183-192 | every accepted digit tried so far at the cell is queued |
| Web.CellPicksNone | SudokuSolver/src/main/java/tanvir/project/sudoku/Bean.java:182-192 | a cell accepting no digit adds no task |
| Web.InvalidStaysInvalid | SudokuSolver/src/main/java/tanvir/project/sudoku/Bean.java:186-191 | filling a blank cell of a board that breaks a rule gives a board that still breaks it |
| Web.AllAcceptedConcat | SudokuSolver/src/main/java/tanvir/project/sudoku/Bean.java:188 | appending accepted tasks to accepted tasks gives only accepted tasks |
| Web.AscendingConcat | SudokuSolver/src/main/java/tanvir/project/sudoku/Bean.java:180-183 | appending one later cell's ascending tasks after earlier cells keeps the queue ascending |
| Web.AcceptedAppend | SudokuSolver/src/main/java/tanvir/project/sudoku/Bean.java:183-192 | expanding one more cell queues only accepted tasks |
| Web.AscendingAppend | SudokuSolver/src/main/java/tanvir/project/sudoku/Bean.java:180-183 | expanding the next cell keeps the queue ascending and below the next cell |
| Web.WholeCellsAppend | SudokuSolver/src/main/java/tanvir/project/sudoku/Bean.java:180-192 | expanding one more cell keeps every started cell whole |
| Web.InPrefix | SudokuSolver/src/main/java/tanvir/project/sudoku/Bean.java:188 | a task already queued stays queued as the queue grows |
| Web.InSuffix | SudokuSolver/src/main/java/tanvir/project/sudoku/Bean.java:188 | a task of the newly expanded cell is in the queue it is appended to |
| Web.PicksFromAccepted | SudokuSolver/src/main/java/tanvir/project/sudoku/Bean.java:180-195 | the rest of the expansion queues only accepted tasks |
| Web.PicksFromAscending | SudokuSolver/src/main/java/tanvir/project/sudoku/Bean.java:180-183 | the rest of the expansion keeps the queue ascending |
| Web.PicksFromBounded | SudokuSolver/src/main/java/tanvir/project/sudoku/Bean.java:180-183 | a queue of at most 108 tasks stays at most 108 |
| Web.PicksFromGrows | SudokuSolver/src/main/java/tanvir/project/sudoku/Bean.java:188 | the expansion only appends to the queue |
| Web.PicksFromComplete | SudokuSolver/src/main/java/tanvir/project/sudoku/Bean.java:180-192 | if the cap is never reached, every accepted digit of every remaining cell is queued |
| Web.PicksFromWholeCells | SudokuSolver/src/main/java/tanvir/project/sudoku/Bean.java:180-192 | the rest of the expansion keeps every started cell whole |
| Web.PicksFromNoneAccepted | SudokuSolver/src/main/java/tanvir/project/sudoku/Bean.java:180-195 | when no remaining cell accepts a digit, nothing more is queued |
| Web.PicksFromStep | SudokuSolver/src/main/java/tanvir/project/sudoku/Bean.java:180-182 | below the cap, one turn of the cell loop expands the next cell |
| Web.PicksFromCapped | SudokuSolver/src/main/java/tanvir/project/sudoku/Bean.java:180-181 | at the cap or past the last cell, nothing more is expanded |
| Web.PicksValid | SudokuSolver/src/main/java/tanvir/project/sudoku/Bean.java:180-191 | every task is the root with exactly one blank cell changed to a digit '1'..'9', and the engine accepts it; the root itself is not a task |
| Web.AllAcceptedValid | SudokuSolver/src/main/java/tanvir/project/sudoku/Bean.java:184-191 | every accepted pick is a valid task |
| Web.AcceptedPickValid | SudokuSolver/src/main/java/tanvir/project/sudoku/Bean.java:184-191 | an accepted pick is a task board that differs from the root only in a formerly blank cell, now holding a digit, and breaks no rule |
| Web.PicksAscending | SudokuSolver/src/main/java/tanvir/project/sudoku/Bean.java:180-183 | tasks are queued in ascending (row, column, digit) order |
| Web.PicksBounded | SudokuSolver/src/main/java/tanvir/project/sudoku/Bean.java:180-183 | the queue never holds more than 108 tasks |
| Web.PicksExhaustive | SudokuSolver/src/main/java/tanvir/project/sudoku/Bean.java:180-192 | below the cap, every accepted (cell, digit) of the root is queued; invalid sub-boards are the only ones dropped |
| Web.PicksWholeCells | SudokuSolver/src/main/java/tanvir/project/sudoku/Bean.java:180-183 | once a cell has a task, all of its accepted digits are queued, cap or not |
| Web.PicksFromPrefix | SudokuSolver/src/main/java/tanvir/project/sudoku/Bean.java:180-183 | with every accepted pick below cell q queued, every accepted pick of a cell before a queued task's cell is queued |
| Web.PicksRowMajor | SudokuSolver/src/main/java/tanvir/project/sudoku/Bean.java:180-183 | even when the cap stops the expansion, the expanded cells are a row-major prefix: every accepted (cell, digit) before a task's cell is queued |
| Web.PicksFullRoot | SudokuSolver/src/main/java/tanvir/project/sudoku/Bean.java:182 | a root with no ' ' cell gives an empty queue |
| Web.PicksInvalidRoot | SudokuSolver/src/main/java/tanvir/project/sudoku/Bean.java:186-191 | a root that already breaks a rule gives an empty queue |
| Web.TasksMatchSnoc | SudokuSolver/src/main/java/tanvir/project/sudoku/Bean.java:188 | queueing one more matching task keeps the queue matching its picks |
| Web.TasksMatchConcat | SudokuSolver/src/main/java/tanvir/project/sudoku/Bean.java:188 | appending one cell's matching tasks keeps the queue matching its picks |
| Web.TabulatedAt | SudokuSolver/src/main/java/tanvir/project/sudoku/Bean.java:186-191 | at a blank cell, the table entry is the engine's verdict on the filled board |
| Web.NonBlankRejects | SudokuSolver/src/main/java/tanvir/project/sudoku/Bean.java:182 | a cell that is not ' ' accepts no digit |
| Web.Bean.ClearBoard | SudokuSolver/src/main/java/tanvir/project/sudoku/Bean.java:276-283 | the board becomes a new 9x9 board whose 81 cells are all ' ' |
| Web.Bean.SanatizeBoard | SudokuSolver/src/main/java/tanvir/project/sudoku/Bean.java:366-376 | a null board is ignored; null cells of the 9x9 block become ' ' and every other cell is unchanged |
| Web.Bean.GetCopy | SudokuSolver/src/main/java/tanvir/project/sudoku/Bean.java:242-253 | null for null; otherwise a new array of the same shape and contents |
| Web.Bean.ValidateSudoku | SudokuSolver/src/main/java/tanvir/project/sudoku/Bean.java:115-122 | the board is sanitised in place; the shape error for a board that is not 9x9; otherwise no error exactly when the sanitised board breaks no rule, and the error carries the engine's message |
| Web.Bean.CopyWith | SudokuSolver/src/main/java/tanvir/project/sudoku/Bean.java:184-185 | a new 9x9 board equal to the root except for the one written cell |
| Web.Bean.TryInsert | SudokuSolver/src/main/java/tanvir/project/sudoku/Bean.java:184-191 | the sub-board is the root with the digit written in, and it is accepted exactly when the table accepts that digit at that cell |
| Web.Bean.ExpandCell | SudokuSolver/src/main/java/tanvir/project/sudoku/Bean.java:183-192 | the digit loop queues exactly the cell's accepted digits, ascending, as new boards |
| Web.Bean.ExpandDigit | SudokuSolver/src/main/java/tanvir/project/sudoku/Bean.java:183-192 | one turn of the digit loop queues the digit's board exactly when it is accepted, keeping the earlier tasks |
| Web.Bean.ExpandRoot | SudokuSolver/src/main/java/tanvir/project/sudoku/Bean.java:176-195 | the queued boards are new arrays, one per pick of `Picks` of the root, in order; the lemmas about `Picks` state what the queue holds |
| Web.Bean.ExpandRow | SudokuSolver/src/main/java/tanvir/project/sudoku/Bean.java:181-194 | the column loop for one row advances the expansion by that row, stopping at the cap, and keeps the earlier tasks |
| Web.Bean.ExpandAt | SudokuSolver/src/main/java/tanvir/project/sudoku/Bean.java:182-193 | one turn of the column loop expands the cell if it is ' ' and queues nothing otherwise |

## Left out

- `SudokuRunner`, the worker threads, the coordinator's polling loop, the stop broadcast, `Thread.sleep` and the time measurements of `solveSudoku` and `solveSudokuUsingThreads`: this is coordination I/O, not algorithm. The queue the root expansion hands over is the end of the model.
- The JSF plumbing of the bean: the page messages, `@PostConstruct`, the dropdown maps, the getters and setters, and the public `validateSudoku()` that turns the result into a page message. Logging (`LOGGER`, `logMap`, `outputMap`, the debug print every 1000 attempts) is left out too.
- The `SudokuEngine(int[][])` constructor and its swallowed exception: `solveRecursively()` validates again, and it is modelled.
- `countSetBits`: nothing calls it.
- `SudokuMap.main`: only the layout of its sample inputs is modelled, by `SudokuMap.Layout` and the round trip `SudokuMap.ReadLayout`.
- Ragged `Character[][]` arrays cannot be represented by `array2`. The constructor's test of `map.length` and `map[0].length` is modelled on a rectangular board.
- `attempt` is a Java `long`. The model counts in an unbounded `nat` and does not model overflow of the 64-bit counter.
- The masks are modelled as sets of digits rather than as Java `int`s. The integer `available` of the candidate loop is kept, via `Rules.Bits`.
- Web.Bean.SanatizeBoard: requires a non-null board to be at least 9x9, because Java throws `ArrayIndexOutOfBoundsException` on a smaller one.
- Web.Bean.ValidateSudoku: requires a board at least 9x9, because Java sanitises it first and throws `ArrayIndexOutOfBoundsException` on a smaller one. Its parameter is a non-null `array2`, so a null board is also out: Java's `validateSudoku(null)` gets past `sanatizeBoard`, which ignores null, and then fails with a null dereference in `new SudokuEngine(null)` at SudokuEngine.java:52. Its callers are the public `validateSudoku()` at Bean.java:105, left out above, which may pass a null `map` field, and the root expansion at Bean.java:187, which never does.
- Web.Bean.GetCopy: requires a non-null board to have at least one row, because Java reads `map[0].length`.
- Web.Bean.ExpandRoot: requires a 9x9 board with no null cells. Sanitising the board first (Bean.java:164) rules out the null cells. The 9x9 shape is only assumed: the page supplies 9x9 boards. A larger board is outside the requires; Java would give it an empty queue, because every sub-board fails the 9x9 test at SudokuEngine.java:52-54 and is dropped. A smaller one makes Java index out of bounds. Neither case is stated as a `Result`.
- Web.Bean.ExpandRoot, ExpandRow, ExpandAt, ExpandCell, ExpandDigit, TryInsert and CopyWith are one Java loop nest, split into methods so each can be proved on its own. The queue is a Dafny sequence; the Java `ConcurrentLinkedQueue` and its `add`/`poll` of the root are not modelled. The root is polled straight back, so the queue starts empty.
- Engine.SudokuEngine.Create: its parameter is a non-null `array2`, so a null board is out. Java's `new SudokuEngine(null)` fails with a null dereference at `map.length` (SudokuEngine.java:52), and that is not the `IllegalArgumentException` the constructor declares.
- SudokuMap.ReadMap: its input is a Dafny `string`, which cannot be null. Java's `readMap(null)` throws from `new StringCharacterIterator(null)` at SudokuMap.java:23 before reading anything.
- Engine.SudokuEngine.IsValid: when the map breaks a rule, Java throws `IllegalArgumentException`. The model returns `valid` false and the message instead; `Create` turns it into `Failure(Invalid(message))`.
- Engine.SudokuEngine.SolveRecursively: Java logs and swallows the exception of an invalid map. The model returns null without logging.
