/**
 * The backtracking Sudoku engine. It holds the puzzle as 81 integer cells
 * (0 = empty), a counter of attempts (cells filled during the search) and
 * one mask per row, column and sub-matrix recording which digits they hold.
 * The Java `int[][]` map is kept row-major in one array: cell [i][j] is
 * element 9 * i + j.
 */
module Engine {
  import opened Wrappers
  import opened Cells
  import opened Rules
  import opened SearchSpec

  /** Why the board constructor refuses a board: the two `IllegalArgumentException`s it throws. */
  datatype EngineError = BadShape(message: string) | Invalid(message: string)

  /** The message of the shape exception. */
  const BadShapeMessage: string := "Sudoku Table must be 9x9"

  class SudokuEngine {
    var grid: array<int>
    var attempt: nat
    var rulesRow: seq<Mask>
    var rulesCol: seq<Mask>
    var rules3x3: seq<Mask>

    /** The engine's map is a 9x9 grid of cells 0..9. */
    ghost predicate Valid()
      reads this, grid
    {
      grid.Length == 81 && IsGrid(grid[..])
    }

    constructor Init(cells: array<int>)
      requires cells.Length == 81 && IsGrid(cells[..])
      ensures Valid() && grid == cells && attempt == 0
      ensures rulesRow == [] && rulesCol == [] && rules3x3 == []
    {
      grid := cells;
      attempt := 0;
      rulesRow, rulesCol, rules3x3 := [], [], [];
    }

    /**
     * The `Character[][]` constructor. It refuses a board that is not 9x9,
     * converts '1'..'9' to 1..9 and anything else (null included) to 0,
     * and refuses a board that breaks a rule, with the message `isValid`
     * composes.
     */
    static method Create(board: array2<Cell>) returns (r: Result<SudokuEngine, EngineError>)
      ensures r == Failure(BadShape(BadShapeMessage)) <==> !(board.Length0 == 9 && board.Length1 == 9)
      ensures board.Length0 == 9 && board.Length1 == 9 ==>
        var g := Values(Flatten(board));
        && (r.Success? <==> NoDuplicates(g))
        && (r.Failure? ==> r.error == Invalid(Message(Conflicts(g))))
        && (r.Success? ==> && fresh(r.value) && fresh(r.value.grid) && r.value.Valid()
                           && r.value.grid[..] == g && r.value.attempt == 0
                           && MasksAgree(g, r.value.rulesRow, r.value.rulesCol, r.value.rules3x3))
    {
      if board.Length0 != 9 || board.Length1 != 9 {
        return Failure(BadShape(BadShapeMessage));
      }
      var cells := new int[81];
      for i := 0 to 9
        invariant forall k :: 0 <= k < 9 * i ==> cells[k] == CellValue(board[k / 9, k % 9])
      {
        for j := 0 to 9
          invariant forall k :: 0 <= k < 9 * i + j ==> cells[k] == CellValue(board[k / 9, k % 9])
        {
          cells[9 * i + j] := CellValue(board[i, j]);
        }
      }
      assert cells[..] == Values(Flatten(board));
      var e := new SudokuEngine.Init(cells);
      var valid, error := e.IsValid();
      if !valid {
        return Failure(Invalid(error));
      }
      return Success(e);
    }

    /**
     * `isValid`: rebuilds the masks from the map, and reports every digit
     * that a cell repeats from an earlier cell of its row, column or
     * sub-matrix, in scanning order.
     */
    method IsValid() returns (valid: bool, error: string)
      requires Valid()
      modifies this`rulesRow, this`rulesCol, this`rules3x3
      ensures valid <==> NoDuplicates(grid[..])
      ensures error == Message(Conflicts(grid[..]))
      ensures MasksAgree(grid[..], rulesRow, rulesCol, rules3x3)
    {
      ghost var g := grid[..];
      ResetRules();
      valid, error := true, "";
      ghost var found: seq<Conflict> := [];
      for i := 0 to 9
        invariant MasksAgreeUpTo(g, 9 * i, rulesRow, rulesCol, rules3x3)
        invariant found == ConflictsUpTo(g, 9 * i)
        invariant (valid <==> found == []) && error == Message(found)
      {
        valid, error, found := ScanRow(i, valid, error, found);
      }
      ConflictsEmptyIff(g);
    }

    /** The start of `isValid`: one empty mask per row, column and sub-matrix. */
    method ResetRules()
      requires Valid()
      modifies this`rulesRow, this`rulesCol, this`rules3x3
      ensures |rulesRow| == |rulesCol| == |rules3x3| == 9
      ensures forall u :: 0 <= u < 9 ==> rulesRow[u] == {} && rulesCol[u] == {} && rules3x3[u] == {}
      ensures MasksAgreeUpTo(grid[..], 0, rulesRow, rulesCol, rules3x3)
    {
      rulesRow, rulesCol, rules3x3 := [], [], [];
      for k := 0 to 9
        invariant |rulesRow| == |rulesCol| == |rules3x3| == k
        invariant forall u :: 0 <= u < k ==> rulesRow[u] == {} && rulesCol[u] == {} && rules3x3[u] == {}
      {
        rulesRow, rulesCol, rules3x3 := rulesRow + [{}], rulesCol + [{}], rules3x3 + [{}];
      }
      MasksStart(grid[..], rulesRow, rulesCol, rules3x3);
    }

    /** Row i of the validation scan. */
    method ScanRow(i: int, valid: bool, error: string, ghost found: seq<Conflict>)
      returns (valid': bool, error': string, ghost found': seq<Conflict>)
      requires Valid() && 0 <= i < 9
      requires MasksAgreeUpTo(grid[..], 9 * i, rulesRow, rulesCol, rules3x3)
      requires found == ConflictsUpTo(grid[..], 9 * i)
      requires (valid <==> found == []) && error == Message(found)
      modifies this`rulesRow, this`rulesCol, this`rules3x3
      ensures MasksAgreeUpTo(grid[..], 9 * i + 9, rulesRow, rulesCol, rules3x3)
      ensures found' == ConflictsUpTo(grid[..], 9 * i + 9)
      ensures (valid' <==> found' == []) && error' == Message(found')
    {
      valid', error', found' := valid, error, found;
      for j := 0 to 9
        invariant MasksAgreeUpTo(grid[..], 9 * i + j, rulesRow, rulesCol, rules3x3)
        invariant found' == ConflictsUpTo(grid[..], 9 * i + j)
        invariant (valid' <==> found' == []) && error' == Message(found')
      {
        valid', error', found' := ScanCell(i, j, valid', error', found');
      }
    }

    /** The body of the validation scan for cell (i, j): report its conflicts, then record its digit. */
    method ScanCell(i: int, j: int, valid: bool, error: string, ghost found: seq<Conflict>)
      returns (valid': bool, error': string, ghost found': seq<Conflict>)
      requires Valid() && 0 <= i < 9 && 0 <= j < 9
      requires MasksAgreeUpTo(grid[..], 9 * i + j, rulesRow, rulesCol, rules3x3)
      requires found == ConflictsUpTo(grid[..], 9 * i + j)
      requires (valid <==> found == []) && error == Message(found)
      modifies this`rulesRow, this`rulesCol, this`rules3x3
      ensures MasksAgreeUpTo(grid[..], 9 * i + j + 1, rulesRow, rulesCol, rules3x3)
      ensures found' == ConflictsUpTo(grid[..], 9 * i + j + 1)
      ensures (valid' <==> found' == []) && error' == Message(found')
    {
      if grid[9 * i + j] != 0 {
        valid', error', found' := CheckCell(i, j, valid, error, found);
        if grid[9 * i + j] >= 1 && grid[9 * i + j] <= 9 {
          RecordCell(i, j);
        }
      } else {
        MasksStep(grid[..], 9 * i + j, rulesRow, rulesCol, rules3x3);
        valid', error', found' := valid, error, found;
        assert found' == found + CellConflicts(grid[..], 9 * i + j);
      }
    }

    /**
     * The three rule checks of `isValid` for the filled cell [i][j]: the
     * cell's digit is already recorded in the mask of its row, of its
     * column, or of its sub-matrix. Each hit is reported.
     */
    method CheckCell(i: int, j: int, valid: bool, error: string, ghost found: seq<Conflict>)
      returns (valid': bool, error': string, ghost found': seq<Conflict>)
      requires Valid() && 0 <= i < 9 && 0 <= j < 9 && grid[9 * i + j] != 0
      requires MasksAgreeUpTo(grid[..], 9 * i + j, rulesRow, rulesCol, rules3x3)
      requires (valid <==> found == []) && error == Message(found)
      ensures found' == found + CellConflicts(grid[..], 9 * i + j)
      ensures (valid' <==> found' == []) && error' == Message(found')
    {
      Coords(i, j);
      CellConflictsByMasks(grid[..], i, j, rulesRow, rulesCol, rules3x3, found);
      var v := grid[9 * i + j];
      var b := (i / 3) * 3 + j / 3;
      ghost var inRow := if v in rulesRow[i] then [Conflict(Row, i + 1, v)] else [];
      ghost var inCol := if v in rulesCol[j] then [Conflict(Col, j + 1, v)] else [];
      ghost var inBlock := if v in rules3x3[b] then [Conflict(SubMatrix, b + 1, v)] else [];
      valid', error', found' := valid, error, found;
      if v in rulesRow[i] {
        valid', error' := Report(valid', error', Conflict(Row, i + 1, v), found');
        found' := found' + [Conflict(Row, i + 1, v)];
      }
      assert found' == found + inRow;
      if v in rulesCol[j] {
        valid', error' := Report(valid', error', Conflict(Col, j + 1, v), found');
        found' := found' + [Conflict(Col, j + 1, v)];
      }
      assert found' == found + inRow + inCol;
      if v in rules3x3[b] {
        valid', error' := Report(valid', error', Conflict(SubMatrix, b + 1, v), found');
        found' := found' + [Conflict(SubMatrix, b + 1, v)];
      }
      assert found' == found + inRow + inCol + inBlock;
    }

    /** One report of `isValid`: ", " before every report but the first, then the collision's wording. */
    static method Report(valid: bool, error: string, c: Conflict, ghost found: seq<Conflict>) returns (valid': bool, error': string)
      requires (valid <==> found == []) && error == Message(found)
      ensures !valid' && error' == Message(found + [c])
    {
      MessageSnoc(found, c);
      error' := error;
      if !valid {
        error' := error' + ", ";
      }
      error' := error' + Describe(c);
      valid' := false;
    }

    /** The mask updates of `isValid`: the digit of cell [i][j] is recorded for its row, column and sub-matrix. */
    method RecordCell(i: int, j: int)
      requires Valid() && 0 <= i < 9 && 0 <= j < 9 && 1 <= grid[9 * i + j] <= 9
      requires MasksAgreeUpTo(grid[..], 9 * i + j, rulesRow, rulesCol, rules3x3)
      modifies this`rulesRow, this`rulesCol, this`rules3x3
      ensures var v := grid[9 * i + j];
        && rulesRow == old(rulesRow)[i := old(rulesRow)[i] + {v}]
        && rulesCol == old(rulesCol)[j := old(rulesCol)[j] + {v}]
        && rules3x3 == old(rules3x3)[(i / 3) * 3 + j / 3 := old(rules3x3)[(i / 3) * 3 + j / 3] + {v}]
      ensures MasksAgreeUpTo(grid[..], 9 * i + j + 1, rulesRow, rulesCol, rules3x3)
    {
      Coords(i, j);
      MasksStep(grid[..], 9 * i + j, rulesRow, rulesCol, rules3x3);
      var v := grid[9 * i + j];
      rulesRow := rulesRow[i := rulesRow[i] + {v}];
      rulesCol := rulesCol[j := rulesCol[j] + {v}];
      rules3x3 := rules3x3[(i / 3) * 3 + j / 3 := rules3x3[(i / 3) * 3 + j / 3] + {v}];
    }

    /** `isMapComplete`: every cell holds a digit 1..9. */
    method IsMapComplete(m: array<int>) returns (complete: bool)
      requires m.Length == 81
      ensures complete <==> Complete(m[..])
    {
      for i := 0 to 9
        invariant forall k :: 0 <= k < 9 * i ==> 1 <= m[k] <= 9
      {
        for j := 0 to 9
          invariant forall k :: 0 <= k < 9 * i + j ==> 1 <= m[k] <= 9
        {
          if m[9 * i + j] < 1 || m[9 * i + j] > 9 {
            return false;
          }
        }
      }
      return true;
    }

    /**
     * The private recursive `solveRecursively`. It returns m once the grid
     * is complete. Otherwise it finds the first empty cell in row-major
     * order and tries the available digits there (`FillCell`).
     */
    method SolveFrom(m: array<int>, rows: seq<Mask>, cols: seq<Mask>, blocks: seq<Mask>) returns (solution: array?<int>)
      requires m.Length == 81 && IsGrid(m[..]) && MasksAgree(m[..], rows, cols, blocks)
      modifies m, this`attempt
      decreases Zeros(m[..]), 3
      ensures var res := Search(old(m[..]));
        && (solution != null <==> res.solution.Some?)
        && (solution != null ==> solution == m && res.solution == Some(m[..]))
        && (solution == null ==> m[..] == old(m[..]))
        && attempt == old(attempt) + res.attempts
    {
      var complete := IsMapComplete(m);
      if complete {
        return m;
      }
      ghost var g := m[..];
      var i := 0;
      while i < 9
        invariant 0 <= i <= 9
        invariant forall k :: 0 <= k < 9 * i ==> g[k] != 0
      {
        var j := 0;
        while j < 9
          invariant 0 <= j <= 9
          invariant forall k :: 0 <= k < 9 * i + j ==> g[k] != 0
        {
          if m[9 * i + j] == 0 {
            assert 9 * i + j == FirstEmpty(g);
            assert Search(g) == TryDigits(g, 9 * i + j, 1, 0);
            solution := FillCell(m, i, j, rows, cols, blocks);
            return;
          }
          j := j + 1;
        }
        i := i + 1;
      }
      assert false;
      return null;
    }

    /**
     * The digit loop of `solveRecursively` for the empty cell [i][j]:
     * `available` is the int whose bit d-1 is set for each digit d missing
     * from the cell's row, column and sub-matrix, and each set bit, lowest
     * first, is written into the cell, counted in `attempt` and searched
     * from with copies of the masks that also record it. When no digit
     * leads to a solution the cell is cleared again and null returned.
     */
    method FillCell(m: array<int>, i: int, j: int, rows: seq<Mask>, cols: seq<Mask>, blocks: seq<Mask>)
      returns (solution: array?<int>)
      requires m.Length == 81 && IsGrid(m[..]) && MasksAgree(m[..], rows, cols, blocks)
      requires 0 <= i < 9 && 0 <= j < 9 && m[9 * i + j] == 0
      modifies m, this`attempt
      decreases Zeros(m[..]), 2
      ensures var res := TryDigits(old(m[..]), 9 * i + j, 1, 0);
        && (solution != null <==> res.solution.Some?)
        && (solution != null ==> solution == m && res.solution == Some(m[..]))
        && (solution == null ==> m[..] == old(m[..]))
        && attempt == old(attempt) + res.attempts
    {
      ghost var g := m[..];
      ghost var q := 9 * i + j;
      ghost var target := TryDigits(g, q, 1, 0);
      var combined := rows[i] + cols[j] + blocks[(i / 3) * 3 + j / 3];
      ghost var candidates := AllDigits - combined;
      var available := Bits(AllDigits - combined, 1);
      if available == 0 {
        NoneAvailableAt(g, i, j, rows, cols, blocks, q, candidates, 1, 0);
        return null;
      }
      var bitShift := 0;
      ghost var acc: nat := 0;
      while available > 0
        invariant 0 <= bitShift <= 9 && available == Bits(candidates, bitShift + 1)
        invariant m[..] == g[q := m[q]]
        invariant attempt == old(attempt) + acc
        invariant target == TryDigits(g, q, bitShift + 1, acc)
      {
        BitsLow(candidates, bitShift + 1);
        AvailableAt(g, i, j, rows, cols, blocks, bitShift + 1);
        var solutionMap;
        solutionMap, acc := TryDigit(m, i, j, bitShift + 1, available % 2 > 0, rows, cols, blocks, g, acc);
        if solutionMap != null {
          return solutionMap;
        }
        available := available / 2;
        bitShift := bitShift + 1;
      }
      NoneAvailableAt(g, i, j, rows, cols, blocks, q, candidates, bitShift + 1, acc);
      m[9 * i + j] := 0;
      assert m[..] == g;
      return null;
    }

    /**
     * One turn of the digit loop: when `d` is among the cell's remaining candidates (`present`),
     * place it and descend; otherwise move on to the next digit.
     */
    method TryDigit(m: array<int>, i: int, j: int, d: int, present: bool, rows: seq<Mask>, cols: seq<Mask>,
                    blocks: seq<Mask>, ghost g: seq<int>, ghost acc: nat)
      returns (solution: array?<int>, ghost acc': nat)
      requires m.Length == 81 && IsGrid(g) && MasksAgree(g, rows, cols, blocks)
      requires 0 <= i < 9 && 0 <= j < 9 && g[9 * i + j] == 0 && m[..] == g[9 * i + j := m[9 * i + j]]
      requires 1 <= d <= 9 && (present <==> Candidate(g, 9 * i + j, d))
      modifies m, this`attempt
      decreases Zeros(g), 1
      ensures acc <= acc' && attempt == old(attempt) + (acc' - acc)
      ensures solution != null ==> solution == m && TryDigits(g, 9 * i + j, d, acc) == SearchResult(Some(m[..]), acc')
      ensures solution == null ==>
        m[..] == g[9 * i + j := m[9 * i + j]] && TryDigits(g, 9 * i + j, d, acc) == TryDigits(g, 9 * i + j, d + 1, acc')
    {
      if present {
        TryPlaced(g, 9 * i + j, d, acc);
        ghost var sub := Search(g[9 * i + j := d]);
        solution := Descend(m, i, j, d, rows, cols, blocks, g);
        acc' := acc + 1 + sub.attempts;
      } else {
        TrySkipped(g, 9 * i + j, d, acc);
        solution, acc' := null, acc;
      }
    }

    /**
     * One pass of the digit loop of `solveRecursively` for a digit d that
     * is available in cell [i][j] of puzzle g (m is g with that cell
     * possibly holding an earlier digit). It writes d into the cell, searches
     * on with copies of the masks that also record d, and counts the
     * placement in `attempt`.
     */
    method Descend(m: array<int>, i: int, j: int, d: int, rows: seq<Mask>, cols: seq<Mask>, blocks: seq<Mask>,
                   ghost g: seq<int>)
      returns (solution: array?<int>)
      requires m.Length == 81 && IsGrid(g) && MasksAgree(g, rows, cols, blocks)
      requires 0 <= i < 9 && 0 <= j < 9 && g[9 * i + j] == 0 && m[..] == g[9 * i + j := m[9 * i + j]]
      requires Candidate(g, 9 * i + j, d)
      modifies m, this`attempt
      decreases Zeros(g), 0
      ensures var res := Search(g[9 * i + j := d]);
        && (solution != null <==> res.solution.Some?)
        && (solution != null ==> solution == m && res.solution == Some(m[..]))
        && (solution == null ==> m[..] == g[9 * i + j := d])
        && attempt == old(attempt) + 1 + res.attempts
    {
      m[9 * i + j] := d;
      var rowsNew := rows[i := rows[i] + {d}];
      var colsNew := cols[j := cols[j] + {d}];
      var blocksNew := blocks[(i / 3) * 3 + j / 3 := blocks[(i / 3) * 3 + j / 3] + {d}];
      attempt := attempt + 1;
      MasksPlaceAt(g, i, j, d, rows, cols, blocks);
      ZerosPlace(g, 9 * i + j, d);
      assert m[..] == g[9 * i + j := d];
      solution := SolveFrom(m, rowsNew, colsNew, blocksNew);
    }

    /**
     * The public `solveRecursively`: validates the map and gives up with
     * null (and no attempt) when it breaks a rule; otherwise searches from
     * the map itself with the freshly built masks.
     */
    method SolveRecursively() returns (solution: array?<int>)
      requires Valid()
      modifies this`rulesRow, this`rulesCol, this`rules3x3, this`attempt, grid
      ensures Valid() && grid == old(grid)
      ensures MasksAgree(old(grid[..]), rulesRow, rulesCol, rules3x3)
      ensures !NoDuplicates(old(grid[..])) ==> solution == null && grid[..] == old(grid[..]) && attempt == old(attempt)
      ensures NoDuplicates(old(grid[..])) ==>
        var res := Search(old(grid[..]));
        && (solution != null <==> res.solution.Some?)
        && (solution != null ==> solution == grid && res.solution == Some(grid[..]))
        && (solution == null ==> grid[..] == old(grid[..]))
        && attempt == old(attempt) + res.attempts
      ensures solution != null ==> SolutionOf(grid[..], old(grid[..]))
    {
      var valid, error := IsValid();
      if !valid {
        return null;
      }
      solution := SolveFrom(grid, rulesRow, rulesCol, rules3x3);
      if solution != null {
        SearchSound(old(grid[..]));
      }
    }

    /** `getPrimitiveToWrapped`: null stays null; digits 1..9 become '1'..'9', everything else ' '. */
    static method GetPrimitiveToWrapped(m: array?<int>) returns (board: array2?<Cell>)
      requires m != null ==> m.Length == 81
      ensures (board == null) <==> (m == null)
      ensures board != null ==> fresh(board) && board.Length0 == 9 && board.Length1 == 9
      ensures board != null && m != null ==> Flatten(board) == Chars(m[..])
    {
      if m == null {
        return null;
      }
      board := new Cell[9, 9];
      for i := 0 to 9
        invariant forall i', j' :: 0 <= i' < i && 0 <= j' < 9 ==> board[i', j'] == CharOf(m[9 * i' + j'])
      {
        for j := 0 to 9
          invariant forall i', j' :: 0 <= i' < i && 0 <= j' < 9 ==> board[i', j'] == CharOf(m[9 * i' + j'])
          invariant forall j' :: 0 <= j' < j ==> board[i, j'] == CharOf(m[9 * i + j'])
        {
          if m[9 * i + j] >= 1 && m[9 * i + j] <= 9 {
            board[i, j] := Ch(DigitChar(m[9 * i + j]));
          } else {
            board[i, j] := Blank;
          }
        }
      }
      assert Flatten(board) == Chars(m[..]);
    }

    /**
     * `getSolution`: the solved board as characters, or null when the map
     * breaks a rule or has no solution. A returned board solves the puzzle
     * and converts back to the solved grid.
     */
    method GetSolution() returns (board: array2?<Cell>)
      requires Valid()
      modifies this`rulesRow, this`rulesCol, this`rules3x3, this`attempt, grid
      ensures Valid() && grid == old(grid)
      ensures board == null <==> !NoDuplicates(old(grid[..])) || Search(old(grid[..])).solution.None?
      ensures board != null ==> && fresh(board) && board.Length0 == 9 && board.Length1 == 9
                                && Values(Flatten(board)) == grid[..]
                                && SolutionOf(grid[..], old(grid[..]))
      ensures board != null ==> NoDuplicates(old(grid[..])) && Search(old(grid[..])).solution == Some(grid[..])
      ensures board == null ==> grid[..] == old(grid[..])
      ensures MasksAgree(old(grid[..]), rulesRow, rulesCol, rules3x3)
      ensures !NoDuplicates(old(grid[..])) ==> attempt == old(attempt)
      ensures NoDuplicates(old(grid[..])) ==> attempt == old(attempt) + Search(old(grid[..])).attempts
    {
      var solution := SolveRecursively();
      board := GetPrimitiveToWrapped(solution);
      if board != null {
        forall q | 0 <= q < 81 ensures CellValue(CharOf(grid[q])) == grid[q] {
          ValueRoundTrip(grid[q]);
        }
      }
    }
  }
}
