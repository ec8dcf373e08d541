/**
 * A functional reference for the engine's backtracking search. It fills the
 * first empty cell in row-major order with each digit not yet used in that
 * cell's row, column or sub-matrix, in ascending order. It descends into
 * each placement, stops at the first completed grid, and counts one attempt
 * per placement, including placements that lead nowhere.
 */
module SearchSpec {
  import opened Wrappers
  import opened Rules

  /** Every cell holds a digit 1..9 (`isMapComplete`). */
  predicate Complete(g: seq<int>)
    requires |g| == 81
  {
    forall q :: 0 <= q < 81 ==> 1 <= g[q] <= 9
  }

  /** The number of empty cells. */
  function Zeros(g: seq<int>): (n: nat)
    ensures n <= |g|
  {
    if g == [] then 0 else (if g[0] == 0 then 1 else 0) + Zeros(g[1..])
  }

  /** Filling one empty cell leaves one empty cell fewer. */
  lemma {:induction false} ZerosPlace(g: seq<int>, q: int, d: int)
    requires 0 <= q < |g| && g[q] == 0 && d != 0
    ensures Zeros(g[q := d]) == Zeros(g) - 1
  {
    if q > 0 {
      assert g[q := d][1..] == g[1..][q - 1 := d];
      ZerosPlace(g[1..], q - 1, d);
    } else {
      assert g[q := d][1..] == g[1..];
    }
  }

  /** A sequence with no empty cell has no zeros to count, and a zero cell makes the count positive. */
  lemma {:induction false} ZerosNone(g: seq<int>)
    ensures Zeros(g) == 0 <==> forall q :: 0 <= q < |g| ==> g[q] != 0
  {
    if g != [] {
      ZerosNone(g[1..]);
      assert forall q :: 1 <= q < |g| ==> g[q] == g[1..][q - 1];
    }
  }

  /** The first empty cell at index p or later, or 81 when there is none. */
  function FirstEmptyFrom(g: seq<int>, p: int): (q: int)
    requires |g| == 81 && 0 <= p <= 81
    ensures p <= q <= 81
    ensures q < 81 ==> g[q] == 0
    ensures forall k :: p <= k < q ==> g[k] != 0
    decreases 81 - p
  {
    if p == 81 then 81 else if g[p] == 0 then p else FirstEmptyFrom(g, p + 1)
  }

  /** The cell the engine fills next: the first empty cell in row-major order. */
  function FirstEmpty(g: seq<int>): (q: int)
    requires IsGrid(g) && !Complete(g)
    ensures 0 <= q < 81 && g[q] == 0
    ensures forall k :: 0 <= k < q ==> g[k] != 0
  {
    FirstEmptyFrom(g, 0)
  }

  /** Digit d may go into cell q: it is not yet in q's row, column or sub-matrix. */
  predicate Candidate(g: seq<int>, q: int, d: int)
    requires |g| == 81 && 0 <= q < 81
  {
    && 1 <= d <= 9
    && !Occurs(g, Row, UnitOf(Row, q), d)
    && !Occurs(g, Col, UnitOf(Col, q), d)
    && !Occurs(g, SubMatrix, UnitOf(SubMatrix, q), d)
  }

  /** The outcome of a search: the solved grid, if any, and the placements it made. */
  datatype SearchResult = SearchResult(solution: Option<seq<int>>, attempts: nat)

  /** The search from grid g: g itself if it is complete, otherwise the digits tried at its first empty cell. */
  ghost function Search(g: seq<int>): (r: SearchResult)
    requires IsGrid(g)
    ensures r.solution.Some? ==> IsGrid(r.solution.value) && Complete(r.solution.value)
    decreases Zeros(g), 10
  {
    if Complete(g) then SearchResult(Some(g), 0)
    else TryDigits(g, FirstEmpty(g), 1, 0)
  }

  /**
   * Trying digits d, d+1, .., 9 in the empty cell q, after acc placements
   * have already been made for q.
   */
  ghost function TryDigits(g: seq<int>, q: int, d: int, acc: nat): (r: SearchResult)
    requires IsGrid(g) && 0 <= q < 81 && g[q] == 0 && 1 <= d <= 10
    ensures r.solution.Some? ==> IsGrid(r.solution.value) && Complete(r.solution.value)
    decreases Zeros(g), 10 - d
  {
    if d == 10 then SearchResult(None, acc)
    else if Candidate(g, q, d) then
      ZerosPlace(g, q, d);
      var sub := Search(g[q := d]);
      if sub.solution.Some? then SearchResult(sub.solution, acc + 1 + sub.attempts)
      else TryDigits(g, q, d + 1, acc + 1 + sub.attempts)
    else TryDigits(g, q, d + 1, acc)
  }

  /** Trying a digit that is no candidate moves on to the next digit. */
  lemma TrySkipped(g: seq<int>, q: int, d: int, acc: nat)
    requires IsGrid(g) && 0 <= q < 81 && g[q] == 0 && 1 <= d <= 9 && !Candidate(g, q, d)
    ensures TryDigits(g, q, d, acc) == TryDigits(g, q, d + 1, acc)
  {
  }

  /**
   * Trying a candidate counts one placement plus those of the search below
   * it, and returns that search's solution or moves on to the next digit.
   */
  lemma TryPlaced(g: seq<int>, q: int, d: int, acc: nat)
    requires IsGrid(g) && 0 <= q < 81 && g[q] == 0 && 1 <= d <= 9 && Candidate(g, q, d)
    ensures IsGrid(g[q := d])
    ensures Search(g[q := d]).solution.Some? ==>
      TryDigits(g, q, d, acc) == SearchResult(Search(g[q := d]).solution, acc + 1 + Search(g[q := d]).attempts)
    ensures Search(g[q := d]).solution.None? ==>
      TryDigits(g, q, d, acc) == TryDigits(g, q, d + 1, acc + 1 + Search(g[q := d]).attempts)
  {
  }

  /** s solves the puzzle g: s is complete, keeps every digit of g, and breaks no rule. */
  ghost predicate SolutionOf(s: seq<int>, g: seq<int>)
    requires |g| == 81
  {
    && |s| == 81 && Complete(s) && NoDuplicates(s)
    && forall q :: 0 <= q < 81 && g[q] != 0 ==> s[q] == g[q]
  }

  // ---------------------------------------------------------------------------
  // Placing a candidate keeps the grid valid.

  /** Writing a digit that is not yet in the cell's row, column or sub-matrix into an empty cell breaks no rule. */
  lemma PlaceKeepsValid(g: seq<int>, q: int, d: int)
    requires IsGrid(g) && 0 <= q < 81 && g[q] == 0 && Candidate(g, q, d) && NoDuplicates(g)
    ensures IsGrid(g[q := d]) && NoDuplicates(g[q := d])
  {
    var h := g[q := d];
    forall rule, p1, p2 | 0 <= p1 < p2 < 81 && UnitOf(rule, p1) == UnitOf(rule, p2) && h[p1] != 0
      ensures h[p1] != h[p2]
    {
      OccursBeforeIff(g, 81, rule, UnitOf(rule, q), d);
      if p1 == q {
        assert g[p2] != d;
      } else if p2 == q {
        assert g[p1] != d;
      }
    }
  }

  /** A digit of a solution is a candidate for its own cell when that cell is empty in the puzzle. */
  lemma SolutionDigitIsCandidate(s: seq<int>, g: seq<int>, q: int)
    requires IsGrid(g) && SolutionOf(s, g) && 0 <= q < 81 && g[q] == 0
    ensures Candidate(g, q, s[q])
  {
    forall rule | true ensures !Occurs(g, rule, UnitOf(rule, q), s[q]) {
      OccursBeforeIff(g, 81, rule, UnitOf(rule, q), s[q]);
      forall p | 0 <= p < 81 && UnitOf(rule, p) == UnitOf(rule, q) ensures g[p] != s[q] {
        if p < q {
          assert g[p] != 0 ==> s[p] == g[p];
        } else if p > q {
          assert g[p] != 0 ==> s[p] == g[p];
        }
      }
    }
  }

  /** A solution of a puzzle with q filled in by the solution's own digit is still a solution. */
  lemma SolutionOfPlaced(s: seq<int>, g: seq<int>, q: int)
    requires IsGrid(g) && SolutionOf(s, g) && 0 <= q < 81
    ensures SolutionOf(s, g[q := s[q]])
  {
  }

  // ---------------------------------------------------------------------------
  // Soundness: what the search returns is a solution of the puzzle.

  lemma {:induction false} SearchSound(g: seq<int>)
    requires IsGrid(g) && NoDuplicates(g) && Search(g).solution.Some?
    ensures SolutionOf(Search(g).solution.value, g)
    decreases Zeros(g), 10
  {
    if !Complete(g) {
      TryDigitsSound(g, FirstEmpty(g), 1, 0);
    }
  }

  lemma {:induction false} TryDigitsSound(g: seq<int>, q: int, d: int, acc: nat)
    requires IsGrid(g) && 0 <= q < 81 && g[q] == 0 && 1 <= d <= 10
    requires NoDuplicates(g) && TryDigits(g, q, d, acc).solution.Some?
    ensures SolutionOf(TryDigits(g, q, d, acc).solution.value, g)
    decreases Zeros(g), 10 - d
  {
    if d < 10 {
      if Candidate(g, q, d) {
        ZerosPlace(g, q, d);
        var sub := Search(g[q := d]);
        if sub.solution.Some? {
          PlaceKeepsValid(g, q, d);
          SearchSound(g[q := d]);
          var s := sub.solution.value;
          assert SolutionOf(s, g[q := d]);
          forall p | 0 <= p < 81 && g[p] != 0 ensures s[p] == g[p] {
            assert g[q := d][p] == g[p];
          }
        } else {
          TryDigitsSound(g, q, d + 1, acc + 1 + sub.attempts);
        }
      } else {
        TryDigitsSound(g, q, d + 1, acc);
      }
    }
  }

  // ---------------------------------------------------------------------------
  // Completeness: whenever the puzzle has a solution, the search finds one.

  lemma {:induction false} SearchFinds(g: seq<int>, s: seq<int>)
    requires IsGrid(g) && SolutionOf(s, g)
    ensures Search(g).solution.Some?
    decreases Zeros(g), 10
  {
    if !Complete(g) {
      var q := FirstEmpty(g);
      SolutionDigitIsCandidate(s, g, q);
      TryDigitsFinds(g, q, 1, 0, s);
    }
  }

  lemma {:induction false} TryDigitsFinds(g: seq<int>, q: int, d: int, acc: nat, s: seq<int>)
    requires IsGrid(g) && 0 <= q < 81 && g[q] == 0 && 1 <= d <= 10
    requires SolutionOf(s, g) && Candidate(g, q, s[q]) && d <= s[q]
    ensures TryDigits(g, q, d, acc).solution.Some?
    decreases Zeros(g), 10 - d
  {
    if Candidate(g, q, d) {
      ZerosPlace(g, q, d);
      var sub := Search(g[q := d]);
      if d == s[q] {
        SolutionOfPlaced(s, g, q);
        SearchFinds(g[q := d], s);
      } else if sub.solution.None? {
        TryDigitsFinds(g, q, d + 1, acc + 1 + sub.attempts, s);
      }
    } else {
      TryDigitsFinds(g, q, d + 1, acc, s);
    }
  }

  /** When the search of a valid puzzle reports no solution, it has none. */
  lemma SearchComplete(g: seq<int>)
    requires IsGrid(g) && Search(g).solution.None?
    ensures forall s :: !SolutionOf(s, g)
  {
    forall s | SolutionOf(s, g) ensures false {
      SearchFinds(g, s);
    }
  }

  // ---------------------------------------------------------------------------
  // Counting attempts.

  /** A found solution took at least one placement per empty cell of the puzzle. */
  lemma {:induction false} SearchAttemptsCoverBlanks(g: seq<int>)
    requires IsGrid(g) && Search(g).solution.Some?
    ensures Search(g).attempts >= Zeros(g)
    decreases Zeros(g), 10
  {
    if Complete(g) {
      ZerosNone(g);
    } else {
      TryDigitsAttempts(g, FirstEmpty(g), 1, 0);
    }
  }

  lemma {:induction false} TryDigitsAttempts(g: seq<int>, q: int, d: int, acc: nat)
    requires IsGrid(g) && 0 <= q < 81 && g[q] == 0 && 1 <= d <= 10
    requires TryDigits(g, q, d, acc).solution.Some?
    ensures TryDigits(g, q, d, acc).attempts >= acc + Zeros(g)
    decreases Zeros(g), 10 - d
  {
    if Candidate(g, q, d) {
      ZerosPlace(g, q, d);
      var sub := Search(g[q := d]);
      if sub.solution.Some? {
        SearchAttemptsCoverBlanks(g[q := d]);
      } else {
        TryDigitsAttempts(g, q, d + 1, acc + 1 + sub.attempts);
      }
    } else {
      TryDigitsAttempts(g, q, d + 1, acc);
    }
  }

  /** Attempts only accumulate: the count never falls below the placements already made. */
  lemma {:induction false} TryDigitsCountsUp(g: seq<int>, q: int, d: int, acc: nat)
    requires IsGrid(g) && 0 <= q < 81 && g[q] == 0 && 1 <= d <= 10
    ensures TryDigits(g, q, d, acc).attempts >= acc
    decreases 10 - d
  {
    if d < 10 && Candidate(g, q, d) {
      ZerosPlace(g, q, d);
      if Search(g[q := d]).solution.None? {
        TryDigitsCountsUp(g, q, d + 1, acc + 1 + Search(g[q := d]).attempts);
      }
    } else if d < 10 {
      TryDigitsCountsUp(g, q, d + 1, acc);
    }
  }

  /** A complete grid is returned as it is, without a single placement. */
  lemma CompleteNeedsNoAttempts(g: seq<int>)
    requires IsGrid(g) && Complete(g)
    ensures Search(g) == SearchResult(Some(g), 0)
  {
  }

  /**
   * When no digit fits the first empty cell, the search gives up at once,
   * with no placement made.
   */
  lemma NoCandidateFails(g: seq<int>)
    requires IsGrid(g) && !Complete(g)
    requires forall d :: !Candidate(g, FirstEmpty(g), d)
    ensures Search(g) == SearchResult(None, 0)
  {
    NoCandidateTries(g, FirstEmpty(g), 1, 0);
  }

  /** With no candidate left among d..9, trying them places nothing and fails. */
  lemma {:induction false} NoCandidateTries(g: seq<int>, q: int, d: int, acc: nat)
    requires IsGrid(g) && 0 <= q < 81 && g[q] == 0 && 1 <= d <= 10
    requires forall e :: d <= e ==> !Candidate(g, q, e)
    ensures TryDigits(g, q, d, acc) == SearchResult(None, acc)
    decreases 10 - d
  {
    if d < 10 {
      NoCandidateTries(g, q, d + 1, acc);
    }
  }

  /**
   * Digit d is absent from the masks of row i, column j and their
   * sub-matrix, over masks that agree with the grid, exactly when d is a
   * candidate of cell [i][j].
   */
  lemma AvailableAt(g: seq<int>, i: int, j: int, rows: seq<Mask>, cols: seq<Mask>, blocks: seq<Mask>, d: int)
    requires IsGrid(g) && 0 <= i < 9 && 0 <= j < 9 && MasksAgree(g, rows, cols, blocks)
    ensures d in AllDigits - (rows[i] + cols[j] + blocks[(i / 3) * 3 + j / 3]) <==> Candidate(g, 9 * i + j, d)
  {
    Coords(i, j);
    var b := (i / 3) * 3 + j / 3;
    assert MaskFor(g, 81, Row, i, rows[i]) && MaskFor(g, 81, Col, j, cols[j]) && MaskFor(g, 81, SubMatrix, b, blocks[b]);
  }

  /**
   * With masks that agree with the grid, when the candidate bits from `lo` on are
   * all clear, trying the digits lo..9 on cell [i][j] places nothing and fails.
   */
  lemma NoneAvailableAt(g: seq<int>, i: int, j: int, rows: seq<Mask>, cols: seq<Mask>, blocks: seq<Mask>,
                        q: int, available: Mask, lo: int, acc: nat)
    requires IsGrid(g) && 0 <= i < 9 && 0 <= j < 9 && q == 9 * i + j && g[q] == 0
    requires MasksAgree(g, rows, cols, blocks) && 1 <= lo <= 10
    requires available == AllDigits - (rows[i] + cols[j] + blocks[(i / 3) * 3 + j / 3])
    requires Bits(available, lo) == 0
    ensures TryDigits(g, q, lo, acc) == SearchResult(None, acc)
  {
    BitsZero(available, lo);
    forall d | lo <= d ensures !Candidate(g, q, d) {
      AvailableAt(g, i, j, rows, cols, blocks, d);
    }
    NoCandidateTries(g, q, lo, acc);
  }

  // ---------------------------------------------------------------------------
  // A puzzle that has a solution.

  /** The empty puzzle: every cell is 0. */
  function EmptyGrid(): (g: seq<int>)
    ensures IsGrid(g)
  {
    seq(81, q requires 0 <= q < 81 => 0)
  }

  /** A filled grid: row i holds 1..9 rotated by 3 * (i % 3) + i / 3. */
  function Pattern(): (s: seq<int>)
    ensures |s| == 81 && Complete(s)
  {
    seq(81, q requires 0 <= q < 81 => PatternAt(q / 9, q % 9))
  }

  function PatternAt(i: int, j: int): int {
    (3 * (i % 3) + i / 3 + j) % 9 + 1
  }

  /** Adding two different offsets 0..8 gives different remainders mod 9. */
  lemma AddInjective(a: int, x: int, y: int)
    requires 0 <= x < 9 && 0 <= y < 9 && x != y
    ensures (a + x) % 9 != (a + y) % 9
  {
  }

  /** Two cells of one row of the pattern differ. */
  lemma PatternRow(i: int, j1: int, j2: int)
    requires 0 <= i < 9 && 0 <= j1 < j2 < 9
    ensures PatternAt(i, j1) != PatternAt(i, j2)
  {
    AddInjective(3 * (i % 3) + i / 3, j1, j2);
  }

  /** Two cells of one column of the pattern differ. */
  lemma PatternCol(i1: int, i2: int, j: int)
    requires 0 <= i1 < i2 < 9 && 0 <= j < 9
    ensures PatternAt(i1, j) != PatternAt(i2, j)
  {
    AddInjective(j, 3 * (i1 % 3) + i1 / 3, 3 * (i2 % 3) + i2 / 3);
  }

  /** Two cells of one sub-matrix of the pattern differ. */
  lemma PatternBox(i1: int, j1: int, i2: int, j2: int)
    requires 0 <= i1 < 9 && 0 <= j1 < 9 && 0 <= i2 < 9 && 0 <= j2 < 9
    requires i1 / 3 == i2 / 3 && j1 / 3 == j2 / 3 && (i1 != i2 || j1 != j2)
    ensures PatternAt(i1, j1) != PatternAt(i2, j2)
  {
    var a := i1 / 3 + 3 * (j1 / 3);
    AddInjective(a, 3 * (i1 % 3) + j1 % 3, 3 * (i2 % 3) + j2 % 3);
  }

  /** No row, column or sub-matrix of the pattern holds a digit twice. */
  lemma PatternValid()
    ensures NoDuplicates(Pattern())
  {
    var s := Pattern();
    forall rule, p1, p2 | 0 <= p1 < p2 < 81 && UnitOf(rule, p1) == UnitOf(rule, p2) && s[p1] != 0
      ensures s[p1] != s[p2]
    {
      PatternPair(rule, p1, p2);
    }
  }

  lemma PatternPair(rule: Rule, p1: int, p2: int)
    requires 0 <= p1 < p2 < 81 && UnitOf(rule, p1) == UnitOf(rule, p2)
    ensures PatternAt(p1 / 9, p1 % 9) != PatternAt(p2 / 9, p2 % 9)
  {
    match rule
    case Row => PatternRow(p1 / 9, p1 % 9, p2 % 9);
    case Col => PatternCol(p1 / 9, p2 / 9, p1 % 9);
    case SubMatrix => PatternBox(p1 / 9, p1 % 9, p2 / 9, p2 % 9);
  }

  /** The search of the empty puzzle finds a solution. */
  lemma EmptySolvable()
    ensures Search(EmptyGrid()).solution.Some?
  {
    PatternValid();
    SearchFinds(EmptyGrid(), Pattern());
  }
}
