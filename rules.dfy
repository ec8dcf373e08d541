/**
 * The Sudoku rules the engine checks: a grid of 81 integer cells in
 * row-major order (cell (i, j) at index 9 * i + j, 0 = empty), its rows,
 * columns and 3x3 sub-matrices, the duplicate-digit conflicts `isValid`
 * reports, and the 9-bit masks it keeps per row, column and sub-matrix.
 */
module Rules {

  /** 81 cells, each 0 (empty) or a digit 1..9. */
  predicate IsGrid(g: seq<int>) {
    |g| == 81 && forall q :: 0 <= q < 81 ==> 0 <= g[q] <= 9
  }

  /** The three kinds of rule; the engine's messages call them Row, Col and Sub-matrix. */
  datatype Rule = Row | Col | SubMatrix

  /** The 0-based row, column or sub-matrix (`(i/3)*3 + j/3`) of cell q. */
  function UnitOf(rule: Rule, q: int): (u: int)
    requires 0 <= q < 81
    ensures 0 <= u < 9
  {
    match rule
    case Row => q / 9
    case Col => q % 9
    case SubMatrix => (q / 9 / 3) * 3 + (q % 9) / 3
  }

  /** Digit d stands in unit u of the rule among the cells 0 .. n-1. */
  predicate OccursBefore(g: seq<int>, n: int, rule: Rule, u: int, d: int)
    requires |g| == 81 && 0 <= n <= 81
  {
    n > 0 && ((UnitOf(rule, n - 1) == u && g[n - 1] == d) || OccursBefore(g, n - 1, rule, u, d))
  }

  /** `OccursBefore` holds exactly when some cell below n of unit u holds d. */
  lemma {:induction false} OccursBeforeIff(g: seq<int>, n: int, rule: Rule, u: int, d: int)
    requires |g| == 81 && 0 <= n <= 81
    ensures OccursBefore(g, n, rule, u, d) <==> exists p :: 0 <= p < n && UnitOf(rule, p) == u && g[p] == d
  {
    if n > 0 {
      OccursBeforeIff(g, n - 1, rule, u, d);
      if exists p :: 0 <= p < n && UnitOf(rule, p) == u && g[p] == d {
        var p :| 0 <= p < n && UnitOf(rule, p) == u && g[p] == d;
        assert p == n - 1 || (0 <= p < n - 1 && UnitOf(rule, p) == u && g[p] == d);
      }
    }
  }

  /** Digit d stands in unit u of the rule. */
  predicate Occurs(g: seq<int>, rule: Rule, u: int, d: int)
    requires |g| == 81
  {
    OccursBefore(g, 81, rule, u, d)
  }

  /** No row, column or sub-matrix holds the same digit twice. */
  ghost predicate NoDuplicates(g: seq<int>)
    requires |g| == 81
  {
    forall rule, p1, p2 ::
      0 <= p1 < p2 < 81 && UnitOf(rule, p1) == UnitOf(rule, p2) && g[p1] != 0 ==> g[p1] != g[p2]
  }

  /** One collision found by `isValid`: its rule, the 1-based index of the unit and the digit. */
  datatype Conflict = Conflict(rule: Rule, index: int, digit: int)

  /** The conflict `rule` reports at cell `q`, if its digit already occurs earlier in that unit. */
  ghost function Hit(g: seq<int>, q: int, rule: Rule): seq<Conflict>
    requires |g| == 81 && 0 <= q < 81
  {
    if OccursBefore(g, q, rule, UnitOf(rule, q), g[q]) then [Conflict(rule, UnitOf(rule, q) + 1, g[q])] else []
  }

  /**
   * The collisions cell q adds, in the order the engine checks them (row,
   * column, sub-matrix): one for each unit of q whose earlier cells already
   * hold q's digit.
   */
  ghost function CellConflicts(g: seq<int>, q: int): seq<Conflict>
    requires |g| == 81 && 0 <= q < 81
  {
    if g[q] == 0 then [] else Hit(g, q, Row) + Hit(g, q, Col) + Hit(g, q, SubMatrix)
  }

  /** The collisions found while scanning cells 0 .. n-1 in row-major order. */
  ghost function ConflictsUpTo(g: seq<int>, n: int): seq<Conflict>
    requires |g| == 81 && 0 <= n <= 81
  {
    if n == 0 then [] else ConflictsUpTo(g, n - 1) + CellConflicts(g, n - 1)
  }

  /** Every collision of the grid, in the order `isValid` reports them. */
  ghost function Conflicts(g: seq<int>): seq<Conflict>
    requires |g| == 81
  {
    ConflictsUpTo(g, 81)
  }

  // ---------------------------------------------------------------------------
  // Conflicts: every report is a real collision, every collision is reported.

  lemma {:induction false} ConflictsUpToSound(g: seq<int>, n: int, c: Conflict)
    requires |g| == 81 && 0 <= n <= 81 && c in ConflictsUpTo(g, n)
    ensures 1 <= c.index <= 9 && c.digit != 0
    ensures exists p1, p2 :: 0 <= p1 < p2 < n && UnitOf(c.rule, p1) == c.index - 1 == UnitOf(c.rule, p2)
                             && g[p1] == c.digit && g[p2] == c.digit
  {
    if c in ConflictsUpTo(g, n - 1) {
      ConflictsUpToSound(g, n - 1, c);
    } else {
      var q := n - 1;
      assert c in CellConflicts(g, q);
      assert c.digit == g[q] && c.index == UnitOf(c.rule, q) + 1;
      assert OccursBefore(g, q, c.rule, UnitOf(c.rule, q), g[q]);
      OccursBeforeIff(g, q, c.rule, UnitOf(c.rule, q), g[q]);
      var p1 :| 0 <= p1 < q && UnitOf(c.rule, p1) == UnitOf(c.rule, q) && g[p1] == g[q];
      assert UnitOf(c.rule, p1) == c.index - 1 == UnitOf(c.rule, q);
    }
  }

  /** Each reported collision names a 1-based unit and a digit that really stands twice in that unit. */
  lemma ConflictsSound(g: seq<int>, c: Conflict)
    requires |g| == 81 && c in Conflicts(g)
    ensures 1 <= c.index <= 9 && c.digit != 0
    ensures exists p1, p2 :: 0 <= p1 < p2 < 81 && UnitOf(c.rule, p1) == c.index - 1 == UnitOf(c.rule, p2)
                             && g[p1] == c.digit && g[p2] == c.digit
  {
    ConflictsUpToSound(g, 81, c);
  }

  lemma {:induction false} ConflictsUpToGrow(g: seq<int>, n: int, m: int, c: Conflict)
    requires |g| == 81 && 0 <= n <= m <= 81 && c in ConflictsUpTo(g, n)
    ensures c in ConflictsUpTo(g, m)
  {
    if m > n {
      ConflictsUpToGrow(g, n, m - 1, c);
    }
  }

  /**
   * Every collision is reported, not just the first: if two cells of one unit
   * hold the same digit, the later one yields a record with that unit's
   * 1-based index and the digit.
   */
  lemma ConflictsComplete(g: seq<int>, rule: Rule, p1: int, p2: int)
    requires |g| == 81 && 0 <= p1 < p2 < 81
    requires UnitOf(rule, p1) == UnitOf(rule, p2) && g[p1] != 0 && g[p1] == g[p2]
    ensures Conflict(rule, UnitOf(rule, p2) + 1, g[p2]) in Conflicts(g)
  {
    OccursEarlier(g, rule, p1, p2);
    var c := Conflict(rule, UnitOf(rule, p2) + 1, g[p2]);
    HitReported(g, p2, rule);
    assert c in ConflictsUpTo(g, p2 + 1);
    ConflictsUpToGrow(g, p2 + 1, 81, c);
  }

  /** A digit standing at p1 is seen, from any later cell p2 of the same unit, to occur before it. */
  lemma OccursEarlier(g: seq<int>, rule: Rule, p1: int, p2: int)
    requires |g| == 81 && 0 <= p1 < p2 < 81 && UnitOf(rule, p1) == UnitOf(rule, p2) && g[p1] == g[p2]
    ensures OccursBefore(g, p2, rule, UnitOf(rule, p2), g[p2])
  {
    OccursBeforeIff(g, p2, rule, UnitOf(rule, p2), g[p2]);
  }

  /** A cell whose digit occurs earlier in one of its units reports that unit. */
  lemma HitReported(g: seq<int>, q: int, rule: Rule)
    requires |g| == 81 && 0 <= q < 81 && g[q] != 0
    requires OccursBefore(g, q, rule, UnitOf(rule, q), g[q])
    ensures Conflict(rule, UnitOf(rule, q) + 1, g[q]) in CellConflicts(g, q)
  {
    var c := Conflict(rule, UnitOf(rule, q) + 1, g[q]);
    var r, k, b := Hit(g, q, Row), Hit(g, q, Col), Hit(g, q, SubMatrix);
    assert CellConflicts(g, q) == r + k + b;
    match rule
    case Row => assert c in r;
    case Col => assert c in k;
    case SubMatrix => assert c in b;
  }

  /** `isValid` succeeds exactly when no row, column or sub-matrix holds a digit twice. */
  lemma ConflictsEmptyIff(g: seq<int>)
    requires |g| == 81
    ensures Conflicts(g) == [] <==> NoDuplicates(g)
  {
    if Conflicts(g) != [] {
      ConflictsSound(g, Conflicts(g)[0]);
    }
    if !NoDuplicates(g) {
      var rule, p1, p2 :| 0 <= p1 < p2 < 81 && UnitOf(rule, p1) == UnitOf(rule, p2) && g[p1] != 0 && g[p1] == g[p2];
      ConflictsComplete(g, rule, p1, p2);
    }
  }

  // ---------------------------------------------------------------------------
  // Masks. The engine keeps, per row, column and sub-matrix, a Java int whose
  // bit d-1 is set when digit d has been seen there. A mask is modelled by the
  // set of those digits: `m | 1 << (d-1)` is m + {d}, `(m >> (d-1)) & 1` is
  // d in m, and `~m & 0x1FF` is AllDigits - m.

  type Mask = set<int>

  /** `(1 << 9) - 1`: the digits 1..9. */
  const AllDigits: Mask := {1, 2, 3, 4, 5, 6, 7, 8, 9}

  /**
   * The int holding m's digits lo..9 as bits 0..9-lo: the value of
   * `~combined & 0x1FF` shifted right by lo-1 when m holds the digits
   * absent from combined.
   */
  function Bits(m: Mask, lo: int): (n: nat)
    requires 1 <= lo <= 10
    decreases 10 - lo
  {
    if lo == 10 then 0 else (if lo in m then 1 else 0) + 2 * Bits(m, lo + 1)
  }

  /** The lowest bit of `Bits(m, lo)` says whether lo is in m, and a right shift drops it. */
  lemma BitsLow(m: Mask, lo: int)
    requires 1 <= lo <= 9
    ensures Bits(m, lo) % 2 == 1 <==> lo in m
    ensures Bits(m, lo) / 2 == Bits(m, lo + 1)
  {
    var b, rest := if lo in m then 1 else 0, Bits(m, lo + 1);
    assert (b + 2 * rest) % 2 == b && (b + 2 * rest) / 2 == rest;
  }

  /** The bits are all clear exactly when m holds none of the digits lo..9. */
  lemma {:induction false} BitsZero(m: Mask, lo: int)
    requires 1 <= lo <= 10
    ensures Bits(m, lo) == 0 <==> forall d :: lo <= d <= 9 ==> d !in m
    decreases 10 - lo
  {
    if lo < 10 {
      BitsZero(m, lo + 1);
    }
  }

  /** Mask m records exactly the digits of unit u among the cells 0 .. n-1. */
  ghost predicate MaskFor(g: seq<int>, n: int, rule: Rule, u: int, m: Mask)
    requires |g| == 81 && 0 <= n <= 81
  {
    forall d :: d in m <==> 1 <= d <= 9 && OccursBefore(g, n, rule, u, d)
  }

  /** The three mask lists record exactly the digits of cells 0 .. n-1. */
  ghost predicate MasksAgreeUpTo(g: seq<int>, n: int, rows: seq<Mask>, cols: seq<Mask>, blocks: seq<Mask>)
    requires |g| == 81 && 0 <= n <= 81
  {
    && |rows| == 9 && |cols| == 9 && |blocks| == 9
    && (forall u :: 0 <= u < 9 ==> MaskFor(g, n, Row, u, rows[u]))
    && (forall u :: 0 <= u < 9 ==> MaskFor(g, n, Col, u, cols[u]))
    && (forall u :: 0 <= u < 9 ==> MaskFor(g, n, SubMatrix, u, blocks[u]))
  }

  /** The three mask lists agree with the whole grid. */
  ghost predicate MasksAgree(g: seq<int>, rows: seq<Mask>, cols: seq<Mask>, blocks: seq<Mask>)
    requires |g| == 81
  {
    MasksAgreeUpTo(g, 81, rows, cols, blocks)
  }

  /** Empty masks agree with the empty prefix of any grid. */
  lemma MasksStart(g: seq<int>, rows: seq<Mask>, cols: seq<Mask>, blocks: seq<Mask>)
    requires |g| == 81 && |rows| == 9 && |cols| == 9 && |blocks| == 9
    requires forall u :: 0 <= u < 9 ==> rows[u] == {} && cols[u] == {} && blocks[u] == {}
    ensures MasksAgreeUpTo(g, 0, rows, cols, blocks)
  {
  }

  /** Recording cell n (if it holds a digit) in a unit's mask keeps the mask exact. */
  lemma MaskStep(g: seq<int>, n: int, rule: Rule, u: int, m: Mask)
    requires IsGrid(g) && 0 <= n < 81 && 0 <= u < 9
    requires MaskFor(g, n, rule, u, m)
    ensures g[n] != 0 && UnitOf(rule, n) == u ==> MaskFor(g, n + 1, rule, u, m + {g[n]})
    ensures g[n] == 0 || UnitOf(rule, n) != u ==> MaskFor(g, n + 1, rule, u, m)
  {
  }

  /** Cell (i, j) lies in row i, column j and sub-matrix (i/3)*3 + j/3. */
  lemma Coords(i: int, j: int)
    requires 0 <= i < 9 && 0 <= j < 9
    ensures UnitOf(Row, 9 * i + j) == i && UnitOf(Col, 9 * i + j) == j
    ensures UnitOf(SubMatrix, 9 * i + j) == (i / 3) * 3 + j / 3
  {
  }

  /** Filling the empty cell q with d adds d to q's units among the cells below n, and changes nothing else. */
  lemma {:induction false} OccursBeforePlace(g: seq<int>, n: int, q: int, d: int, rule: Rule, u: int, e: int)
    requires IsGrid(g) && 0 <= n <= 81 && 0 <= q < 81 && g[q] == 0 && 1 <= d <= 9 && 1 <= e <= 9
    ensures OccursBefore(g[q := d], n, rule, u, e) <==> OccursBefore(g, n, rule, u, e) || (q < n && UnitOf(rule, q) == u && e == d)
  {
    if n > 0 {
      OccursBeforePlace(g, n - 1, q, d, rule, u, e);
    }
  }

  /** Filling the empty cell q with d adds d to q's three units and changes nothing else. */
  lemma OccursPlace(g: seq<int>, q: int, d: int, rule: Rule, u: int, e: int)
    requires IsGrid(g) && 0 <= q < 81 && g[q] == 0 && 1 <= d <= 9 && 1 <= e <= 9
    ensures Occurs(g[q := d], rule, u, e) <==> Occurs(g, rule, u, e) || (UnitOf(rule, q) == u && e == d)
  {
    OccursBeforePlace(g, 81, q, d, rule, u, e);
  }

  lemma MaskPlace(g: seq<int>, q: int, d: int, rule: Rule, u: int, m: Mask)
    requires IsGrid(g) && 0 <= q < 81 && g[q] == 0 && 1 <= d <= 9 && 0 <= u < 9
    requires MaskFor(g, 81, rule, u, m)
    ensures MaskFor(g[q := d], 81, rule, u, if UnitOf(rule, q) == u then m + {d} else m)
  {
    var m' := if UnitOf(rule, q) == u then m + {d} else m;
    forall e ensures e in m' <==> 1 <= e <= 9 && OccursBefore(g[q := d], 81, rule, u, e) {
      if 1 <= e <= 9 {
        OccursPlace(g, q, d, rule, u, e);
      }
    }
  }

  /**
   * The search's per-branch copies of the masks, with digit d added to the
   * row, column and sub-matrix of the empty cell q, agree with the grid in
   * which q holds d.
   */
  lemma MasksPlace(g: seq<int>, q: int, d: int, rows: seq<Mask>, cols: seq<Mask>, blocks: seq<Mask>)
    requires IsGrid(g) && 0 <= q < 81 && g[q] == 0 && 1 <= d <= 9
    requires MasksAgree(g, rows, cols, blocks)
    ensures MasksAgree(g[q := d], rows[UnitOf(Row, q) := rows[UnitOf(Row, q)] + {d}],
                       cols[UnitOf(Col, q) := cols[UnitOf(Col, q)] + {d}],
                       blocks[UnitOf(SubMatrix, q) := blocks[UnitOf(SubMatrix, q)] + {d}])
  {
    var h := g[q := d];
    var rows' := rows[UnitOf(Row, q) := rows[UnitOf(Row, q)] + {d}];
    var cols' := cols[UnitOf(Col, q) := cols[UnitOf(Col, q)] + {d}];
    var blocks' := blocks[UnitOf(SubMatrix, q) := blocks[UnitOf(SubMatrix, q)] + {d}];
    forall u | 0 <= u < 9
      ensures MaskFor(h, 81, Row, u, rows'[u])
      ensures MaskFor(h, 81, Col, u, cols'[u])
      ensures MaskFor(h, 81, SubMatrix, u, blocks'[u])
    {
      MaskPlace(g, q, d, Row, u, rows[u]);
      MaskPlace(g, q, d, Col, u, cols[u]);
      MaskPlace(g, q, d, SubMatrix, u, blocks[u]);
    }
  }

  /** Recording cell n in the masks of its row, column and sub-matrix keeps all 27 masks exact. */
  lemma MasksStep(g: seq<int>, n: int, rows: seq<Mask>, cols: seq<Mask>, blocks: seq<Mask>)
    requires IsGrid(g) && 0 <= n < 81 && MasksAgreeUpTo(g, n, rows, cols, blocks)
    ensures g[n] != 0 ==> MasksAgreeUpTo(g, n + 1, rows[UnitOf(Row, n) := rows[UnitOf(Row, n)] + {g[n]}],
                                         cols[UnitOf(Col, n) := cols[UnitOf(Col, n)] + {g[n]}],
                                         blocks[UnitOf(SubMatrix, n) := blocks[UnitOf(SubMatrix, n)] + {g[n]}])
    ensures g[n] == 0 ==> MasksAgreeUpTo(g, n + 1, rows, cols, blocks)
  {
    var rows' := if g[n] != 0 then rows[UnitOf(Row, n) := rows[UnitOf(Row, n)] + {g[n]}] else rows;
    var cols' := if g[n] != 0 then cols[UnitOf(Col, n) := cols[UnitOf(Col, n)] + {g[n]}] else cols;
    var blocks' := if g[n] != 0 then blocks[UnitOf(SubMatrix, n) := blocks[UnitOf(SubMatrix, n)] + {g[n]}] else blocks;
    forall u | 0 <= u < 9
      ensures MaskFor(g, n + 1, Row, u, rows'[u])
      ensures MaskFor(g, n + 1, Col, u, cols'[u])
      ensures MaskFor(g, n + 1, SubMatrix, u, blocks'[u])
    {
      MaskStep(g, n, Row, u, rows[u]);
      MaskStep(g, n, Col, u, cols[u]);
      MaskStep(g, n, SubMatrix, u, blocks[u]);
    }
    assert MasksAgreeUpTo(g, n + 1, rows', cols', blocks');
  }

  /** `MasksPlace` for cell [i][j], with the unit indices the engine computes. */
  lemma MasksPlaceAt(g: seq<int>, i: int, j: int, d: int, rows: seq<Mask>, cols: seq<Mask>, blocks: seq<Mask>)
    requires IsGrid(g) && 0 <= i < 9 && 0 <= j < 9 && g[9 * i + j] == 0 && 1 <= d <= 9
    requires MasksAgree(g, rows, cols, blocks)
    ensures MasksAgree(g[9 * i + j := d], rows[i := rows[i] + {d}], cols[j := cols[j] + {d}],
                       blocks[(i / 3) * 3 + j / 3 := blocks[(i / 3) * 3 + j / 3] + {d}])
  {
    Coords(i, j);
    MasksPlace(g, 9 * i + j, d, rows, cols, blocks);
  }

  /**
   * With masks exact up to cell 9*i+j, the collisions of that filled cell
   * are read off the masks of its row, column and sub-matrix.
   */
  lemma HitByMask(g: seq<int>, q: int, rule: Rule, u: int, m: Mask)
    requires IsGrid(g) && 0 <= q < 81 && 1 <= g[q] <= 9 && UnitOf(rule, q) == u
    requires MaskFor(g, q, rule, u, m)
    ensures Hit(g, q, rule) == if g[q] in m then [Conflict(rule, u + 1, g[q])] else []
  {
  }

  lemma CellConflictsByMasks(g: seq<int>, i: int, j: int, rows: seq<Mask>, cols: seq<Mask>, blocks: seq<Mask>,
                             found: seq<Conflict>)
    requires IsGrid(g) && 0 <= i < 9 && 0 <= j < 9 && g[9 * i + j] != 0
    requires MasksAgreeUpTo(g, 9 * i + j, rows, cols, blocks)
    ensures var v, b := g[9 * i + j], (i / 3) * 3 + j / 3;
      found + CellConflicts(g, 9 * i + j)
      == found + (if v in rows[i] then [Conflict(Row, i + 1, v)] else [])
         + (if v in cols[j] then [Conflict(Col, j + 1, v)] else [])
         + (if v in blocks[b] then [Conflict(SubMatrix, b + 1, v)] else [])
  {
    Coords(i, j);
    var q, b := 9 * i + j, (i / 3) * 3 + j / 3;
    HitByMask(g, q, Row, i, rows[i]);
    HitByMask(g, q, Col, j, cols[j]);
    HitByMask(g, q, SubMatrix, b, blocks[b]);
    var r, c, k := Hit(g, q, Row), Hit(g, q, Col), Hit(g, q, SubMatrix);
    assert CellConflicts(g, q) == r + c + k;
    assert found + (r + c + k) == found + r + c + k;
  }

  // ---------------------------------------------------------------------------
  // The text of the exception `isValid` throws.

  /** Decimal digits of a natural number, as Java's string concatenation prints it. */
  function NatString(n: nat): (s: string)
    ensures |s| >= 1
    ensures forall k :: 0 <= k < |s| ==> '0' <= s[k] <= '9'
  {
    if n < 10 then [('0' as int + n) as char] else NatString(n / 10) + NatString(n % 10)
  }

  /** An int as Java prints it: a minus sign for negatives, then the digits. */
  function IntString(i: int): (s: string)
    ensures |s| >= 1
  {
    if i < 0 then "-" + NatString(-i) else NatString(i)
  }

  function RuleName(rule: Rule): string {
    match rule
    case Row => "Row"
    case Col => "Col"
    case SubMatrix => "Sub-matrix"
  }

  /** One collision as the engine words it, e.g. "Row 3 has multiple 5's". */
  function Describe(c: Conflict): (s: string)
    ensures |s| > 0
  {
    RuleName(c.rule) + " " + IntString(c.index) + " has multiple " + IntString(c.digit) + "'s"
  }

  /** The collisions, worded one by one and separated by ", ". */
  function Message(cs: seq<Conflict>): (s: string)
    ensures s == "" <==> cs == []
  {
    if cs == [] then ""
    else if |cs| == 1 then Describe(cs[0])
    else Message(cs[..|cs| - 1]) + ", " + Describe(cs[|cs| - 1])
  }

  /** Appending one collision appends its wording, after ", " unless it is the first. */
  lemma MessageSnoc(cs: seq<Conflict>, c: Conflict)
    ensures Message(cs + [c]) == if cs == [] then Describe(c) else Message(cs) + ", " + Describe(c)
  {
    assert (cs + [c])[..|cs|] == cs;
  }
}
