/**
 * The board logic of the web bean: clearing, sanitising and copying the
 * `Character[][]` board, validating a board through the engine, and the
 * expansion of the board into sub-boards, one per valid digit in one blank
 * cell, that are the tasks of the solving workers.
 */
module Web {
  import opened Wrappers
  import opened Cells
  import opened Rules
  import opened Engine

  /** The soft limit on the number of tasks: a new cell is only expanded while fewer are queued. */
  const TaskCap: int := 100

  // ---------------------------------------------------------------------------
  // Sanitising.

  /** The front end may send null for an empty cell; it stands for ' '. */
  function Sanitized(x: Cell): (y: Cell)
    ensures y != Null
    ensures x != Null ==> y == x
  {
    if x == Null then Blank else x
  }

  function SanitizedBoard(b: seq<Cell>): (s: seq<Cell>)
    ensures |s| == |b| && forall q :: 0 <= q < |b| ==> s[q] == Sanitized(b[q])
  {
    seq(|b|, q requires 0 <= q < |b| => Sanitized(b[q]))
  }

  /** Sanitising twice is sanitising once. */
  lemma SanitizeIdempotent(b: seq<Cell>)
    ensures SanitizedBoard(SanitizedBoard(b)) == SanitizedBoard(b)
  {
    assert forall q :: 0 <= q < |b| ==> SanitizedBoard(SanitizedBoard(b))[q] == SanitizedBoard(b)[q];
  }

  /** Sanitising does not change what the engine reads: null and ' ' are both an empty cell. */
  lemma SanitizeKeepsValues(b: seq<Cell>)
    ensures Values(SanitizedBoard(b)) == Values(b)
  {
    assert forall q :: 0 <= q < |b| ==> Values(SanitizedBoard(b))[q] == Values(b)[q];
  }

  // ---------------------------------------------------------------------------
  // The task list of the root expansion, as a function of the root board.

  /** A task: the root with `digit` written into cell `cell` (row-major index). */
  datatype Pick = Pick(cell: int, digit: int)

  predicate ValidPick(p: Pick) {
    0 <= p.cell < 81 && 1 <= p.digit <= 9
  }

  /** The board of a task. */
  function Placed(r: seq<Cell>, p: Pick): seq<Cell>
    requires |r| == 81 && ValidPick(p)
  {
    r[p.cell := Ch(DigitChar(p.digit))]
  }

  /** Cell q of the root is blank, and writing digit d there gives a board the engine accepts. */
  ghost predicate Accepts(r: seq<Cell>, q: int, d: int)
    requires |r| == 81 && 0 <= q < 81 && 1 <= d <= 9
  {
    r[q] == Blank && NoDuplicates(Values(r[q := Ch(DigitChar(d))]))
  }

  /** An acceptance table: for each cell, whether each of the digits 1..9 (at index d-1) is accepted there. */
  predicate IsTable(ok: seq<seq<bool>>) {
    |ok| == 81 && forall q :: 0 <= q < 81 ==> |ok[q]| == 9
  }

  /** ok is the acceptance table of root r. */
  ghost predicate Tabulates(ok: seq<seq<bool>>, r: seq<Cell>)
    requires |r| == 81
  {
    && IsTable(ok)
    && forall q, d {:trigger Accepts(r, q, d)} :: 0 <= q < 81 && 1 <= d <= 9 ==> ok[q][d - 1] == Accepts(r, q, d)
  }

  /** The acceptance table of a root. */
  ghost function Acceptance(r: seq<Cell>): (ok: seq<seq<bool>>)
    requires |r| == 81
    ensures Tabulates(ok, r)
  {
    seq(81, q requires 0 <= q < 81 => seq(9, k requires 0 <= k < 9 => Accepts(r, q, k + 1)))
  }

  /** The tasks that the digits 1..n give for cell q, in the order the digit loop queues them. */
  function CellPicks(ok: seq<seq<bool>>, q: int, n: int): seq<Pick>
    requires IsTable(ok) && 0 <= q < 81 && 0 <= n <= 9
  {
    if n == 0 then []
    else CellPicks(ok, q, n - 1) + (if ok[q][n - 1] then [Pick(q, n)] else [])
  }

  /**
   * The tasks after cells q..80 have been expanded, with acc queued before
   * them. A cell that is not blank accepts no digit, so it adds nothing.
   */
  function PicksFrom(ok: seq<seq<bool>>, q: int, acc: seq<Pick>): seq<Pick>
    requires IsTable(ok) && 0 <= q <= 81
    decreases 81 - q
  {
    if q == 81 || |acc| >= TaskCap then acc
    else PicksFrom(ok, q + 1, acc + CellPicks(ok, q, 9))
  }

  /** The tasks the root expansion queues for root r. */
  ghost function Picks(r: seq<Cell>): seq<Pick>
    requires |r| == 81
  {
    PicksFrom(Acceptance(r), 0, [])
  }

  /** Tasks in ascending (row, column, digit) order; row-major cell order is (row, column) order. */
  predicate Precedes(a: Pick, b: Pick) {
    a.cell < b.cell || (a.cell == b.cell && a.digit < b.digit)
  }

  predicate Ascending(s: seq<Pick>) {
    forall k, l :: 0 <= k < l < |s| ==> Precedes(s[k], s[l])
  }

  /** Every queued pick names an accepted digit. */
  predicate AllAccepted(ok: seq<seq<bool>>, s: seq<Pick>)
    requires IsTable(ok)
  {
    forall k :: 0 <= k < |s| ==> ValidPick(s[k]) && ok[s[k].cell][s[k].digit - 1]
  }

  /** A cell that has been started has all its accepted digits queued. */
  predicate WholeCells(ok: seq<seq<bool>>, s: seq<Pick>)
    requires IsTable(ok)
  {
    forall k, e :: 0 <= k < |s| && 0 <= s[k].cell < 81 && 0 <= e < 9 && ok[s[k].cell][e] ==> Pick(s[k].cell, e + 1) in s
  }

  // ---------------------------------------------------------------------------
  // One cell.

  lemma {:induction false} CellPicksLength(ok: seq<seq<bool>>, q: int, n: int)
    requires IsTable(ok) && 0 <= q < 81 && 0 <= n <= 9
    ensures |CellPicks(ok, q, n)| <= n
  {
    if n > 0 {
      CellPicksLength(ok, q, n - 1);
    }
  }

  /** The picks for cell q name cell q, a digit up to n, and an accepted digit. */
  lemma {:induction false} CellPicksSound(ok: seq<seq<bool>>, q: int, n: int)
    requires IsTable(ok) && 0 <= q < 81 && 0 <= n <= 9
    ensures forall k :: 0 <= k < |CellPicks(ok, q, n)| ==>
      CellPicks(ok, q, n)[k].cell == q && 1 <= CellPicks(ok, q, n)[k].digit <= n
      && ok[q][CellPicks(ok, q, n)[k].digit - 1]
  {
    if n > 0 {
      CellPicksSound(ok, q, n - 1);
      var prev := CellPicks(ok, q, n - 1);
      var tail: seq<Pick> := if ok[q][n - 1] then [Pick(q, n)] else [];
      forall k | 0 <= k < |prev + tail|
        ensures (prev + tail)[k].cell == q && 1 <= (prev + tail)[k].digit <= n && ok[q][(prev + tail)[k].digit - 1]
      {
        if k < |prev| {
          assert (prev + tail)[k] == prev[k];
        } else {
          assert (prev + tail)[k] == tail[k - |prev|];
        }
      }
    }
  }

  lemma {:induction false} CellPicksAscending(ok: seq<seq<bool>>, q: int, n: int)
    requires IsTable(ok) && 0 <= q < 81 && 0 <= n <= 9
    ensures Ascending(CellPicks(ok, q, n))
  {
    if n > 0 {
      CellPicksAscending(ok, q, n - 1);
      CellPicksSound(ok, q, n - 1);
      var prev := CellPicks(ok, q, n - 1);
      var tail: seq<Pick> := if ok[q][n - 1] then [Pick(q, n)] else [];
      forall k, l | 0 <= k < l < |prev + tail| ensures Precedes((prev + tail)[k], (prev + tail)[l]) {
        if l < |prev| {
          assert (prev + tail)[k] == prev[k] && (prev + tail)[l] == prev[l];
        } else {
          assert (prev + tail)[k] == prev[k] && (prev + tail)[l] == Pick(q, n);
        }
      }
    }
  }

  lemma {:induction false} CellPicksComplete(ok: seq<seq<bool>>, q: int, n: int)
    requires IsTable(ok) && 0 <= q < 81 && 0 <= n <= 9
    ensures forall e :: 0 <= e < n && ok[q][e] ==> Pick(q, e + 1) in CellPicks(ok, q, n)
  {
    if n > 0 {
      CellPicksComplete(ok, q, n - 1);
      var prev := CellPicks(ok, q, n - 1);
      var tail: seq<Pick> := if ok[q][n - 1] then [Pick(q, n)] else [];
      forall e | 0 <= e < n && ok[q][e] ensures Pick(q, e + 1) in prev + tail {
        if e == n - 1 {
          assert (prev + tail)[|prev|] == Pick(q, n);
        } else {
          var k :| 0 <= k < |prev| && prev[k] == Pick(q, e + 1);
          assert (prev + tail)[k] == prev[k];
        }
      }
    }
  }

  lemma {:induction false} CellPicksNone(ok: seq<seq<bool>>, q: int, n: int)
    requires IsTable(ok) && 0 <= q < 81 && 0 <= n <= 9 && forall e :: 0 <= e < n ==> !ok[q][e]
    ensures CellPicks(ok, q, n) == []
  {
    if n > 0 {
      CellPicksNone(ok, q, n - 1);
    }
  }

  /** A grid with a repeated digit keeps it when a blank cell is filled. */
  lemma InvalidStaysInvalid(r: seq<Cell>, q: int, x: Cell)
    requires |r| == 81 && 0 <= q < 81 && r[q] == Blank && !NoDuplicates(Values(r))
    ensures !NoDuplicates(Values(r[q := x]))
  {
    var rule, p1, p2 :| 0 <= p1 < p2 < 81 && UnitOf(rule, p1) == UnitOf(rule, p2)
                        && Values(r)[p1] != 0 && Values(r)[p1] == Values(r)[p2];
    assert Values(r[q := x])[p1] == Values(r)[p1] && Values(r[q := x])[p2] == Values(r)[p2];
  }

  // ---------------------------------------------------------------------------
  // The expansion, by induction over the cells.

  lemma AllAcceptedConcat(ok: seq<seq<bool>>, a: seq<Pick>, b: seq<Pick>)
    requires IsTable(ok) && AllAccepted(ok, a) && AllAccepted(ok, b)
    ensures AllAccepted(ok, a + b)
  {
    forall k | 0 <= k < |a + b| ensures ValidPick((a + b)[k]) && ok[(a + b)[k].cell][(a + b)[k].digit - 1] {
      if k < |a| {
        assert (a + b)[k] == a[k];
      } else {
        assert (a + b)[k] == b[k - |a|];
      }
    }
  }

  /** Every pick of s is for a cell below q. */
  predicate CellsBelow(s: seq<Pick>, q: int) {
    forall k :: 0 <= k < |s| ==> s[k].cell < q
  }

  lemma AscendingConcat(a: seq<Pick>, b: seq<Pick>, q: int)
    requires Ascending(a) && Ascending(b) && CellsBelow(a, q)
    requires forall k :: 0 <= k < |b| ==> b[k].cell == q
    ensures Ascending(a + b) && CellsBelow(a + b, q + 1)
  {
    forall k | 0 <= k < |a + b| ensures (a + b)[k].cell < q + 1 {
      if k < |a| {
        assert (a + b)[k] == a[k];
      } else {
        assert (a + b)[k] == b[k - |a|];
      }
    }
    forall k, l | 0 <= k < l < |a + b| ensures Precedes((a + b)[k], (a + b)[l]) {
      if l < |a| {
        assert (a + b)[k] == a[k] && (a + b)[l] == a[l];
      } else if k < |a| {
        assert (a + b)[k] == a[k] && (a + b)[l] == b[l - |a|];
      } else {
        assert (a + b)[k] == b[k - |a|] && (a + b)[l] == b[l - |a|];
      }
    }
  }

  lemma AcceptedAppend(ok: seq<seq<bool>>, q: int, acc: seq<Pick>)
    requires IsTable(ok) && 0 <= q < 81 && AllAccepted(ok, acc)
    ensures AllAccepted(ok, acc + CellPicks(ok, q, 9))
  {
    CellPicksSound(ok, q, 9);
    assert AllAccepted(ok, CellPicks(ok, q, 9));
    AllAcceptedConcat(ok, acc, CellPicks(ok, q, 9));
  }

  lemma AscendingAppend(ok: seq<seq<bool>>, q: int, acc: seq<Pick>)
    requires IsTable(ok) && 0 <= q < 81 && Ascending(acc) && CellsBelow(acc, q)
    ensures Ascending(acc + CellPicks(ok, q, 9)) && CellsBelow(acc + CellPicks(ok, q, 9), q + 1)
  {
    CellPicksSound(ok, q, 9);
    CellPicksAscending(ok, q, 9);
    AscendingConcat(acc, CellPicks(ok, q, 9), q);
  }

  lemma WholeCellsAppend(ok: seq<seq<bool>>, q: int, acc: seq<Pick>)
    requires IsTable(ok) && 0 <= q < 81 && WholeCells(ok, acc)
    ensures WholeCells(ok, acc + CellPicks(ok, q, 9))
  {
    var added := CellPicks(ok, q, 9);
    var next := acc + added;
    CellPicksSound(ok, q, 9);
    CellPicksComplete(ok, q, 9);
    forall k, e | 0 <= k < |next| && 0 <= next[k].cell < 81 && 0 <= e < 9 && ok[next[k].cell][e]
      ensures Pick(next[k].cell, e + 1) in next
    {
      if k < |acc| {
        assert next[k] == acc[k];
        InPrefix(Pick(acc[k].cell, e + 1), acc, next);
      } else {
        assert next[k] == added[k - |acc|];
        InSuffix(Pick(q, e + 1), acc, added);
      }
    }
  }

  /** What a sequence holds, any sequence it prefixes holds too. */
  lemma InPrefix(x: Pick, a: seq<Pick>, b: seq<Pick>)
    requires |a| <= |b| && b[..|a|] == a && x in a
    ensures x in b
  {
    var k :| 0 <= k < |a| && a[k] == x;
    assert b[k] == a[k];
  }

  lemma InSuffix(x: Pick, a: seq<Pick>, b: seq<Pick>)
    requires x in b
    ensures x in a + b
  {
    var k :| 0 <= k < |b| && b[k] == x;
    assert (a + b)[|a| + k] == b[k];
  }

  lemma {:induction false} PicksFromAccepted(ok: seq<seq<bool>>, q: int, acc: seq<Pick>)
    requires IsTable(ok) && 0 <= q <= 81 && AllAccepted(ok, acc)
    ensures AllAccepted(ok, PicksFrom(ok, q, acc))
    decreases 81 - q
  {
    if q < 81 && |acc| < TaskCap {
      AcceptedAppend(ok, q, acc);
      PicksFromAccepted(ok, q + 1, acc + CellPicks(ok, q, 9));
    }
  }

  lemma {:induction false} PicksFromAscending(ok: seq<seq<bool>>, q: int, acc: seq<Pick>)
    requires IsTable(ok) && 0 <= q <= 81 && Ascending(acc) && CellsBelow(acc, q)
    ensures Ascending(PicksFrom(ok, q, acc))
    decreases 81 - q
  {
    if q < 81 && |acc| < TaskCap {
      AscendingAppend(ok, q, acc);
      PicksFromAscending(ok, q + 1, acc + CellPicks(ok, q, 9));
    }
  }

  lemma {:induction false} PicksFromBounded(ok: seq<seq<bool>>, q: int, acc: seq<Pick>)
    requires IsTable(ok) && 0 <= q <= 81 && |acc| <= TaskCap + 8
    ensures |PicksFrom(ok, q, acc)| <= TaskCap + 8
    decreases 81 - q
  {
    if q < 81 && |acc| < TaskCap {
      CellPicksLength(ok, q, 9);
      PicksFromBounded(ok, q + 1, acc + CellPicks(ok, q, 9));
    }
  }

  lemma {:induction false} PicksFromGrows(ok: seq<seq<bool>>, q: int, acc: seq<Pick>)
    requires IsTable(ok) && 0 <= q <= 81
    ensures |acc| <= |PicksFrom(ok, q, acc)| && PicksFrom(ok, q, acc)[..|acc|] == acc
    decreases 81 - q
  {
    if q < 81 && |acc| < TaskCap {
      var next := acc + CellPicks(ok, q, 9);
      PicksFromGrows(ok, q + 1, next);
      assert next[..|acc|] == acc;
    }
  }

  lemma {:induction false} PicksFromComplete(ok: seq<seq<bool>>, q: int, acc: seq<Pick>)
    requires IsTable(ok) && 0 <= q <= 81 && |PicksFrom(ok, q, acc)| < TaskCap
    ensures forall c, e :: q <= c < 81 && 0 <= e < 9 && ok[c][e] ==> Pick(c, e + 1) in PicksFrom(ok, q, acc)
    decreases 81 - q
  {
    if q < 81 {
      var added := CellPicks(ok, q, 9);
      var next := acc + added;
      var all := PicksFrom(ok, q + 1, next);
      assert PicksFrom(ok, q, acc) == all;
      PicksFromComplete(ok, q + 1, next);
      PicksFromGrows(ok, q + 1, next);
      CellPicksComplete(ok, q, 9);
      forall c, e | q <= c < 81 && 0 <= e < 9 && ok[c][e] ensures Pick(c, e + 1) in all {
        if c == q {
          InSuffix(Pick(q, e + 1), acc, added);
          InPrefix(Pick(q, e + 1), next, all);
        }
      }
    }
  }

  lemma {:induction false} PicksFromWholeCells(ok: seq<seq<bool>>, q: int, acc: seq<Pick>)
    requires IsTable(ok) && 0 <= q <= 81 && WholeCells(ok, acc)
    ensures WholeCells(ok, PicksFrom(ok, q, acc))
    decreases 81 - q
  {
    if q < 81 && |acc| < TaskCap {
      WholeCellsAppend(ok, q, acc);
      PicksFromWholeCells(ok, q + 1, acc + CellPicks(ok, q, 9));
    }
  }

  /** s holds every accepted pick of every cell below q. */
  predicate CoversBelow(ok: seq<seq<bool>>, s: seq<Pick>, q: int)
    requires IsTable(ok) && q <= 81
  {
    forall c, e :: 0 <= c < q && 0 <= e < 9 && ok[c][e] ==> Pick(c, e + 1) in s
  }

  lemma CoversAppend(ok: seq<seq<bool>>, q: int, acc: seq<Pick>)
    requires IsTable(ok) && 0 <= q < 81 && CellsBelow(acc, q) && CoversBelow(ok, acc, q)
    ensures CellsBelow(acc + CellPicks(ok, q, 9), q + 1) && CoversBelow(ok, acc + CellPicks(ok, q, 9), q + 1)
  {
    var added := CellPicks(ok, q, 9);
    var next := acc + added;
    CellPicksSound(ok, q, 9);
    CellPicksComplete(ok, q, 9);
    forall k | 0 <= k < |next| ensures next[k].cell < q + 1 {
      if k < |acc| {
        assert next[k] == acc[k];
      } else {
        assert next[k] == added[k - |acc|];
      }
    }
    forall c, e | 0 <= c < q + 1 && 0 <= e < 9 && ok[c][e] ensures Pick(c, e + 1) in next {
      if c < q {
        assert next[..|acc|] == acc;
        InPrefix(Pick(c, e + 1), acc, next);
      } else {
        InSuffix(Pick(q, e + 1), acc, added);
      }
    }
  }

  /**
   * The expansion works through the cells in row-major order: every accepted
   * pick of a cell before the cell of any queued task is queued as well.
   */
  lemma {:induction false} PicksFromPrefix(ok: seq<seq<bool>>, q: int, acc: seq<Pick>)
    requires IsTable(ok) && 0 <= q <= 81 && CellsBelow(acc, q) && CoversBelow(ok, acc, q)
    ensures forall k, c, e ::
              (0 <= k < |PicksFrom(ok, q, acc)| && 0 <= c < 81 && c < PicksFrom(ok, q, acc)[k].cell && 0 <= e < 9 && ok[c][e])
              ==> Pick(c, e + 1) in PicksFrom(ok, q, acc)
    decreases 81 - q
  {
    if q < 81 && |acc| < TaskCap {
      CoversAppend(ok, q, acc);
      PicksFromPrefix(ok, q + 1, acc + CellPicks(ok, q, 9));
    }
  }

  lemma {:induction false} PicksFromNoneAccepted(ok: seq<seq<bool>>, q: int, acc: seq<Pick>)
    requires IsTable(ok) && 0 <= q <= 81
    requires forall c, e :: q <= c < 81 && 0 <= e < 9 ==> !ok[c][e]
    ensures PicksFrom(ok, q, acc) == acc
    decreases 81 - q
  {
    if q < 81 && |acc| < TaskCap {
      CellPicksNone(ok, q, 9);
      assert acc + [] == acc;
      PicksFromNoneAccepted(ok, q + 1, acc);
    }
  }

  /** One turn of the cell loop below the cap expands cell q. */
  lemma PicksFromStep(ok: seq<seq<bool>>, q: int, acc: seq<Pick>, next: seq<Pick>)
    requires IsTable(ok) && 0 <= q < 81 && |acc| < TaskCap && next == acc + CellPicks(ok, q, 9)
    ensures PicksFrom(ok, q + 1, next) == PicksFrom(ok, q, acc)
  {
  }

  /** At the cap, nothing more is expanded. */
  lemma PicksFromCapped(ok: seq<seq<bool>>, q: int, acc: seq<Pick>)
    requires IsTable(ok) && 0 <= q <= 81 && (q == 81 || |acc| >= TaskCap)
    ensures PicksFrom(ok, q, acc) == acc
  {
  }

  // ---------------------------------------------------------------------------
  // What the expansion promises.

  /**
   * A valid task of root r: the root with one blank cell filled with a digit
   * '1'..'9', every other cell as in the root, and a board the engine accepts.
   */
  ghost predicate ValidTask(r: seq<Cell>, p: Pick)
    requires |r| == 81
  {
    && ValidPick(p) && r[p.cell] == Blank && IsDigitCell(Placed(r, p)[p.cell])
    && (forall c :: 0 <= c < 81 && c != p.cell ==> Placed(r, p)[c] == r[c])
    && NoDuplicates(Values(Placed(r, p)))
  }

  /** Every task is valid. */
  lemma PicksValid(r: seq<Cell>)
    requires |r| == 81
    ensures forall k :: 0 <= k < |Picks(r)| ==> ValidTask(r, Picks(r)[k])
  {
    PicksFromAccepted(Acceptance(r), 0, []);
    AllAcceptedValid(Acceptance(r), r, Picks(r));
  }

  lemma AllAcceptedValid(ok: seq<seq<bool>>, r: seq<Cell>, s: seq<Pick>)
    requires |r| == 81 && Tabulates(ok, r) && AllAccepted(ok, s)
    ensures forall k :: 0 <= k < |s| ==> ValidTask(r, s[k])
  {
    forall k | 0 <= k < |s| ensures ValidTask(r, s[k]) {
      AcceptedPickValid(ok, r, s[k]);
    }
  }

  lemma AcceptedPickValid(ok: seq<seq<bool>>, r: seq<Cell>, p: Pick)
    requires |r| == 81 && Tabulates(ok, r) && ValidPick(p) && ok[p.cell][p.digit - 1]
    ensures ValidTask(r, p)
  {
    assert ok[p.cell][p.digit - 1] == Accepts(r, p.cell, p.digit);
  }

  /** Tasks come in ascending (cell, digit) order. */
  lemma PicksAscending(r: seq<Cell>)
    requires |r| == 81
    ensures Ascending(Picks(r))
  {
    PicksFromAscending(Acceptance(r), 0, []);
  }

  /** The cap is checked before each cell, so at most 99 + 9 tasks are queued. */
  lemma PicksBounded(r: seq<Cell>)
    requires |r| == 81
    ensures |Picks(r)| <= 108
  {
    PicksFromBounded(Acceptance(r), 0, []);
  }

  /** Below the cap, the expansion is exhaustive: every accepted (cell, digit) is a task. */
  lemma PicksExhaustive(r: seq<Cell>)
    requires |r| == 81 && |Picks(r)| < TaskCap
    ensures forall c, d :: 0 <= c < 81 && 1 <= d <= 9 && Accepts(r, c, d) ==> Pick(c, d) in Picks(r)
  {
    var ok := Acceptance(r);
    PicksFromComplete(ok, 0, []);
    forall c, d | 0 <= c < 81 && 1 <= d <= 9 && Accepts(r, c, d) ensures Pick(c, d) in Picks(r) {
      assert ok[c][d - 1] == Accepts(r, c, d);
    }
  }

  /** Once a cell is started, all of its accepted digits are queued, cap or not. */
  lemma PicksWholeCells(r: seq<Cell>)
    requires |r| == 81
    ensures forall k, d ::
              (0 <= k < |Picks(r)| && 0 <= Picks(r)[k].cell < 81 && 1 <= d <= 9 && Accepts(r, Picks(r)[k].cell, d))
              ==> Pick(Picks(r)[k].cell, d) in Picks(r)
  {
    var ok := Acceptance(r);
    PicksFromWholeCells(ok, 0, []);
    forall k, d | 0 <= k < |Picks(r)| && 0 <= Picks(r)[k].cell < 81 && 1 <= d <= 9 && Accepts(r, Picks(r)[k].cell, d)
      ensures Pick(Picks(r)[k].cell, d) in Picks(r)
    {
      assert ok[Picks(r)[k].cell][d - 1] == Accepts(r, Picks(r)[k].cell, d);
    }
  }

  /**
   * When the cap stops the expansion early, the expanded cells still form a
   * row-major prefix: every accepted (cell, digit) of a cell before the cell
   * of some task is a task too.
   */
  lemma PicksRowMajor(r: seq<Cell>)
    requires |r| == 81
    ensures forall k, c, d ::
              (0 <= k < |Picks(r)| && 0 <= c < 81 && c < Picks(r)[k].cell && 1 <= d <= 9 && Accepts(r, c, d))
              ==> Pick(c, d) in Picks(r)
  {
    var ok := Acceptance(r);
    PicksFromPrefix(ok, 0, []);
    forall k, c, d | 0 <= k < |Picks(r)| && 0 <= c < 81 && c < Picks(r)[k].cell && 1 <= d <= 9 && Accepts(r, c, d)
      ensures Pick(c, d) in Picks(r)
    {
      assert ok[c][d - 1] == Accepts(r, c, d);
    }
  }

  /** A root with no blank cell gives no task. */
  lemma PicksFullRoot(r: seq<Cell>)
    requires |r| == 81 && forall c :: 0 <= c < 81 ==> r[c] != Blank
    ensures Picks(r) == []
  {
    var ok := Acceptance(r);
    forall c | 0 <= c < 81 ensures forall e :: 0 <= e < 9 ==> !ok[c][e] {
      NonBlankRejects(ok, r, c);
    }
    PicksFromNoneAccepted(ok, 0, []);
  }

  /** A root that already breaks a rule gives no task: every sub-board breaks it too. */
  lemma PicksInvalidRoot(r: seq<Cell>)
    requires |r| == 81 && !NoDuplicates(Values(r))
    ensures Picks(r) == []
  {
    var ok := Acceptance(r);
    forall c, e | 0 <= c < 81 && 0 <= e < 9 ensures !ok[c][e] {
      assert ok[c][e] == Accepts(r, c, e + 1);
      if r[c] == Blank {
        InvalidStaysInvalid(r, c, Ch(DigitChar(e + 1)));
      }
    }
    PicksFromNoneAccepted(ok, 0, []);
  }

  // ---------------------------------------------------------------------------
  // The bean.

  /** Task boards: 9x9, each the root with its pick placed. */
  ghost predicate TasksMatch(tasks: seq<array2<Cell>>, picks: seq<Pick>, r: seq<Cell>)
    requires |r| == 81
    reads tasks
  {
    && |tasks| == |picks|
    && forall k :: 0 <= k < |tasks| ==>
      ValidPick(picks[k]) && tasks[k].Length0 == 9 && tasks[k].Length1 == 9 && Flatten(tasks[k]) == Placed(r, picks[k])
  }

  lemma TasksMatchSnoc(tasks: seq<array2<Cell>>, picks: seq<Pick>, r: seq<Cell>, sub: array2<Cell>, p: Pick)
    requires |r| == 81 && TasksMatch(tasks, picks, r) && ValidPick(p)
    requires sub.Length0 == 9 && sub.Length1 == 9 && Flatten(sub) == Placed(r, p)
    ensures TasksMatch(tasks + [sub], picks + [p], r)
  {
    var ts, ps := tasks + [sub], picks + [p];
    forall k | 0 <= k < |ts|
      ensures ValidPick(ps[k]) && ts[k].Length0 == 9 && ts[k].Length1 == 9 && Flatten(ts[k]) == Placed(r, ps[k])
    {
      if k < |tasks| {
        assert ts[k] == tasks[k] && ps[k] == picks[k];
      } else {
        assert ts[k] == sub && ps[k] == p;
      }
    }
  }

  lemma TasksMatchConcat(a: seq<array2<Cell>>, pa: seq<Pick>, b: seq<array2<Cell>>, pb: seq<Pick>, r: seq<Cell>)
    requires |r| == 81 && TasksMatch(a, pa, r) && TasksMatch(b, pb, r)
    ensures TasksMatch(a + b, pa + pb, r)
  {
    var ts, ps := a + b, pa + pb;
    forall k | 0 <= k < |ts|
      ensures ValidPick(ps[k]) && ts[k].Length0 == 9 && ts[k].Length1 == 9 && Flatten(ts[k]) == Placed(r, ps[k])
    {
      if k < |a| {
        assert ts[k] == a[k] && ps[k] == pa[k];
      } else {
        assert ts[k] == b[k - |a|] && ps[k] == pb[k - |a|];
      }
    }
  }

  /** The table entry for a digit at a blank cell is the engine's verdict on the filled board. */
  lemma TabulatedAt(ok: seq<seq<bool>>, r: seq<Cell>, q: int, d: int)
    requires |r| == 81 && Tabulates(ok, r) && 0 <= q < 81 && 1 <= d <= 9 && r[q] == Blank
    ensures ok[q][d - 1] == NoDuplicates(Values(r[q := Ch(DigitChar(d))]))
  {
    assert ok[q][d - 1] == Accepts(r, q, d);
  }

  /** A cell that is not blank accepts no digit. */
  lemma NonBlankRejects(ok: seq<seq<bool>>, r: seq<Cell>, q: int)
    requires |r| == 81 && Tabulates(ok, r) && 0 <= q < 81 && r[q] != Blank
    ensures forall e :: 0 <= e < 9 ==> !ok[q][e]
  {
    forall e | 0 <= e < 9 ensures !ok[q][e] {
      assert ok[q][e] == Accepts(r, q, e + 1);
    }
  }

  /** Sanitising a board without null cells leaves it as it is. */
  lemma SanitizeNoNull(b: seq<Cell>)
    requires forall q :: 0 <= q < |b| ==> b[q] != Null
    ensures SanitizedBoard(b) == b
  {
  }

  class Bean {
    /** The page's board (the Java field `map`); null until the page sets it. */
    var board: array2?<Cell>

    constructor ()
      ensures board == null
    {
      board := null;
    }

    /** `clearBoard`: a fresh 9x9 board of ' '. */
    method ClearBoard()
      modifies this
      ensures board != null && fresh(board) && board.Length0 == 9 && board.Length1 == 9
      ensures forall i, j :: 0 <= i < 9 && 0 <= j < 9 ==> board[i, j] == Blank
    {
      var b := new Cell[9, 9]((i, j) => Null);
      for i := 0 to 9
        invariant forall i', j :: 0 <= i' < i && 0 <= j < 9 ==> b[i', j] == Blank
      {
        for j := 0 to 9
          invariant forall i', j' :: 0 <= i' < i && 0 <= j' < 9 ==> b[i', j'] == Blank
          invariant forall j' :: 0 <= j' < j ==> b[i, j'] == Blank
        {
          b[i, j] := Blank;
        }
      }
      board := b;
    }

    /**
     * `sanatizeBoard`: null cells of the leading 9x9 block become ' ';
     * every other cell is left alone, and a null board is ignored.
     */
    static method SanatizeBoard(m: array2?<Cell>)
      requires m != null ==> m.Length0 >= 9 && m.Length1 >= 9
      modifies m
      ensures m != null ==> forall i, j :: 0 <= i < m.Length0 && 0 <= j < m.Length1 ==>
        m[i, j] == if i < 9 && j < 9 then Sanitized(old(m[i, j])) else old(m[i, j])
    {
      if m != null {
        for i := 0 to 9
          invariant forall i', j :: 0 <= i' < m.Length0 && 0 <= j < m.Length1 ==>
            m[i', j] == if i' < i && j < 9 then Sanitized(old(m[i', j])) else old(m[i', j])
        {
          for j := 0 to 9
            invariant forall i', j' :: 0 <= i' < m.Length0 && 0 <= j' < m.Length1 ==>
              m[i', j'] == if (i' < i && j' < 9) || (i' == i && j' < j) then Sanitized(old(m[i', j'])) else old(m[i', j'])
          {
            if m[i, j] == Null {
              m[i, j] := Blank;
            }
          }
        }
      }
    }

    /** `getCopy`: a new board of the same shape and contents; null for null. */
    static method GetCopy(m: array2?<Cell>) returns (copy: array2?<Cell>)
      requires m != null ==> m.Length0 > 0
      ensures copy == null <==> m == null
      ensures copy != null ==> fresh(copy) && copy.Length0 == m.Length0 && copy.Length1 == m.Length1
      ensures copy != null ==> forall i, j :: 0 <= i < copy.Length0 && 0 <= j < copy.Length1 ==> copy[i, j] == m[i, j]
    {
      if m == null {
        return null;
      }
      copy := new Cell[m.Length0, m.Length1]((i, j) => Null);
      for i := 0 to m.Length0
        invariant forall i', j :: 0 <= i' < i && 0 <= j < m.Length1 ==> copy[i', j] == m[i', j]
      {
        for j := 0 to m.Length1
          invariant forall i', j' :: 0 <= i' < i && 0 <= j' < m.Length1 ==> copy[i', j'] == m[i', j']
          invariant forall j' :: 0 <= j' < j ==> copy[i, j'] == m[i, j']
        {
          copy[i, j] := m[i, j];
        }
      }
    }

    /**
     * `validateSudoku(board)`: sanitise the board in place, then build an
     * engine on it; the exception the constructor throws becomes the error.
     */
    static method ValidateSudoku(m: array2<Cell>) returns (error: Option<EngineError>)
      requires m.Length0 >= 9 && m.Length1 >= 9
      modifies m
      ensures forall i, j :: 0 <= i < m.Length0 && 0 <= j < m.Length1 ==>
        m[i, j] == if i < 9 && j < 9 then Sanitized(old(m[i, j])) else old(m[i, j])
      ensures !(m.Length0 == 9 && m.Length1 == 9) ==> error == Some(BadShape(BadShapeMessage))
      ensures m.Length0 == 9 && m.Length1 == 9 ==>
        && Flatten(m) == SanitizedBoard(old(Flatten(m)))
        && (error.None? <==> NoDuplicates(Values(Flatten(m))))
        && (error.Some? ==> error.value == Invalid(Message(Conflicts(Values(Flatten(m))))))
    {
      ghost var before := if m.Length0 == 9 && m.Length1 == 9 then Flatten(m) else [];
      SanatizeBoard(m);
      if m.Length0 == 9 && m.Length1 == 9 {
        forall q | 0 <= q < 81 ensures Flatten(m)[q] == SanitizedBoard(before)[q] {
          assert Flatten(m)[q] == m[q / 9, q % 9];
        }
      }
      var r := SudokuEngine.Create(m);
      if r.Failure? {
        return Some(r.error);
      }
      return None;
    }

    /** A copy of the board with cell [i][j] overwritten. */
    static method CopyWith(polled: array2<Cell>, i: int, j: int, x: Cell) returns (sub: array2<Cell>)
      requires polled.Length0 == 9 && polled.Length1 == 9 && 0 <= i < 9 && 0 <= j < 9
      ensures fresh(sub) && sub.Length0 == 9 && sub.Length1 == 9
      ensures Flatten(sub) == Flatten(polled)[9 * i + j := x]
    {
      var copy := GetCopy(polled);
      sub := copy;
      sub[i, j] := x;
      forall q | 0 <= q < 81 ensures Flatten(sub)[q] == Flatten(polled)[9 * i + j := x][q] {
        assert Flatten(sub)[q] == sub[q / 9, q % 9];
      }
    }

    /**
     * One turn of the digit loop: copy the root, write digit d into cell
     * [i][j], and validate the copy.
     */
    static method TryInsert(polled: array2<Cell>, i: int, j: int, d: int, ghost ok: seq<seq<bool>>)
      returns (sub: array2<Cell>, accepted: bool)
      requires polled.Length0 == 9 && polled.Length1 == 9 && 0 <= i < 9 && 0 <= j < 9 && 1 <= d <= 9
      requires forall c :: 0 <= c < 81 ==> Flatten(polled)[c] != Null
      requires Tabulates(ok, Flatten(polled)) && Flatten(polled)[9 * i + j] == Blank
      ensures fresh(sub) && sub.Length0 == 9 && sub.Length1 == 9
      ensures Flatten(sub) == Flatten(polled)[9 * i + j := Ch(DigitChar(d))]
      ensures accepted == ok[9 * i + j][d - 1]
    {
      ghost var placed := Flatten(polled)[9 * i + j := Ch(DigitChar(d))];
      sub := CopyWith(polled, i, j, Ch(DigitChar(d)));
      var error := ValidateSudoku(sub);
      SanitizeNoNull(placed);
      TabulatedAt(ok, Flatten(polled), 9 * i + j, d);
      accepted := error.None?;
    }

    /**
     * The digit loop for one blank cell [i][j] of the polled root: for each
     * of '1'..'9', queue the sub-board with that digit if the engine accepts
     * it. Returns the boards this cell adds to the queue.
     */
    static method ExpandCell(polled: array2<Cell>, i: int, j: int, ghost ok: seq<seq<bool>>)
      returns (added: seq<array2<Cell>>, ghost picks: seq<Pick>)
      requires polled.Length0 == 9 && polled.Length1 == 9 && 0 <= i < 9 && 0 <= j < 9
      requires forall c :: 0 <= c < 81 ==> Flatten(polled)[c] != Null
      requires Tabulates(ok, Flatten(polled)) && Flatten(polled)[9 * i + j] == Blank
      ensures picks == CellPicks(ok, 9 * i + j, 9)
      ensures TasksMatch(added, picks, Flatten(polled))
      ensures forall k :: 0 <= k < |added| ==> fresh(added[k])
    {
      ghost var r := Flatten(polled);
      ghost var q := 9 * i + j;
      added, picks := [], [];
      for d := 1 to 10
        invariant picks == CellPicks(ok, q, d - 1)
        invariant TasksMatch(added, picks, r)
        invariant forall k :: 0 <= k < |added| ==> fresh(added[k])
      {
        ghost var before := added;
        added, picks := ExpandDigit(polled, i, j, d, added, picks, ok);
        assert forall k :: 0 <= k < |before| ==> added[k] == before[k];
      }
    }

    /** One turn of the digit loop: queue the board with digit d in cell [i][j] if it is accepted. */
    static method ExpandDigit(polled: array2<Cell>, i: int, j: int, d: int, added: seq<array2<Cell>>,
                              ghost picks: seq<Pick>, ghost ok: seq<seq<bool>>)
      returns (added': seq<array2<Cell>>, ghost picks': seq<Pick>)
      requires polled.Length0 == 9 && polled.Length1 == 9 && 0 <= i < 9 && 0 <= j < 9 && 1 <= d <= 9
      requires forall c :: 0 <= c < 81 ==> Flatten(polled)[c] != Null
      requires Tabulates(ok, Flatten(polled)) && Flatten(polled)[9 * i + j] == Blank
      requires TasksMatch(added, picks, Flatten(polled)) && picks == CellPicks(ok, 9 * i + j, d - 1)
      ensures picks' == CellPicks(ok, 9 * i + j, d)
      ensures TasksMatch(added', picks', Flatten(polled))
      ensures |added| <= |added'| && forall k :: 0 <= k < |added| ==> added'[k] == added[k]
      ensures forall k :: |added| <= k < |added'| ==> fresh(added'[k])
    {
      ghost var q := 9 * i + j;
      var sub, accepted := TryInsert(polled, i, j, d, ok);
      if accepted {
        TasksMatchSnoc(added, picks, Flatten(polled), sub, Pick(q, d));
        added', picks' := added + [sub], picks + [Pick(q, d)];
      } else {
        assert picks + [] == picks;
        added', picks' := added, picks;
      }
    }

    /**
     * The root expansion of `solveSudokuUsingThreads`: copy the (sanitised)
     * board, poll it back out of the queue, and expand its blank cells in
     * row-major order while fewer than 100 tasks are queued.
     */
    method ExpandRoot() returns (tasks: seq<array2<Cell>>)
      requires board != null && board.Length0 == 9 && board.Length1 == 9
      requires forall c :: 0 <= c < 81 ==> Flatten(board)[c] != Null
      ensures TasksMatch(tasks, Picks(Flatten(board)), Flatten(board))
      ensures forall k :: 0 <= k < |tasks| ==> fresh(tasks[k])
    {
      ghost var r := Flatten(board);
      ghost var ok := Acceptance(r);
      var copy := GetCopy(board);
      var polled: array2<Cell> := copy;
      assert Flatten(polled) == r by {
        forall q | 0 <= q < 81 ensures Flatten(polled)[q] == r[q] {
          assert Flatten(polled)[q] == polled[q / 9, q % 9];
        }
      }
      tasks := [];
      ghost var picks: seq<Pick> := [];
      var i := 0;
      while i < 9 && |tasks| < TaskCap
        invariant 0 <= i <= 9 && Flatten(polled) == r
        invariant TasksMatch(tasks, picks, r) && PicksFrom(ok, 9 * i, picks) == Picks(r)
        invariant forall k :: 0 <= k < |tasks| ==> fresh(tasks[k])
      {
        tasks, picks := ExpandRow(polled, i, tasks, picks, ok);
        i := i + 1;
      }
      PicksFromCapped(ok, 9 * i, picks);
    }

    /** The column loop of the root expansion for row i. */
    static method ExpandRow(polled: array2<Cell>, i: int, tasks: seq<array2<Cell>>,
                            ghost picks: seq<Pick>, ghost ok: seq<seq<bool>>)
      returns (tasks': seq<array2<Cell>>, ghost picks': seq<Pick>)
      requires polled.Length0 == 9 && polled.Length1 == 9 && 0 <= i < 9
      requires forall c :: 0 <= c < 81 ==> Flatten(polled)[c] != Null
      requires Tabulates(ok, Flatten(polled)) && TasksMatch(tasks, picks, Flatten(polled))
      ensures TasksMatch(tasks', picks', Flatten(polled))
      ensures PicksFrom(ok, 9 * (i + 1), picks') == PicksFrom(ok, 9 * i, picks)
      ensures |tasks| <= |tasks'| && forall k :: 0 <= k < |tasks| ==> tasks'[k] == tasks[k]
      ensures forall k :: |tasks| <= k < |tasks'| ==> fresh(tasks'[k])
    {
      ghost var r := Flatten(polled);
      tasks', picks' := tasks, picks;
      var j := 0;
      while j < 9 && |tasks'| < TaskCap
        invariant 0 <= j <= 9
        invariant TasksMatch(tasks', picks', r) && PicksFrom(ok, 9 * i + j, picks') == PicksFrom(ok, 9 * i, picks)
        invariant |tasks| <= |tasks'| && forall k :: 0 <= k < |tasks| ==> tasks'[k] == tasks[k]
        invariant forall k :: |tasks| <= k < |tasks'| ==> fresh(tasks'[k])
      {
        ghost var before := tasks';
        tasks', picks' := ExpandAt(polled, i, j, tasks', picks', ok);
        assert forall k :: 0 <= k < |tasks| ==> tasks'[k] == before[k] == tasks[k];
        j := j + 1;
      }
      if j < 9 {
        PicksFromCapped(ok, 9 * i + j, picks');
        PicksFromCapped(ok, 9 * (i + 1), picks');
      }
    }

    /** One turn of the column loop: expand cell [i][j] if it is blank. */
    static method ExpandAt(polled: array2<Cell>, i: int, j: int, tasks: seq<array2<Cell>>,
                           ghost picks: seq<Pick>, ghost ok: seq<seq<bool>>)
      returns (tasks': seq<array2<Cell>>, ghost picks': seq<Pick>)
      requires polled.Length0 == 9 && polled.Length1 == 9 && 0 <= i < 9 && 0 <= j < 9
      requires forall c :: 0 <= c < 81 ==> Flatten(polled)[c] != Null
      requires Tabulates(ok, Flatten(polled)) && TasksMatch(tasks, picks, Flatten(polled))
      requires |tasks| < TaskCap
      ensures TasksMatch(tasks', picks', Flatten(polled))
      ensures PicksFrom(ok, 9 * i + j + 1, picks') == PicksFrom(ok, 9 * i + j, picks)
      ensures |tasks| <= |tasks'| && forall k :: 0 <= k < |tasks| ==> tasks'[k] == tasks[k]
      ensures forall k :: |tasks| <= k < |tasks'| ==> fresh(tasks'[k])
    {
      ghost var r := Flatten(polled);
      ghost var q := 9 * i + j;
      FlattenAt(polled, i, j);
      if polled[i, j] == Blank {
        var added;
        ghost var more;
        added, more := ExpandCell(polled, i, j, ok);
        TasksMatchConcat(tasks, picks, added, more, r);
        tasks', picks' := tasks + added, picks + more;
      } else {
        NonBlankRejects(ok, r, q);
        CellPicksNone(ok, q, 9);
        assert picks + CellPicks(ok, q, 9) == picks;
        tasks', picks' := tasks, picks;
      }
      PicksFromStep(ok, q, picks, picks');
    }
  }
}
