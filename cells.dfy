/**
 * Cells of the web board: Java `Character` references, which may be null,
 * and the conversions between them and the engine's integer cells.
 */
module Cells {

  /** A `Character` reference of the board: null, or a character. */
  datatype Cell = Null | Ch(c: char)

  /** The blank cell the web board uses for "not yet filled". */
  const Blank: Cell := Ch(' ')

  predicate IsDigitChar(c: char) {
    '1' <= c <= '9'
  }

  /** A cell that holds one of the characters '1'..'9'. */
  predicate IsDigitCell(x: Cell) {
    x.Ch? && IsDigitChar(x.c)
  }

  /** The character of digit d. */
  function DigitChar(d: int): char
    requires 1 <= d <= 9
  {
    ('0' as int + d) as char
  }

  /**
   * The integer the engine stores for a board cell: the digit of '1'..'9',
   * and 0 (empty) for null and for every other character.
   */
  function CellValue(x: Cell): (v: int)
    ensures 0 <= v <= 9
  {
    if IsDigitCell(x) then x.c as int - '0' as int else 0
  }

  /** The character cell the engine hands back for an integer cell: '1'..'9' for 1..9, ' ' otherwise. */
  function CharOf(v: int): (x: Cell)
    ensures x == Blank || IsDigitCell(x)
  {
    if 1 <= v <= 9 then Ch(DigitChar(v)) else Blank
  }

  /** The integer grid of a board, cell by cell. */
  function Values(b: seq<Cell>): (g: seq<int>)
    ensures |g| == |b|
    ensures forall q :: 0 <= q < |b| ==> g[q] == CellValue(b[q])
    ensures forall q :: 0 <= q < |g| ==> 0 <= g[q] <= 9
  {
    seq(|b|, q requires 0 <= q < |b| => CellValue(b[q]))
  }

  /** A board that only holds ' ' and '1'..'9'. */
  predicate IsCharBoard(b: seq<Cell>) {
    forall q :: 0 <= q < |b| ==> b[q] == Blank || IsDigitCell(b[q])
  }

  /** The character board of an integer grid, cell by cell. */
  function Chars(g: seq<int>): (b: seq<Cell>)
    ensures |b| == |g|
    ensures forall q :: 0 <= q < |g| ==> b[q] == CharOf(g[q])
    ensures IsCharBoard(b)
  {
    seq(|g|, q requires 0 <= q < |g| => CharOf(g[q]))
  }

  /** The row-major contents of a 9x9 board. */
  ghost function Flatten(a: array2<Cell>): (b: seq<Cell>)
    requires a.Length0 == 9 && a.Length1 == 9
    reads a
    ensures |b| == 81
    ensures forall q :: 0 <= q < 81 ==> b[q] == a[q / 9, q % 9]
  {
    seq(81, q requires 0 <= q < 81 reads a => a[q / 9, q % 9])
  }

  /** Cell [i][j] of a board is element 9 * i + j of its contents. */
  lemma FlattenAt(a: array2<Cell>, i: int, j: int)
    requires a.Length0 == 9 && a.Length1 == 9 && 0 <= i < 9 && 0 <= j < 9
    ensures Flatten(a)[9 * i + j] == a[i, j]
  {
    assert (9 * i + j) / 9 == i && (9 * i + j) % 9 == j;
  }

  /** Converting a ' '/'1'..'9' cell to an integer and back gives the cell. */
  lemma CellRoundTrip(x: Cell)
    requires x == Blank || IsDigitCell(x)
    ensures CharOf(CellValue(x)) == x
  {
  }

  /** Converting an integer cell 0..9 to a character and back gives the integer. */
  lemma ValueRoundTrip(v: int)
    requires 0 <= v <= 9
    ensures CellValue(CharOf(v)) == v
  {
  }

  /** A board of ' ' and '1'..'9' survives the trip to integers and back unchanged. */
  lemma BoardRoundTrip(b: seq<Cell>)
    requires IsCharBoard(b)
    ensures Chars(Values(b)) == b
  {
    forall q | 0 <= q < |b| ensures Chars(Values(b))[q] == b[q] {
      CellRoundTrip(b[q]);
    }
  }
}
