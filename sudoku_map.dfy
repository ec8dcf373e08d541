/**
 * The text reader of the test driver: `readMap` turns a free-form string into
 * a 9x9 map of 0..9 by taking its significant characters ('1'..'9' and '.')
 * in order, row by row. The map is kept row-major in one array of 81 ints,
 * cell [i][j] at element 9 * i + j, as in the engine.
 */
module SudokuMap {
  import opened Wrappers
  import opened Rules

  /**
   * `StringCharacterIterator.DONE`, the character the iterator returns past
   * the end of the text. The reader compares characters against it, so a
   * U+FFFF inside the text ends the input there.
   */
  const Done: char := '\U{FFFF}'

  /** The message of the `InvalidParameterException` for a short input. */
  const InvalidInputMessage: string :=
    "Invalid Input. Input must be a String consisting 100 numerical characters or periods describing sudoku map "
    + "left to right, top to bottom. Other characters in the string are ignored."

  predicate IsSignificant(ch: char)
  {
    ('1' <= ch <= '9') || ch == '.'
  }

  /** The cell value of a significant character: a digit's value, 0 for '.'. */
  function DigitOf(ch: char): (v: int)
    ensures 0 <= v <= 9
    ensures '1' <= ch <= '9' ==> v == ch as int - '0' as int
    ensures ch == '.' ==> v == 0
  {
    if '1' <= ch <= '9' then ch as int - '0' as int else 0
  }

  /** The iterator's current character at position k: the text's character, or DONE past its end. */
  function Current(s: string, k: int): char
    requires 0 <= k <= |s|
  {
    if k < |s| then s[k] else Done
  }

  /** The position of the first DONE the iterator reports from position k on. */
  function DoneFrom(s: string, k: int): (e: int)
    requires 0 <= k <= |s|
    ensures k <= e <= |s| && (e < |s| ==> s[e] == Done)
    ensures forall p :: k <= p < e ==> s[p] != Done
    decreases |s| - k
  {
    if k == |s| || s[k] == Done then k else DoneFrom(s, k + 1)
  }

  /** Where the text ends for the reader: its first DONE, or its length. */
  function End(s: string): int
  {
    DoneFrom(s, 0)
  }

  /** The significant characters among the first n characters of s, in order. */
  function FilterUpTo(s: string, n: int): (f: string)
    requires 0 <= n <= |s|
    ensures |f| <= n
    ensures forall k :: 0 <= k < |f| ==> IsSignificant(f[k])
  {
    if n == 0 then []
    else FilterUpTo(s, n - 1) + (if IsSignificant(s[n - 1]) then [s[n - 1]] else [])
  }

  /** The significant characters `readMap` sees, in order: those before the first DONE. */
  function Significant(s: string): (t: string)
    ensures |t| <= End(s)
    ensures forall k :: 0 <= k < |t| ==> IsSignificant(t[k])
  {
    FilterUpTo(s, End(s))
  }

  /** The map a sequence of significant characters spells, one cell per character. */
  function Decode(t: string): (g: seq<int>)
    ensures |g| == |t| && forall p :: 0 <= p < |t| ==> g[p] == DigitOf(t[p])
    ensures forall p :: 0 <= p < |g| ==> 0 <= g[p] <= 9
  {
    seq(|t|, p requires 0 <= p < |t| => DigitOf(t[p]))
  }

  // ---------------------------------------------------------------------------
  // Facts about the scan.

  /** What the reader has seen at an earlier position is a prefix of what it sees later. */
  lemma {:induction false} FilterPrefix(s: string, k: int, n: int)
    requires 0 <= k <= n <= |s|
    ensures |FilterUpTo(s, k)| <= |FilterUpTo(s, n)| && FilterUpTo(s, n)[..|FilterUpTo(s, k)|] == FilterUpTo(s, k)
    decreases n - k
  {
    if k < n {
      FilterPrefix(s, k, n - 1);
    }
  }

  /** Appending text does not change what is seen among the first n characters. */
  lemma {:induction false} FilterExtension(s: string, t: string, n: int)
    requires 0 <= n <= |s|
    ensures FilterUpTo(s + t, n) == FilterUpTo(s, n)
  {
    if n > 0 {
      FilterExtension(s, t, n - 1);
    }
  }

  /** Skipping a stretch free of DONE does not move the first DONE. */
  lemma {:induction false} DoneFromSkip(s: string, k: int, m: int)
    requires 0 <= k <= m <= |s| && forall p :: k <= p < m ==> s[p] != Done
    ensures DoneFrom(s, k) == DoneFrom(s, m)
    decreases m - k
  {
    if k < m {
      DoneFromSkip(s, k + 1, m);
    }
  }

  lemma {:induction false} DoneShift(a: string, c: char, b: string, m: int)
    requires c != Done && 0 <= m <= |b|
    ensures DoneFrom(a + [c] + b, |a| + 1 + m) == 1 + DoneFrom(a + b, |a| + m)
    decreases |b| - m
  {
    if m < |b| {
      DoneShift(a, c, b, m + 1);
    }
  }

  lemma {:induction false} FilterShift(a: string, c: char, b: string, m: int)
    requires !IsSignificant(c) && 0 <= m <= |b|
    ensures FilterUpTo(a + [c] + b, |a| + 1 + m) == FilterUpTo(a + b, |a| + m)
  {
    if m == 0 {
      assert a + [c] + b == a + ([c] + b);
      FilterExtension(a, [c] + b, |a|);
      FilterExtension(a, b, |a|);
    } else {
      FilterShift(a, c, b, m - 1);
    }
  }

  /**
   * Characters that are neither significant nor DONE are skipped: dropping
   * one changes nothing the reader sees.
   */
  lemma SkipsInsignificant(a: string, c: char, b: string)
    requires !IsSignificant(c) && c != Done
    ensures Significant(a + [c] + b) == Significant(a + b)
  {
    var s, s' := a + [c] + b, a + b;
    var e := End(a);
    if e < |a| {
      DoneFromSkip(s, 0, e);
      DoneFromSkip(s', 0, e);
      assert s[e] == Done && s'[e] == Done;
      assert a + [c] + b == a + ([c] + b);
      FilterExtension(a, [c] + b, e);
      FilterExtension(a, b, e);
    } else {
      DoneFromSkip(s, 0, |a| + 1);
      DoneFromSkip(s', 0, |a|);
      DoneShift(a, c, b, 0);
      FilterShift(a, c, b, End(s') - |a|);
    }
  }

  /** Once 81 significant characters have been seen, whatever follows is ignored. */
  lemma ExtraIgnored(s: string, t: string)
    requires |Significant(s)| >= 81
    ensures |Significant(s + t)| >= 81 && Significant(s + t)[..81] == Significant(s)[..81]
  {
    var e := End(s);
    DoneFromSkip(s + t, 0, e);
    FilterExtension(s, t, e);
    if e < |s| {
      assert (s + t)[e] == Done;
    } else {
      FilterPrefix(s + t, e, End(s + t));
    }
  }

  /** The `while` loop of `readMap`: advance the cursor past characters that are neither significant nor DONE. */
  method SkipInsignificant(input: string, k: int) returns (k': int)
    requires 0 <= k <= End(input)
    ensures k <= k' <= End(input)
    ensures FilterUpTo(input, k') == FilterUpTo(input, k)
    ensures IsSignificant(Current(input, k')) || Current(input, k') == Done
  {
    k' := k;
    var next := Current(input, k');
    while !IsSignificant(next) && next != Done
      invariant k <= k' <= End(input) && next == Current(input, k')
      invariant FilterUpTo(input, k') == FilterUpTo(input, k)
      decreases |input| - k'
    {
      k' := k' + 1;
      next := Current(input, k');
    }
  }

  /**
   * `readMap`: for each cell in row-major order, skip to the next
   * significant character, fail when the text runs out first, and store the
   * character's value.
   */
  method ReadMap(input: string) returns (r: Result<array<int>, string>)
    ensures r.Failure? <==> |Significant(input)| < 81
    ensures r.Failure? ==> r.error == InvalidInputMessage
    ensures r.Success? ==> fresh(r.value) && r.value.Length == 81
                           && r.value[..] == Decode(Significant(input)[..81]) && IsGrid(r.value[..])
  {
    var grid := new int[81];
    var k := 0;
    ghost var seen: string := [];
    for i := 0 to 9
      invariant 0 <= k <= End(input)
      invariant seen == FilterUpTo(input, k) && |seen| == 9 * i
      invariant forall p :: 0 <= p < 9 * i ==> grid[p] == DigitOf(seen[p])
    {
      for j := 0 to 9
        invariant 0 <= k <= End(input)
        invariant seen == FilterUpTo(input, k) && |seen| == 9 * i + j
        invariant forall p :: 0 <= p < 9 * i + j ==> grid[p] == DigitOf(seen[p])
      {
        k := SkipInsignificant(input, k);
        var next := Current(input, k);
        if next == Done {
          return Failure(InvalidInputMessage);
        }
        if '1' <= next <= '9' {
          grid[9 * i + j] := next as int - '0' as int;
        } else {
          // next == '.'
          grid[9 * i + j] := 0;
        }
        assert grid[9 * i + j] == DigitOf(next);
        seen := seen + [next];
        k := k + 1;
      }
    }
    FilterPrefix(input, k, End(input));
    assert Significant(input)[..81] == seen;
    assert grid[..] == Decode(seen);
    return Success(grid);
  }

  // ---------------------------------------------------------------------------
  // The text layout of the driver's sample inputs: one line of nine marks per
  // row, a digit for a filled cell and '.' for an empty one.

  function Mark(v: int): (ch: char)
    ensures IsSignificant(ch)
  {
    if 1 <= v <= 9 then ('0' as int + v) as char else '.'
  }

  /** The first n cells of g laid out as text, a newline after every ninth. */
  function LayoutUpTo(g: seq<int>, n: int): string
    requires 0 <= n <= |g|
  {
    if n == 0 then []
    else LayoutUpTo(g, n - 1) + [Mark(g[n - 1])] + (if n % 9 == 0 then "\n" else "")
  }

  function Layout(g: seq<int>): string
    requires |g| == 81
  {
    LayoutUpTo(g, 81)
  }

  /** Appending one mark and possibly a newline adds exactly that mark to what is seen. */
  lemma FilterMarkLine(prev: string, m: char, newline: bool)
    requires IsSignificant(m)
    ensures var whole := prev + [m] + (if newline then "\n" else "");
      FilterUpTo(whole, |whole|) == FilterUpTo(prev, |prev|) + [m]
  {
    var whole := prev + [m] + (if newline then "\n" else "");
    FilterExtension(prev, [m] + (if newline then "\n" else ""), |prev|);
    assert whole == prev + ([m] + (if newline then "\n" else ""));
    assert whole[|prev|] == m;
    if newline {
      assert whole[|prev| + 1] == '\n';
    }
  }

  lemma {:induction false} LayoutMarks(g: seq<int>, n: int)
    requires 0 <= n <= |g|
    ensures forall p :: 0 <= p < |LayoutUpTo(g, n)| ==> LayoutUpTo(g, n)[p] != Done
    ensures |FilterUpTo(LayoutUpTo(g, n), |LayoutUpTo(g, n)|)| == n
    ensures forall p :: 0 <= p < n ==> FilterUpTo(LayoutUpTo(g, n), |LayoutUpTo(g, n)|)[p] == Mark(g[p])
  {
    if n > 0 {
      LayoutMarks(g, n - 1);
      FilterMarkLine(LayoutUpTo(g, n - 1), Mark(g[n - 1]), n % 9 == 0);
    }
  }

  /** Reading a map laid out as text gives the map back. */
  lemma ReadLayout(g: seq<int>)
    requires IsGrid(g)
    ensures |Significant(Layout(g))| == 81 && Decode(Significant(Layout(g))[..81]) == g
  {
    LayoutMarks(g, 81);
    var t := Significant(Layout(g));
    assert t[..81] == t;
    forall p | 0 <= p < 81 ensures Decode(t)[p] == g[p] {
      assert t[p] == Mark(g[p]);
    }
  }
}
