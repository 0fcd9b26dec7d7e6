/**
 * Positions identify cells of a board (Position.py). Rows are letters counted
 * from the bottom: `a` is row 1, `b` row 2, ..., and the overflow row `X` is
 * row number `rows`. Columns count from 1 at the left.
 */
module Positions {
  import opened Wrappers
  import opened Dimensions

  datatype Pos = Pos(row: char, col: int)

  /** A row is named by a lower-case letter or by `X`. */
  predicate IsRowLetter(r: char) {
    ('a' <= r <= 'z') || r == 'X'
  }

  /** A proper position has a lower-case or `X` row and a positive column. */
  predicate IsProperPosition(p: Pos) {
    IsRowLetter(p.row) && p.col > 0
  }

  function GetRow(p: Pos): (r: char)
    ensures r == p.row
  {
    p.row
  }

  function GetColumn(p: Pos): (c: int)
    ensures c == p.col
  {
    p.col
  }

  /** The dimensions on which every row number has a name. */
  predicate IsNamedDimension(d: Dimension) {
    IsProperDimension(d) && d.rows <= MaxRows
  }

  /** The rows of a board of dimension `d`: `X` and the letters of rows 1 .. rows-1. */
  predicate IsRowOf(d: Dimension, r: char) {
    r == 'X' || ('a' <= r <= 'z' && r as int - 'a' as int + 1 <= d.rows - 1)
  }

  /** The number of a row: `X` is the top row, letters count from `a` = 1. */
  function NbOfRow(d: Dimension, r: char): (n: int)
    ensures r == 'X' ==> n == d.rows
    ensures 'a' <= r <= 'z' ==> n == r as int - 'a' as int + 1
    ensures IsNamedDimension(d) && IsRowOf(d, r) ==> 1 <= n <= d.rows
    ensures IsNamedDimension(d) && IsRowOf(d, r) && r != 'X' ==> n < d.rows
  {
    if r == 'X' then d.rows else r as int - 'a' as int + 1
  }

  /** The row with number `n`; the inverse of NbOfRow. */
  function IdOfRow(d: Dimension, n: int): (r: char)
    requires IsNamedDimension(d) && 1 <= n <= d.rows
    ensures IsRowOf(d, r)
    ensures NbOfRow(d, r) == n
  {
    if n == d.rows then 'X' else ('a' as int + n - 1) as char
  }

  /** Numbering a row and naming the number gives the row back. */
  lemma RowNumberRoundTrip(d: Dimension, r: char)
    requires IsNamedDimension(d) && IsRowOf(d, r)
    ensures 1 <= NbOfRow(d, r) <= d.rows
    ensures IdOfRow(d, NbOfRow(d, r)) == r
  {
  }

  /** Rows are told apart by their numbers. */
  lemma RowNumberInjective(d: Dimension, r1: char, r2: char)
    requires IsNamedDimension(d) && IsRowOf(d, r1) && IsRowOf(d, r2)
    requires NbOfRow(d, r1) == NbOfRow(d, r2)
    ensures r1 == r2
  {
    RowNumberRoundTrip(d, r1);
    RowNumberRoundTrip(d, r2);
  }

  /**
   * The source's boundary test: the row is `X` or its index is at most rows-1,
   * and the column is at most the number of columns (a proper position already
   * has a positive column).
   */
  predicate IsWithinBoundaries(d: Dimension, p: Pos) {
    !(p.row != 'X' && p.row as int - 'a' as int + 1 > d.rows - 1) && !(p.col > d.cols)
  }

  /** For proper positions the boundary test accepts exactly the cells of the board. */
  lemma WithinBoundariesExactly(d: Dimension, p: Pos)
    requires IsProperPosition(p)
    ensures IsWithinBoundaries(d, p) <==> IsRowOf(d, p.row) && 1 <= p.col <= d.cols
  {
  }

  function Left(d: Dimension, p: Pos, steps: int): (r: Option<Pos>)
    ensures r.None? <==> p.col - steps < 1
    ensures r.Some? ==> r.value == Pos(p.row, p.col - steps)
  {
    if p.col - steps < 1 then None else Some(Pos(p.row, p.col - steps))
  }

  function Right(d: Dimension, p: Pos, steps: int): (r: Option<Pos>)
    ensures r.None? <==> p.col + steps > d.cols
    ensures r.Some? ==> r.value == Pos(p.row, p.col + steps)
  {
    if p.col + steps > d.cols then None else Some(Pos(p.row, p.col + steps))
  }

  /** Stepping right twice is stepping right once over the sum, whenever the first step stays on the board. */
  lemma RightCompose(d: Dimension, p: Pos, a: int, b: int)
    requires a >= 1 && b >= 1 && Right(d, p, a).Some?
    ensures Right(d, Right(d, p, a).value, b) == Right(d, p, a + b)
  {
  }

  /** Stepping left twice is stepping left once over the sum, whenever the first step stays on the board. */
  lemma LeftCompose(d: Dimension, p: Pos, a: int, b: int)
    requires a >= 1 && b >= 1 && Left(d, p, a).Some?
    ensures Left(d, Left(d, p, a).value, b) == Left(d, p, a + b)
  {
  }

  /**
   * Up: none above the top; the overflow row when the step lands exactly on
   * row number `rows`; otherwise the letter shifted by `steps`.
   */
  function Up(d: Dimension, p: Pos, steps: int): (r: Option<Pos>)
    requires IsNamedDimension(d) && IsProperPosition(p) && IsWithinBoundaries(d, p) && steps >= 1
    ensures r.None? <==> NbOfRow(d, p.row) + steps > d.rows
    ensures r.Some? ==> IsProperPosition(r.value) && IsWithinBoundaries(d, r.value)
    ensures r.Some? ==> r.value.col == p.col && NbOfRow(d, r.value.row) == NbOfRow(d, p.row) + steps
    ensures r.Some? && NbOfRow(d, p.row) + steps == d.rows ==> r.value.row == 'X'
  {
    if NbOfRow(d, GetRow(p)) + steps > d.rows then None
    else if NbOfRow(d, GetRow(p)) + steps == d.rows then Some(Pos('X', p.col))
    else Some(Pos((p.row as int + steps) as char, p.col))
  }

  /**
   * Down ignores its step count: it always moves exactly one row down, from
   * `X` to the row numbered rows-1, and gives none below row `a`.
   */
  function Down(d: Dimension, p: Pos, steps: int): (r: Option<Pos>)
    requires IsNamedDimension(d) && IsProperPosition(p) && IsWithinBoundaries(d, p)
    ensures r.None? <==> p.row == 'a'
    ensures r.Some? ==> IsProperPosition(r.value) && IsWithinBoundaries(d, r.value)
    ensures r.Some? ==> r.value.col == p.col && NbOfRow(d, r.value.row) == NbOfRow(d, p.row) - 1
    ensures p.row == 'X' ==> r.Some? && NbOfRow(d, r.value.row) == d.rows - 1
  {
    if p.row == 'X' then Some(Pos(('a' as int + d.rows - 2) as char, p.col))
    else if p.row != 'a' then Some(Pos((p.row as int - 1) as char, p.col))
    else None
  }

  /** The step count given to Down makes no difference. */
  lemma DownIgnoresSteps(d: Dimension, p: Pos, n: int, m: int)
    requires IsNamedDimension(d) && IsProperPosition(p) && IsWithinBoundaries(d, p)
    ensures Down(d, p, n) == Down(d, p, m)
  {
  }

  /** One step up and one step down is the identity wherever the step up exists. */
  lemma DownAfterUp(d: Dimension, p: Pos)
    requires IsNamedDimension(d) && IsProperPosition(p) && IsWithinBoundaries(d, p)
    requires Up(d, p, 1).Some?
    ensures Down(d, Up(d, p, 1).value, 1) == Some(p)
  {
    var q := Up(d, p, 1).value;
    RowNumberInjective(d, Down(d, q, 1).value.row, p.row);
  }

  /** Stepping up twice is stepping up once over the sum, whenever the first step stays on the board. */
  lemma UpCompose(d: Dimension, p: Pos, a: int, b: int)
    requires IsNamedDimension(d) && IsProperPosition(p) && IsWithinBoundaries(d, p)
    requires a >= 1 && b >= 1 && Up(d, p, a).Some?
    ensures Up(d, Up(d, p, a).value, b) == Up(d, p, a + b)
  {
    var q := Up(d, p, a).value;
    if Up(d, q, b).Some? {
      RowNumberInjective(d, Up(d, q, b).value.row, Up(d, p, a + b).value.row);
    }
  }
}
