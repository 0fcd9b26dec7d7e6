/** Dimensions of a board: a number of rows and a number of columns (Dimension.py). */
module Dimensions {

  /** A pair (rows, columns). The tuple-shape and `int` checks of the source are carried by this type. */
  datatype Dimension = Dimension(rows: int, cols: int)

  /**
   * Rows are named by the letters `a`..`z` followed by the overflow row `X`,
   * so a board whose positions are all proper positions has at most 27 rows.
   */
  const MaxRows: int := 27

  /** A proper dimension has at least two rows and at least two columns. */
  predicate IsProperDimension(d: Dimension) {
    d.rows > 1 && d.cols > 1
  }

  function NbOfRows(d: Dimension): (n: int)
    ensures n == d.rows
  {
    d.rows
  }

  function NbOfColumns(d: Dimension): (n: int)
    ensures n == d.cols
  {
    d.cols
  }

  /** Any pair of numbers that are both at least 2 is accepted; any pair with a component of at most 1 is refused. */
  lemma ProperDimensionExactly(rows: int, cols: int)
    ensures IsProperDimension(Dimension(rows, cols)) <==> rows >= 2 && cols >= 2
    ensures rows <= 1 ==> !IsProperDimension(Dimension(rows, cols))
    ensures cols <= 1 ==> !IsProperDimension(Dimension(rows, cols))
  {
  }
}
