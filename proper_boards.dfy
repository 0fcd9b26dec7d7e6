/**
 * The proper-board test (Board.py is_proper_board) on a raw dimension and
 * cell map: the check as the source writes it, and a corrected check that
 * accepts exactly the cell maps that some placement of blocks explains.
 */
module ProperBoards {
  import opened Wrappers
  import opened Dimensions
  import opened Positions
  import opened Blocks
  import opened BoardSpec

  /** The cell `p` begins a run: the cell to its left is off the board, free, or holds another block. */
  ghost predicate BeginsRun(d: Dimension, cells: Cells, p: Pos)
    requires p in cells
  {
    var l := Left(d, p, 1);
    l.None? || l.value !in cells || cells[l.value] != cells[p]
  }

  /** The cell that `k` steps to the right of `p` holds block `b`; off the board it holds nothing. */
  ghost predicate HoldsAt(d: Dimension, cells: Cells, p: Pos, k: int, b: Block) {
    p.col + k <= d.cols && Pos(p.row, p.col + k) in cells && cells[Pos(p.row, p.col + k)] == b
  }

  /**
   * The run beginning at `p` has the length of its block: the next length-1
   * cells hold the block, and the cell after the run does not.
   */
  ghost predicate RunHasLength(d: Dimension, cells: Cells, p: Pos)
    requires p in cells
  {
    var b := cells[p];
    && (forall k | 1 <= k < b.length :: HoldsAt(d, cells, p, k, b))
    && !HoldsAt(d, cells, p, if b.length > 1 then b.length else 1, b)
  }

  /** What the source checks of one cell. */
  ghost predicate CellAsWritten(d: Dimension, cells: Cells, p: Pos)
    requires p in cells
  {
    && IsWithinBoundaries(d, p)
    && IsProperBlockForDimension(cells[p], d)
    && (BeginsRun(d, cells, p) ==> RunHasLength(d, cells, p))
  }

  /** What the source accepts: a proper dimension and every cell passing the per-cell test. */
  ghost predicate ProperAsWritten(d: Dimension, cells: Cells) {
    IsProperDimension(d) && forall p | p in cells :: CellAsWritten(d, cells, p)
  }

  /**
   * is_proper_board: the cells are visited in no particular order; the
   * first one failing the per-cell test makes the answer false. For a cell
   * that begins a run the cursor walks right over the rest of the run.
   */
  method IsProperBoard(d: Dimension, cells: Cells) returns (r: bool)
    ensures r <==> ProperAsWritten(d, cells)
  {
    if !IsProperDimension(d) {
      return false;
    }
    var todo := cells.Keys;
    while todo != {}
      invariant todo <= cells.Keys
      invariant forall p | p in cells && p !in todo :: CellAsWritten(d, cells, p)
      decreases |todo|
    {
      var p :| p in todo;
      if !IsWithinBoundaries(d, p) {
        return false;
      }
      var b := cells[p];
      if !IsProperBlockForDimension(b, d) {
        return false;
      }
      var left := Left(d, p, 1);
      if left.None? || left.value !in cells || cells[left.value] != b {
        var next := Right(d, p, 1);
        var nb := 1;
        while nb < b.length
          invariant 1 <= nb <= if b.length > 1 then b.length else 1
          invariant next == Right(d, p, nb)
          invariant forall k | 1 <= k < nb :: HoldsAt(d, cells, p, k, b)
        {
          if next.None? || next.value !in cells || cells[next.value] != b {
            assert !HoldsAt(d, cells, p, nb, b);
            return false;
          }
          next := Right(d, next.value, 1);
          nb := nb + 1;
        }
        if next.Some? && next.value in cells && cells[next.value] == b {
          assert HoldsAt(d, cells, p, if b.length > 1 then b.length else 1, b);
          return false;
        }
        assert nb == if b.length > 1 then b.length else 1;
        assert RunHasLength(d, cells, p);
      }
      assert CellAsWritten(d, cells, p);
      todo := todo - {p};
    }
    return true;
  }

  // ---------------------------------------------------------------- the corrected test

  /** A cell the corrected test accepts: a proper position on the board holding a block of proper length. */
  ghost predicate CellProper(d: Dimension, cells: Cells, p: Pos)
    requires p in cells
  {
    IsProperPosition(p) && cells[p].length >= 1 && CellAsWritten(d, cells, p)
  }

  /** No block begins two runs. */
  ghost predicate OneRunEach(d: Dimension, cells: Cells) {
    forall p, q | p in cells && q in cells && BeginsRun(d, cells, p) && BeginsRun(d, cells, q) :: cells[p] == cells[q] ==> p == q
  }

  /** The corrected test: also proper positions, proper lengths and one run per block. */
  ghost predicate ProperCells(d: Dimension, cells: Cells) {
    && IsNamedDimension(d)
    && (forall p | p in cells :: CellProper(d, cells, p))
    && OneRunEach(d, cells)
  }

  /** On a well-formed board a cell begins a run exactly when it is the leftmost cell of its block. */
  lemma BeginsRunAtLeftmost(d: Dimension, cells: Cells, loc: Locs, p: Pos)
    requires WF(d, cells, loc) && p in cells
    ensures cells[p] in loc && (BeginsRun(d, cells, p) <==> p == loc[cells[p]])
  {
    var b := cells[p];
    assert Covers(loc, b, p);
    if p.col > loc[b].col {
      assert Covers(loc, b, Pos(p.row, p.col - 1));
    }
    if p == loc[b] {
      assert Placed(d, b, p);
    }
  }

  /** Every well-formed board passes the corrected test. */
  lemma WFIsProper(d: Dimension, cells: Cells, loc: Locs)
    requires WF(d, cells, loc)
    ensures ProperCells(d, cells)
  {
    forall p | p in cells ensures CellProper(d, cells, p) {
      var b := cells[p];
      assert Covers(loc, b, p) && Placed(d, b, loc[b]);
      WithinBoundariesExactly(d, p);
      BeginsRunAtLeftmost(d, cells, loc, p);
      if BeginsRun(d, cells, p) {
        forall k | 1 <= k < b.length ensures HoldsAt(d, cells, p, k, b) {
          CellOfBlock(d, cells, loc, b, k);
        }
        var q := Pos(p.row, p.col + b.length);
        if q in cells && cells[q] == b {
          assert Covers(loc, b, q);
        }
      }
    }
    forall p, q | p in cells && q in cells && BeginsRun(d, cells, p) && BeginsRun(d, cells, q) && cells[p] == cells[q]
      ensures p == q
    {
      BeginsRunAtLeftmost(d, cells, loc, p);
      BeginsRunAtLeftmost(d, cells, loc, q);
    }
  }

  /** Walking left from a cell over its block reaches a cell that begins a run. */
  lemma {:induction false} RunStartOf(d: Dimension, cells: Cells, p: Pos) returns (s: Pos)
    requires ProperCells(d, cells) && p in cells
    ensures s in cells && BeginsRun(d, cells, s) && cells[s] == cells[p]
    ensures s.row == p.row && s.col <= p.col
    ensures forall c | s.col <= c <= p.col :: Pos(p.row, c) in cells && cells[Pos(p.row, c)] == cells[p]
    decreases p.col
  {
    assert CellProper(d, cells, p);
    if BeginsRun(d, cells, p) {
      s := p;
    } else {
      var l := Left(d, p, 1).value;
      s := RunStartOf(d, cells, l);
      forall c | s.col <= c <= p.col ensures Pos(p.row, c) in cells && cells[Pos(p.row, c)] == cells[p] {
        if c == p.col {
          assert Pos(p.row, c) == p;
        }
      }
    }
  }

  /** A cell lies inside the run that its walk to the left reaches. */
  lemma InsideRun(d: Dimension, cells: Cells, p: Pos, s: Pos)
    requires ProperCells(d, cells) && p in cells
    requires s in cells && BeginsRun(d, cells, s) && cells[s] == cells[p] && s.row == p.row && s.col <= p.col
    requires forall c | s.col <= c <= p.col :: Pos(p.row, c) in cells && cells[Pos(p.row, c)] == cells[p]
    ensures p.col < s.col + cells[p].length
  {
    var b := cells[p];
    assert CellProper(d, cells, s) && CellProper(d, cells, p);
    if p.col >= s.col + b.length {
      assert Pos(p.row, s.col + b.length) in cells;
      assert HoldsAt(d, cells, s, b.length, b);
    }
  }

  /** Each block placed at the start of its run. */
  ghost function RunStarts(d: Dimension, cells: Cells): (loc: Locs)
    requires OneRunEach(d, cells)
    ensures forall x | x in loc :: loc[x] in cells && BeginsRun(d, cells, loc[x]) && cells[loc[x]] == x
  {
    map p | p in cells && BeginsRun(d, cells, p) :: cells[p] := p
  }

  /** Every cell passing the corrected test lies on the board inside the run of its block. */
  lemma RunStartsCover(d: Dimension, cells: Cells, p: Pos)
    requires ProperCells(d, cells) && p in cells
    ensures InBoard(d, p) && Covers(RunStarts(d, cells), cells[p], p)
  {
    assert CellProper(d, cells, p);
    WithinBoundariesExactly(d, p);
    var s := RunStartOf(d, cells, p);
    InsideRun(d, cells, p, s);
    assert cells[s] in RunStarts(d, cells);
  }

  /** Every run starts at a position where its block fits the board. */
  lemma RunStartsPlaced(d: Dimension, cells: Cells, x: Block)
    requires ProperCells(d, cells) && x in RunStarts(d, cells)
    ensures Placed(d, x, RunStarts(d, cells)[x])
  {
    var s := RunStarts(d, cells)[x];
    assert CellProper(d, cells, s);
    WithinBoundariesExactly(d, s);
    if x.length > 1 {
      assert HoldsAt(d, cells, s, x.length - 1, x);
    }
  }

  /** Every cell of a run holds its block. */
  lemma RunCellsHold(d: Dimension, cells: Cells, s: Pos, q: Pos)
    requires ProperCells(d, cells) && s in cells && BeginsRun(d, cells, s)
    requires q.row == s.row && s.col <= q.col < s.col + cells[s].length
    ensures q in cells && cells[q] == cells[s]
  {
    assert CellProper(d, cells, s);
    if q.col > s.col {
      assert HoldsAt(d, cells, s, q.col - s.col, cells[s]);
    } else {
      assert q == s;
    }
  }

  /** Every cell map passing the corrected test is explained by placing each block at the start of its run. */
  lemma ProperHasPlacement(d: Dimension, cells: Cells) returns (loc: Locs)
    requires ProperCells(d, cells)
    ensures WF(d, cells, loc)
  {
    loc := RunStarts(d, cells);
    forall p | p in cells ensures InBoard(d, p) && Covers(loc, cells[p], p) {
      RunStartsCover(d, cells, p);
    }
    forall x | x in loc ensures Placed(d, x, loc[x]) {
      RunStartsPlaced(d, cells, x);
    }
    forall x, q | x in loc && Covers(loc, x, q) ensures q in cells && cells[q] == x {
      RunCellsHold(d, cells, loc[x], q);
    }
  }

  /** The corrected test accepts exactly the cell maps of well-formed boards. */
  lemma ProperCellsExactly(d: Dimension, cells: Cells)
    ensures ProperCells(d, cells) <==> exists loc :: WF(d, cells, loc)
  {
    if ProperCells(d, cells) {
      var loc := ProperHasPlacement(d, cells);
    }
    if exists loc :: WF(d, cells, loc) {
      var loc :| WF(d, cells, loc);
      WFIsProper(d, cells, loc);
    }
  }

  // ---------------------------------------------------------------- what the source's test lets through

  /** A block of length 1 at column 0: the boundary test never looks at the lower end of a column. */
  lemma AsWrittenAcceptsColumnZero(b: Block)
    requires b.length == 1
    ensures ProperAsWritten(Dimension(3, 4), map[Pos('a', 0) := b])
    ensures !exists loc :: WF(Dimension(3, 4), map[Pos('a', 0) := b], loc)
  {
    var cells := map[Pos('a', 0) := b];
    assert !CellProper(Dimension(3, 4), cells, Pos('a', 0));
    ProperCellsExactly(Dimension(3, 4), cells);
  }

  /** One block filling two runs, in rows `a` and `b`: each run is checked on its own. */
  lemma AsWrittenAcceptsTwoRuns(b: Block)
    requires b.length == 1
    ensures ProperAsWritten(Dimension(3, 4), map[Pos('a', 1) := b, Pos('b', 1) := b])
    ensures !exists loc :: WF(Dimension(3, 4), map[Pos('a', 1) := b, Pos('b', 1) := b], loc)
  {
    var cells := map[Pos('a', 1) := b, Pos('b', 1) := b];
    assert BeginsRun(Dimension(3, 4), cells, Pos('a', 1)) && BeginsRun(Dimension(3, 4), cells, Pos('b', 1));
    ProperCellsExactly(Dimension(3, 4), cells);
  }

  /** A block of length 0 stored in a cell: the length test only bounds the length from above. */
  lemma AsWrittenAcceptsEmptyBlock(b: Block)
    requires b.length == 0
    ensures ProperAsWritten(Dimension(3, 4), map[Pos('a', 1) := b])
    ensures !exists loc :: WF(Dimension(3, 4), map[Pos('a', 1) := b], loc)
  {
    var cells := map[Pos('a', 1) := b];
    assert !CellProper(Dimension(3, 4), cells, Pos('a', 1));
    ProperCellsExactly(Dimension(3, 4), cells);
  }
}
