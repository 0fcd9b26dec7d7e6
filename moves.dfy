/**
 * Horizontal moves (Board.py): whether a block can slide over a number of
 * steps (to the left when negative, to the right when positive), and the
 * slide itself.
 */
module Moves {
  import opened Wrappers
  import opened Dimensions
  import opened Positions
  import opened Blocks
  import opened BoardSpec
  import opened Boards

  /**
   * can_move_over: walking outwards from the edge of `b` in the direction of
   * the move, every cell met is on the board and free. Over zero steps the
   * walk is empty, so any block can move over zero steps.
   */
  method CanMoveOver(board: Board, b: Block, n: int) returns (r: bool)
    requires board.Valid() && b in board.loc
    ensures r <==> SweepFree(board.dim, board.cells, board.loc[b], b.length, n)
    ensures n == 0 ==> r
  {
    var cur := board.LeftmostPositionOf(b);
    ghost var p := board.loc[b];
    assert Placed(board.dim, b, p);
    if n > 0 && b.length > 1 {
      cur := Right(board.dim, cur.value, b.length - 1);
    }
    var steps := n;
    ghost var k := 0;
    while steps != 0
      invariant 0 <= k <= Abs(n) && Abs(steps) == Abs(n) - k
      invariant steps != 0 ==> (steps > 0 <==> n > 0)
      invariant cur == Some(Pos(p.row, SweptColumn(p.col, b.length, n, k)))
      invariant forall j | 1 <= j <= k :: SweptCellFree(board.dim, board.cells, p, b.length, n, j)
      decreases Abs(steps)
    {
      if steps < 0 {
        cur := Left(board.dim, cur.value, 1);
        steps := steps + 1;
      } else {
        cur := Right(board.dim, cur.value, 1);
        steps := steps - 1;
      }
      k := k + 1;
      if cur.None? {
        assert !SweptCellFree(board.dim, board.cells, p, b.length, n, k);
        return false;
      }
      var free := board.IsFreeAt(cur.value);
      if !free {
        assert !SweptCellFree(board.dim, board.cells, p, b.length, n, k);
        return false;
      }
    }
    return true;
  }

  /** The cells a block slides into are free once the block itself is lifted off. */
  lemma SlideTargetFree(d: Dimension, cells: Cells, loc: Locs, b: Block, n: int, cells': Cells)
    requires WF(d, cells, loc) && b in loc && SweepFree(d, cells, loc[b], b.length, n)
    requires RemovedRun(cells, cells', b)
    ensures CanPlace(d, cells', loc - {b}, b, Pos(loc[b].row, loc[b].col + n))
  {
    var p := loc[b];
    assert Placed(d, b, p);
    if n > 0 {
      assert SweptCellFree(d, cells, p, b.length, n, n);
    } else if n < 0 {
      assert SweptCellFree(d, cells, p, b.length, n, -n);
    }
    forall c | p.col + n <= c < p.col + n + b.length ensures Pos(p.row, c) !in cells' {
      if p.col <= c < p.col + b.length {
        CellOfBlock(d, cells, loc, b, c - p.col);
      } else if n > 0 {
        assert SweptCellFree(d, cells, p, b.length, n, c - (p.col + b.length - 1));
      } else {
        assert SweptCellFree(d, cells, p, b.length, n, p.col - c);
      }
    }
  }

  /**
   * move_block_horizontally: `b` slides over `n` columns in its row; every
   * other block keeps its cells.
   */
  method MoveBlockHorizontally(board: Board, b: Block, n: int)
    requires board.Valid() && b in board.loc && SweepFree(board.dim, board.cells, board.loc[b], b.length, n)
    modifies board
    ensures board.Valid()
    ensures board.loc == old(board.loc)[b := Pos(old(board.loc[b].row), old(board.loc[b].col) + n)]
    ensures OthersKept(old(board.cells), board.cells, b)
  {
    var leftmost := board.LeftmostPositionOf(b);
    var target: Option<Pos>;
    if n < 0 {
      target := Left(board.dim, leftmost.value, -n);
    } else {
      target := Right(board.dim, leftmost.value, n);
    }
    ghost var p := board.loc[b];
    board.RemoveBlockFrom(b);
    SlideTargetFree(board.dim, old(board.cells), old(board.loc), b, n, board.cells);
    ghost var cells0 := board.cells;
    board.AddBlockAt(b, target.value);
    ReplaceEntry(old(board.loc), b, target.value);
    RemoveThenPlaceKeepsOthers(old(board.cells), cells0, board.cells, b, target.value);
  }

  /**
   * A slide can be undone: after `b` moved over `n` steps it can move back
   * over `-n` steps, since it sweeps only cells it left or cells it swept.
   */
  lemma SlideCanBeUndone(d: Dimension, cells: Cells, loc: Locs, b: Block, n: int, cells': Cells, loc': Locs)
    requires WF(d, cells, loc) && b in loc && SweepFree(d, cells, loc[b], b.length, n)
    requires WF(d, cells', loc') && loc' == loc[b := Pos(loc[b].row, loc[b].col + n)]
    ensures SweepFree(d, cells', loc'[b], b.length, -n)
  {
    var p, p' := loc[b], loc'[b];
    var L := b.length;
    assert Placed(d, b, p) && Placed(d, b, p');
    var back := -n;
    if n > 0 {
      assert SweptCellFree(d, cells, p, L, n, n);
    } else if n < 0 {
      assert SweptCellFree(d, cells, p, L, n, -n);
    }
    forall k | 1 <= k <= Abs(back)
      ensures SweptCellFree(d, cells', p', L, back, k)
    {
      var c := SweptColumn(p'.col, L, back, k);
      var q := Pos(p.row, c);
      forall x | x in loc' ensures !Covers(loc', x, q) {
        if x != b {
          assert Covers(loc', x, q) ==> Covers(loc, x, q);
          if p.col <= c < p.col + L {
            CellOfBlock(d, cells, loc, b, c - p.col);
          } else if n > 0 {
            assert SweptCellFree(d, cells, p, L, n, c - (p.col + L - 1));
          } else {
            assert SweptCellFree(d, cells, p, L, n, p.col - c);
          }
        }
      }
      FreeMeansUncovered(d, cells', loc', q);
    }
  }
}
