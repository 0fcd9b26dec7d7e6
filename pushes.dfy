/**
 * Pushing blocks up (Board.py): all blocks of one row move one row up, the
 * whole board moves one row up, and a new bottom row is inserted below.
 */
module Pushes {
  import opened Wrappers
  import opened Dimensions
  import opened Positions
  import opened Blocks
  import opened BoardSpec
  import opened Boards

  /** One step up from a cell of the board below `X` is the same column in the row above. */
  lemma UpIsRowAbove(d: Dimension, p: Pos)
    requires IsNamedDimension(d) && InBoard(d, p) && p.row != 'X'
    ensures IsProperPosition(p) && IsWithinBoundaries(d, p)
    ensures Up(d, p, 1) == Some(Pos(RowAbove(d, p.row), p.col))
  {
    WithinBoundariesExactly(d, p);
    RowNumberInjective(d, Up(d, p, 1).value.row, RowAbove(d, p.row));
  }

  /** The blocks of `row` that are listed in `s` sit one row higher; all others stay. */
  ghost function LiftListed(d: Dimension, loc: Locs, row: char, s: seq<Block>): Locs
    requires IsNamedDimension(d) && IsRowOf(d, row) && row != 'X'
  {
    map x | x in loc :: if x in s && loc[x].row == row then Pos(RowAbove(d, row), loc[x].col) else loc[x]
  }

  /** Every block of `row` one row higher; every other block where it was. */
  ghost function LiftRow(d: Dimension, loc: Locs, row: char): Locs
    requires IsNamedDimension(d) && IsRowOf(d, row) && row != 'X'
  {
    map x | x in loc :: if loc[x].row == row then Pos(RowAbove(d, row), loc[x].col) else loc[x]
  }

  /**
   * While a row is being lifted, the cells above a block that has not moved
   * yet are free: only lifted blocks of the same row can be there, and those
   * never shared a column with it.
   */
  lemma LiftTargetFree(d: Dimension, cells0: Cells, loc0: Locs, row: char, s: seq<Block>,
                       cells: Cells, loc: Locs, x: Block)
    requires WF(d, cells0, loc0) && IsRowOf(d, row) && row != 'X'
    requires RowEmpty(loc0, RowAbove(d, row))
    requires x in loc0 && loc0[x].row == row && x !in s
    requires loc == LiftListed(d, loc0, row, s) - {x} && WF(d, cells, loc)
    ensures CanPlace(d, cells, loc, x, Pos(RowAbove(d, row), loc0[x].col))
  {
    var up := RowAbove(d, row);
    var p := loc0[x];
    assert Placed(d, x, p);
    forall c | p.col <= c < p.col + x.length ensures Pos(up, c) !in cells {
      forall y | y in loc ensures !Covers(loc, y, Pos(up, c)) {
        if Covers(loc, y, Pos(up, c)) {
          assert y in s && loc0[y].row == row;
          NoOverlap(d, cells0, loc0, x, y);
        }
      }
      FreeMeansUncovered(d, cells, loc, Pos(up, c));
    }
  }

  /** Lifting one more listed block of the row is a single update of the locations. */
  lemma LiftOneMore(d: Dimension, loc0: Locs, row: char, s: seq<Block>, x: Block)
    requires IsNamedDimension(d) && IsRowOf(d, row) && row != 'X'
    requires x in loc0 && loc0[x].row == row
    ensures (LiftListed(d, loc0, row, s) - {x})[x := Pos(RowAbove(d, row), loc0[x].col)]
            == LiftListed(d, loc0, row, s + [x])
  {
    var lhs := (LiftListed(d, loc0, row, s) - {x})[x := Pos(RowAbove(d, row), loc0[x].col)];
    assert lhs.Keys == LiftListed(d, loc0, row, s + [x]).Keys;
  }

  /** Once the whole row is listed, the listed lift is the lift of the row. */
  lemma LiftListedAll(d: Dimension, cells0: Cells, loc0: Locs, row: char, s: seq<Block>)
    requires WF(d, cells0, loc0) && IsRowOf(d, row) && row != 'X'
    requires ListsRow(d, loc0, row, s)
    ensures LiftListed(d, loc0, row, s) == LiftRow(d, loc0, row)
  {
    forall x | x in loc0 && loc0[x].row == row ensures x in s {
      assert Placed(d, x, loc0[x]);
    }
  }

  /** The block at index `i` of a row listing lies in that row and is not listed before `i`. */
  lemma ListedOnce(d: Dimension, loc: Locs, row: char, s: seq<Block>, i: int)
    requires ListsRow(d, loc, row, s) && 0 <= i < |s|
    ensures s[i] in loc && loc[s[i]].row == row && s[i] !in s[..i]
  {
    forall j | 0 <= j < i ensures s[j] != s[i] {
      assert loc[s[j]].col < loc[s[i]].col;
    }
  }

  /** The next block of the row listing, not lifted yet, is removed and added again one row higher. */
  method LiftOneBlock(board: Board, ghost cells0: Cells, ghost loc0: Locs, row: char, blocks: seq<Block>, i: int)
    requires board.Valid() && WF(board.dim, cells0, loc0) && IsRowOf(board.dim, row) && row != 'X'
    requires RowEmpty(loc0, RowAbove(board.dim, row))
    requires ListsRow(board.dim, loc0, row, blocks) && 0 <= i < |blocks|
    requires board.loc == LiftListed(board.dim, loc0, row, blocks[..i])
    modifies board
    ensures board.Valid()
    ensures board.loc == LiftListed(board.dim, loc0, row, blocks[..i + 1])
  {
    var x := blocks[i];
    ghost var s := blocks[..i];
    ListedOnce(board.dim, loc0, row, blocks, i);
    var leftmost := board.LeftmostPositionOf(x);
    UpIsRowAbove(board.dim, leftmost.value);
    var target := Up(board.dim, leftmost.value, 1);
    board.RemoveBlockFrom(x);
    LiftTargetFree(board.dim, cells0, loc0, row, s, board.cells, board.loc, x);
    board.AddBlockAt(x, target.value);
    LiftOneMore(board.dim, loc0, row, s, x);
    TakeOneMore(blocks, i);
  }

  /**
   * push_all_blocks_in_row_up: each block of `row`, taken left to right, is
   * removed and added again one row higher; the row above must be empty.
   */
  method PushAllBlocksInRowUp(board: Board, row: char)
    requires board.Valid() && IsRowOf(board.dim, row) && row != 'X'
    requires RowEmpty(board.loc, RowAbove(board.dim, row))
    modifies board
    ensures board.Valid()
    ensures board.loc == LiftRow(board.dim, old(board.loc), row)
  {
    var blocks := board.AllBlocksInRow(row);
    ghost var cells0, loc0 := board.cells, board.loc;
    var i := 0;
    while i < |blocks|
      invariant 0 <= i <= |blocks|
      invariant board.Valid()
      invariant board.loc == LiftListed(board.dim, loc0, row, blocks[..i])
    {
      LiftOneBlock(board, cells0, loc0, row, blocks, i);
      i := i + 1;
    }
    assert blocks[..i] == blocks;
    LiftListedAll(board.dim, cells0, loc0, row, blocks);
  }

  /** No block is in the overflow row, so every block has a row above it. */
  ghost predicate BelowOverflow(d: Dimension, loc: Locs) {
    IsNamedDimension(d) && forall x | x in loc :: IsRowOf(d, loc[x].row) && loc[x].row != 'X'
  }

  /** Every block one row higher, in the same columns. */
  ghost function LiftAll(d: Dimension, loc: Locs): Locs
    requires BelowOverflow(d, loc)
  {
    map x | x in loc :: Pos(RowAbove(d, loc[x].row), loc[x].col)
  }

  /** The blocks of the rows numbered above `n` one row higher; the others where they were. */
  ghost function LiftAbove(d: Dimension, loc: Locs, n: int): Locs
    requires BelowOverflow(d, loc)
  {
    map x | x in loc :: if NbOfRow(d, loc[x].row) > n then Pos(RowAbove(d, loc[x].row), loc[x].col) else loc[x]
  }

  /**
   * Lifting the row numbered `n` after the rows above it: the row above it
   * has been emptied, and the lift now covers row `n` too.
   */
  lemma LiftAboveStep(d: Dimension, loc0: Locs, n: int)
    requires BelowOverflow(d, loc0) && 1 <= n <= d.rows - 1
    ensures IdOfRow(d, n) != 'X'
    ensures RowEmpty(LiftAbove(d, loc0, n), RowAbove(d, IdOfRow(d, n)))
    ensures LiftRow(d, LiftAbove(d, loc0, n), IdOfRow(d, n)) == LiftAbove(d, loc0, n - 1)
  {
    var row := IdOfRow(d, n);
    var loc := LiftAbove(d, loc0, n);
    forall x | x in loc ensures loc[x].row != RowAbove(d, row) {
      if NbOfRow(d, loc0[x].row) <= n {
        assert NbOfRow(d, loc[x].row) <= n;
      }
    }
    var lhs := LiftRow(d, loc, row);
    forall x | x in loc0 ensures lhs[x] == LiftAbove(d, loc0, n - 1)[x] {
      if NbOfRow(d, loc0[x].row) == n {
        RowNumberInjective(d, loc0[x].row, row);
      } else if NbOfRow(d, loc0[x].row) > n {
        assert NbOfRow(d, loc[x].row) > n + 1;
      }
    }
  }

  /** Once every row numbered above 0 is lifted, the whole board is. */
  lemma LiftAboveAll(d: Dimension, loc0: Locs)
    requires BelowOverflow(d, loc0)
    ensures LiftAbove(d, loc0, 0) == LiftAll(d, loc0)
  {
    forall x | x in loc0 ensures NbOfRow(d, loc0[x].row) > 0 {
    }
  }

  /**
   * push_all_blocks_up: the rows from number rows-1 down to 1 are each pushed
   * up, top first, so that every row moves into the row just emptied above it.
   */
  method PushAllBlocksUp(board: Board)
    requires board.Valid() && RowEmpty(board.loc, 'X')
    modifies board
    ensures board.Valid()
    ensures BelowOverflow(board.dim, old(board.loc))
    ensures board.loc == LiftAll(board.dim, old(board.loc))
  {
    ghost var loc0 := board.loc;
    forall x | x in loc0 ensures IsRowOf(board.dim, loc0[x].row) {
      assert Placed(board.dim, x, loc0[x]);
    }
    var n := NbOfRows(board.dim) - 1;
    while n > 0
      invariant 0 <= n <= board.dim.rows - 1
      invariant board.Valid()
      invariant board.loc == LiftAbove(board.dim, loc0, n)
    {
      var current := IdOfRow(board.dim, n);
      LiftAboveStep(board.dim, loc0, n);
      PushAllBlocksInRowUp(board, current);
      n := n - 1;
    }
    LiftAboveAll(board.dim, loc0);
  }

  /** After every block moved up one row, the bottom row is empty. */
  lemma LiftAllEmptiesBottom(d: Dimension, loc: Locs)
    requires BelowOverflow(d, loc)
    ensures LiftAll(d, loc).Keys == loc.Keys
    ensures RowEmpty(LiftAll(d, loc), 'a')
  {
    forall x | x in loc ensures LiftAll(d, loc)[x].row != 'a' {
      assert NbOfRow(d, LiftAll(d, loc)[x].row) >= 2;
    }
  }

  // ---------------------------------------------------------------- a new bottom row

  /** A batch of new blocks for the bottom row, each with its leftmost cell. */
  type Batch = seq<(Pos, Block)>

  /** Where the blocks of a batch are placed, later entries last. */
  ghost function BatchLocs(batch: Batch): Locs
  {
    if batch == [] then map[] else BatchLocs(batch[..|batch| - 1])[batch[|batch| - 1].1 := batch[|batch| - 1].0]
  }

  /** No block occurs twice in the batch. */
  ghost predicate DistinctBlocks(batch: Batch) {
    forall i, j | 0 <= i < j < |batch| :: batch[i].1 != batch[j].1
  }

  /**
   * A batch fits the bottom row of a board whose blocks are `loc`: every
   * leftmost cell is in row `a`, every block fits the board there and is not
   * on the board yet, and no two entries share a block or a cell.
   */
  ghost predicate BatchFits(d: Dimension, loc: Locs, batch: Batch) {
    && (forall i | 0 <= i < |batch| :: batch[i].0.row == 'a' && Placed(d, batch[i].1, batch[i].0) && batch[i].1 !in loc)
    && DistinctBlocks(batch)
    && (forall i, j | 0 <= i < j < |batch| ::
          batch[i].0.col + batch[i].1.length <= batch[j].0.col || batch[j].0.col + batch[j].1.length <= batch[i].0.col)
  }

  /** A batch of distinct blocks places exactly its own blocks, each at its own leftmost cell. */
  lemma {:induction false} BatchLocsOf(batch: Batch)
    requires DistinctBlocks(batch)
    ensures forall x :: x in BatchLocs(batch) <==> exists i | 0 <= i < |batch| :: batch[i].1 == x
    ensures forall i | 0 <= i < |batch| :: BatchLocs(batch)[batch[i].1] == batch[i].0
    decreases |batch|
  {
    if batch != [] {
      var init := batch[..|batch| - 1];
      BatchLocsOf(init);
      forall x ensures x in BatchLocs(batch) <==> exists i | 0 <= i < |batch| :: batch[i].1 == x {
        if x in BatchLocs(init) {
          var i :| 0 <= i < |init| && init[i].1 == x;
          assert batch[i].1 == x;
        }
        if exists i | 0 <= i < |batch| :: batch[i].1 == x {
          var i :| 0 <= i < |batch| && batch[i].1 == x;
          if i < |init| {
            assert init[i].1 == x;
          }
        }
      }
      forall i | 0 <= i < |batch| ensures BatchLocs(batch)[batch[i].1] == batch[i].0 {
        if i < |init| {
          assert init[i] == batch[i];
        }
      }
    }
  }

  /** The next entry of a fitting batch can be added to the board holding the lifted blocks and the entries before it. */
  lemma BatchTargetFree(d: Dimension, cells: Cells, loc: Locs, lifted: Locs, batch: Batch, i: int)
    requires RowEmpty(lifted, 'a') && BatchFits(d, lifted, batch) && 0 <= i < |batch|
    requires loc == lifted + BatchLocs(batch[..i]) && WF(d, cells, loc)
    ensures CanPlace(d, cells, loc, batch[i].1, batch[i].0)
  {
    var (p, b) := batch[i];
    BatchLocsOf(batch[..i]);
    assert Placed(d, b, p);
    forall c | p.col <= c < p.col + b.length ensures Pos(p.row, c) !in cells {
      forall y | y in loc ensures !Covers(loc, y, Pos(p.row, c)) {
        BatchCellFree(d, loc, lifted, batch, i, y, c);
      }
      FreeMeansUncovered(d, cells, loc, Pos(p.row, c));
    }
  }

  /** No block already placed covers a cell of the next entry's run. */
  lemma BatchCellFree(d: Dimension, loc: Locs, lifted: Locs, batch: Batch, i: int, y: Block, c: int)
    requires RowEmpty(lifted, 'a') && BatchFits(d, lifted, batch) && 0 <= i < |batch|
    requires loc == lifted + BatchLocs(batch[..i]) && y in loc
    requires batch[i].0.col <= c < batch[i].0.col + batch[i].1.length
    ensures !Covers(loc, y, Pos(batch[i].0.row, c))
  {
    var prefix := batch[..i];
    BatchLocsOf(prefix);
    if y in BatchLocs(prefix) {
      var j :| 0 <= j < |prefix| && prefix[j].1 == y;
      assert batch[j] == prefix[j];
    }
  }

  /** Adding the next entry of the batch extends the placed prefix by one. */
  lemma BatchStep(lifted: Locs, batch: Batch, i: int)
    requires 0 <= i < |batch|
    ensures (lifted + BatchLocs(batch[..i]))[batch[i].1 := batch[i].0] == lifted + BatchLocs(batch[..i + 1])
  {
    assert batch[..i + 1][..i] == batch[..i];
  }

  /**
   * insert_bottom_row: every block moves one row up, and then the blocks of
   * the batch are added one by one at their leftmost cells in the bottom row.
   */
  method InsertBottomRow(board: Board, batch: Batch)
    requires board.Valid() && RowEmpty(board.loc, 'X') && BatchFits(board.dim, board.loc, batch)
    modifies board
    ensures board.Valid()
    ensures BelowOverflow(board.dim, old(board.loc))
    ensures board.loc == LiftAll(board.dim, old(board.loc)) + BatchLocs(batch)
  {
    PushAllBlocksUp(board);
    ghost var lifted := board.loc;
    LiftAllEmptiesBottom(board.dim, old(board.loc));
    assert BatchFits(board.dim, lifted, batch);
    assert batch[..0] == [];
    var i := 0;
    while i < |batch|
      invariant 0 <= i <= |batch|
      invariant board.Valid()
      invariant board.loc == lifted + BatchLocs(batch[..i])
    {
      var (p, b) := batch[i];
      BatchTargetFree(board.dim, board.cells, board.loc, lifted, batch, i);
      board.AddBlockAt(b, p);
      BatchStep(lifted, batch, i);
      i := i + 1;
    }
    assert batch[..i] == batch;
  }
}
