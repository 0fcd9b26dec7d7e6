/**
 * Gravity (Board.py): whether a board is stable, letting one block fall as
 * far as it can, and letting every block fall, row by row from the second row
 * upwards.
 */
module Gravity {
  import opened Wrappers
  import opened Dimensions
  import opened Positions
  import opened Blocks
  import opened BoardSpec
  import opened Boards

  /** is_stable: no block on the board is airborne. */
  method IsStable(board: Board) returns (r: bool)
    requires board.Valid()
    ensures r <==> Stable(board.dim, board.cells, board.loc)
  {
    var blocks := board.AllBlocks();
    var i := 0;
    while i < |blocks|
      invariant 0 <= i <= |blocks|
      invariant forall j | 0 <= j < i :: !Airborne(board.dim, board.cells, board.loc, blocks[j])
    {
      var airborne := board.IsAirborne(blocks[i]);
      if airborne {
        return false;
      }
      i := i + 1;
    }
    forall x | x in board.loc ensures !Airborne(board.dim, board.cells, board.loc, x) {
      assert x in blocks;
    }
    return true;
  }

  /** A block put where the cells right below it were not all free is not airborne. */
  lemma LandedNotAirborne(d: Dimension, cells: Cells, loc: Locs, b: Block, p: Pos, cells': Cells, loc': Locs)
    requires WF(d, cells, loc) && CanPlace(d, cells, loc, b, p) && b.length >= 1 && p.row != 'a'
    requires !CanPlace(d, cells, loc, b, Down(d, p, 1).value)
    requires PlacedRun(cells, cells', b, p, b.length) && WF(d, cells', loc') && loc' == loc[b := p]
    ensures !Airborne(d, cells', loc', b)
  {
    var below := Down(d, p, 1).value;
    RowNumberInjective(d, below.row, RowBelow(d, p.row));
    assert !FreeSpan(cells, below.row, p.col, p.col + b.length);
  }

  /**
   * Moving block `b` from a row numbered k down to another cell never makes
   * a block of a row numbered at most k airborne: only blocks in row k + 1
   * could have rested on `b`.
   */
  lemma FallKeepsGrounded(d: Dimension, cells: Cells, loc: Locs, cells': Cells, loc': Locs, b: Block, k: int, x: Block)
    requires WF(d, cells, loc) && WF(d, cells', loc') && b in loc && NbOfRow(d, loc[b].row) == k
    requires b in loc' && loc' == loc[b := loc'[b]]
    requires OthersKept(cells, cells', b)
    requires x in loc && x != b && NbOfRow(d, loc[x].row) <= k && !Airborne(d, cells, loc, x)
    ensures !Airborne(d, cells', loc', x)
  {
    if loc[x].row != 'a' {
      var rb := RowBelow(d, loc[x].row);
      var c :| loc[x].col <= c < loc[x].col + x.length && Pos(rb, c) in cells;
      assert Covers(loc, cells[Pos(rb, c)], Pos(rb, c));
      assert Pos(rb, c) in cells';
    }
  }

  /** Every cell of row `r` from column `lo` up to `hi` - 1 is free or holds `b` itself. */
  ghost predicate ClearBut(cells: Cells, b: Block, r: char, lo: int, hi: int) {
    forall c | lo <= c < hi :: Pos(r, c) in cells ==> cells[Pos(r, c)] == b
  }

  /**
   * Every row numbered from that of `p` up to `top` is clear, but for `b`
   * itself, under the columns `b` covers when its leftmost cell is at `p`.
   */
  ghost predicate ClearUpTo(d: Dimension, cells: Cells, b: Block, p: Pos, top: int) {
    forall r | IsRowOf(d, r) && NbOfRow(d, p.row) <= NbOfRow(d, r) <= top :: ClearBut(cells, b, r, p.col, p.col + b.length)
  }

  /** A clear row of its own is a clear stretch from that row up to itself. */
  lemma ClearUpToOne(d: Dimension, cells: Cells, b: Block, p: Pos)
    requires IsNamedDimension(d) && IsRowOf(d, p.row) && ClearBut(cells, b, p.row, p.col, p.col + b.length)
    ensures ClearUpTo(d, cells, b, p, NbOfRow(d, p.row))
  {
    forall r | IsRowOf(d, r) && NbOfRow(d, p.row) <= NbOfRow(d, r) <= NbOfRow(d, p.row)
      ensures ClearBut(cells, b, r, p.col, p.col + b.length)
    {
      RowNumberInjective(d, r, p.row);
    }
  }

  /** A free run right below a clear stretch extends the stretch one row down. */
  lemma ClearUpToStep(d: Dimension, cells: Cells, b: Block, p: Pos, q: Pos, top: int)
    requires IsNamedDimension(d) && IsRowOf(d, q.row) && q.col == p.col
    requires NbOfRow(d, q.row) == NbOfRow(d, p.row) - 1
    requires ClearUpTo(d, cells, b, p, top) && FreeSpan(cells, q.row, q.col, q.col + b.length)
    ensures ClearUpTo(d, cells, b, q, top)
  {
    forall r | IsRowOf(d, r) && NbOfRow(d, q.row) <= NbOfRow(d, r) <= top
      ensures ClearBut(cells, b, r, q.col, q.col + b.length)
    {
      if NbOfRow(d, r) == NbOfRow(d, q.row) {
        RowNumberInjective(d, r, q.row);
      }
    }
  }

  /** Writing `b` into the cells keeps every row clear but for `b`. */
  lemma ClearUpToPlaced(d: Dimension, cells: Cells, cells': Cells, b: Block, p: Pos, top: int)
    requires ClearUpTo(d, cells, b, p, top) && PlacedRun(cells, cells', b, p, b.length)
    ensures ClearUpTo(d, cells', b, p, top)
  {
    forall r | IsRowOf(d, r) && NbOfRow(d, p.row) <= NbOfRow(d, r) <= top
      ensures ClearBut(cells', b, r, p.col, p.col + b.length)
    {
      assert ClearBut(cells, b, r, p.col, p.col + b.length);
    }
  }

  /**
   * Of the rows from the landing row `p.row` up to `top`, only the landing
   * row itself can have an occupied cell right below the block's columns: a
   * block descending from `top` stops at the first row it rests on.
   */
  lemma OnlyLandingRowRests(d: Dimension, cells: Cells, b: Block, p: Pos, top: int, r: char)
    requires IsNamedDimension(d) && IsRowOf(d, p.row) && IsRowOf(d, r) && r != 'a'
    requires ClearUpTo(d, cells, b, p, top)
    requires NbOfRow(d, p.row) <= NbOfRow(d, r) <= top
    requires !ClearBut(cells, b, RowBelow(d, r), p.col, p.col + b.length)
    ensures r == p.row
  {
    if NbOfRow(d, r) == NbOfRow(d, p.row) {
      RowNumberInjective(d, r, p.row);
    }
  }

  /** The cells of a placed block hold that block. */
  lemma OwnRowClear(d: Dimension, cells: Cells, loc: Locs, b: Block)
    requires WF(d, cells, loc) && b in loc
    ensures ClearBut(cells, b, loc[b].row, loc[b].col, loc[b].col + b.length)
  {
    forall c | loc[b].col <= c < loc[b].col + b.length
      ensures Pos(loc[b].row, c) in cells ==> cells[Pos(loc[b].row, c)] == b
    {
      assert Covers(loc, b, Pos(loc[b].row, c));
    }
  }

  /**
   * let_fall: an airborne block is lifted off the board and put back at the
   * lowest cell of its column from which it could keep descending row by row;
   * a block that is not airborne stays where it is. No other block moves.
   * The block ends in the first row, going down from where it was, that it
   * rests on: every row from there up to its old row is clear under it.
   */
  method LetFall(board: Board, b: Block)
    requires board.Valid() && b in board.loc
    modifies board
    ensures board.Valid()
    ensures b in board.loc && board.loc == old(board.loc)[b := board.loc[b]]
    ensures board.loc[b].col == old(board.loc[b].col)
    ensures NbOfRow(board.dim, board.loc[b].row) <= NbOfRow(board.dim, old(board.loc[b].row))
    ensures !Airborne(board.dim, board.cells, board.loc, b)
    ensures ClearUpTo(board.dim, board.cells, b, board.loc[b], NbOfRow(board.dim, old(board.loc[b].row)))
    ensures !old(Airborne(board.dim, board.cells, board.loc, b)) ==>
              board.cells == old(board.cells) && board.loc == old(board.loc)
    ensures OthersKept(old(board.cells), board.cells, b)
    ensures Descended(board.dim, old(board.loc), board.loc)
  {
    var airborne := board.IsAirborne(b);
    if !airborne {
      MoveDownDescends(board.dim, board.loc, b, board.loc[b]);
      assert board.loc[b := board.loc[b]] == board.loc;
      OwnRowClear(board.dim, board.cells, board.loc, b);
      ClearUpToOne(board.dim, board.cells, b, board.loc[b]);
      return;
    }
    var leftmost := board.LeftmostPositionOf(b);
    var pos := leftmost.value;
    var below := Down(board.dim, pos, 1);
    board.RemoveBlockFrom(b);
    RemovedBlockCanReturn(board.dim, old(board.cells), old(board.loc), b, board.cells);
    ClearUpToOne(board.dim, board.cells, b, pos);
    var go := false;
    if below.Some? {
      go := board.CanAcceptBlockAt(b, below.value);
    }
    while go
      invariant board.Valid() && board.loc == old(board.loc) - {b}
      invariant RemovedRun(old(board.cells), board.cells, b)
      invariant pos.col == old(board.loc[b].col)
      invariant NbOfRow(board.dim, pos.row) <= NbOfRow(board.dim, old(board.loc[b].row))
      invariant CanPlace(board.dim, board.cells, board.loc, b, pos)
      invariant ClearUpTo(board.dim, board.cells, b, pos, NbOfRow(board.dim, old(board.loc[b].row)))
      invariant below == Down(board.dim, pos, 1)
      invariant go ==> below.Some? && CanPlace(board.dim, board.cells, board.loc, b, below.value)
      invariant !go ==> below.None? || !CanPlace(board.dim, board.cells, board.loc, b, below.value)
      decreases NbOfRow(board.dim, pos.row)
    {
      WithinBoundariesExactly(board.dim, below.value);
      ClearUpToStep(board.dim, board.cells, b, pos, below.value, NbOfRow(board.dim, old(board.loc[b].row)));
      pos := below.value;
      below := Down(board.dim, pos, 1);
      go := false;
      if below.Some? {
        go := board.CanAcceptBlockAt(b, below.value);
      }
    }
    ghost var cells0, loc0 := board.cells, board.loc;
    board.AddBlockAt(b, pos);
    ClearUpToPlaced(board.dim, cells0, board.cells, b, pos, NbOfRow(board.dim, old(board.loc[b].row)));
    ReplaceEntry(old(board.loc), b, pos);
    MoveDownDescends(board.dim, old(board.loc), b, pos);
    RemoveThenPlaceKeepsOthers(old(board.cells), cells0, board.cells, b, pos);
    if pos.row != 'a' {
      LandedNotAirborne(board.dim, cells0, loc0, b, pos, board.cells, board.loc);
    }
  }

  /** Every block kept its columns and did not rise. */
  ghost predicate Descended(d: Dimension, loc0: Locs, loc: Locs) {
    && loc.Keys == loc0.Keys
    && forall x | x in loc :: loc[x].col == loc0[x].col && NbOfRow(d, loc[x].row) <= NbOfRow(d, loc0[x].row)
  }

  /** Moving one block down its own columns is a descent. */
  lemma MoveDownDescends(d: Dimension, loc: Locs, b: Block, p: Pos)
    requires b in loc && p.col == loc[b].col && NbOfRow(d, p.row) <= NbOfRow(d, loc[b].row)
    ensures Descended(d, loc, loc[b := p])
  {
  }

  lemma DescendedTransitive(d: Dimension, loc0: Locs, loc1: Locs, loc2: Locs)
    requires Descended(d, loc0, loc1) && Descended(d, loc1, loc2)
    ensures Descended(d, loc0, loc2)
  {
  }

  /** The blocks in rows numbered below k, and the blocks of `s`, are not airborne. */
  ghost predicate GroundedUpTo(d: Dimension, cells: Cells, loc: Locs, k: int, s: seq<Block>)
    requires WF(d, cells, loc)
  {
    forall x | x in loc && (NbOfRow(d, loc[x].row) < k || x in s) :: !Airborne(d, cells, loc, x)
  }

  /**
   * Part way through a row numbered k: the blocks of `s` were let fall and
   * stay at rows numbered at most k, the other blocks did not move.
   */
  ghost predicate RowFallProgress(d: Dimension, loc0: Locs, loc: Locs, k: int, s: seq<Block>) {
    && Descended(d, loc0, loc)
    && (forall x | x in loc0 && x !in s :: loc[x] == loc0[x])
    && (forall x | x in s && x in loc :: NbOfRow(d, loc[x].row) <= k)
  }

  /** Letting the next listed block of row k fall keeps the rows below k and the blocks already let fall grounded. */
  lemma RowFallStep(d: Dimension, cells: Cells, loc: Locs, cells': Cells, loc': Locs, loc0: Locs, k: int, s: seq<Block>, b: Block)
    requires WF(d, cells, loc) && WF(d, cells', loc') && b in loc0 && NbOfRow(d, loc0[b].row) == k && b !in s
    requires RowFallProgress(d, loc0, loc, k, s) && GroundedUpTo(d, cells, loc, k, s)
    requires b in loc' && loc' == loc[b := loc'[b]] && OthersKept(cells, cells', b)
    requires !Airborne(d, cells', loc', b) && Descended(d, loc, loc')
    ensures RowFallProgress(d, loc0, loc', k, s + [b]) && GroundedUpTo(d, cells', loc', k, s + [b])
  {
    DescendedTransitive(d, loc0, loc, loc');
    forall x | x in loc' && (NbOfRow(d, loc'[x].row) < k || x in s + [b])
      ensures !Airborne(d, cells', loc', x)
    {
      if x != b {
        FallKeepsGrounded(d, cells, loc, cells', loc', b, k, x);
      }
    }
  }

  /** Two different blocks of a row listing are different blocks. */
  lemma RowListingDistinct(d: Dimension, loc: Locs, row: char, s: seq<Block>, i: int)
    requires ListsRow(d, loc, row, s) && 0 <= i < |s|
    ensures s[i] !in s[..i]
  {
  }

  /**
   * After the blocks listed for the row numbered k have fallen, every block
   * in a row numbered at most k is grounded.
   */
  lemma RowDoneGrounded(d: Dimension, cells: Cells, loc: Locs, loc1: Locs, row: char, bs: seq<Block>, k: int)
    requires WF(d, cells, loc) && IsRowOf(d, row) && NbOfRow(d, row) == k && ListsRow(d, loc1, row, bs)
    requires loc.Keys == loc1.Keys
    requires forall x | x in loc1 && x !in bs :: loc[x] == loc1[x]
    requires GroundedUpTo(d, cells, loc, k, bs)
    ensures GroundedUpTo(d, cells, loc, k + 1, [])
  {
    forall x | x in loc && NbOfRow(d, loc[x].row) < k + 1 ensures !Airborne(d, cells, loc, x) {
      if NbOfRow(d, loc[x].row) == k {
        assert Placed(d, x, loc[x]);
        RowNumberInjective(d, loc[x].row, row);
      }
    }
  }

  /**
   * The inner loop of let_all_blocks_fall: the blocks of `row`, listed once
   * before any of them moves, are let fall one after the other.
   */
  method LetRowFall(board: Board, row: char, ghost k: int)
    requires board.Valid() && IsRowOf(board.dim, row) && NbOfRow(board.dim, row) == k
    requires GroundedUpTo(board.dim, board.cells, board.loc, k, [])
    modifies board
    ensures board.Valid() && Descended(board.dim, old(board.loc), board.loc)
    ensures GroundedUpTo(board.dim, board.cells, board.loc, k + 1, [])
    ensures old(Stable(board.dim, board.cells, board.loc)) ==>
              board.cells == old(board.cells) && board.loc == old(board.loc)
  {
    var bs := board.AllBlocksInRow(row);
    ghost var wasStable := Stable(board.dim, board.cells, board.loc);
    var i := 0;
    while i < |bs|
      invariant 0 <= i <= |bs|
      invariant board.Valid() && RowFallProgress(board.dim, old(board.loc), board.loc, k, bs[..i])
      invariant GroundedUpTo(board.dim, board.cells, board.loc, k, bs[..i])
      invariant wasStable ==> board.cells == old(board.cells) && board.loc == old(board.loc)
    {
      var b := bs[i];
      RowListingDistinct(board.dim, old(board.loc), row, bs, i);
      ghost var cellsBefore, locBefore := board.cells, board.loc;
      LetFall(board, b);
      RowFallStep(board.dim, cellsBefore, locBefore, board.cells, board.loc, old(board.loc), k, bs[..i], b);
      TakeOneMore(bs, i);
      i := i + 1;
    }
    assert bs[..|bs|] == bs;
    RowDoneGrounded(board.dim, board.cells, board.loc, old(board.loc), row, bs, k);
  }

  /**
   * let_all_blocks_fall: the blocks of every row from the second one up are
   * let fall, left to right within a row. Afterwards no block is airborne,
   * every block kept its columns and did not rise, and a board that was
   * already stable is left as it was.
   */
  method LetAllBlocksFall(board: Board)
    requires board.Valid()
    modifies board
    ensures board.Valid() && Descended(board.dim, old(board.loc), board.loc)
    ensures Stable(board.dim, board.cells, board.loc)
    ensures old(Stable(board.dim, board.cells, board.loc)) ==>
              board.cells == old(board.cells) && board.loc == old(board.loc)
  {
    var cur: Option<Pos>;
    if board.dim.rows > 2 {
      cur := Some(Pos('b', 1));
    } else {
      cur := Some(Pos('X', 1));
    }
    ghost var k := 2;
    ghost var wasStable := Stable(board.dim, board.cells, board.loc);
    while cur.Some?
      invariant 2 <= k <= board.dim.rows + 1
      invariant cur.Some? ==> k <= board.dim.rows && cur.value == Pos(IdOfRow(board.dim, k), 1)
      invariant cur.None? ==> k == board.dim.rows + 1
      invariant board.Valid() && Descended(board.dim, old(board.loc), board.loc)
      invariant GroundedUpTo(board.dim, board.cells, board.loc, k, [])
      invariant wasStable ==> board.cells == old(board.cells) && board.loc == old(board.loc)
      decreases board.dim.rows + 1 - k
    {
      ghost var locBefore := board.loc;
      LetRowFall(board, cur.value.row, k);
      DescendedTransitive(board.dim, old(board.loc), locBefore, board.loc);
      cur := Up(board.dim, cur.value, 1);
      k := k + 1;
      if cur.Some? {
        RowNumberInjective(board.dim, cur.value.row, IdOfRow(board.dim, k));
      }
    }
  }
}
