/**
 * A board (Board.py): a dimension and a map from occupied cells to the block
 * occupying them. Blocks are compared by identity, as the source does with
 * `is`. The ghost map `loc` records, for every block on the board, the
 * leftmost cell it occupies; `Valid()` ties it to the cell map.
 */
module Boards {
  import opened Wrappers
  import opened Dimensions
  import opened Positions
  import opened Blocks
  import opened BoardSpec

  class Board {
    const dim: Dimension
    var cells: map<Pos, Block>
    ghost var loc: map<Block, Pos>

    ghost predicate Valid()
      reads this
    {
      WF(dim, cells, loc)
    }

    /** make_board: a board of the given dimension without blocks. */
    constructor Make(d: Dimension)
      requires IsNamedDimension(d)
      ensures Valid() && dim == d && cells == map[] && loc == map[]
    {
      dim := d;
      cells := map[];
      loc := map[];
    }

    /** copy_board: a new board holding the same blocks at the same cells (the blocks themselves are shared). */
    method Copy() returns (c: Board)
      requires Valid()
      ensures fresh(c) && c.Valid()
      ensures c.dim == dim && c.cells == cells && c.loc == loc
    {
      c := new Board.Make(dim);
      c.cells := cells;
      c.loc := loc;
    }

    /** get_block_at: the block covering `p`, none outside the board or on a free cell. */
    function BlockAt(p: Pos): (r: Option<Block>)
      reads this
      requires Valid() && IsProperPosition(p)
      ensures r.Some? <==> InBoard(dim, p) && p in cells
      ensures r.Some? ==> r.value in loc && Covers(loc, r.value, p)
    {
      if !IsWithinBoundaries(dim, p) then None
      else if p in cells then Some(cells[p])
      else None
    }

    /** is_free_at: inside the board and covered by no block. */
    function IsFreeAt(p: Pos): (r: bool)
      reads this
      requires Valid() && IsProperPosition(p)
      ensures r <==> InBoard(dim, p) && p !in cells
    {
      IsWithinBoundaries(dim, p) && BlockAt(p).None?
    }

    /**
     * get_leftmost_position_of: scans the board bottom row first, left to
     * right, jumping over whole blocks, until it meets `b`.
     */
    method LeftmostPositionOf(b: Block) returns (r: Option<Pos>)
      requires Valid()
      ensures r == if b in loc then Some(loc[b]) else None
    {
      var cur: Option<Pos> := Some(Pos('a', 1));
      FirstColumnStartsRun(dim, cells, loc, 'a');
      while cur.Some?
        invariant cur.Some? ==> InBoard(dim, cur.value) && StartsRun(cells, loc, cur.value)
        invariant b in loc ==> cur.Some? && !Precedes(dim, loc[b], cur.value)
        decreases if cur.Some? then dim.rows - NbOfRow(dim, cur.value.row) + 1 else 0,
                  if cur.Some? then dim.cols - cur.value.col + 1 else 0
      {
        var p := cur.value;
        var here := BlockAt(p);
        var step: int;
        if here.Some? && here.value == b {
          return cur;
        } else if here.None? {
          step := 1;
          AfterFreeStartsRun(dim, cells, loc, p.row, p.col);
          if b in loc {
            FreeCellStartsNothing(dim, cells, loc, p, b);
            if NbOfRow(dim, loc[b].row) == NbOfRow(dim, p.row) {
              RowNumberInjective(dim, loc[b].row, p.row);
            }
          }
        } else {
          step := here.value.length;
          AfterBlockStartsRun(dim, cells, loc, p);
          if b in loc && loc[b].row == p.row && p.col <= loc[b].col < p.col + step {
            NoStartInsideRun(dim, cells, loc, p, b);
          }
          if b in loc && NbOfRow(dim, loc[b].row) == NbOfRow(dim, p.row) {
            RowNumberInjective(dim, loc[b].row, p.row);
          }
        }
        var next := Right(dim, p, step);
        if next.Some? {
          cur := next;
        } else {
          cur := Up(dim, Pos(p.row, 1), 1);
          if cur.Some? {
            FirstColumnStartsRun(dim, cells, loc, cur.value.row);
          }
        }
      }
      return None;
    }

    /** get_all_positions_of: the cells of `b`, left to right. */
    method AllPositionsOf(b: Block) returns (r: seq<Pos>)
      requires Valid() && b in loc
      ensures |r| == b.length
      ensures forall k | 0 <= k < |r| :: r[k] == Pos(loc[b].row, loc[b].col + k)
      ensures forall q :: q in r <==> q in cells && cells[q] == b
    {
      var first := LeftmostPositionOf(b);
      var cur := first.value;
      r := [cur];
      var i := 1;
      while i < b.length
        invariant 1 <= i <= b.length
        invariant |r| == i && cur == Pos(loc[b].row, loc[b].col + i - 1)
        invariant forall k | 0 <= k < i :: r[k] == Pos(loc[b].row, loc[b].col + k)
      {
        cur := Right(dim, cur, 1).value;
        r := r + [cur];
        i := i + 1;
      }
      forall q ensures q in r <==> q in cells && cells[q] == b {
        CellsOfBlockAreRun(dim, cells, loc, b, q);
        if q.row == loc[b].row && loc[b].col <= q.col < loc[b].col + b.length {
          assert r[q.col - loc[b].col] == q;
        }
      }
    }

    /** get_all_blocks_in_row: the blocks of `row`, once each, left to right. */
    method AllBlocksInRow(row: char) returns (r: seq<Block>)
      requires Valid() && IsRowOf(dim, row)
      ensures ListsRow(dim, loc, row, r)
    {
      r := [];
      var cur: Option<Pos> := Some(Pos(row, 1));
      ghost var upTo := 1;
      FirstColumnStartsRun(dim, cells, loc, row);
      while cur.Some?
        invariant 1 <= upTo <= dim.cols + 1
        invariant cur.Some? ==> cur.value == Pos(row, upTo) && upTo <= dim.cols && StartsRun(cells, loc, cur.value)
        invariant cur.None? ==> upTo == dim.cols + 1
        invariant ListsRowUpTo(loc, row, upTo, r)
        decreases dim.cols + 1 - upTo
      {
        var p := cur.value;
        var here := BlockAt(p);
        var step: int;
        if here.Some? {
          var x := here.value;
          step := x.length;
          ListsRowTakeBlock(dim, cells, loc, row, upTo, r);
          r := r + [x];
        } else {
          step := 1;
          ListsRowSkipFree(dim, cells, loc, row, upTo, r);
        }
        cur := Right(dim, p, step);
        upTo := upTo + step;
      }
    }

    /** get_length_largest_gap_in_row: the length of the longest run of free cells in `row`. */
    method LengthLargestGapInRow(row: char) returns (r: int)
      requires Valid() && IsRowOf(dim, row)
      ensures 0 <= r <= dim.cols
      ensures exists lo, hi :: 1 <= lo && hi <= dim.cols + 1 && hi - lo == r && FreeSpan(cells, row, lo, hi)
      ensures forall lo, hi | 1 <= lo <= hi <= dim.cols + 1 && FreeSpan(cells, row, lo, hi) :: hi - lo <= r
    {
      var best := 0;
      var gap := 0;
      var cur: Option<Pos> := Some(Pos(row, 1));
      ghost var upTo := 1;
      ghost var bestLo := 1;
      ghost var start := 1;
      FirstColumnStartsRun(dim, cells, loc, row);
      while cur.Some?
        invariant 1 <= upTo <= dim.cols + 1
        invariant cur.Some? ==> cur.value == Pos(row, upTo) && upTo <= dim.cols && StartsRun(cells, loc, cur.value)
        invariant cur.None? ==> upTo == dim.cols + 1
        invariant 1 <= start <= upTo && gap == upTo - start && FreeSpan(cells, row, start, upTo)
        invariant start == 1 || Pos(row, start - 1) in cells
        invariant 0 <= best && 1 <= bestLo && bestLo + best <= upTo && FreeSpan(cells, row, bestLo, bestLo + best)
        invariant GapsAtMost(cells, row, upTo, if gap > best then gap else best)
        decreases dim.cols + 1 - upTo
      {
        var p := cur.value;
        if IsFreeAt(p) {
          GapsGrowFree(cells, row, upTo, gap, if gap > best then gap else best);
          FreeSpanExtend(cells, row, start, upTo);
          gap := gap + 1;
          AfterFreeStartsRun(dim, cells, loc, row, p.col);
          cur := Right(dim, p, 1);
          upTo := upTo + 1;
        } else {
          if gap > best {
            best := gap;
            bestLo := upTo - gap;
          }
          var x := BlockAt(p).value;
          GapsGrowBlock(dim, cells, loc, x, upTo, best);
          gap := 0;
          CellOfBlock(dim, cells, loc, x, x.length - 1);
          start := upTo + x.length;
          AfterBlockStartsRun(dim, cells, loc, p);
          cur := Right(dim, p, x.length);
          upTo := upTo + x.length;
        }
      }
      if gap > best {
        best := gap;
        bestLo := upTo - gap;
      }
      r := best;
      assert FreeSpan(cells, row, bestLo, bestLo + r);
    }

    /** is_empty_row: no block lies in `row`. */
    method IsEmptyRow(row: char) returns (r: bool)
      requires Valid() && IsRowOf(dim, row)
      ensures r <==> RowEmpty(loc, row)
    {
      var blocks := AllBlocksInRow(row);
      RowListingEmpty(loc, row, dim.cols + 1, blocks);
      r := blocks == [];
    }

    /** is_full_row: every cell of `row` is occupied. */
    method IsFullRow(row: char) returns (r: bool)
      requires Valid() && IsRowOf(dim, row)
      ensures r <==> RowFull(dim, cells, row)
    {
      var cur: Option<Pos> := Some(Pos(row, 1));
      ghost var upTo := 1;
      FirstColumnStartsRun(dim, cells, loc, row);
      while cur.Some?
        invariant 1 <= upTo <= dim.cols + 1
        invariant cur.Some? ==> cur.value == Pos(row, upTo) && upTo <= dim.cols && StartsRun(cells, loc, cur.value)
        invariant cur.None? ==> upTo == dim.cols + 1
        invariant forall c | 1 <= c < upTo :: Pos(row, c) in cells
        decreases dim.cols + 1 - upTo
      {
        var p := cur.value;
        var here := BlockAt(p);
        if here.None? {
          return false;
        }
        var x := here.value;
        forall c | upTo <= c < upTo + x.length ensures Pos(row, c) in cells {
          CellOfBlock(dim, cells, loc, x, c - upTo);
        }
        AfterBlockStartsRun(dim, cells, loc, p);
        cur := Right(dim, p, x.length);
        upTo := upTo + x.length;
      }
      return true;
    }

    /** get_all_full_rows: the rows of the board, the overflow row included, that are full. */
    method AllFullRows() returns (r: set<char>)
      requires Valid()
      ensures forall row | row in r :: IsRowOf(dim, row) && RowFull(dim, cells, row)
      ensures forall row | IsRowOf(dim, row) && RowFull(dim, cells, row) :: row in r
    {
      r := {};
      var cur: Option<Pos> := Some(Pos('a', 1));
      ghost var k := 1;
      while cur.Some?
        invariant 1 <= k <= dim.rows + 1
        invariant cur.Some? ==> k <= dim.rows && cur.value == Pos(IdOfRow(dim, k), 1)
        invariant cur.None? ==> k == dim.rows + 1
        invariant forall row | row in r :: IsRowOf(dim, row) && NbOfRow(dim, row) < k && RowFull(dim, cells, row)
        invariant forall row | IsRowOf(dim, row) && NbOfRow(dim, row) < k && RowFull(dim, cells, row) :: row in r
        decreases dim.rows + 1 - k
      {
        var row := cur.value.row;
        var full := IsFullRow(row);
        forall row' | IsRowOf(dim, row') && NbOfRow(dim, row') < k + 1 && RowFull(dim, cells, row')
          ensures row' in r + (if full then {row} else {})
        {
          if NbOfRow(dim, row') == k {
            RowNumberInjective(dim, row', row);
          }
        }
        if full {
          r := r + {row};
        }
        cur := Up(dim, cur.value, 1);
        k := k + 1;
        if cur.Some? {
          RowNumberInjective(dim, cur.value.row, IdOfRow(dim, k));
        }
      }
    }

    /** get_all_blocks: every block of the board once, bottom row first, left to right. */
    method AllBlocks() returns (r: seq<Block>)
      requires Valid()
      ensures ListsBoard(dim, loc, r)
    {
      r := [];
      var cur: Option<Pos> := Some(Pos('a', 1));
      ghost var k := 1;
      while cur.Some?
        invariant 1 <= k <= dim.rows + 1
        invariant cur.Some? ==> k <= dim.rows && cur.value == Pos(IdOfRow(dim, k), 1)
        invariant cur.None? ==> k == dim.rows + 1
        invariant ListsRowsBelow(dim, loc, k, r)
        decreases dim.rows + 1 - k
      {
        var blocks := AllBlocksInRow(cur.value.row);
        AppendRowListing(dim, cells, loc, k, r, cur.value.row, blocks);
        r := r + blocks;
        cur := Up(dim, cur.value, 1);
        k := k + 1;
        if cur.Some? {
          RowNumberInjective(dim, cur.value.row, IdOfRow(dim, k));
        }
      }
    }

    /** contains_block: `b` itself (not merely a block with equal fields) is on the board. */
    method ContainsBlock(b: Block) returns (r: bool)
      requires Valid()
      ensures r <==> b in loc
    {
      var blocks := AllBlocks();
      var i := 0;
      while i < |blocks|
        invariant 0 <= i <= |blocks|
        invariant forall j | 0 <= j < i :: blocks[j] != b
      {
        if blocks[i] == b {
          return true;
        }
        i := i + 1;
      }
      assert b in loc ==> b in blocks;
      return false;
    }

    /**
     * can_accept_block_at: `b` is short enough for the board, not on it yet,
     * and all the cells it would occupy from `p` are on the board and free;
     * that is exactly what add_block_at needs.
     */
    method CanAcceptBlockAt(b: Block, p: Pos) returns (r: bool)
      requires Valid() && IsProperPosition(p) && b.length >= 1
      ensures r <==> CanPlace(dim, cells, loc, b, p)
    {
      WithinBoundariesExactly(dim, p);
      if !IsProperBlockForDimension(b, dim) {
        return false;
      }
      if !IsWithinBoundaries(dim, p) {
        return false;
      }
      var contained := ContainsBlock(b);
      if contained {
        return false;
      }
      var cur: Option<Pos> := Some(p);
      var i := 0;
      while i < b.length
        invariant 0 <= i <= b.length
        invariant cur.Some? ==> cur.value == Pos(p.row, p.col + i)
        invariant cur.None? ==> p.col + i > dim.cols
        invariant p.col + i - 1 <= dim.cols
        invariant FreeSpan(cells, p.row, p.col, p.col + i)
      {
        if cur.None? {
          return false;
        }
        if !IsFreeAt(cur.value) {
          return false;
        }
        cur := Right(dim, cur.value, 1);
        i := i + 1;
      }
      return true;
    }

    /** add_block_at: `b` occupies its length of cells rightwards from `p`; a block of length 0 occupies none. */
    method AddBlockAt(b: Block, p: Pos)
      requires Valid() && CanPlace(dim, cells, loc, b, p)
      modifies this
      ensures Valid()
      ensures loc == if b.length > 0 then old(loc)[b := p] else old(loc)
      ensures PlacedRun(old(cells), cells, b, p, b.length)
    {
      var cur: Option<Pos> := Some(p);
      var i := 0;
      while i < b.length
        invariant 0 <= i <= b.length
        invariant i < b.length ==> cur == Some(Pos(p.row, p.col + i))
        invariant PlacedRun(old(cells), cells, b, p, i)
        invariant loc == old(loc)
      {
        cells := cells[cur.value := b];
        cur := Right(dim, cur.value, 1);
        i := i + 1;
      }
      PlaceKeepsWF(dim, old(cells), old(loc), b, p, cells);
      if b.length > 0 {
        loc := loc[b := p];
      }
    }

    /** remove_block_from: the cells of `b` become free; nothing happens when `b` is not on the board. */
    method RemoveBlockFrom(b: Block)
      requires Valid()
      modifies this
      ensures Valid()
      ensures loc == old(loc) - {b}
      ensures RemovedRun(old(cells), cells, b)
    {
      var contained := ContainsBlock(b);
      if contained {
        var positions := AllPositionsOf(b);
        var i := 0;
        while i < |positions|
          invariant 0 <= i <= |positions|
          invariant loc == old(loc)
          invariant forall q :: q in cells <==> q in old(cells) && q !in positions[..i]
          invariant forall q | q in cells :: cells[q] == old(cells)[q]
        {
          cells := cells - {positions[i]};
          i := i + 1;
        }
        assert positions[..|positions|] == positions;
        RemoveKeepsWF(dim, old(cells), old(loc), b, cells);
        loc := loc - {b};
      } else {
        forall q | q in cells ensures cells[q] != b {
          assert Covers(loc, cells[q], q);
        }
      }
    }

    /** is_airborne: `b` is above the bottom row and every cell right below it is free. */
    method IsAirborne(b: Block) returns (r: bool)
      requires Valid() && b in loc
      ensures r <==> Airborne(dim, cells, loc, b)
    {
      var positions := AllPositionsOf(b);
      var i := 0;
      while i < |positions|
        invariant 0 <= i <= |positions|
        invariant i > 0 ==> loc[b].row != 'a'
        invariant loc[b].row != 'a' ==>
          FreeSpan(cells, RowBelow(dim, loc[b].row), loc[b].col, loc[b].col + i)
      {
        CellOfBlock(dim, cells, loc, b, i);
        var down := Down(dim, positions[i], 1);
        if down.None? {
          return false;
        }
        RowNumberInjective(dim, down.value.row, RowBelow(dim, loc[b].row));
        if !IsFreeAt(down.value) {
          return false;
        }
        i := i + 1;
      }
      return true;
    }

    /**
     * get_adjacent_blocks_above: the blocks resting on `b`, left to right,
     * found by walking the row above over the columns of `b`.
     */
    method AdjacentBlocksAbove(b: Block) returns (r: seq<Block>)
      requires Valid() && b in loc
      ensures loc[b].row == 'X' ==> r == []
      ensures loc[b].row != 'X' ==>
        ListsOverlapping(loc, RowAbove(dim, loc[b].row), loc[b].col, loc[b].col + b.length - 1, r)
      ensures forall y | y in loc :: y in r <==> RestsOn(dim, loc, y, b)
    {
      var leftmost := LeftmostPositionOf(b);
      var above := Up(dim, leftmost.value, 1);
      var toTake := b.length;
      r := [];
      if above.None? {
        NoRestingBeyondEdges(dim, cells, loc, b);
        return;
      }
      RowNumberInjective(dim, above.value.row, RowAbove(dim, loc[b].row));
      r := WalkRowAbove(above.value, toTake, loc[b].col + b.length - 1);
      WalkAboveRestsOn(dim, cells, loc, b, r);
    }

    /**
     * The loop of get_adjacent_blocks_above: from `start`, over `toTake`
     * columns up to `hi`, each block met is taken and the walk jumps past it.
     */
    method WalkRowAbove(start: Pos, toTake: int, ghost hi: int) returns (r: seq<Block>)
      requires Valid() && IsRowOf(dim, start.row) && 1 <= start.col <= dim.cols
      requires hi <= dim.cols && toTake == hi + 1 - start.col
      ensures r == RowWalk(dim, cells, loc, start.row, start.col, hi)
    {
      var above: Option<Pos> := Some(start);
      var rest := toTake;
      r := [];
      ghost var c := start.col;
      while above.Some? && rest > 0
        invariant rest == hi + 1 - c && start.col <= c
        invariant above.Some? ==> c <= dim.cols && above.value == Pos(start.row, c)
        invariant above.None? ==> c > dim.cols
        invariant r + RowWalk(dim, cells, loc, start.row, c, hi) == RowWalk(dim, cells, loc, start.row, start.col, hi)
        decreases rest
      {
        var taken, step := WalkAboveStep(above.value, hi);
        ConcatAssoc(r, taken, RowWalk(dim, cells, loc, start.row, c + step, hi));
        r := r + taken;
        above := Right(dim, above.value, step);
        rest := rest - step;
        c := c + step;
      }
      RowWalkPast(dim, cells, loc, start.row, c, hi);
    }

    /**
     * One turn of the walk of get_adjacent_blocks_above at `q`: the block met
     * there, if any, and the distance to the cell right after it.
     */
    method WalkAboveStep(q: Pos, ghost hi: int) returns (taken: seq<Block>, step: int)
      requires Valid() && IsRowOf(dim, q.row) && 1 <= q.col <= dim.cols && q.col <= hi
      ensures step >= 1
      ensures RowWalk(dim, cells, loc, q.row, q.col, hi) == taken + RowWalk(dim, cells, loc, q.row, q.col + step, hi)
    {
      var here := BlockAt(q);
      if here.Some? {
        var y := here.value;
        var start := LeftmostPositionOf(y);
        step := y.length - (q.col - start.value.col);
        RowWalkAtBlock(dim, cells, loc, q.row, q.col, hi);
        taken := [y];
      } else {
        step := 1;
        RowWalkAtFree(dim, cells, loc, q.row, q.col, hi);
        taken := [];
      }
    }

    /**
     * get_adjacent_blocks_below, called without a start position: the blocks
     * `b` rests on, left to right, walking the row below from right under the
     * leftmost cell of `b`.
     */
    method AdjacentBlocksBelow(b: Block) returns (r: seq<Block>)
      requires Valid() && b in loc
      ensures loc[b].row == 'a' ==> r == []
      ensures loc[b].row != 'a' ==>
        ListsOverlapping(loc, RowBelow(dim, loc[b].row), loc[b].col, loc[b].col + b.length - 1, r)
      ensures forall y | y in loc :: y in r <==> RestsOn(dim, loc, b, y)
    {
      var leftmost := LeftmostPositionOf(b);
      var start := Down(dim, leftmost.value, 1);
      if start.None? {
        NoRestingBeyondEdges(dim, cells, loc, b);
        return [];
      }
      RowNumberInjective(dim, start.value.row, RowBelow(dim, loc[b].row));
      r := AdjacentBlocksBelowFrom(b, start.value);
      WalkBelowRestsOn(dim, cells, loc, b, r);
    }

    /**
     * get_adjacent_blocks_below, called recursively with a start position in
     * the row below `b`: the block at `from` (nothing when that cell is free),
     * followed by the blocks from the cell right after it; nothing once `from`
     * is past the last column of `b`.
     */
    method AdjacentBlocksBelowFrom(b: Block, from: Pos) returns (r: seq<Block>)
      requires Valid() && b in loc && loc[b].row != 'a'
      requires from.row == RowBelow(dim, loc[b].row) && 1 <= from.col
      ensures r == RowWalk(dim, cells, loc, from.row, from.col, loc[b].col + b.length - 1)
      decreases dim.cols + 1 - from.col
    {
      var leftmost := LeftmostPositionOf(b);
      ghost var hi := loc[b].col + b.length - 1;
      if from.col > leftmost.value.col + b.length - 1 {
        RowWalkPast(dim, cells, loc, from.row, from.col, hi);
        return [];
      }
      var here := BlockAt(from);
      var step: int;
      if here.Some? {
        var yStart := LeftmostPositionOf(here.value);
        step := here.value.length - (from.col - yStart.value.col);
        r := [here.value];
      } else {
        step := 1;
        r := [];
      }
      var next := Right(dim, from, step);
      if next.Some? {
        var rest := AdjacentBlocksBelowFrom(b, next.value);
        r := r + rest;
      } else {
        RowWalkPast(dim, cells, loc, from.row, from.col + step, hi);
      }
      if here.Some? {
        RowWalkAtBlock(dim, cells, loc, from.row, from.col, hi);
      } else {
        RowWalkAtFree(dim, cells, loc, from.row, from.col, hi);
      }
    }

    /** get_adjacent_block_left: the block whose run ends right before the leftmost cell of `b`, if any. */
    method AdjacentBlockLeft(b: Block) returns (r: Option<Block>)
      requires Valid() && b in loc
      ensures r.Some? <==> loc[b].col > 1 && Pos(loc[b].row, loc[b].col - 1) in cells
      ensures r.Some? ==>
                && r.value in loc && r.value != b && loc[r.value].row == loc[b].row
                && loc[r.value].col + r.value.length == loc[b].col
    {
      var leftmost := LeftmostPositionOf(b);
      var left := Left(dim, leftmost.value, 1);
      if left.None? {
        return None;
      }
      r := BlockAt(left.value);
      if r.Some? {
        CellOfBlock(dim, cells, loc, b, 0);
        assert Covers(loc, b, loc[b]);
        if loc[r.value].col + r.value.length > loc[b].col {
          SharedCellSameBlock(dim, cells, loc, b, r.value, loc[b]);
        }
      }
    }

    /** get_adjacent_block_right: the block whose leftmost cell is right after the run of `b`, if any. */
    method AdjacentBlockRight(b: Block) returns (r: Option<Block>)
      requires Valid() && b in loc
      ensures r.Some? <==> loc[b].col + b.length <= dim.cols && Pos(loc[b].row, loc[b].col + b.length) in cells
      ensures r.Some? ==> r.value in loc && r.value != b && loc[r.value] == Pos(loc[b].row, loc[b].col + b.length)
    {
      var leftmost := LeftmostPositionOf(b);
      var right := Right(dim, leftmost.value, b.length);
      if right.None? {
        return None;
      }
      CellOfBlock(dim, cells, loc, b, 0);
      AfterBlockStartsRun(dim, cells, loc, loc[b]);
      r := BlockAt(right.value);
    }
  }
}
