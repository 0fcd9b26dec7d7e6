/**
 * Support queries (Board.py): the blocks a block holds up, directly or
 * through other blocks (get_supported_blocks, recursive), and the blocks
 * holding it up (get_supporting_blocks, with a work-list). Both answer with
 * the leftmost positions of those blocks.
 */
module Support {
  import opened Wrappers
  import opened Dimensions
  import opened Positions
  import opened Blocks
  import opened BoardSpec
  import opened Boards

  /**
   * `y` sits on `x`, directly or through a chain of blocks each resting on
   * the next: the supported/supporting relation of the source, read upwards.
   */
  ghost predicate Above(d: Dimension, loc: Locs, y: Block, x: Block)
    decreases if y in loc && IsRowOf(d, loc[y].row) then NbOfRow(d, loc[y].row) else 0
  {
    && y in loc && IsNamedDimension(d) && IsRowOf(d, loc[y].row)
    && exists z | z in loc && RestsOn(d, loc, y, z) && IsRowOf(d, loc[z].row) :: z == x || Above(d, loc, z, x)
  }

  /** The blocks that sit on `x`, directly or through other blocks. */
  ghost function BlocksAbove(d: Dimension, loc: Locs, x: Block): set<Block> {
    set y | y in loc && Above(d, loc, y, x)
  }

  /** The blocks that `y` sits on, directly or through other blocks. */
  ghost function BlocksBelow(d: Dimension, loc: Locs, y: Block): set<Block> {
    set x | x in loc && Above(d, loc, y, x)
  }

  /** The leftmost positions of the blocks of `s`. */
  ghost function PositionsOf(loc: Locs, s: set<Block>): set<Pos> {
    set y | y in s && y in loc :: loc[y]
  }

  /** Every block resting on a block of `s` belongs to `t`. */
  ghost predicate RestersIn(d: Dimension, loc: Locs, s: set<Block>, t: set<Block>) {
    forall x, y | x in s && y in loc && RestsOn(d, loc, y, x) :: y in t
  }

  /** A block sits strictly higher than every block it sits on; in particular never on itself. */
  lemma {:induction false} AboveIsHigher(d: Dimension, cells: Cells, loc: Locs, y: Block, x: Block)
    requires WF(d, cells, loc) && Above(d, loc, y, x)
    ensures x in loc && NbOfRow(d, loc[y].row) > NbOfRow(d, loc[x].row)
    decreases NbOfRow(d, loc[y].row)
  {
    var z :| z in loc && RestsOn(d, loc, y, z) && IsRowOf(d, loc[z].row) && (z == x || Above(d, loc, z, x));
    if z != x {
      AboveIsHigher(d, cells, loc, z, x);
    }
  }

  /** Resting on a block that sits on `x` (or on `x` itself) is sitting on `x`. */
  lemma AboveStep(d: Dimension, cells: Cells, loc: Locs, y: Block, z: Block, x: Block)
    requires WF(d, cells, loc) && RestsOn(d, loc, y, z) && (z == x || Above(d, loc, z, x))
    ensures Above(d, loc, y, x)
  {
    assert InBoard(d, loc[y]) && InBoard(d, loc[z]);
  }

  /** Sitting on a block that rests on `x` is sitting on `x`. */
  lemma {:induction false} AboveThenRests(d: Dimension, cells: Cells, loc: Locs, y: Block, a: Block, x: Block)
    requires WF(d, cells, loc) && Above(d, loc, y, a) && RestsOn(d, loc, a, x)
    ensures Above(d, loc, y, x)
    decreases NbOfRow(d, loc[y].row)
  {
    var z :| z in loc && RestsOn(d, loc, y, z) && IsRowOf(d, loc[z].row) && (z == a || Above(d, loc, z, a));
    if z == a {
      AboveStep(d, cells, loc, a, x, x);
    } else {
      AboveThenRests(d, cells, loc, z, a, x);
    }
    AboveStep(d, cells, loc, y, z, x);
  }

  /** A block sitting on `x` sits on every block `x` rests on. */
  lemma {:induction false} AboveThenBelow(d: Dimension, cells: Cells, loc: Locs, b: Block, x: Block, y: Block)
    requires WF(d, cells, loc) && (x == b || Above(d, loc, b, x)) && RestsOn(d, loc, x, y)
    ensures Above(d, loc, b, y)
    decreases NbOfRow(d, loc[b].row)
  {
    if x == b {
      AboveStep(d, cells, loc, b, y, y);
    } else {
      var z :| z in loc && RestsOn(d, loc, b, z) && IsRowOf(d, loc[z].row) && (z == x || Above(d, loc, z, x));
      if z == x {
        AboveStep(d, cells, loc, x, y, y);
      } else {
        AboveThenBelow(d, cells, loc, z, x, y);
      }
      AboveStep(d, cells, loc, b, z, y);
    }
  }

  /** A set closed upwards that holds `x` holds every block sitting on `x`. */
  lemma {:induction false} ClosedUpwardHoldsAbove(d: Dimension, cells: Cells, loc: Locs, t: set<Block>, x: Block, y: Block)
    requires WF(d, cells, loc) && RestersIn(d, loc, t, t) && x in t && Above(d, loc, y, x)
    ensures y in t
    decreases NbOfRow(d, loc[y].row)
  {
    var z :| z in loc && RestsOn(d, loc, y, z) && IsRowOf(d, loc[z].row) && (z == x || Above(d, loc, z, x));
    if z != x {
      ClosedUpwardHoldsAbove(d, cells, loc, t, x, z);
    }
  }

  /** Adding a block to a set adds its position to the positions. */
  lemma PositionsOfAdd(loc: Locs, s: set<Block>, x: Block)
    requires x in loc
    ensures PositionsOf(loc, s + {x}) == PositionsOf(loc, s) + {loc[x]}
  {
  }

  /** Positions of a union are the union of positions. */
  lemma PositionsOfUnion(loc: Locs, s: set<Block>, t: set<Block>)
    ensures PositionsOf(loc, s + t) == PositionsOf(loc, s) + PositionsOf(loc, t)
  {
  }

  /**
   * The state of SupportedFrom(b) once some blocks are handled: every block it
   * handled besides `b` sits on `b`, whatever rests on one of them is handled,
   * and `r` holds their positions.
   */
  ghost predicate SupportedSoFar(d: Dimension, loc: Locs, b: Block, handled: set<Block>, h: set<Block>, r: set<Pos>) {
    && handled + {b} <= h <= loc.Keys
    && (forall y | y in h - handled - {b} :: Above(d, loc, y, b))
    && RestersIn(d, loc, h - handled - {b}, h)
    && r == PositionsOf(loc, h - handled - {b})
  }

  /** One turn of the loop of SupportedFrom keeps its invariants. */
  lemma SupportedStep(d: Dimension, cells: Cells, loc: Locs, b: Block, handled: set<Block>, h1: set<Block>,
                      next: Block, h2: set<Block>, r: set<Pos>, extra: set<Pos>)
    requires WF(d, cells, loc) && b in loc && RestsOn(d, loc, next, b) && next !in h1
    requires SupportedSoFar(d, loc, b, handled, h1, r)
    requires SupportedSoFar(d, loc, next, h1, h2, extra) && RestersIn(d, loc, h2 - h1, h2)
    ensures SupportedSoFar(d, loc, b, handled, h2, r + {loc[next]} + extra)
  {
    forall y | y in h2 - handled - {b} ensures Above(d, loc, y, b) {
      if y in h2 - h1 - {next} {
        AboveThenRests(d, cells, loc, y, next, b);
      } else if y == next {
        AboveStep(d, cells, loc, next, b, b);
      }
    }
    PositionsOfAdd(loc, h1 - handled - {b}, next);
    PositionsOfUnion(loc, h1 - handled - {b} + {next}, h2 - h1 - {next});
    assert h2 - handled - {b} == (h1 - handled - {b} + {next}) + (h2 - h1 - {next});
  }

  /** The first `i` blocks of a listing stay in a set that grows. */
  lemma PrefixInLarger(s: seq<Block>, i: int, a: set<Block>, b: set<Block>)
    requires 0 <= i < |s| && (forall j | 0 <= j < i :: s[j] in a) && a <= b && s[i] in b
    ensures forall j | 0 <= j <= i :: s[j] in b
  {
  }

  /** Once every block resting on `b` is handled, SupportedFrom(b) keeps its promise. */
  lemma SupportedDone(d: Dimension, loc: Locs, b: Block, handled: set<Block>, h: set<Block>, r: set<Pos>)
    requires SupportedSoFar(d, loc, b, handled, h, r)
    requires forall y | y in loc && RestsOn(d, loc, y, b) :: y in h
    ensures RestersIn(d, loc, h - handled, h)
  {
  }

  /**
   * get_supported_blocks with its list of handled blocks: `b` is marked
   * handled, and unless `b` lies in the overflow row each block right above
   * it that is not handled yet has its position added, followed by the
   * positions that block supports in turn. The handled list is shared by all
   * calls; here it comes back as `handled'`.
   *
   * The blocks this call handles all sit on `b`, and everything resting on
   * one of them is handled by the time it returns.
   */
  method SupportedFrom(board: Board, b: Block, handled: set<Block>) returns (r: set<Pos>, handled': set<Block>)
    requires board.Valid() && b in board.loc && b !in handled && handled <= board.loc.Keys
    ensures SupportedSoFar(board.dim, board.loc, b, handled, handled', r)
    ensures RestersIn(board.dim, board.loc, handled' - handled, handled')
    decreases |board.loc.Keys - handled|, 1
  {
    handled' := handled + {b};
    r := {};
    var leftmost := board.LeftmostPositionOf(b);
    if leftmost.value.row != 'X' {
      var above := board.AdjacentBlocksAbove(b);
      var i := 0;
      while i < |above|
        invariant 0 <= i <= |above|
        invariant SupportedSoFar(board.dim, board.loc, b, handled, handled', r)
        invariant forall j | 0 <= j < i :: above[j] in handled'
      {
        SubsetSmaller(board.loc.Keys - handled', board.loc.Keys - handled, b);
        ghost var before := handled';
        r, handled' := SupportedVia(board, b, handled, handled', r, above[i]);
        PrefixInLarger(above, i, before, handled');
        i := i + 1;
      }
    } else {
      NoRestingBeyondEdges(board.dim, board.cells, board.loc, b);
    }
    SupportedDone(board.dim, board.loc, b, handled, handled', r);
  }

  /**
   * One turn of the loop of get_supported_blocks: a block `next` resting on
   * `b` that is not handled yet has its position added, followed by the
   * positions of the blocks it supports.
   */
  method SupportedVia(board: Board, b: Block, handled: set<Block>, h: set<Block>, r: set<Pos>, next: Block)
      returns (r': set<Pos>, h': set<Block>)
    requires board.Valid() && b in board.loc && next in board.loc && RestsOn(board.dim, board.loc, next, b)
    requires SupportedSoFar(board.dim, board.loc, b, handled, h, r)
    ensures SupportedSoFar(board.dim, board.loc, b, handled, h', r') && h <= h' && next in h'
    decreases |board.loc.Keys - h|, 2
  {
    if next in h {
      return r, h;
    }
    var at := board.LeftmostPositionOf(next);
    var extra;
    extra, h' := SupportedFrom(board, next, h);
    SupportedStep(board.dim, board.cells, board.loc, b, handled, h, next, h', r, extra);
    r' := r + {at.value} + extra;
  }

  /**
   * get_supported_blocks: the leftmost positions of exactly the blocks that
   * sit on `b`, directly or through other blocks; never that of `b` itself.
   */
  method SupportedBlocks(board: Board, b: Block) returns (r: set<Pos>)
    requires board.Valid() && b in board.loc
    ensures r == PositionsOf(board.loc, BlocksAbove(board.dim, board.loc, b))
    ensures board.loc[b] !in r
  {
    var handled;
    r, handled := SupportedFrom(board, b, {});
    assert handled - {} == handled;
    ghost var above := BlocksAbove(board.dim, board.loc, b);
    forall y | y in above ensures y in handled - {b} {
      ClosedUpwardHoldsAbove(board.dim, board.cells, board.loc, handled, b, y);
      AboveIsHigher(board.dim, board.cells, board.loc, y, b);
    }
    assert handled - {} - {b} == above;
    forall y | y in above ensures board.loc[y] != board.loc[b] {
      AboveIsHigher(board.dim, board.cells, board.loc, y, b);
    }
  }

  // ---------------------------------------------------------------- get_supporting_blocks

  /**
   * Whether `y` counts as already waiting on the work-list. With `byValue`
   * this is the test the source makes, Python's `in` on a list, which takes
   * a block with the same fields for `y`; otherwise only `y` itself counts.
   */
  predicate Pending(todo: seq<Block>, y: Block, byValue: bool) {
    if byValue then exists z | z in todo :: SameFields(z, y) else y in todo
  }

  /** The cell right below column `k` of a block whose leftmost cell is `p`. */
  function CellBelow(d: Dimension, p: Pos, k: int): Pos
    requires IsNamedDimension(d) && IsRowOf(d, p.row) && p.row != 'a'
  {
    Pos(RowBelow(d, p.row), p.col + k)
  }

  /**
   * The work-list after looking below columns k, k+1, ... of a block of
   * `length` whose leftmost cell is `p`: each block found there is appended
   * unless it is handled or pending.
   */
  ghost function PushBelow(d: Dimension, cells: Cells, p: Pos, length: int, k: int,
                           todo: seq<Block>, handled: set<Block>, byValue: bool): seq<Block>
    requires IsNamedDimension(d) && IsRowOf(d, p.row) && p.row != 'a'
    decreases length - k
  {
    if k >= length then todo
    else
      var q := CellBelow(d, p, k);
      var todo' := if q in cells && cells[q] !in handled && !Pending(todo, cells[q], byValue) then todo + [cells[q]] else todo;
      PushBelow(d, cells, p, length, k + 1, todo', handled, byValue)
  }

  /**
   * The result of the work-list loop of get_supporting_blocks from a given
   * state: the last block of the work-list is taken off and marked handled,
   * its position is collected unless it is the queried block `b`, and unless
   * it lies in row `a` the blocks right below its cells are pushed.
   */
  ghost function SupportWalk(d: Dimension, cells: Cells, loc: Locs, b: Block,
                             todo: seq<Block>, handled: set<Block>, acc: set<Pos>, byValue: bool): set<Pos>
    requires WF(d, cells, loc)
    decreases |loc.Keys - handled|, |todo|
  {
    if todo == [] then acc
    else
      var x := todo[|todo| - 1];
      var rest := todo[..|todo| - 1];
      if x !in loc || x in handled then SupportWalk(d, cells, loc, b, rest, handled, acc, byValue)
      else
        assert InBoard(d, loc[x]);
        var acc' := if x != b then acc + {loc[x]} else acc;
        var todo' := if loc[x].row != 'a' then PushBelow(d, cells, loc[x], x.length, 0, rest, handled + {x}, byValue) else rest;
        SubsetSmaller(loc.Keys - (handled + {x}), loc.Keys - handled, x);
        SupportWalk(d, cells, loc, b, todo', handled + {x}, acc', byValue)
  }

  /** No block appears twice in `s`. */
  ghost predicate NoDuplicates(s: seq<Block>) {
    forall i, j | 0 <= i < j < |s| :: s[i] != s[j]
  }

  /**
   * get_supporting_blocks, with the membership test on the work-list chosen
   * by `byValue`: the source's test is by value (`byValue`), the corrected
   * one by identity. The loop runs exactly as SupportWalk describes.
   */
  method SupportingBlocksBy(board: Board, b: Block, byValue: bool) returns (r: set<Pos>)
    requires board.Valid() && b in board.loc
    ensures r == SupportWalk(board.dim, board.cells, board.loc, b, [b], {}, {}, byValue)
  {
    var todo := [b];
    var handled: set<Block> := {};
    r := {};
    while |todo| > 0
      invariant SupportWalk(board.dim, board.cells, board.loc, b, todo, handled, r, byValue)
                == SupportWalk(board.dim, board.cells, board.loc, b, [b], {}, {}, byValue)
      invariant handled <= board.loc.Keys && NoDuplicates(todo)
      invariant forall y | y in todo :: y in board.loc && y !in handled
      decreases |board.loc.Keys - handled|, |todo|
    {
      var current := todo[|todo| - 1];
      todo := todo[..|todo| - 1];
      SubsetSmaller(board.loc.Keys - (handled + {current}), board.loc.Keys - handled, current);
      handled := handled + {current};
      var at := board.LeftmostPositionOf(current);
      if current != b {
        r := r + {at.value};
      }
      assert InBoard(board.dim, at.value);
      if at.value.row != 'a' {
        todo := PushBlocksBelow(board, current, todo, handled, byValue);
      }
    }
  }

  /** The inner loop of get_supporting_blocks: looks below each cell of `x` in turn. */
  method PushBlocksBelow(board: Board, x: Block, todo: seq<Block>, handled: set<Block>, byValue: bool) returns (todo': seq<Block>)
    requires board.Valid() && x in board.loc && x in handled && board.loc[x].row != 'a'
    requires NoDuplicates(todo) && forall y | y in todo :: y in board.loc && y !in handled
    ensures todo' == PushBelow(board.dim, board.cells, board.loc[x], x.length, 0, todo, handled, byValue)
    ensures NoDuplicates(todo') && forall y | y in todo' :: y in board.loc && y !in handled
  {
    var at := board.LeftmostPositionOf(x);
    assert InBoard(board.dim, at.value);
    var positions := board.AllPositionsOf(x);
    todo' := todo;
    var k := 0;
    while k < |positions|
      invariant 0 <= k <= |positions|
      invariant PushBelow(board.dim, board.cells, at.value, x.length, k, todo', handled, byValue)
                == PushBelow(board.dim, board.cells, at.value, x.length, 0, todo, handled, byValue)
      invariant NoDuplicates(todo')
      invariant forall y | y in todo' :: y in board.loc && y !in handled
    {
      var below := Down(board.dim, positions[k], 1);
      RowNumberInjective(board.dim, below.value.row, RowBelow(board.dim, at.value.row));
      assert below.value == CellBelow(board.dim, at.value, k);
      var found := board.BlockAt(below.value);
      if found.Some? && found.value !in handled && !Pending(todo', found.value, byValue) {
        assert found.value !in todo';
        todo' := todo' + [found.value];
      }
      k := k + 1;
    }
  }

  /** The block right below a cell of `x` is a block `x` rests on. */
  lemma CellBelowRests(d: Dimension, cells: Cells, loc: Locs, x: Block, k: int)
    requires WF(d, cells, loc) && x in loc && loc[x].row != 'a' && 0 <= k < x.length
    requires InBoard(d, loc[x]) && CellBelow(d, loc[x], k) in cells
    ensures RestsOn(d, loc, x, cells[CellBelow(d, loc[x], k)])
  {
    assert Covers(loc, cells[CellBelow(d, loc[x], k)], CellBelow(d, loc[x], k));
  }

  /** Every block `x` rests on lies right below one of the cells of `x`. */
  lemma RestsOnCellBelow(d: Dimension, cells: Cells, loc: Locs, x: Block, y: Block) returns (k: int)
    requires WF(d, cells, loc) && RestsOn(d, loc, x, y)
    ensures InBoard(d, loc[x]) && loc[x].row != 'a' && 0 <= k < x.length
    ensures CellBelow(d, loc[x], k) in cells && cells[CellBelow(d, loc[x], k)] == y
  {
    assert InBoard(d, loc[x]) && InBoard(d, loc[y]);
    k := if loc[y].col > loc[x].col then loc[y].col - loc[x].col else 0;
    RowNumberInjective(d, loc[y].row, RowBelow(d, loc[x].row));
    assert Covers(loc, y, CellBelow(d, loc[x], k));
  }

  /** `y` is stored right below one of the first `length` cells from `p`. */
  ghost predicate BelowOneOf(d: Dimension, cells: Cells, p: Pos, length: int, y: Block)
    requires IsNamedDimension(d) && IsRowOf(d, p.row) && p.row != 'a'
  {
    exists k | 0 <= k < length :: CellBelow(d, p, k) in cells && cells[CellBelow(d, p, k)] == y
  }

  /**
   * Pushing keeps the work-list and appends only blocks found below the
   * cells; with the identity test every block found below the cells looked
   * at ends up handled or on the work-list.
   */
  lemma {:induction false} PushBelowFacts(d: Dimension, cells: Cells, p: Pos, length: int, k: int,
                                          todo: seq<Block>, handled: set<Block>, byValue: bool)
    requires IsNamedDimension(d) && IsRowOf(d, p.row) && p.row != 'a' && 0 <= k
    ensures var t := PushBelow(d, cells, p, length, k, todo, handled, byValue);
      && (forall y | y in todo :: y in t)
      && (forall y | y in t && y !in todo :: BelowOneOf(d, cells, p, length, y))
      && (!byValue ==> forall j | k <= j < length && CellBelow(d, p, j) in cells ::
                         cells[CellBelow(d, p, j)] in handled || cells[CellBelow(d, p, j)] in t)
    decreases length - k
  {
    if k < length {
      var q := CellBelow(d, p, k);
      var todo' := if q in cells && cells[q] !in handled && !Pending(todo, cells[q], byValue) then todo + [cells[q]] else todo;
      PushBelowFacts(d, cells, p, length, k + 1, todo', handled, byValue);
    }
  }

  /** What holds of every state the identity-test walk passes through. */
  ghost predicate WalkInv(d: Dimension, loc: Locs, b: Block, todo: seq<Block>, handled: set<Block>, acc: set<Pos>) {
    && (forall y | y in todo :: y == b || Above(d, loc, b, y))
    && (forall y | y in handled :: y == b || Above(d, loc, b, y))
    && acc == PositionsOf(loc, handled - {b})
    && (forall x, y | x in handled && y in loc && RestsOn(d, loc, x, y) :: y in handled || y in todo)
    && (b in handled || b in todo)
  }

  /** A set closed downwards that holds `y` holds every block `y` sits on. */
  lemma {:induction false} ClosedDownwardHoldsBelow(d: Dimension, cells: Cells, loc: Locs, t: set<Block>, y: Block, x: Block)
    requires WF(d, cells, loc) && y in t && Above(d, loc, y, x)
    requires forall u, v | u in t && v in loc && RestsOn(d, loc, u, v) :: v in t
    ensures x in t
    decreases NbOfRow(d, loc[y].row)
  {
    var z :| z in loc && RestsOn(d, loc, y, z) && IsRowOf(d, loc[z].row) && (z == x || Above(d, loc, z, x));
    if z != x {
      ClosedDownwardHoldsBelow(d, cells, loc, t, z, x);
    }
  }

  /** A finished walk has handled exactly `b` and the blocks it sits on. */
  lemma WalkDone(d: Dimension, cells: Cells, loc: Locs, b: Block, handled: set<Block>, acc: set<Pos>)
    requires WF(d, cells, loc) && b in loc && WalkInv(d, loc, b, [], handled, acc)
    ensures acc == PositionsOf(loc, BlocksBelow(d, loc, b))
  {
    var below := BlocksBelow(d, loc, b);
    forall y | y in handled - {b} ensures y in below {
      AboveIsHigher(d, cells, loc, b, y);
    }
    forall y | y in below ensures y in handled - {b} {
      ClosedDownwardHoldsBelow(d, cells, loc, handled, b, y);
      AboveIsHigher(d, cells, loc, b, y);
    }
    assert handled - {b} == below;
  }

  /** One turn of the identity-test walk keeps WalkInv. */
  lemma WalkStep(d: Dimension, cells: Cells, loc: Locs, b: Block, rest: seq<Block>, x: Block, handled: set<Block>, acc: set<Pos>)
    requires WF(d, cells, loc) && b in loc && WalkInv(d, loc, b, rest + [x], handled, acc)
    requires x in loc && x !in handled
    ensures InBoard(d, loc[x])
    ensures WalkInv(d, loc, b, if loc[x].row != 'a' then PushBelow(d, cells, loc[x], x.length, 0, rest, handled + {x}, false) else rest,
                    handled + {x}, if x != b then acc + {loc[x]} else acc)
  {
    assert InBoard(d, loc[x]);
    assert x in rest + [x];
    var todo' := if loc[x].row != 'a' then PushBelow(d, cells, loc[x], x.length, 0, rest, handled + {x}, false) else rest;
    if loc[x].row != 'a' {
      PushBelowFacts(d, cells, loc[x], x.length, 0, rest, handled + {x}, false);
      forall y | y in todo' && y !in rest ensures Above(d, loc, b, y) {
        var k :| 0 <= k < x.length && CellBelow(d, loc[x], k) in cells && cells[CellBelow(d, loc[x], k)] == y;
        CellBelowRests(d, cells, loc, x, k);
        AboveThenBelow(d, cells, loc, b, x, y);
      }
    }
    forall u, v | u in handled + {x} && v in loc && RestsOn(d, loc, u, v) ensures v in handled + {x} || v in todo' {
      if u == x {
        var k := RestsOnCellBelow(d, cells, loc, x, v);
      } else {
        assert v in handled || v in rest + [x];
      }
    }
    if x != b {
      PositionsOfAdd(loc, handled - {b}, x);
      assert handled + {x} - {b} == handled - {b} + {x};
    } else {
      assert handled + {x} - {b} == handled - {b};
    }
  }

  /** The identity-test walk started on `b` collects the positions of exactly the blocks `b` sits on. */
  lemma {:induction false} WalkFindsSupporters(d: Dimension, cells: Cells, loc: Locs, b: Block,
                                               todo: seq<Block>, handled: set<Block>, acc: set<Pos>)
    requires WF(d, cells, loc) && b in loc && WalkInv(d, loc, b, todo, handled, acc)
    ensures SupportWalk(d, cells, loc, b, todo, handled, acc, false) == PositionsOf(loc, BlocksBelow(d, loc, b))
    decreases |loc.Keys - handled|, |todo|
  {
    if todo == [] {
      WalkDone(d, cells, loc, b, handled, acc);
    } else {
      var x := todo[|todo| - 1];
      var rest := todo[..|todo| - 1];
      assert todo == rest + [x];
      assert x == b || Above(d, loc, b, x);
      if x != b {
        AboveIsHigher(d, cells, loc, b, x);
      }
      if x in handled {
        WalkFindsSupporters(d, cells, loc, b, rest, handled, acc);
      } else {
        WalkStep(d, cells, loc, b, rest, x, handled, acc);
        SubsetSmaller(loc.Keys - (handled + {x}), loc.Keys - handled, x);
        WalkFindsSupporters(d, cells, loc, b,
                            if loc[x].row != 'a' then PushBelow(d, cells, loc[x], x.length, 0, rest, handled + {x}, false) else rest,
                            handled + {x}, if x != b then acc + {loc[x]} else acc);
      }
    }
  }

  /**
   * get_supporting_blocks with the work-list tested by identity: the leftmost
   * positions of exactly the blocks `b` sits on, directly or through other
   * blocks; never that of `b` itself.
   */
  method SupportingBlocks(board: Board, b: Block) returns (r: set<Pos>)
    requires board.Valid() && b in board.loc
    ensures r == PositionsOf(board.loc, BlocksBelow(board.dim, board.loc, b))
    ensures board.loc[b] !in r
  {
    r := SupportingBlocksBy(board, b, false);
    WalkFindsSupporters(board.dim, board.cells, board.loc, b, [b], {}, {});
    forall y | y in BlocksBelow(board.dim, board.loc, b) ensures board.loc[y] != board.loc[b] {
      AboveIsHigher(board.dim, board.cells, board.loc, b, y);
    }
  }

  /** The board of SupportingAsWrittenMisses: `B` in row `b` over `y1` and `y2` in row `a`. */
  ghost function ExampleLoc(B: Block, y1: Block, y2: Block): Locs {
    map[B := Pos('b', 1), y1 := Pos('a', 1), y2 := Pos('a', 2)]
  }

  ghost function ExampleCells(B: Block, y1: Block, y2: Block): Cells {
    map[Pos('b', 1) := B, Pos('b', 2) := B, Pos('a', 1) := y1, Pos('a', 2) := y2]
  }

  /** The example board is a proper board of 3 rows and 4 columns. */
  lemma ExampleWF(B: Block, y1: Block, y2: Block)
    requires B != y1 && B != y2 && y1 != y2
    requires B.length == 2 && y1.length == 1 && y2.length == 1
    ensures WF(Dimension(3, 4), ExampleCells(B, y1, y2), ExampleLoc(B, y1, y2))
  {
    var loc, cells := ExampleLoc(B, y1, y2), ExampleCells(B, y1, y2);
    forall x, p | x in loc && Covers(loc, x, p) ensures p in cells && cells[p] == x {
      assert p == Pos(p.row, p.col);
    }
  }

  /**
   * The source's work-list test by value loses supporting blocks. Take a
   * block `B` of length 2 in row `b` resting on two distinct blocks of
   * length 1 with equal fields in row `a`. Once the left one is pending, the
   * right one counts as pending as well and is never handled, so the walk
   * answers only the left position although `B` also rests on the right one.
   */
  lemma SupportingAsWrittenMisses(B: Block, y1: Block, y2: Block)
    requires B != y1 && B != y2 && y1 != y2
    requires B.length == 2 && y1.length == 1 && SameFields(y1, y2)
    ensures WF(Dimension(3, 4), ExampleCells(B, y1, y2), ExampleLoc(B, y1, y2))
    ensures SupportWalk(Dimension(3, 4), ExampleCells(B, y1, y2), ExampleLoc(B, y1, y2), B, [B], {}, {}, true) == {Pos('a', 1)}
    ensures Pos('a', 2) in PositionsOf(ExampleLoc(B, y1, y2), BlocksBelow(Dimension(3, 4), ExampleLoc(B, y1, y2), B))
  {
    var d, loc, cells := Dimension(3, 4), ExampleLoc(B, y1, y2), ExampleCells(B, y1, y2);
    ExampleWF(B, y1, y2);
    WalkExampleHead(B, y1, y2);
    WalkExampleTail(B, y1, y2);
    AboveStep(d, cells, loc, B, y2, y2);
    assert y2 in BlocksBelow(d, loc, B);
  }

  /** The first turn of the walk of SupportingAsWrittenMisses: `B` is handled and only `y1` is pushed. */
  lemma WalkExampleHead(B: Block, y1: Block, y2: Block)
    requires B != y1 && B != y2 && y1 != y2
    requires B.length == 2 && y1.length == 1 && SameFields(y1, y2)
    requires WF(Dimension(3, 4), ExampleCells(B, y1, y2), ExampleLoc(B, y1, y2))
    ensures SupportWalk(Dimension(3, 4), ExampleCells(B, y1, y2), ExampleLoc(B, y1, y2), B, [B], {}, {}, true)
         == SupportWalk(Dimension(3, 4), ExampleCells(B, y1, y2), ExampleLoc(B, y1, y2), B, [y1], {B}, {}, true)
  {
    var d, loc, cells := Dimension(3, 4), ExampleLoc(B, y1, y2), ExampleCells(B, y1, y2);
    var p := Pos('b', 1);
    assert CellBelow(d, p, 0) == Pos('a', 1) && CellBelow(d, p, 1) == Pos('a', 2);
    assert Pending([y1], y2, true) by {
      assert y1 in [y1] && SameFields(y1, y2);
    }
    assert PushBelow(d, cells, p, 2, 1, [y1], {B}, true) == [y1];
    assert PushBelow(d, cells, p, 2, 0, [], {B}, true) == [y1];
    assert [B][..0] == [] && {} + {B} == {B} && loc[B] == p;
  }

  /** The last turns of the walk of SupportingAsWrittenMisses: `y1` is handled and the walk ends. */
  lemma WalkExampleTail(B: Block, y1: Block, y2: Block)
    requires B != y1 && B != y2 && y1 != y2
    requires B.length == 2 && y1.length == 1 && y2.length == 1
    ensures WF(Dimension(3, 4), ExampleCells(B, y1, y2), ExampleLoc(B, y1, y2))
    ensures SupportWalk(Dimension(3, 4), ExampleCells(B, y1, y2), ExampleLoc(B, y1, y2), B, [y1], {B}, {}, true) == {Pos('a', 1)}
  {
    var d, loc, cells := Dimension(3, 4), ExampleLoc(B, y1, y2), ExampleCells(B, y1, y2);
    ExampleWF(B, y1, y2);
    assert SupportWalk(d, cells, loc, B, [], {B, y1}, {Pos('a', 1)}, true) == {Pos('a', 1)};
    assert [y1][..0] == [] && {B} + {y1} == {B, y1} && {} + {loc[y1]} == {Pos('a', 1)};
  }
}
