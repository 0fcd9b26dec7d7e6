/**
 * The meaning of a board's cell map (Board.py), stated over plain values so
 * that lemmas can speak about it. A board stores, for every occupied cell, the
 * block that covers it; `loc` maps every block on the board to its leftmost
 * cell. Under WF the two agree: a block covers exactly the `length` cells
 * rightwards from its leftmost cell, in one row.
 */
module BoardSpec {
  import opened Wrappers
  import opened Dimensions
  import opened Positions
  import opened Blocks

  type Cells = map<Pos, Block>
  type Locs = map<Block, Pos>

  /** A cell of a board of dimension `d`. */
  predicate InBoard(d: Dimension, p: Pos) {
    IsRowOf(d, p.row) && 1 <= p.col <= d.cols
  }

  /** Block `x`, placed at its leftmost cell `loc[x]`, covers cell `p`. */
  ghost predicate Covers(loc: Locs, x: Block, p: Pos) {
    x in loc && p.row == loc[x].row && loc[x].col <= p.col < loc[x].col + x.length
  }

  /** A block fits on the board with its leftmost cell at `p`. */
  ghost predicate Placed(d: Dimension, x: Block, p: Pos) {
    1 <= x.length <= d.cols / 2 && InBoard(d, p) && p.col + x.length - 1 <= d.cols
  }

  /**
   * The board invariant: every stored cell is on the board and covered by the
   * block stored there, every block is proper for the dimension and lies in
   * one row, and every cell a block covers stores that block. So each block
   * occupies exactly one contiguous run of its length.
   */
  ghost predicate WF(d: Dimension, cells: Cells, loc: Locs) {
    && IsNamedDimension(d)
    && (forall p | p in cells :: InBoard(d, p) && Covers(loc, cells[p], p))
    && (forall x | x in loc :: Placed(d, x, loc[x]))
    && (forall x, p {:trigger Covers(loc, x, p)} | x in loc && Covers(loc, x, p) :: p in cells && cells[p] == x)
  }

  /** Under WF the cell map is a function of the placements. */
  lemma CellsDeterminedByLocs(d: Dimension, c1: Cells, c2: Cells, loc: Locs)
    requires WF(d, c1, loc) && WF(d, c2, loc)
    ensures c1 == c2
  {
    forall p | p in c1 ensures p in c2 && c2[p] == c1[p] {
      assert Covers(loc, c1[p], p);
    }
    forall p | p in c2 ensures p in c1 {
      assert Covers(loc, c2[p], p);
    }
  }

  /** The k-th cell of a placed block stores that block. */
  lemma CellOfBlock(d: Dimension, cells: Cells, loc: Locs, x: Block, k: int)
    requires WF(d, cells, loc) && x in loc && 0 <= k < x.length
    ensures Pos(loc[x].row, loc[x].col + k) in cells && cells[Pos(loc[x].row, loc[x].col + k)] == x
    ensures InBoard(d, Pos(loc[x].row, loc[x].col + k))
  {
    assert Covers(loc, x, Pos(loc[x].row, loc[x].col + k));
  }

  /** Two different blocks in one row do not overlap. */
  lemma NoOverlap(d: Dimension, cells: Cells, loc: Locs, x: Block, y: Block)
    requires WF(d, cells, loc) && x in loc && y in loc && x != y && loc[x].row == loc[y].row
    ensures loc[x].col + x.length <= loc[y].col || loc[y].col + y.length <= loc[x].col
  {
    if !(loc[x].col + x.length <= loc[y].col || loc[y].col + y.length <= loc[x].col) {
      var c := if loc[x].col < loc[y].col then loc[y].col else loc[x].col;
      assert Covers(loc, x, Pos(loc[x].row, c)) && Covers(loc, y, Pos(loc[x].row, c));
      assert false;
    }
  }

  /** Different blocks have different leftmost cells. */
  lemma LocsInjective(d: Dimension, cells: Cells, loc: Locs, x: Block, y: Block)
    requires WF(d, cells, loc) && x in loc && y in loc && x != y
    ensures loc[x] != loc[y]
  {
    if loc[x].row == loc[y].row {
      NoOverlap(d, cells, loc, x, y);
    }
  }

  /** A cell that is aligned: if it is occupied, it is the leftmost cell of its block. */
  ghost predicate StartsRun(cells: Cells, loc: Locs, p: Pos) {
    p in cells ==> cells[p] in loc && loc[cells[p]] == p
  }

  /** Column 1 is always aligned. */
  lemma FirstColumnStartsRun(d: Dimension, cells: Cells, loc: Locs, row: char)
    requires WF(d, cells, loc)
    ensures StartsRun(cells, loc, Pos(row, 1))
  {
    var p := Pos(row, 1);
    if p in cells {
      assert Covers(loc, cells[p], p);
    }
  }

  /** The cell right after a free cell is aligned. */
  lemma AfterFreeStartsRun(d: Dimension, cells: Cells, loc: Locs, row: char, c: int)
    requires WF(d, cells, loc) && Pos(row, c) !in cells
    ensures StartsRun(cells, loc, Pos(row, c + 1))
  {
    var p := Pos(row, c + 1);
    if p in cells {
      var y := cells[p];
      assert Covers(loc, y, p);
      if loc[y].col < c + 1 {
        assert Covers(loc, y, Pos(row, c));
      }
    }
  }

  /** The cell right after the run of an aligned block is aligned. */
  lemma AfterBlockStartsRun(d: Dimension, cells: Cells, loc: Locs, p: Pos)
    requires WF(d, cells, loc) && p in cells && StartsRun(cells, loc, p)
    ensures StartsRun(cells, loc, Pos(p.row, p.col + cells[p].length))
  {
    var x := cells[p];
    var q := Pos(p.row, p.col + x.length);
    if q in cells {
      var y := cells[q];
      assert Covers(loc, y, q);
      if loc[y].col < q.col {
        CellOfBlock(d, cells, loc, x, x.length - 1);
        assert Covers(loc, y, Pos(p.row, q.col - 1));
      }
    }
  }

  /** No block has its leftmost cell strictly inside the run of an aligned block x, other than x. */
  lemma NoStartInsideRun(d: Dimension, cells: Cells, loc: Locs, p: Pos, y: Block)
    requires WF(d, cells, loc) && p in cells && StartsRun(cells, loc, p)
    requires y in loc && loc[y].row == p.row && p.col <= loc[y].col < p.col + cells[p].length
    ensures y == cells[p]
  {
    assert Covers(loc, y, loc[y]);
    assert Covers(loc, cells[p], loc[y]);
  }

  // ---------------------------------------------------------------- listings

  /** `s` lists the blocks of `row` whose leftmost column is below `upTo`, once each, left to right. */
  ghost predicate ListsRowUpTo(loc: Locs, row: char, upTo: int, s: seq<Block>) {
    && (forall i | 0 <= i < |s| :: s[i] in loc && loc[s[i]].row == row && loc[s[i]].col < upTo)
    && (forall i, j | 0 <= i < j < |s| :: loc[s[i]].col < loc[s[j]].col)
    && (forall x {:trigger x in s} | x in loc && loc[x].row == row && loc[x].col < upTo :: x in s)
  }

  /** The block starting at column `upTo` extends a listing of the row up to past its cells. */
  lemma ListsRowTakeBlock(d: Dimension, cells: Cells, loc: Locs, row: char, upTo: int, s: seq<Block>)
    requires WF(d, cells, loc) && Pos(row, upTo) in cells && StartsRun(cells, loc, Pos(row, upTo))
    requires ListsRowUpTo(loc, row, upTo, s)
    ensures var x := cells[Pos(row, upTo)];
      ListsRowUpTo(loc, row, upTo + x.length, s + [x]) && StartsRun(cells, loc, Pos(row, upTo + x.length))
  {
    var p := Pos(row, upTo);
    var x := cells[p];
    forall y | y in loc && loc[y].row == row && loc[y].col < upTo + x.length ensures y in s + [x] {
      if loc[y].col >= upTo {
        NoStartInsideRun(d, cells, loc, p, y);
      } else {
        assert y in s;
      }
    }
    AfterBlockStartsRun(d, cells, loc, p);
  }

  /** A free cell at column `upTo` extends a listing of the row by one column. */
  lemma ListsRowSkipFree(d: Dimension, cells: Cells, loc: Locs, row: char, upTo: int, s: seq<Block>)
    requires WF(d, cells, loc) && Pos(row, upTo) !in cells && ListsRowUpTo(loc, row, upTo, s)
    ensures ListsRowUpTo(loc, row, upTo + 1, s) && StartsRun(cells, loc, Pos(row, upTo + 1))
  {
    forall y | y in loc && loc[y].row == row && loc[y].col < upTo + 1 ensures y in s {
      FreeCellStartsNothing(d, cells, loc, Pos(row, upTo), y);
    }
    AfterFreeStartsRun(d, cells, loc, row, upTo);
  }

  /** `s` lists every block of `row` once, left to right. */
  ghost predicate ListsRow(d: Dimension, loc: Locs, row: char, s: seq<Block>) {
    ListsRowUpTo(loc, row, d.cols + 1, s)
  }

  /** Leftmost cells in row-major order, bottom row first. */
  ghost predicate Precedes(d: Dimension, p: Pos, q: Pos) {
    NbOfRow(d, p.row) < NbOfRow(d, q.row) || (NbOfRow(d, p.row) == NbOfRow(d, q.row) && p.col < q.col)
  }

  /** `s` lists the blocks of the rows numbered below `k`, once each, in row-major order. */
  ghost predicate ListsRowsBelow(d: Dimension, loc: Locs, k: int, s: seq<Block>) {
    && (forall i | 0 <= i < |s| :: s[i] in loc && NbOfRow(d, loc[s[i]].row) < k)
    && (forall i, j | 0 <= i < j < |s| :: Precedes(d, loc[s[i]], loc[s[j]]))
    && (forall x {:trigger x in s} | x in loc && NbOfRow(d, loc[x].row) < k :: x in s)
  }

  /** `s` lists every block of the board once, bottom row first, left to right within a row. */
  ghost predicate ListsBoard(d: Dimension, loc: Locs, s: seq<Block>) {
    ListsRowsBelow(d, loc, d.rows + 1, s)
  }

  /** A listing in a strict order has no repetitions. */
  lemma ListingHasNoDuplicates(d: Dimension, cells: Cells, loc: Locs, s: seq<Block>)
    requires WF(d, cells, loc) && ListsBoard(d, loc, s)
    ensures forall i, j | 0 <= i < j < |s| :: s[i] != s[j]
  {
  }

  /** Dropping the rightmost block of a row listing lists the row up to that block's column. */
  lemma DropLastOfRowListing(loc: Locs, row: char, upTo: int, s: seq<Block>)
    requires ListsRowUpTo(loc, row, upTo, s) && s != []
    ensures ListsRowUpTo(loc, row, loc[s[|s| - 1]].col, s[..|s| - 1])
  {
    var last := s[|s| - 1];
    var s' := s[..|s| - 1];
    forall x | x in loc && loc[x].row == row && loc[x].col < loc[last].col ensures x in s' {
      assert x in s;
      var i :| 0 <= i < |s| && s[i] == x;
      assert i != |s| - 1;
    }
  }

  /** Two row listings end with the same block. */
  lemma RowListingsShareLast(loc: Locs, row: char, upTo: int, s: seq<Block>, t: seq<Block>)
    requires ListsRowUpTo(loc, row, upTo, s) && ListsRowUpTo(loc, row, upTo, t) && s != [] && t != []
    ensures s[|s| - 1] == t[|t| - 1]
  {
    var last, lastT := s[|s| - 1], t[|t| - 1];
    assert last in t && lastT in s;
  }

  /** A row listing is empty exactly when no block of the row starts before `upTo`. */
  lemma RowListingEmpty(loc: Locs, row: char, upTo: int, s: seq<Block>)
    requires ListsRowUpTo(loc, row, upTo, s)
    ensures s == [] <==> forall x | x in loc && loc[x].row == row :: loc[x].col >= upTo
  {
    if s != [] {
      assert s[0] in loc && loc[s[0]].row == row && loc[s[0]].col < upTo;
    } else {
      forall x | x in loc && loc[x].row == row ensures loc[x].col >= upTo {
        assert loc[x].col < upTo ==> x in s;
      }
    }
  }

  /** There is only one listing of a row: the scan result is determined by the board. */
  lemma {:induction false} RowListingUnique(loc: Locs, row: char, upTo: int, s: seq<Block>, t: seq<Block>)
    requires ListsRowUpTo(loc, row, upTo, s) && ListsRowUpTo(loc, row, upTo, t)
    ensures s == t
    decreases |s|
  {
    RowListingEmpty(loc, row, upTo, s);
    RowListingEmpty(loc, row, upTo, t);
    if s != [] && t != [] {
      RowListingsShareLast(loc, row, upTo, s, t);
      var last := s[|s| - 1];
      var s', t' := s[..|s| - 1], t[..|t| - 1];
      DropLastOfRowListing(loc, row, upTo, s);
      DropLastOfRowListing(loc, row, upTo, t);
      RowListingUnique(loc, row, loc[last].col, s', t');
      calc {
        s;
        s' + [last];
        t' + [last];
        t;
      }
    }
  }

  /** `s` lists, once each and left to right, the blocks of `row` that overlap columns lo..hi. */
  ghost predicate ListsOverlapping(loc: Locs, row: char, lo: int, hi: int, s: seq<Block>) {
    && (forall i | 0 <= i < |s| :: s[i] in loc && loc[s[i]].row == row && Overlaps(loc[s[i]].col, s[i].length, lo, hi))
    && (forall i, j | 0 <= i < j < |s| :: loc[s[i]].col < loc[s[j]].col)
    && (forall x {:trigger x in s} | x in loc && loc[x].row == row && Overlaps(loc[x].col, x.length, lo, hi) :: x in s)
  }

  /** The run of `length` cells from column c shares a column with lo..hi. */
  predicate Overlaps(c: int, length: int, lo: int, hi: int) {
    c <= hi && lo <= c + length - 1
  }

  // ---------------------------------------------------------------- rows

  /** No block lies in `row`. */
  ghost predicate RowEmpty(loc: Locs, row: char) {
    forall x | x in loc :: loc[x].row != row
  }

  /** Every cell of `row` is occupied. */
  ghost predicate RowFull(d: Dimension, cells: Cells, row: char) {
    forall c | 1 <= c <= d.cols :: Pos(row, c) in cells
  }

  /** The cells of `row` from lo to hi-1 are all free. */
  ghost predicate FreeSpan(cells: Cells, row: char, lo: int, hi: int) {
    forall c | lo <= c < hi :: Pos(row, c) !in cells
  }

  /** A free cell right after a free span extends it. */
  lemma FreeSpanExtend(cells: Cells, row: char, lo: int, hi: int)
    requires FreeSpan(cells, row, lo, hi) && Pos(row, hi) !in cells
    ensures FreeSpan(cells, row, lo, hi + 1)
  {
  }

  /** Every run of free cells of `row` ending by column upTo - 1 is at most m long. */
  ghost predicate GapsAtMost(cells: Cells, row: char, upTo: int, m: int) {
    forall lo, hi | 1 <= lo <= hi <= upTo && FreeSpan(cells, row, lo, hi) :: hi - lo <= m
  }

  /** Past a free cell that extends the current run of `gap` free cells, the bound covers the longer run. */
  lemma GapsGrowFree(cells: Cells, row: char, upTo: int, gap: int, m: int)
    requires GapsAtMost(cells, row, upTo, m) && 0 <= gap <= m && gap < upTo
    requires upTo - gap == 1 || Pos(row, upTo - gap - 1) in cells
    ensures GapsAtMost(cells, row, upTo + 1, if gap + 1 > m then gap + 1 else m)
  {
    forall lo, hi | 1 <= lo <= hi <= upTo + 1 && FreeSpan(cells, row, lo, hi)
      ensures hi - lo <= if gap + 1 > m then gap + 1 else m
    {
      if hi == upTo + 1 {
        assert lo < upTo - gap ==> Pos(row, upTo - gap - 1) in cells;
      } else {
        assert FreeSpan(cells, row, lo, hi);
      }
    }
  }

  /** Past the run of a block no free run gets longer. */
  lemma GapsGrowBlock(d: Dimension, cells: Cells, loc: Locs, x: Block, upTo: int, m: int)
    requires WF(d, cells, loc) && x in loc && GapsAtMost(cells, loc[x].row, upTo, m) && loc[x].col == upTo && m >= 0
    ensures GapsAtMost(cells, loc[x].row, upTo + x.length, m)
  {
    var row := loc[x].row;
    forall lo, hi | 1 <= lo <= hi <= upTo + x.length && FreeSpan(cells, row, lo, hi)
      ensures hi - lo <= m
    {
      if hi > upTo {
        CellOfBlock(d, cells, loc, x, hi - 1 - upTo);
        assert Pos(row, hi - 1) in cells;
      } else {
        assert FreeSpan(cells, row, lo, hi);
      }
    }
  }

  /** A row with no blocks has no occupied cell. */
  lemma EmptyRowIsFree(d: Dimension, cells: Cells, loc: Locs, row: char)
    requires WF(d, cells, loc) && RowEmpty(loc, row)
    ensures FreeSpan(cells, row, 1, d.cols + 1)
  {
  }

  /** The row just below a row other than `a`. */
  function RowBelow(d: Dimension, r: char): (b: char)
    requires IsNamedDimension(d) && IsRowOf(d, r) && r != 'a'
    ensures IsRowOf(d, b) && NbOfRow(d, b) == NbOfRow(d, r) - 1
  {
    IdOfRow(d, NbOfRow(d, r) - 1)
  }

  /** The row just above a row other than `X`. */
  function RowAbove(d: Dimension, r: char): (a: char)
    requires IsNamedDimension(d) && IsRowOf(d, r) && r != 'X'
    ensures IsRowOf(d, a) && NbOfRow(d, a) == NbOfRow(d, r) + 1
  {
    IdOfRow(d, NbOfRow(d, r) + 1)
  }

  // ---------------------------------------------------------------- gravity and support

  /** A placed block is airborne when it is above row `a` and every cell right below it is free. */
  ghost predicate Airborne(d: Dimension, cells: Cells, loc: Locs, x: Block)
    requires WF(d, cells, loc) && x in loc
  {
    loc[x].row != 'a' && FreeSpan(cells, RowBelow(d, loc[x].row), loc[x].col, loc[x].col + x.length)
  }

  /** No block on the board is airborne. */
  ghost predicate Stable(d: Dimension, cells: Cells, loc: Locs)
    requires WF(d, cells, loc)
  {
    forall x | x in loc :: !Airborne(d, cells, loc, x)
  }

  /** Block `y` rests directly on block `x`: one row higher, sharing a column. */
  ghost predicate RestsOn(d: Dimension, loc: Locs, y: Block, x: Block) {
    && x in loc && y in loc
    && NbOfRow(d, loc[y].row) == NbOfRow(d, loc[x].row) + 1
    && Overlaps(loc[y].col, y.length, loc[x].col, loc[x].col + x.length - 1)
  }

  /** Resting is an overlap in both directions. */
  lemma OverlapsSymmetric(c1: int, l1: int, c2: int, l2: int)
    ensures Overlaps(c1, l1, c2, c2 + l2 - 1) <==> Overlaps(c2, l2, c1, c1 + l1 - 1)
  {
  }

  /** `t` contains every block resting on a block of `t`. */
  ghost predicate ClosedUpward(d: Dimension, loc: Locs, t: set<Block>) {
    forall x, y | x in t && y in loc && RestsOn(d, loc, y, x) :: y in t
  }

  /** `t` contains every block that a block of `t` rests on. */
  ghost predicate ClosedDownward(d: Dimension, loc: Locs, t: set<Block>) {
    forall x, y | x in t && y in loc && RestsOn(d, loc, x, y) :: y in t
  }

  // ---------------------------------------------------------------- horizontal moves

  function Abs(n: int): nat { if n < 0 then -n else n }

  /** The k-th column swept when a run of `length` cells at column `col` moves over `n` steps. */
  function SweptColumn(col: int, length: int, n: int, k: int): int {
    if n > 0 then col + length - 1 + k else col - k
  }

  /** Every column swept by the move stays on the board and is free. */
  ghost predicate SweepFree(d: Dimension, cells: Cells, p: Pos, length: int, n: int) {
    forall k | 1 <= k <= Abs(n) :: SweptCellFree(d, cells, p, length, n, k)
  }

  /** The k-th column swept is on the board and free. */
  ghost predicate SweptCellFree(d: Dimension, cells: Cells, p: Pos, length: int, n: int, k: int) {
    1 <= SweptColumn(p.col, length, n, k) <= d.cols && Pos(p.row, SweptColumn(p.col, length, n, k)) !in cells
  }

  // ---------------------------------------------------------------- potential

  /** The explosions a block can still cause: a fragile block of length L outweighs its two pieces. */
  function Weight(x: Block): nat {
    if x.kind == Fragile && x.length >= 1 then 3 * x.length - 1 else 1
  }

  ghost function SumWeights(s: set<Block>): nat
    decreases |s|
  {
    if s == {} then 0 else var x :| x in s; Weight(x) + SumWeights(s - {x})
  }

  /** Any element can be taken out of the sum first. */
  lemma {:induction false} SumWeightsRemove(s: set<Block>, x: Block)
    requires x in s
    ensures SumWeights(s) == Weight(x) + SumWeights(s - {x})
    decreases |s|
  {
    var y :| y in s && SumWeights(s) == Weight(y) + SumWeights(s - {y});
    if y != x {
      SumWeightsRemove(s - {y}, x);
      SumWeightsRemove(s - {x}, y);
      assert s - {y} - {x} == s - {x} - {y};
    }
  }

  /** Adding a new element adds its weight. */
  lemma SumWeightsAdd(s: set<Block>, x: Block)
    requires x !in s
    ensures SumWeights(s + {x}) == SumWeights(s) + Weight(x)
  {
    SumWeightsRemove(s + {x}, x);
    assert s + {x} - {x} == s;
  }

  /** The two pieces of a fragile block weigh less than the block. */
  lemma {:induction false} PiecesWeighLess(b: Block, first: Block, second: Block)
    requires b.kind == Fragile && b.length >= 1
    requires first.length == FirstPieceLength(b.length) && first.kind == PieceKind(first.length)
    requires second.length == SecondPieceLength(b.length) && second.kind == PieceKind(second.length)
    ensures Weight(first) + (if second.length > 0 then Weight(second) else 0) < Weight(b)
  {
    SplitConservesLength(b.length);
  }

  /** A subset is no larger than its superset. */
  lemma {:induction false} SubsetNoLarger<T>(a: set<T>, c: set<T>)
    requires a <= c
    ensures |a| <= |c|
    decreases |a|
  {
    if a != {} {
      var y :| y in a;
      SubsetNoLarger(a - {y}, c - {y});
    }
  }

  /** Dropping an element and possibly more leaves a smaller set. */
  lemma SubsetSmaller<T>(a: set<T>, b: set<T>, x: T)
    requires a <= b - {x} && x in b
    ensures |a| < |b|
  {
    SubsetNoLarger(a, b - {x});
  }

  /** The electrified blocks of a board. */
  ghost function ElectrifiedOn(loc: Locs): set<Block> {
    set x | x in loc && x.kind == Electrified
  }

  // ---------------------------------------------------------------- scans

  /** Appending the listing of row number k to a listing of the rows below k lists the rows up to k. */
  lemma AppendRowListing(d: Dimension, cells: Cells, loc: Locs, k: int, s: seq<Block>, row: char, bs: seq<Block>)
    requires WF(d, cells, loc) && IsRowOf(d, row) && NbOfRow(d, row) == k
    requires ListsRowsBelow(d, loc, k, s) && ListsRow(d, loc, row, bs)
    ensures ListsRowsBelow(d, loc, k + 1, s + bs)
  {
    var t := s + bs;
    forall i | 0 <= i < |t| ensures t[i] in loc && NbOfRow(d, loc[t[i]].row) < k + 1 {
      if i >= |s| {
        assert t[i] == bs[i - |s|];
      }
    }
    forall i, j | 0 <= i < j < |t| ensures Precedes(d, loc[t[i]], loc[t[j]]) {
      if j < |s| {
      } else if i < |s| {
        assert t[j] == bs[j - |s|];
      } else {
        assert t[i] == bs[i - |s|] && t[j] == bs[j - |s|];
      }
    }
    forall x | x in loc && NbOfRow(d, loc[x].row) < k + 1 ensures x in t {
      if NbOfRow(d, loc[x].row) < k {
        assert x in s;
      } else {
        RowNumberInjective(d, loc[x].row, row);
        assert x in bs;
      }
    }
  }

  /** A cell is missing from the cell map exactly when no block covers it. */
  lemma FreeMeansUncovered(d: Dimension, cells: Cells, loc: Locs, p: Pos)
    requires WF(d, cells, loc)
    ensures p !in cells <==> forall x | x in loc :: !Covers(loc, x, p)
  {
    if p in cells {
      assert Covers(loc, cells[p], p);
    }
  }

  /** A free cell is nobody's leftmost cell. */
  lemma FreeCellStartsNothing(d: Dimension, cells: Cells, loc: Locs, p: Pos, x: Block)
    requires WF(d, cells, loc) && p !in cells && x in loc
    ensures loc[x] != p
  {
    CellOfBlock(d, cells, loc, x, 0);
  }

  /** The conditions under which add_block_at keeps the invariant. */
  ghost predicate CanPlace(d: Dimension, cells: Cells, loc: Locs, b: Block, p: Pos) {
    && b !in loc
    && 0 <= b.length <= d.cols / 2
    && InBoard(d, p) && p.col + b.length - 1 <= d.cols
    && FreeSpan(cells, p.row, p.col, p.col + b.length)
  }

  /** The cells of `cells` plus the run of `n` cells from `p` storing `b`. */
  ghost predicate PlacedRun(old_cells: Cells, cells: Cells, b: Block, p: Pos, n: int) {
    && (forall q :: q in cells <==> q in old_cells || (q.row == p.row && p.col <= q.col < p.col + n))
    && (forall q | q in cells :: cells[q] == if q.row == p.row && p.col <= q.col < p.col + n then b else old_cells[q])
  }

  /** Every cell that did not hold `b` still holds the same block. */
  ghost predicate OthersKept(old_cells: Cells, cells: Cells, b: Block) {
    forall q | q in old_cells && old_cells[q] != b :: q in cells && cells[q] == old_cells[q]
  }

  /** Taking a block off and writing it into a free run moves no other block. */
  lemma RemoveThenPlaceKeepsOthers(cells: Cells, cells1: Cells, cells2: Cells, b: Block, p: Pos)
    requires RemovedRun(cells, cells1, b) && FreeSpan(cells1, p.row, p.col, p.col + b.length)
    requires PlacedRun(cells1, cells2, b, p, b.length)
    ensures OthersKept(cells, cells2, b)
  {
    forall q | q in cells && cells[q] != b ensures q in cells2 && cells2[q] == cells[q] {
      assert q in cells1;
    }
  }

  /** Writing a block into a free run gives a board on which it sits at its leftmost cell. */
  lemma PlaceKeepsWF(d: Dimension, cells: Cells, loc: Locs, b: Block, p: Pos, cells': Cells)
    requires WF(d, cells, loc) && CanPlace(d, cells, loc, b, p)
    requires PlacedRun(cells, cells', b, p, b.length)
    ensures WF(d, cells', if b.length > 0 then loc[b := p] else loc)
  {
    var loc' := if b.length > 0 then loc[b := p] else loc;
    forall q | q in cells' ensures InBoard(d, q) && Covers(loc', cells'[q], q) {
      if q.row == p.row && p.col <= q.col < p.col + b.length {
      } else {
        assert Covers(loc, cells[q], q);
      }
    }
    forall x, q | x in loc' && Covers(loc', x, q) ensures q in cells' && cells'[q] == x {
      if x != b {
        assert Covers(loc, x, q);
        assert q in cells;
      }
    }
  }

  /** The cells of `old_cells` except those storing `b`. */
  ghost predicate RemovedRun(old_cells: Cells, cells: Cells, b: Block) {
    && (forall q :: q in cells <==> q in old_cells && old_cells[q] != b)
    && (forall q | q in cells :: cells[q] == old_cells[q])
  }

  /** Deleting the cells of a block gives a board without it and with every other block in place. */
  lemma RemoveKeepsWF(d: Dimension, cells: Cells, loc: Locs, b: Block, cells': Cells)
    requires WF(d, cells, loc) && b in loc && RemovedRun(cells, cells', b)
    ensures WF(d, cells', loc - {b})
  {
    var loc' := loc - {b};
    forall q | q in cells' ensures InBoard(d, q) && Covers(loc', cells'[q], q) {
      assert Covers(loc, cells[q], q);
    }
    forall x, q | x in loc' && Covers(loc', x, q) ensures q in cells' && cells'[q] == x {
      assert Covers(loc, x, q);
    }
  }

  /** After its removal the cells of a block form a free run where it can be put back. */
  lemma RemovedBlockCanReturn(d: Dimension, cells: Cells, loc: Locs, b: Block, cells': Cells)
    requires WF(d, cells, loc) && b in loc && RemovedRun(cells, cells', b)
    ensures CanPlace(d, cells', loc - {b}, b, loc[b])
  {
    forall c | loc[b].col <= c < loc[b].col + b.length ensures Pos(loc[b].row, c) !in cells' {
      CellOfBlock(d, cells, loc, b, c - loc[b].col);
    }
  }

  /** The cells that hold `b` are exactly its run. */
  lemma CellsOfBlockAreRun(d: Dimension, cells: Cells, loc: Locs, b: Block, q: Pos)
    requires WF(d, cells, loc) && b in loc
    ensures q in cells && cells[q] == b <==> q.row == loc[b].row && loc[b].col <= q.col < loc[b].col + b.length
  {
    if q in cells && cells[q] == b {
      assert Covers(loc, cells[q], q);
    }
    if q.row == loc[b].row && loc[b].col <= q.col < loc[b].col + b.length {
      assert Covers(loc, b, q);
    }
  }

  /** Listing the blocks of the row above that overlap a block's columns lists the blocks resting on it. */
  lemma OverlappingAboveRestOn(d: Dimension, cells: Cells, loc: Locs, b: Block, s: seq<Block>)
    requires WF(d, cells, loc) && b in loc && loc[b].row != 'X'
    requires ListsOverlapping(loc, RowAbove(d, loc[b].row), loc[b].col, loc[b].col + b.length - 1, s)
    ensures forall y | y in loc :: y in s <==> RestsOn(d, loc, y, b)
  {
    forall y | y in loc ensures y in s <==> RestsOn(d, loc, y, b) {
      if NbOfRow(d, loc[y].row) == NbOfRow(d, loc[b].row) + 1 {
        RowNumberInjective(d, loc[y].row, RowAbove(d, loc[b].row));
      }
    }
  }

  /** Listing the blocks of the row below that overlap a block's columns lists the blocks it rests on. */
  lemma OverlappingBelowRestOn(d: Dimension, cells: Cells, loc: Locs, b: Block, s: seq<Block>)
    requires WF(d, cells, loc) && b in loc && loc[b].row != 'a'
    requires ListsOverlapping(loc, RowBelow(d, loc[b].row), loc[b].col, loc[b].col + b.length - 1, s)
    ensures forall y | y in loc :: y in s <==> RestsOn(d, loc, b, y)
  {
    forall y | y in loc ensures y in s <==> RestsOn(d, loc, b, y) {
      if NbOfRow(d, loc[y].row) + 1 == NbOfRow(d, loc[b].row) {
        RowNumberInjective(d, loc[y].row, RowBelow(d, loc[b].row));
      }
    }
  }

  /** Nothing rests on a block of the overflow row, and a block of row `a` rests on nothing. */
  lemma NoRestingBeyondEdges(d: Dimension, cells: Cells, loc: Locs, b: Block)
    requires WF(d, cells, loc) && b in loc
    ensures loc[b].row == 'X' ==> forall y | y in loc :: !RestsOn(d, loc, y, b)
    ensures loc[b].row == 'a' ==> forall y | y in loc :: !RestsOn(d, loc, b, y)
  {
  }

  /**
   * Two blocks covering the same cell are the same block; used to show that a
   * block overlapping a span covered by one block is that block.
   */
  lemma SharedCellSameBlock(d: Dimension, cells: Cells, loc: Locs, x: Block, y: Block, q: Pos)
    requires WF(d, cells, loc) && Covers(loc, x, q) && Covers(loc, y, q)
    ensures x == y
  {
  }

  /** Past the last column no block overlaps anything. */
  lemma OverlapBeyondBoard(d: Dimension, cells: Cells, loc: Locs, row: char, c: int, hi: int)
    requires WF(d, cells, loc) && c > d.cols
    ensures ListsOverlapping(loc, row, c, hi, [])
  {
  }

  /** From an aligned cell past hi nothing overlaps c..hi. */
  lemma OverlapAlignedPastEnd(d: Dimension, cells: Cells, loc: Locs, row: char, c: int, hi: int)
    requires WF(d, cells, loc) && StartsRun(cells, loc, Pos(row, c)) && c > hi
    ensures ListsOverlapping(loc, row, c, hi, [])
  {
    forall z | z in loc && loc[z].row == row && Overlaps(loc[z].col, z.length, c, hi)
      ensures false
    {
      assert Covers(loc, z, Pos(row, c));
    }
  }

  /** The block covering column c, followed by the listing from just after it, lists from c. */
  lemma OverlapPrependBlock(d: Dimension, cells: Cells, loc: Locs, row: char, c: int, hi: int, y: Block, rest: seq<Block>)
    requires WF(d, cells, loc) && Covers(loc, y, Pos(row, c)) && c <= hi
    requires ListsOverlapping(loc, row, loc[y].col + y.length, hi, rest)
    ensures ListsOverlapping(loc, row, c, hi, [y] + rest)
  {
    var t := [y] + rest;
    forall i, j | 0 <= i < j < |t| ensures loc[t[i]].col < loc[t[j]].col {
      if i > 0 {
        assert t[i] == rest[i - 1] && t[j] == rest[j - 1];
      } else {
        assert t[j] == rest[j - 1];
        NoOverlap(d, cells, loc, y, t[j]);
      }
    }
    forall z | z in loc && loc[z].row == row && Overlaps(loc[z].col, z.length, c, hi)
      ensures z in t
    {
      if Overlaps(loc[z].col, z.length, loc[y].col + y.length, hi) {
        assert z in rest;
      } else {
        var k := if loc[z].col < c then c else loc[z].col;
        SharedCellSameBlock(d, cells, loc, y, z, Pos(row, k));
      }
    }
  }

  /** A free cell c adds nothing to the listing from c + 1. */
  lemma OverlapPrependFree(d: Dimension, cells: Cells, loc: Locs, row: char, c: int, hi: int, rest: seq<Block>)
    requires WF(d, cells, loc) && Pos(row, c) !in cells
    requires ListsOverlapping(loc, row, c + 1, hi, rest)
    ensures ListsOverlapping(loc, row, c, hi, rest)
  {
    forall z | z in loc && loc[z].row == row && Overlaps(loc[z].col, z.length, c, hi)
      ensures z in rest
    {
      assert Covers(loc, z, Pos(row, c)) ==> Pos(row, c) in cells;
      assert Overlaps(loc[z].col, z.length, c + 1, hi) ==> z in rest;
    }
  }

  /**
   * The blocks met when walking `row` from column c up to column hi, jumping
   * over each block met to the cell right after it; the walk of
   * get_adjacent_blocks_above and get_adjacent_blocks_below.
   */
  ghost function RowWalk(d: Dimension, cells: Cells, loc: Locs, row: char, c: int, hi: int): seq<Block>
    requires WF(d, cells, loc)
    decreases d.cols + 1 - c
  {
    if c > hi || c > d.cols then []
    else if Pos(row, c) in cells then
      var y := cells[Pos(row, c)];
      assert Covers(loc, y, Pos(row, c));
      [y] + RowWalk(d, cells, loc, row, loc[y].col + y.length, hi)
    else RowWalk(d, cells, loc, row, c + 1, hi)
  }

  /** Concatenation regroups freely. */
  lemma ReplaceEntry<K, V>(m: map<K, V>, k: K, v: V)
    ensures (m - {k})[k := v] == m[k := v]
  {
    assert (m - {k})[k := v].Keys == m[k := v].Keys;
  }

  lemma TakeOneMore<T>(s: seq<T>, i: int)
    requires 0 <= i < |s|
    ensures s[..i + 1] == s[..i] + [s[i]]
  {
  }

  lemma ConcatAssoc<T>(a: seq<T>, b: seq<T>, c: seq<T>)
    ensures (a + b) + c == a + (b + c)
  {
  }

  /** A walk at an occupied cell meets the block there and goes on right after it. */
  lemma RowWalkAtBlock(d: Dimension, cells: Cells, loc: Locs, row: char, c: int, hi: int)
    requires WF(d, cells, loc) && c <= hi && c <= d.cols && Pos(row, c) in cells
    ensures cells[Pos(row, c)] in loc
    ensures RowWalk(d, cells, loc, row, c, hi)
         == [cells[Pos(row, c)]] + RowWalk(d, cells, loc, row, loc[cells[Pos(row, c)]].col + cells[Pos(row, c)].length, hi)
  {
  }

  /** A walk at a free cell goes on at the next cell. */
  lemma RowWalkAtFree(d: Dimension, cells: Cells, loc: Locs, row: char, c: int, hi: int)
    requires WF(d, cells, loc) && c <= hi && c <= d.cols && Pos(row, c) !in cells
    ensures RowWalk(d, cells, loc, row, c, hi) == RowWalk(d, cells, loc, row, c + 1, hi)
  {
  }

  /** A walk past hi or past the last column meets nothing. */
  lemma RowWalkPast(d: Dimension, cells: Cells, loc: Locs, row: char, c: int, hi: int)
    requires WF(d, cells, loc) && (c > hi || c > d.cols)
    ensures RowWalk(d, cells, loc, row, c, hi) == []
  {
  }

  /** The walk from any cell lists the blocks overlapping c..hi, provided it ends on an aligned cell. */
  lemma {:induction false} RowWalkLists(d: Dimension, cells: Cells, loc: Locs, row: char, c: int, hi: int)
    requires WF(d, cells, loc) && 1 <= c && hi <= d.cols
    requires c > hi ==> StartsRun(cells, loc, Pos(row, c))
    ensures ListsOverlapping(loc, row, c, hi, RowWalk(d, cells, loc, row, c, hi))
    decreases d.cols + 1 - c
  {
    if c > hi {
      OverlapAlignedPastEnd(d, cells, loc, row, c, hi);
    } else if Pos(row, c) in cells {
      var y := cells[Pos(row, c)];
      assert Covers(loc, y, Pos(row, c));
      CellOfBlock(d, cells, loc, y, 0);
      AfterBlockStartsRun(d, cells, loc, loc[y]);
      RowWalkLists(d, cells, loc, row, loc[y].col + y.length, hi);
      OverlapPrependBlock(d, cells, loc, row, c, hi, y, RowWalk(d, cells, loc, row, loc[y].col + y.length, hi));
    } else {
      AfterFreeStartsRun(d, cells, loc, row, c);
      RowWalkLists(d, cells, loc, row, c + 1, hi);
      OverlapPrependFree(d, cells, loc, row, c, hi, RowWalk(d, cells, loc, row, c + 1, hi));
    }
  }

  /** The walk over the columns of `b` in the row above lists, left to right, exactly the blocks resting on `b`. */
  lemma WalkAboveRestsOn(d: Dimension, cells: Cells, loc: Locs, b: Block, r: seq<Block>)
    requires WF(d, cells, loc) && b in loc && loc[b].row != 'X'
    requires r == RowWalk(d, cells, loc, RowAbove(d, loc[b].row), loc[b].col, loc[b].col + b.length - 1)
    ensures ListsOverlapping(loc, RowAbove(d, loc[b].row), loc[b].col, loc[b].col + b.length - 1, r)
    ensures forall y | y in loc :: y in r <==> RestsOn(d, loc, y, b)
  {
    RowWalkLists(d, cells, loc, RowAbove(d, loc[b].row), loc[b].col, loc[b].col + b.length - 1);
    OverlappingAboveRestOn(d, cells, loc, b, r);
  }

  /** The walk over the columns of `b` in the row below lists, left to right, exactly the blocks `b` rests on. */
  lemma WalkBelowRestsOn(d: Dimension, cells: Cells, loc: Locs, b: Block, r: seq<Block>)
    requires WF(d, cells, loc) && b in loc && loc[b].row != 'a'
    requires r == RowWalk(d, cells, loc, RowBelow(d, loc[b].row), loc[b].col, loc[b].col + b.length - 1)
    ensures ListsOverlapping(loc, RowBelow(d, loc[b].row), loc[b].col, loc[b].col + b.length - 1, r)
    ensures forall y | y in loc :: y in r <==> RestsOn(d, loc, b, y)
  {
    RowWalkLists(d, cells, loc, RowBelow(d, loc[b].row), loc[b].col, loc[b].col + b.length - 1);
    OverlappingBelowRestOn(d, cells, loc, b, r);
  }
}
