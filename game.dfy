/**
 * The game controller (Game.py): explosions of full rows, scoring, the
 * fall-and-explode loop that stabilizes a board, the possible moves of a
 * block, the greedy player and the backtracking search for the shortest
 * sequence of moves reaching a score.
 */
module Games {
  import opened Wrappers
  import opened Dimensions
  import opened Positions
  import opened Blocks
  import opened BoardSpec
  import opened Boards
  import opened Gravity
  import opened Explosions
  import opened Moves
  import opened Pushes

  // ---------------------------------------------------------------- full rows

  /** Leftmost cells ordered by row name as strings sort (so `X` before `a`), then by column. */
  predicate RowMajor(p: Pos, q: Pos) {
    p.row < q.row || (p.row == q.row && p.col < q.col)
  }

  /** The smallest element of a non-empty set of row names. */
  method SmallestRow(rows: set<char>) returns (m: char)
    requires rows != {}
    ensures m in rows && forall c | c in rows :: m <= c
  {
    m :| m in rows;
    var rest := rows - {m};
    while rest != {}
      invariant m in rows && rest <= rows
      invariant forall c | c in rows && c !in rest :: m <= c
      decreases |rest|
    {
      var c :| c in rest;
      if c < m {
        m := c;
      }
      rest := rest - {c};
    }
  }

  /** list.sort on a list of row names: the names in ascending character order. */
  method SortRows(rows: set<char>) returns (r: seq<char>)
    ensures forall i, j | 0 <= i < j < |r| :: r[i] < r[j]
    ensures forall c :: c in r <==> c in rows
  {
    r := [];
    var left := rows;
    while left != {}
      invariant left <= rows
      invariant forall c :: c in rows <==> c in r || c in left
      invariant forall i, j | 0 <= i < j < |r| :: r[i] < r[j]
      invariant forall i, c | 0 <= i < |r| && c in left :: r[i] < c
      decreases |left|
    {
      var m := SmallestRow(left);
      r := r + [m];
      left := left - {m};
    }
  }

  /** `s` lists every block whose row is among `rows` once, in row-major order. */
  ghost predicate ListsRowsIn(loc: Locs, rows: seq<char>, s: seq<Block>) {
    && (forall i | 0 <= i < |s| :: s[i] in loc && loc[s[i]].row in rows)
    && (forall i, j | 0 <= i < j < |s| :: RowMajor(loc[s[i]], loc[s[j]]))
    && (forall x {:trigger x in s} | x in loc && loc[x].row in rows :: x in s)
  }

  /** Appending the listing of a row that comes after all rows listed so far. */
  lemma AppendRowInOrder(d: Dimension, cells: Cells, loc: Locs, rows: seq<char>, s: seq<Block>, row: char, t: seq<Block>)
    requires WF(d, cells, loc) && ListsRowsIn(loc, rows, s) && ListsRow(d, loc, row, t)
    requires forall c | c in rows :: c < row
    ensures ListsRowsIn(loc, rows + [row], s + t)
  {
    var u := s + t;
    forall i | 0 <= i < |u| ensures u[i] in loc && loc[u[i]].row in rows + [row] {
      if i >= |s| {
        assert u[i] == t[i - |s|];
      }
    }
    forall i, j | 0 <= i < j < |u| ensures RowMajor(loc[u[i]], loc[u[j]]) {
      if j < |s| {
      } else if i < |s| {
        assert u[j] == t[j - |s|];
      } else {
        assert u[i] == t[i - |s|] && u[j] == t[j - |s|];
      }
    }
    forall x | x in loc && loc[x].row in rows + [row] ensures x in u {
      if loc[x].row in rows {
        assert x in s;
      } else {
        assert Placed(d, x, loc[x]);
        assert x in t;
      }
    }
  }

  /** Every block of every full row, once, full rows in sorted order and left to right within a row. */
  ghost predicate ListsFullRows(d: Dimension, cells: Cells, loc: Locs, s: seq<Block>) {
    && (forall i | 0 <= i < |s| :: s[i] in loc && RowFull(d, cells, loc[s[i]].row))
    && (forall i, j | 0 <= i < j < |s| :: RowMajor(loc[s[i]], loc[s[j]]))
    && (forall x {:trigger x in s} | x in loc && RowFull(d, cells, loc[x].row) :: x in s)
  }

  /** The blocks to explode (Game.py lines 29-33): the full rows sorted, each listed left to right. */
  method CollectFullRowBlocks(board: Board) returns (blocks: seq<Block>)
    requires board.Valid()
    ensures ListsFullRows(board.dim, board.cells, board.loc, blocks)
  {
    var full := board.AllFullRows();
    var rows := SortRows(full);
    blocks := [];
    var i := 0;
    while i < |rows|
      invariant 0 <= i <= |rows|
      invariant ListsRowsIn(board.loc, rows[..i], blocks)
    {
      var inRow := board.AllBlocksInRow(rows[i]);
      AppendRowInOrder(board.dim, board.cells, board.loc, rows[..i], blocks, rows[i], inRow);
      assert rows[..i + 1] == rows[..i] + [rows[i]];
      blocks := blocks + inRow;
      i := i + 1;
    }
    assert rows[..i] == rows;
    forall x | x in board.loc ensures IsRowOf(board.dim, board.loc[x].row) {
      assert Placed(board.dim, x, board.loc[x]);
    }
  }

  /** A full row holds at least one block. */
  lemma FullRowHasBlock(d: Dimension, cells: Cells, loc: Locs, row: char)
    requires WF(d, cells, loc) && IsRowOf(d, row) && RowFull(d, cells, row)
    ensures exists x :: x in loc && loc[x].row == row
  {
    var p := Pos(row, 1);
    assert p in cells;
    assert Covers(loc, cells[p], p);
  }

  /** A board with a full row lists at least one block to explode. */
  lemma FullRowListed(d: Dimension, cells: Cells, loc: Locs, blocks: seq<Block>, row: char)
    requires WF(d, cells, loc) && ListsFullRows(d, cells, loc, blocks)
    requires IsRowOf(d, row) && RowFull(d, cells, row)
    ensures |blocks| > 0 && blocks[0] in loc
  {
    FullRowHasBlock(d, cells, loc, row);
    var x :| x in loc && loc[x].row == row;
    assert x in blocks;
  }

  /**
   * let_all_full_rows_explode: the blocks of the full rows are collected
   * (`blocks`, see ListsFullRows), then each of them explodes in turn unless
   * an earlier explosion already removed it; the total is the sum of the
   * turns' scores (`scores`, see TurnsScored), and a board with a full row
   * loses weight.
   */
  method LetAllFullRowsExplode(board: Board)
      returns (total: int, ghost blocks: seq<Block>, ghost scores: seq<int>, ghost locs: seq<Locs>, ghost blasts: seq<Blast>)
    requires board.Valid()
    modifies board
    ensures board.Valid() && total >= 0
    ensures ListsFullRows(board.dim, old(board.cells), old(board.loc), blocks)
    ensures TurnsScored(board.dim, old(board.loc), board.loc, blocks, scores, locs, blasts) && total == Total(scores)
    ensures forall x | x in old(board.loc) && RowFull(board.dim, old(board.cells), old(board.loc)[x].row) :: x !in board.loc
    ensures forall x | x in board.loc ::
              (x in old(board.loc) && board.loc[x] == old(board.loc)[x]) || (fresh(x) && x.kind != Electrified)
    ensures SumWeights(board.loc.Keys) <= SumWeights(old(board.loc).Keys)
    ensures (exists row :: IsRowOf(board.dim, row) && RowFull(board.dim, old(board.cells), row)) ==>
              SumWeights(board.loc.Keys) < SumWeights(old(board.loc).Keys)
  {
    var listed := CollectFullRowBlocks(board);
    blocks := listed;
    ghost var loc0, cells0 := board.loc, board.cells;
    total, scores, locs, blasts := ExplodeEach(board, listed);
    if exists row :: IsRowOf(board.dim, row) && RowFull(board.dim, cells0, row) {
      var row :| IsRowOf(board.dim, row) && RowFull(board.dim, cells0, row);
      FullRowListed(board.dim, cells0, loc0, blocks, row);
    }
    forall x | x in loc0 && RowFull(board.dim, cells0, loc0[x].row) ensures x !in board.loc {
      assert x in blocks;
    }
  }

  /**
   * When every block of the full rows is ordinary, each of them explodes at
   * its turn: exactly they leave the board and the total is the sum of their
   * lengths.
   */
  lemma OrdinaryFullRows(d: Dimension, cells: Cells, loc: Locs, blocks: seq<Block>, scores: seq<int>, locs: seq<Locs>,
                         blasts: seq<Blast>, loc': Locs)
    requires ListsFullRows(d, cells, loc, blocks) && TurnsScored(d, loc, loc', blocks, scores, locs, blasts)
    requires forall k | 0 <= k < |blocks| :: blocks[k].kind == Ordinary
    ensures Total(scores) == Total(Lengths(blocks)) && loc' == loc - Members(blocks)
  {
    forall j, k | 0 <= j < k < |blocks| ensures blocks[j] != blocks[k] {
      assert RowMajor(loc[blocks[j]], loc[blocks[k]]);
    }
    OrdinaryTurns(d, loc, loc', blocks, scores, locs, blasts);
  }

  // ---------------------------------------------------------------- scoring

  /** treshold_for_level: the score beyond which a board of `cols` columns leaves level `level`. */
  function Threshold(level: int, cols: int): int
    requires level >= 1
    decreases level
  {
    if level == 1 then 11 * cols else Threshold(level - 1, cols) + (10 + level) * cols * level
  }

  /** The thresholds in closed form: six times the threshold of level n is cols * n * (n + 1) * (2n + 31). */
  lemma {:induction false} ThresholdClosedForm(level: int, cols: int)
    requires level >= 1
    ensures 6 * Threshold(level, cols) == cols * level * (level + 1) * (2 * level + 31)
    decreases level
  {
    if level > 1 {
      ThresholdClosedForm(level - 1, cols);
      ClosedFormStep(level, cols, Threshold(level - 1, cols));
    }
  }

  /** One level of the closed form: adding the increment of level n to the closed form of level n - 1. */
  lemma ClosedFormStep(n: int, cols: int, t: int)
    requires 6 * t == cols * (n - 1) * ((n - 1) + 1) * (2 * (n - 1) + 31)
    ensures 6 * (t + (10 + n) * cols * n) == cols * n * (n + 1) * (2 * n + 31)
  {
    var p := (n - 1) * n * (2 * n + 29);
    var q := (10 + n) * n;
    assert cols * (n - 1) * ((n - 1) + 1) * (2 * (n - 1) + 31) == cols * p;
    assert (10 + n) * cols * n == cols * q;
    assert p + 6 * q == n * (n + 1) * (2 * n + 31);
    assert cols * p + 6 * (cols * q) == cols * (p + 6 * q);
  }

  /** On a board with columns, every level has a higher threshold than the level before. */
  lemma {:induction false} ThresholdIncreasing(l: int, m: int, cols: int)
    requires 1 <= l < m && cols >= 1
    ensures Threshold(l, cols) < Threshold(m, cols)
    decreases m - l
  {
    assert (10 + m) * cols * m >= 1 by {
      assert (10 + m) * m >= 1;
      assert (10 + m) * cols * m == ((10 + m) * m) * cols;
    }
    if l < m - 1 {
      ThresholdIncreasing(l, m - 1, cols);
    }
  }

  /**
   * adjust_score: the explosion score times the number of full rows times
   * the level is added to the score, and the level goes up by one exactly
   * when the new score passes the threshold of the current level.
   */
  function AdjustScore(score: int, level: int, explosions: int, nbFullRows: int, cols: int): (r: (int, int))
    requires level >= 1
    ensures r.1 == level || r.1 == level + 1
    ensures r.1 == level + 1 <==> 6 * r.0 > cols * level * (level + 1) * (2 * level + 31)
    ensures explosions >= 0 && nbFullRows >= 0 ==> r.0 >= score
    ensures r.0 - score == explosions * nbFullRows * level
  {
    ThresholdClosedForm(level, cols);
    var extra := explosions * nbFullRows * level;
    assert explosions >= 0 && nbFullRows >= 0 ==> extra >= 0 by {
      if explosions >= 0 && nbFullRows >= 0 {
        assert explosions * nbFullRows >= 0;
        assert extra == (explosions * nbFullRows) * level;
      }
    }
    var newScore := score + extra;
    (newScore, if newScore > Threshold(level, cols) then level + 1 else level)
  }

  // ---------------------------------------------------------------- stabilizing

  /** No row of the board is full. */
  ghost predicate NoFullRow(d: Dimension, cells: Cells) {
    forall row | IsRowOf(d, row) :: !RowFull(d, cells, row)
  }

  /**
   * stabilize_board: all blocks fall, and as long as a row is full the full
   * rows explode, the score and level are adjusted and all blocks fall
   * again. The loop ends since every round with a full row lowers the
   * potential SumWeights of the blocks on the board, which falling keeps.
   */
  method StabilizeBoard(level: int, score: int, board: Board) returns (newLevel: int, newScore: int)
    requires board.Valid() && level >= 1 && score >= 0
    modifies board
    ensures board.Valid() && Stable(board.dim, board.cells, board.loc) && NoFullRow(board.dim, board.cells)
    ensures level <= newLevel && score <= newScore
    ensures forall x | x in board.loc :: x in old(board.loc) || fresh(x)
  {
    LetAllBlocksFall(board);
    var full := board.AllFullRows();
    var nbFullRows := |full|;
    newLevel, newScore := level, score;
    while nbFullRows > 0
      invariant board.Valid() && Stable(board.dim, board.cells, board.loc)
      invariant level <= newLevel && score <= newScore
      invariant nbFullRows == |full|
      invariant forall row | row in full :: IsRowOf(board.dim, row) && RowFull(board.dim, board.cells, row)
      invariant forall row | IsRowOf(board.dim, row) && RowFull(board.dim, board.cells, row) :: row in full
      invariant forall x | x in board.loc :: x in old(board.loc) || fresh(x)
      decreases SumWeights(board.loc.Keys)
    {
      ghost var potential := SumWeights(board.loc.Keys);
      if nbFullRows > 0 {
        var fromExplosions;
        ghost var listed: seq<Block>, scores: seq<int>, locs: seq<Locs>, blasts: seq<Blast>;
        fromExplosions, listed, scores, locs, blasts := LetAllFullRowsExplode(board);
        var adjusted := AdjustScore(newScore, newLevel, fromExplosions, nbFullRows, NbOfColumns(board.dim));
        newScore, newLevel := adjusted.0, adjusted.1;
      }
      LetAllBlocksFall(board);
      full := board.AllFullRows();
      nbFullRows := |full|;
    }
  }

  // ---------------------------------------------------------------- possible steps

  /** A block that can move over n steps can move over any number of steps between 0 and n. */
  lemma SweepFreeShorter(d: Dimension, cells: Cells, p: Pos, length: int, n: int, m: int)
    requires SweepFree(d, cells, p, length, n)
    requires 0 <= m <= n || n <= m <= 0
    ensures SweepFree(d, cells, p, length, m)
  {
    forall k | 1 <= k <= Abs(m) ensures SweptCellFree(d, cells, p, length, m, k) {
      assert SweptCellFree(d, cells, p, length, n, k);
    }
  }

  /** A block on the board cannot move over as many steps as there are columns to its left, nor more than the columns to its right. */
  lemma SweepFreeBounded(d: Dimension, cells: Cells, loc: Locs, b: Block, n: int)
    requires WF(d, cells, loc) && b in loc && SweepFree(d, cells, loc[b], b.length, n)
    ensures -d.cols < n <= d.cols
  {
    assert Placed(d, b, loc[b]);
    if n != 0 {
      assert SweptCellFree(d, cells, loc[b], b.length, n, Abs(n));
    }
  }

  /**
   * get_all_possible_steps: first the cursor walks left as far as the block
   * can move, then it walks right collecting every nonzero offset until the
   * block can move no further. The result is every nonzero offset the block
   * can move over, in ascending order.
   */
  method GetAllPossibleSteps(board: Board, b: Block) returns (r: seq<int>)
    requires board.Valid() && b in board.loc
    ensures forall i, j | 0 <= i < j < |r| :: r[i] < r[j]
    ensures forall n :: n in r <==> n != 0 && SweepFree(board.dim, board.cells, board.loc[b], b.length, n)
  {
    ghost var p := board.loc[b];
    var nbSteps := 0;
    var can := CanMoveOver(board, b, nbSteps - 1);
    while can
      invariant nbSteps <= 0 && SweepFree(board.dim, board.cells, p, b.length, nbSteps)
      invariant can <==> SweepFree(board.dim, board.cells, p, b.length, nbSteps - 1)
      decreases nbSteps + board.dim.cols
    {
      SweepFreeBounded(board.dim, board.cells, board.loc, b, nbSteps - 1);
      nbSteps := nbSteps - 1;
      can := CanMoveOver(board, b, nbSteps - 1);
    }
    ghost var lo := nbSteps;
    r := [];
    can := CanMoveOver(board, b, nbSteps);
    while can
      invariant lo <= nbSteps && (nbSteps <= 0 ==> can)
      invariant SweepFree(board.dim, board.cells, p, b.length, lo)
      invariant can <==> SweepFree(board.dim, board.cells, p, b.length, nbSteps)
      invariant forall i, j | 0 <= i < j < |r| :: r[i] < r[j]
      invariant forall i | 0 <= i < |r| :: r[i] < nbSteps
      invariant forall n :: n in r <==> n != 0 && lo <= n < nbSteps
      invariant forall n | lo <= n < nbSteps :: SweepFree(board.dim, board.cells, p, b.length, n)
      decreases board.dim.cols - nbSteps
    {
      SweepFreeBounded(board.dim, board.cells, board.loc, b, nbSteps);
      if nbSteps != 0 {
        r := r + [nbSteps];
      }
      nbSteps := nbSteps + 1;
      if nbSteps <= 0 {
        SweepFreeShorter(board.dim, board.cells, p, b.length, lo, nbSteps);
      }
      can := CanMoveOver(board, b, nbSteps);
    }
    forall n | n != 0 && SweepFree(board.dim, board.cells, p, b.length, n) ensures lo <= n < nbSteps {
      if n < lo {
        SweepFreeShorter(board.dim, board.cells, p, b.length, n, lo - 1);
      } else if n >= nbSteps {
        SweepFreeShorter(board.dim, board.cells, p, b.length, n, nbSteps);
      }
    }
  }

  /**
   * The possible steps form one range around 0: consecutive entries differ
   * by one, except that 0 itself is skipped.
   */
  lemma StepsAreContiguous(d: Dimension, cells: Cells, p: Pos, length: int, r: seq<int>, i: int)
    requires forall i, j | 0 <= i < j < |r| :: r[i] < r[j]
    requires forall n :: n in r <==> n != 0 && SweepFree(d, cells, p, length, n)
    requires 0 <= i < |r| - 1
    ensures r[i + 1] == r[i] + 1 || (r[i] == -1 && r[i + 1] == 1)
  {
    var m := if r[i] + 1 != 0 then r[i] + 1 else 1;
    if m < r[i + 1] {
      if m < 0 {
        SweepFreeShorter(d, cells, p, length, r[i], m);
      } else {
        SweepFreeShorter(d, cells, p, length, r[i + 1], m);
      }
    }
  }

  // ---------------------------------------------------------------- the greedy move

  /** A move tried by the search: the block, the steps it moved over, and the score after stabilizing. */
  datatype Trial = Trial(block: Block, steps: int, score: int)

  /** The block is on the board and can move over `n` nonzero steps. */
  ghost predicate LegalMove(d: Dimension, cells: Cells, loc: Locs, b: Block, n: int) {
    b in loc && n != 0 && SweepFree(d, cells, loc[b], b.length, n)
  }

  /** Search order: blocks in board order, and the steps of one block ascending. */
  ghost predicate TriedBefore(d: Dimension, loc: Locs, s: Trial, t: Trial)
    requires s.block in loc && t.block in loc
  {
    Precedes(d, loc[s.block], loc[t.block]) || (s.block == t.block && s.steps < t.steps)
  }

  /** The trials are legal moves of the board in search order, each scoring at least `score`. */
  ghost predicate TrialsInOrder(d: Dimension, cells: Cells, loc: Locs, tried: seq<Trial>, score: int) {
    && (forall k | 0 <= k < |tried| :: LegalMove(d, cells, loc, tried[k].block, tried[k].steps) && tried[k].score >= score)
    && (forall k, l | 0 <= k < l < |tried| :: TriedBefore(d, loc, tried[k], tried[l]))
  }

  /** Trial `i` has the highest score, and every trial before it scored strictly less. */
  ghost predicate FirstBest(tried: seq<Trial>, i: int) {
    && 0 <= i < |tried|
    && (forall k | 0 <= k < |tried| :: tried[k].score <= tried[i].score)
    && (forall k | 0 <= k < i :: tried[k].score < tried[i].score)
  }

  /** Some trial moves block `b` over `n` steps. */
  ghost predicate Tried(tried: seq<Trial>, b: Block, n: int) {
    exists k | 0 <= k < |tried| :: tried[k].block == b && tried[k].steps == n
  }

  /** Appending a trial keeps every move tried so far and adds its own. */
  lemma TriedAppend(tried: seq<Trial>, t: Trial)
    ensures Tried(tried + [t], t.block, t.steps)
    ensures forall b, n | Tried(tried, b, n) :: Tried(tried + [t], b, n)
  {
    assert (tried + [t])[|tried|] == t;
    forall b, n | Tried(tried, b, n) ensures Tried(tried + [t], b, n) {
      var k :| 0 <= k < |tried| && tried[k].block == b && tried[k].steps == n;
      assert (tried + [t])[k] == tried[k];
    }
  }

  /** One candidate move (Game.py lines 137-139): the move and the stabilization, on a copy of the board. */
  method TryMove(board: Board, level: int, score: int, b: Block, n: int) returns (newScore: int)
    requires board.Valid() && level >= 1 && score >= 0 && LegalMove(board.dim, board.cells, board.loc, b, n)
    ensures newScore >= score
  {
    var copy := board.Copy();
    MoveBlockHorizontally(copy, b, n);
    var newLevel;
    newLevel, newScore := StabilizeBoard(level, score, copy);
  }

  /** The best trial so far: none before any trial, otherwise the first with the highest score. */
  ghost predicate BestSoFar(tried: seq<Trial>, best: Option<(Block, int)>, highest: int, bestIndex: int) {
    && (best.None? <==> tried == [])
    && (best.Some? ==> FirstBest(tried, bestIndex) && tried[bestIndex] == Trial(best.value.0, best.value.1, highest))
  }

  /**
   * The state of the search after the first `i` blocks of the listing `all`:
   * the trials are in order and precede every block still to come, every
   * legal move of the blocks done is tried, and the best trial is known.
   */
  ghost predicate SearchedUpTo(d: Dimension, cells: Cells, loc: Locs, all: seq<Block>, i: int, score: int,
                               tried: seq<Trial>, best: Option<(Block, int)>, highest: int, bestIndex: int)
    requires forall a | 0 <= a < |all| :: all[a] in loc
  {
    && 0 <= i <= |all|
    && TrialsInOrder(d, cells, loc, tried, score)
    && (forall k, a | 0 <= k < |tried| && i <= a < |all| :: Precedes(d, loc[tried[k].block], loc[all[a]]))
    && (forall a, n | 0 <= a < i && LegalMove(d, cells, loc, all[a], n) :: Tried(tried, all[a], n))
    && BestSoFar(tried, best, highest, bestIndex)
  }

  /**
   * The state of the inner loop for block number `i` after its first `j`
   * steps: as SearchedUpTo, with the trials of block `i` so far all on
   * smaller steps than step `j`.
   */
  ghost predicate StepsSoFar(d: Dimension, cells: Cells, loc: Locs, all: seq<Block>, i: int, steps: seq<int>, j: int,
                             score: int, tried: seq<Trial>, best: Option<(Block, int)>, highest: int, bestIndex: int)
    requires forall a | 0 <= a < |all| :: all[a] in loc
    requires 0 <= i < |all|
  {
    && 0 <= j <= |steps|
    && TrialsInOrder(d, cells, loc, tried, score)
    && (forall k | 0 <= k < |tried| ::
          Precedes(d, loc[tried[k].block], loc[all[i]]) ||
          (tried[k].block == all[i] && (j < |steps| ==> tried[k].steps < steps[j])))
    && (forall k, a | 0 <= k < |tried| && i < a < |all| :: Precedes(d, loc[tried[k].block], loc[all[a]]))
    && (forall a, n | 0 <= a < i && LegalMove(d, cells, loc, all[a], n) :: Tried(tried, all[a], n))
    && (forall jj | 0 <= jj < j :: Tried(tried, all[i], steps[jj]))
    && BestSoFar(tried, best, highest, bestIndex)
  }

  /** The inner loop for block number `i` starts from the state after the blocks before it. */
  lemma StepsStart(d: Dimension, cells: Cells, loc: Locs, all: seq<Block>, i: int, steps: seq<int>, score: int,
                   tried: seq<Trial>, best: Option<(Block, int)>, highest: int, bestIndex: int)
    requires WF(d, cells, loc) && ListsBoard(d, loc, all) && 0 <= i < |all|
    requires SearchedUpTo(d, cells, loc, all, i, score, tried, best, highest, bestIndex)
    ensures StepsSoFar(d, cells, loc, all, i, steps, 0, score, tried, best, highest, bestIndex)
  {
  }

  /** Trying step `j` of block number `i` and keeping the better of it and the best so far. */
  lemma StepsNext(d: Dimension, cells: Cells, loc: Locs, all: seq<Block>, i: int, steps: seq<int>, j: int, score: int,
                  tried: seq<Trial>, best: Option<(Block, int)>, highest: int, bestIndex: int, newScore: int,
                  best': Option<(Block, int)>, highest': int, bestIndex': int)
    requires WF(d, cells, loc) && ListsBoard(d, loc, all) && 0 <= i < |all|
    requires forall a, b | 0 <= a < b < |steps| :: steps[a] < steps[b]
    requires StepsSoFar(d, cells, loc, all, i, steps, j, score, tried, best, highest, bestIndex) && j < |steps|
    requires LegalMove(d, cells, loc, all[i], steps[j]) && newScore >= score
    requires best.None? || newScore > highest ==> best' == Some((all[i], steps[j])) && highest' == newScore && bestIndex' == |tried|
    requires !(best.None? || newScore > highest) ==> best' == best && highest' == highest && bestIndex' == bestIndex
    ensures StepsSoFar(d, cells, loc, all, i, steps, j + 1, score, tried + [Trial(all[i], steps[j], newScore)], best', highest', bestIndex')
  {
    var t := Trial(all[i], steps[j], newScore);
    TriedAppend(tried, t);
    forall jj | 0 <= jj < j + 1 ensures Tried(tried + [t], all[i], steps[jj]) {
      if jj < j {
        assert Tried(tried, all[i], steps[jj]);
      }
    }
  }

  /** After the last step of block number `i`, every legal move of that block is tried. */
  lemma StepsDone(d: Dimension, cells: Cells, loc: Locs, all: seq<Block>, i: int, steps: seq<int>, score: int,
                  tried: seq<Trial>, best: Option<(Block, int)>, highest: int, bestIndex: int)
    requires WF(d, cells, loc) && ListsBoard(d, loc, all) && 0 <= i < |all|
    requires forall n :: n in steps <==> n != 0 && SweepFree(d, cells, loc[all[i]], all[i].length, n)
    requires StepsSoFar(d, cells, loc, all, i, steps, |steps|, score, tried, best, highest, bestIndex)
    ensures SearchedUpTo(d, cells, loc, all, i + 1, score, tried, best, highest, bestIndex)
  {
    forall a, n | 0 <= a < i + 1 && LegalMove(d, cells, loc, all[a], n) ensures Tried(tried, all[a], n) {
      if a == i {
        assert n in steps;
      }
    }
  }

  /** The inner loop of get_move_with_highest_score (Game.py lines 136-143): every possible step of block number `i`. */
  method TryAllSteps(board: Board, level: int, score: int, all: seq<Block>, i: int,
                     ghost tried0: seq<Trial>, best0: Option<(Block, int)>, highest0: int, ghost bestIndex0: int)
      returns (ghost tried: seq<Trial>, best: Option<(Block, int)>, highest: int, ghost bestIndex: int)
    requires board.Valid() && level >= 1 && score >= 0
    requires ListsBoard(board.dim, board.loc, all) && 0 <= i < |all|
    requires SearchedUpTo(board.dim, board.cells, board.loc, all, i, score, tried0, best0, highest0, bestIndex0)
    ensures SearchedUpTo(board.dim, board.cells, board.loc, all, i + 1, score, tried, best, highest, bestIndex)
  {
    tried, best, highest, bestIndex := tried0, best0, highest0, bestIndex0;
    var b := all[i];
    var steps := GetAllPossibleSteps(board, b);
    StepsStart(board.dim, board.cells, board.loc, all, i, steps, score, tried, best, highest, bestIndex);
    var j := 0;
    while j < |steps|
      invariant StepsSoFar(board.dim, board.cells, board.loc, all, i, steps, j, score, tried, best, highest, bestIndex)
      decreases |steps| - j
    {
      var n := steps[j];
      assert n in steps;
      var newScore := TryMove(board, level, score, b, n);
      var best', highest' := best, highest;
      ghost var bestIndex' := bestIndex;
      if best.None? || newScore > highest {
        highest' := newScore;
        best' := Some((b, n));
        bestIndex' := |tried|;
      }
      StepsNext(board.dim, board.cells, board.loc, all, i, steps, j, score, tried, best, highest, bestIndex,
                newScore, best', highest', bestIndex');
      tried, best, highest, bestIndex := tried + [Trial(b, n, newScore)], best', highest', bestIndex';
      j := j + 1;
    }
    StepsDone(board.dim, board.cells, board.loc, all, i, steps, score, tried, best, highest, bestIndex);
  }

  /**
   * get_move_with_highest_score: every legal move is tried on a copy of the
   * board, blocks in board order and steps ascending, and the first move
   * reaching a strictly higher score than all before it is kept. The ghost
   * `tried` records the trials with their scores; the board is not changed.
   */
  method GetMoveWithHighestScore(board: Board, level: int, score: int) returns (r: Option<(Block, int)>, ghost tried: seq<Trial>)
    requires board.Valid() && level >= 1 && score >= 0
    ensures HighestScoring(board.dim, board.cells, board.loc, score, tried, r)
  {
    var highest := 0;
    var best: Option<(Block, int)> := None;
    tried := [];
    ghost var bestIndex := 0;
    var all := board.AllBlocks();
    var i := 0;
    while i < |all|
      invariant SearchedUpTo(board.dim, board.cells, board.loc, all, i, score, tried, best, highest, bestIndex)
    {
      tried, best, highest, bestIndex := TryAllSteps(board, level, score, all, i, tried, best, highest, bestIndex);
      i := i + 1;
    }
    r := best;
    forall b, n | LegalMove(board.dim, board.cells, board.loc, b, n) ensures Tried(tried, b, n) {
      assert b in all;
    }
    if r.Some? {
      assert LegalMove(board.dim, board.cells, board.loc, tried[0].block, tried[0].steps);
    }
  }

  /**
   * The answer of get_move_with_highest_score on a board: `tried` lists the
   * trials in search order, every legal move among them; there is no answer
   * exactly when no move is legal, and otherwise the answer is the first
   * trial with the highest score.
   */
  ghost predicate HighestScoring(d: Dimension, cells: Cells, loc: Locs, score: int, tried: seq<Trial>, r: Option<(Block, int)>) {
    && TrialsInOrder(d, cells, loc, tried, score)
    && (forall b, n | b in loc && LegalMove(d, cells, loc, b, n) :: Tried(tried, b, n))
    && (r.None? <==> tried == [])
    && (r.None? <==> forall b, n | b in loc :: !LegalMove(d, cells, loc, b, n))
    && (r.Some? ==> exists i :: FirstBest(tried, i) && tried[i].block == r.value.0 && tried[i].steps == r.value.1)
  }

  // ---------------------------------------------------------------- batches of new blocks

  /** The list of batches the bottom rows are filled from, shared by the callers that pop from it. */
  class BatchQueue {
    var items: seq<Batch>

    constructor (items: seq<Batch>)
      ensures this.items == items
    {
      this.items := items;
    }

    /** list.pop(blocks, 0): the first batch is taken off the list. */
    method PopFirst() returns (first: Batch)
      requires items != []
      modifies this
      ensures first == old(items)[0] && items == old(items)[1..]
    {
      first := items[0];
      items := items[1..];
    }

    /** list.insert(blocks, 0, batch): the batch is put back in front. */
    method InsertFirst(batch: Batch)
      modifies this
      ensures items == [batch] + old(items)
    {
      items := [batch] + items;
    }
  }

  /**
   * Every batch of the list fits the bottom row of a board holding `loc`,
   * and no block occurs in two batches.
   */
  ghost predicate QueueFits(d: Dimension, loc: Locs, items: seq<Batch>) {
    && (forall q | 0 <= q < |items| :: BatchFits(d, loc, items[q]))
    && (forall q, q', i, j | 0 <= q < q' < |items| && 0 <= i < |items[q]| && 0 <= j < |items[q']| ::
          items[q][i].1 != items[q'][j].1)
  }

  /** The batches after the first still fit a board that holds none of their blocks. */
  lemma QueueRest(d: Dimension, loc: Locs, loc': Locs, items: seq<Batch>)
    requires QueueFits(d, loc, items) && items != []
    requires forall q, i | 1 <= q < |items| && 0 <= i < |items[q]| :: items[q][i].1 !in loc'
    ensures QueueFits(d, loc', items[1..])
  {
    forall q | 0 <= q < |items| - 1 ensures BatchFits(d, loc', items[1..][q]) {
      assert items[1..][q] == items[q + 1];
      assert BatchFits(d, loc, items[q + 1]);
    }
    forall q, q', i, j | 0 <= q < q' < |items| - 1 && 0 <= i < |items[1..][q]| && 0 <= j < |items[1..][q']|
      ensures items[1..][q][i].1 != items[1..][q'][j].1
    {
      assert items[1..][q] == items[q + 1] && items[1..][q'] == items[q' + 1];
    }
  }

  /** The batches still fit a board that holds none of their blocks. */
  lemma QueueFitsElsewhere(d: Dimension, loc: Locs, loc': Locs, items: seq<Batch>)
    requires QueueFits(d, loc, items)
    requires forall q, i | 0 <= q < |items| && 0 <= i < |items[q]| :: items[q][i].1 !in loc'
    ensures QueueFits(d, loc', items)
  {
    forall q | 0 <= q < |items| ensures BatchFits(d, loc', items[q]) {
      assert BatchFits(d, loc, items[q]);
    }
  }

  /** A block of a later batch is neither on the board nor in the first batch. */
  lemma LaterBatchBlock(d: Dimension, loc: Locs, items: seq<Batch>, q: int, i: int)
    requires QueueFits(d, loc, items) && 1 <= q < |items| && 0 <= i < |items[q]|
    ensures items[q][i].1 !in loc && items[q][i].1 !in BatchLocs(items[0])
  {
    assert BatchFits(d, loc, items[q]);
    assert BatchFits(d, loc, items[0]);
    BatchLocsOf(items[0]);
  }

  /** `filled` is `loc` with every block one row higher and the blocks of `batch` in the bottom row. */
  ghost predicate FilledFrom(d: Dimension, loc: Locs, batch: Batch, filled: Locs) {
    BelowOverflow(d, loc) && filled == LiftAll(d, loc) + BatchLocs(batch)
  }

  /** A stabilized board: well formed, no block can fall and no row is full. */
  ghost predicate Settled(d: Dimension, cells: Cells, loc: Locs) {
    WF(d, cells, loc) && Stable(d, cells, loc) && NoFullRow(d, cells)
  }

  /** The batches after the first fit any board whose blocks of those batches were already on the filled board. */
  lemma LaterBatchesFit(d: Dimension, loc: Locs, items: seq<Batch>, filled: Locs, loc': Locs)
    requires QueueFits(d, loc, items) && items != [] && FilledFrom(d, loc, items[0], filled)
    requires forall q, j | 1 <= q < |items| && 0 <= j < |items[q]| && items[q][j].1 in loc' :: items[q][j].1 in filled
    ensures QueueFits(d, loc', items[1..])
  {
    forall q, j | 1 <= q < |items| && 0 <= j < |items[q]| ensures items[q][j].1 !in loc' {
      LaterBatchBlock(d, loc, items, q, j);
    }
    QueueRest(d, loc, loc', items);
  }

  /**
   * The start of a round, shared by play_greedy and get_top_moves: all blocks
   * move up, the batch fills the bottom row, and the board is stabilized.
   */
  method FillBottomRow(board: Board, batch: Batch, level: int, score: int)
      returns (newLevel: int, newScore: int, ghost filled: Locs)
    requires board.Valid() && RowEmpty(board.loc, 'X') && BatchFits(board.dim, board.loc, batch)
    requires level >= 1 && score >= 0
    modifies board
    ensures FilledFrom(board.dim, old(board.loc), batch, filled)
    ensures board.Valid() && Settled(board.dim, board.cells, board.loc)
    ensures level <= newLevel && score <= newScore
    ensures forall x | x in board.loc :: x in filled || fresh(x)
  {
    InsertBottomRow(board, batch);
    filled := board.loc;
    newLevel, newScore := StabilizeBoard(level, score, board);
  }

  // ---------------------------------------------------------------- greedy play

  /** The outcome of play_greedy; `NoMoveLeft` is the round in which no block can move and unpacking the missing move fails. */
  datatype GreedyResult = Played(total: int, moves: seq<(Block, int)>) | NoMoveLeft

  /** `moved` is `loc` with `b` moved over `n` columns. */
  ghost predicate MovedBy(loc: Locs, b: Block, n: int, moved: Locs) {
    b in loc && moved == loc[b := Pos(loc[b].row, loc[b].col + n)]
  }

  /** The move of a round: `b` moves over `n` columns (`moved`), and the board is stabilized again. */
  method PlayMove(board: Board, b: Block, n: int, level: int, score: int)
      returns (newLevel: int, newScore: int, ghost moved: Locs)
    requires board.Valid() && LegalMove(board.dim, board.cells, board.loc, b, n) && level >= 1 && score >= 0
    modifies board
    ensures MovedBy(old(board.loc), b, n, moved)
    ensures board.Valid() && Settled(board.dim, board.cells, board.loc)
    ensures forall x | x in board.loc :: x in moved || fresh(x)
    ensures level <= newLevel && score <= newScore
  {
    MoveBlockHorizontally(board, b, n);
    moved := board.loc;
    newLevel, newScore := StabilizeBoard(level, score, board);
  }

  /**
   * The second half of a round of play_greedy (Game.py lines 184-187): the
   * move is the answer of get_move_with_highest_score on the board as it is;
   * without one the board is left as it is, and with one the block moves
   * (`moved`) and the board is stabilized again.
   */
  method PlayBestMove(board: Board, level: int, score: int)
      returns (move: Option<(Block, int)>, newLevel: int, newScore: int, ghost tried: seq<Trial>, ghost moved: Locs)
    requires board.Valid() && level >= 1 && score >= 0
    modifies board
    ensures HighestScoring(board.dim, old(board.cells), old(board.loc), score, tried, move)
    ensures move.None? ==> board.cells == old(board.cells) && board.loc == old(board.loc) && newLevel == level && newScore == score
    ensures move.Some? ==> MovedBy(old(board.loc), move.value.0, move.value.1, moved) && Settled(board.dim, board.cells, board.loc)
    ensures move.Some? ==> forall x | x in board.loc :: x in moved || fresh(x)
    ensures board.Valid() && level <= newLevel && score <= newScore
  {
    move, tried := GetMoveWithHighestScore(board, level, score);
    moved := board.loc;
    newLevel, newScore := level, score;
    if move.Some? {
      var (b, n) := move.value;
      ghost var i :| FirstBest(tried, i) && tried[i].block == b && tried[i].steps == n;
      assert LegalMove(board.dim, board.cells, board.loc, tried[i].block, tried[i].steps);
      newLevel, newScore, moved := PlayMove(board, b, n, level, score);
    }
  }

  /**
   * One round of play_greedy (Game.py lines 182-187): the first batch is
   * popped and fills the bottom row (FillBottomRow), then the best move is
   * made (PlayBestMove). After a move the batches left still fit the board.
   */
  method PlayRound(board: Board, queue: BatchQueue, level: int, total: int)
      returns (move: Option<(Block, int)>, newLevel: int, newTotal: int)
    requires board.Valid() && RowEmpty(board.loc, 'X') && level >= 1 && total >= 0
    requires queue.items != [] && QueueFits(board.dim, board.loc, queue.items)
    modifies board, queue
    ensures queue.items == old(queue.items)[1..]
    ensures board.Valid() && level <= newLevel && total <= newTotal
    ensures move.Some? ==> QueueFits(board.dim, board.loc, queue.items)
  {
    ghost var items := queue.items;
    ghost var before := board.loc;
    var batch := queue.PopFirst();
    assert BatchFits(board.dim, board.loc, items[0]);
    ghost var filled;
    newLevel, newTotal, filled := FillBottomRow(board, batch, level, total);
    ghost var filledLoc := board.loc;
    ghost var tried, moved;
    move, newLevel, newTotal, tried, moved := PlayBestMove(board, newLevel, newTotal);
    if move.Some? {
      forall q, j | 1 <= q < |items| && 0 <= j < |items[q]| && items[q][j].1 in board.loc ensures items[q][j].1 in filled {
        assert items[q][j].1 in moved;
      }
      LaterBatchesFit(board.dim, before, items, filled, board.loc);
    }
  }

  /**
   * play_greedy: from an empty board, rounds are played until the batches
   * run out or a block reaches the overflow row. `endLoc` is where the blocks
   * are at the end.
   */
  method PlayGreedy(queue: BatchQueue, d: Dimension) returns (r: GreedyResult, ghost endLoc: Locs)
    requires IsNamedDimension(d) && QueueFits(d, map[], queue.items)
    modifies queue
    ensures r.Played? ==> r.total >= 0 && |r.moves| <= |old(queue.items)|
    ensures r.Played? ==> queue.items == old(queue.items)[|r.moves|..]
    ensures r.Played? ==> queue.items == [] || !RowEmpty(endLoc, 'X')
  {
    var level, total := 1, 0;
    var board := new Board.Make(d);
    var moves: seq<(Block, int)> := [];
    var emptyX := board.IsEmptyRow('X');
    while |queue.items| > 0 && emptyX
      invariant fresh(board) && board.Valid() && board.dim == d
      invariant level >= 1 && total >= 0
      invariant |moves| <= |old(queue.items)| && queue.items == old(queue.items)[|moves|..]
      invariant QueueFits(d, board.loc, queue.items)
      invariant emptyX <==> RowEmpty(board.loc, 'X')
      decreases |queue.items|
    {
      var move;
      move, level, total := PlayRound(board, queue, level, total);
      if move.None? {
        return NoMoveLeft, board.loc;
      }
      assert old(queue.items)[|moves| + 1..] == old(queue.items)[|moves|..][1..];
      moves := moves + [move.value];
      emptyX := board.IsEmptyRow('X');
    }
    return Played(total, moves), board.loc;
  }

  // ---------------------------------------------------------------- the search for the shortest winning play

  /** A move of a solution: the leftmost position of the block when it moves, the block, and the distance. */
  type TopMove = (Pos, Block, int)

  /** Each adopted solution is strictly shorter than the one before it. */
  ghost predicate Shortening(adopted: seq<int>) {
    forall k | 0 < k < |adopted| :: adopted[k] < adopted[k - 1]
  }

  /**
   * The state of the search in get_top_moves: `top` is the last adopted
   * solution, its length is recorded last in `adopted`, and `maxMoves`
   * leaves room only for strictly shorter ones.
   */
  ghost predicate TopSoFar(top: Option<seq<TopMove>>, maxMoves: int, maxNbMoves: int, adopted: seq<int>) {
    && Shortening(adopted)
    && (top.None? <==> adopted == [])
    && (top.None? ==> maxMoves == maxNbMoves)
    && (top.Some? ==> |top.value| == adopted[|adopted| - 1] && maxMoves == |top.value| - 1 && |top.value| <= maxNbMoves)
    && (adopted != [] ==> 1 <= adopted[0] <= maxNbMoves)
  }

  /**
   * One candidate move of get_top_moves: `b` moves over `n` columns on a copy
   * of the board, the copy is stabilized, and the search goes on from there
   * with at most `bound` moves.
   */
  method SolveAfterMove(afterPush: Board, queue: BatchQueue, b: Block, n: int, minScore: int, bound: int,
                        level: int, score: int) returns (sub: Option<seq<TopMove>>)
    requires afterPush.Valid() && LegalMove(afterPush.dim, afterPush.cells, afterPush.loc, b, n)
    requires level >= 1 && score >= 0 && QueueFits(afterPush.dim, afterPush.loc, queue.items)
    modifies queue
    decreases bound, 3
    ensures queue.items == old(queue.items)
    ensures sub.Some? ==> |sub.value| <= bound
  {
    var copy := afterPush.Copy();
    MoveBlockHorizontally(copy, b, n);
    var levelAfterMove, scoreAfterMove := StabilizeBoard(level, score, copy);
    forall q, i | 0 <= q < |queue.items| && 0 <= i < |queue.items[q]| ensures queue.items[q][i].1 !in copy.loc {
      assert BatchFits(afterPush.dim, afterPush.loc, queue.items[q]);
    }
    QueueFitsElsewhere(afterPush.dim, afterPush.loc, copy.loc, queue.items);
    ghost var adopted;
    sub, adopted := GetTopMoves(copy, queue, minScore, bound, levelAfterMove, scoreAfterMove);
  }

  /**
   * The inner loop of get_top_moves for one block: each legal step of `b`
   * (`steps`) is tried on a copy of the board, and the solution found from
   * there (`found`), one move longer, replaces the one found so far. The
   * solution left at the end, if a new one, starts with the move of `b`
   * from its leftmost position over one of those steps.
   */
  method TopMovesOfBlock(afterPush: Board, queue: BatchQueue, b: Block, minScore: int, maxNbMoves: int,
                         level: int, score: int, top0: Option<seq<TopMove>>, maxMoves0: int, ghost adopted0: seq<int>)
      returns (top: Option<seq<TopMove>>, maxMoves: int, ghost adopted: seq<int>,
               ghost steps: seq<int>, ghost found: seq<Option<seq<TopMove>>>)
    requires afterPush.Valid() && b in afterPush.loc && level >= 1 && score >= 0 && maxNbMoves >= 1
    requires QueueFits(afterPush.dim, afterPush.loc, queue.items)
    requires TopSoFar(top0, maxMoves0, maxNbMoves, adopted0)
    modifies queue
    decreases maxNbMoves, 1
    ensures queue.items == old(queue.items)
    ensures TopSoFar(top, maxMoves, maxNbMoves, adopted) && adopted0 <= adopted
    ensures forall n :: n in steps <==> LegalMove(afterPush.dim, afterPush.cells, afterPush.loc, b, n)
    ensures |found| == |steps| && FoundFrom(afterPush.loc[b], b, steps, found, top0, adopted0, top, adopted)
  {
    top, maxMoves, adopted := top0, maxMoves0, adopted0;
    var legal := GetAllPossibleSteps(afterPush, b);
    steps, found := legal, [];
    var j := 0;
    while j < |legal|
      invariant j <= |legal| && |found| == j
      invariant queue.items == old(queue.items)
      invariant TopSoFar(top, maxMoves, maxNbMoves, adopted) && adopted0 <= adopted
      invariant FoundFrom(afterPush.loc[b], b, legal, found, top0, adopted0, top, adopted)
    {
      assert legal[j] in legal;
      ghost var before, topBefore := adopted, top;
      var sub;
      top, maxMoves, adopted, sub := TryStep(afterPush, queue, b, legal[j], minScore, maxNbMoves, level, score,
                                             top, maxMoves, adopted);
      FoundFromStep(afterPush.loc[b], b, legal, found, top0, adopted0, topBefore, before, sub, top, adopted);
      found := found + [sub];
      j := j + 1;
    }
  }

  /**
   * The record of the inner loop for block `b` at `p` after trying the first
   * |found| of `steps`: every solution found, one move longer, was adopted
   * since `adopted0`; nothing adopted leaves `top0`; otherwise `top` is the
   * move of `b` over one of those steps followed by the solution found there.
   */
  ghost predicate FoundFrom(p: Pos, b: Block, steps: seq<int>, found: seq<Option<seq<TopMove>>>,
                            top0: Option<seq<TopMove>>, adopted0: seq<int>, top: Option<seq<TopMove>>, adopted: seq<int>) {
    && |found| <= |steps| && adopted0 <= adopted
    && (forall k | 0 <= k < |found| && found[k].Some? :: |found[k].value| + 1 in adopted[|adopted0|..])
    && (|adopted| == |adopted0| ==> top == top0)
    && (|adopted| > |adopted0| ==>
          exists k | 0 <= k < |found| :: found[k].Some? && top == Some([(p, b, steps[k])] + found[k].value))
  }

  /** One more step tried, with TryStep's outcome, extends the record. */
  lemma FoundFromStep(p: Pos, b: Block, steps: seq<int>, found: seq<Option<seq<TopMove>>>,
                      top0: Option<seq<TopMove>>, adopted0: seq<int>, top1: Option<seq<TopMove>>, adopted1: seq<int>,
                      sub: Option<seq<TopMove>>, top: Option<seq<TopMove>>, adopted: seq<int>)
    requires |found| < |steps| && FoundFrom(p, b, steps, found, top0, adopted0, top1, adopted1)
    requires sub.None? ==> top == top1 && adopted == adopted1
    requires sub.Some? ==> adopted == adopted1 + [|sub.value| + 1] && top == Some([(p, b, steps[|found|])] + sub.value)
    ensures FoundFrom(p, b, steps, found + [sub], top0, adopted0, top, adopted)
  {
    var found' := found + [sub];
    AdoptedSince(adopted0, adopted1, adopted);
    if sub.Some? {
      assert adopted[|adopted0|..][|adopted[|adopted0|..]| - 1] == |sub.value| + 1;
      assert found'[|found|].Some? && top == Some([(p, b, steps[|found|])] + found'[|found|].value);
    } else if |adopted| > |adopted0| {
      var k :| 0 <= k < |found| && found[k].Some? && top1 == Some([(p, b, steps[k])] + found[k].value);
      assert found'[k] == found[k];
    }
    forall k | 0 <= k < |found'| && found'[k].Some? ensures |found'[k].value| + 1 in adopted[|adopted0|..] {
      if k < |found| {
        assert found'[k] == found[k];
      }
    }
  }

  /** What was adopted since `adopted0` up to `before` is still there once `adopted` extends `before`. */
  lemma AdoptedSince(adopted0: seq<int>, before: seq<int>, adopted: seq<int>)
    requires adopted0 <= before <= adopted
    ensures forall x | x in before[|adopted0|..] :: x in adopted[|adopted0|..]
  {
    forall x | x in before[|adopted0|..] ensures x in adopted[|adopted0|..] {
      var k :| 0 <= k < |before[|adopted0|..]| && before[|adopted0|..][k] == x;
      assert adopted[|adopted0|..][k] == x;
    }
  }

  /**
   * One pass of the inner loop of get_top_moves: `b` moves over `n` columns
   * on a copy of the board and the search goes on from there; a solution
   * found (`sub`) is adopted with that move in front, and the bound drops to
   * one below its length.
   */
  method TryStep(afterPush: Board, queue: BatchQueue, b: Block, n: int, minScore: int, maxNbMoves: int,
                 level: int, score: int, top0: Option<seq<TopMove>>, maxMoves0: int, ghost adopted0: seq<int>)
      returns (top: Option<seq<TopMove>>, maxMoves: int, ghost adopted: seq<int>, sub: Option<seq<TopMove>>)
    requires afterPush.Valid() && LegalMove(afterPush.dim, afterPush.cells, afterPush.loc, b, n)
    requires level >= 1 && score >= 0 && maxNbMoves >= 1
    requires QueueFits(afterPush.dim, afterPush.loc, queue.items)
    requires TopSoFar(top0, maxMoves0, maxNbMoves, adopted0)
    modifies queue
    decreases maxNbMoves, 0
    ensures queue.items == old(queue.items)
    ensures TopSoFar(top, maxMoves, maxNbMoves, adopted)
    ensures sub.None? ==> top == top0 && maxMoves == maxMoves0 && adopted == adopted0
    ensures sub.Some? ==> adopted == adopted0 + [|sub.value| + 1] && top == Some([(afterPush.loc[b], b, n)] + sub.value)
  {
    top, maxMoves, adopted := top0, maxMoves0, adopted0;
    sub := SolveAfterMove(afterPush, queue, b, n, minScore, maxMoves0 - 1, level, score);
    if sub.Some? {
      var pos := afterPush.LeftmostPositionOf(b);
      top := Some([(pos.value, b, n)] + sub.value);
      maxMoves := |top.value| - 1;
      adopted := adopted + [|top.value|];
    }
  }

  /**
   * The first steps of get_top_moves: a copy of the board is lifted, filled
   * with the batch popped from the list (`filled`), and stabilized. The
   * board itself is not touched, and the batches left fit the copy.
   */
  method FilledCopy(board: Board, queue: BatchQueue, level: int, score: int)
      returns (afterPush: Board, batch: Batch, newLevel: int, newScore: int, ghost filled: Locs)
    requires board.Valid() && RowEmpty(board.loc, 'X') && level >= 1 && score >= 0
    requires queue.items != [] && QueueFits(board.dim, board.loc, queue.items)
    modifies queue
    ensures fresh(afterPush) && afterPush.Valid() && afterPush.dim == board.dim
    ensures batch == old(queue.items)[0] && queue.items == old(queue.items)[1..]
    ensures FilledFrom(board.dim, board.loc, batch, filled)
    ensures Settled(afterPush.dim, afterPush.cells, afterPush.loc)
    ensures forall x | x in afterPush.loc :: x in filled || fresh(x)
    ensures level <= newLevel && score <= newScore
    ensures QueueFits(afterPush.dim, afterPush.loc, queue.items)
  {
    ghost var items := queue.items;
    afterPush := board.Copy();
    batch := queue.PopFirst();
    assert BatchFits(board.dim, board.loc, items[0]);
    newLevel, newScore, filled := FillBottomRow(afterPush, batch, level, score);
    forall q, i | 1 <= q < |items| && 0 <= i < |items[q]| ensures items[q][i].1 !in afterPush.loc {
      LaterBatchBlock(board.dim, board.loc, items, q, i);
    }
    QueueRest(board.dim, board.loc, afterPush.loc, items);
  }

  /**
   * get_top_moves: the trivial solution once the score is reached; no
   * solution without batches, without moves left or with a block in the
   * overflow row; otherwise a search over every block and step of the filled
   * board, each adopted solution shorter than the one before. The batch is
   * put back, so the list of batches is as on entry, and the board is not
   * touched.
   */
  method GetTopMoves(board: Board, queue: BatchQueue, minScore: int, maxNbMoves: int, level: int, score: int)
      returns (r: Option<seq<TopMove>>, ghost adopted: seq<int>)
    requires board.Valid() && level >= 1 && score >= 0
    requires QueueFits(board.dim, board.loc, queue.items)
    modifies queue
    decreases maxNbMoves, 2
    ensures queue.items == old(queue.items)
    ensures score >= minScore && maxNbMoves >= 0 ==> r == Some([])
    ensures !(score >= minScore && maxNbMoves >= 0) && (queue.items == [] || maxNbMoves <= 0 || !RowEmpty(board.loc, 'X')) ==> r.None?
    ensures !(score >= minScore && maxNbMoves >= 0) ==> (r.Some? <==> adopted != [])
    ensures r.Some? ==> |r.value| <= maxNbMoves
    ensures Shortening(adopted) && (adopted != [] ==> r.Some? && |r.value| == adopted[|adopted| - 1])
  {
    adopted := [];
    if score >= minScore && maxNbMoves >= 0 {
      return Some([]), adopted;
    }
    var emptyX := board.IsEmptyRow('X');
    if |queue.items| == 0 || maxNbMoves <= 0 || !emptyX {
      return None, adopted;
    }
    ghost var items := queue.items;
    var afterPush, batch, levelAfterFill, scoreAfterFill;
    ghost var filled: Locs;
    afterPush, batch, levelAfterFill, scoreAfterFill, filled := FilledCopy(board, queue, level, score);
    var top: Option<seq<TopMove>> := None;
    var maxMoves := maxNbMoves;
    var all := afterPush.AllBlocks();
    var k := 0;
    while k < |all|
      modifies queue
      invariant queue.items == items[1..]
      invariant TopSoFar(top, maxMoves, maxNbMoves, adopted)
    {
      ghost var steps: seq<int>, found: seq<Option<seq<TopMove>>>;
      top, maxMoves, adopted, steps, found := TopMovesOfBlock(afterPush, queue, all[k], minScore, maxNbMoves,
                                                              levelAfterFill, scoreAfterFill, top, maxMoves, adopted);
      k := k + 1;
    }
    queue.InsertFirst(batch);
    r := top;
  }
}
