/**
 * Explosions (Board.py): an ordinary block vanishes, a fragile block breaks
 * into the two pieces split_block makes of it, and an electrified block
 * vanishes and sets off the blocks right below and right above it.
 */
module Explosions {
  import opened Wrappers
  import opened Dimensions
  import opened Positions
  import opened Blocks
  import opened BoardSpec
  import opened Boards

  /** The block at `p` is a piece of `b` of length `n`, sitting with its leftmost cell at `p`. */
  ghost predicate IsPieceAt(cells: Cells, loc: Locs, p: Pos, n: int, b: Block) {
    && p in cells && cells[p] in loc && loc[cells[p]] == p && cells[p] != b
    && cells[p].length == n && cells[p].kind == PieceKind(n) && cells[p].color == b.color
  }

  /**
   * Writes two new blocks side by side into a free run, the first from `p`;
   * a second block of length 0 is not written.
   */
  method PlacePieces(board: Board, first: Block, second: Block, p: Pos)
    requires board.Valid() && first !in board.loc && second !in board.loc && first != second
    requires first.length >= 1 && second.length >= 0 && first.length + second.length <= board.dim.cols / 2
    requires InBoard(board.dim, p) && p.col + first.length + second.length - 1 <= board.dim.cols
    requires FreeSpan(board.cells, p.row, p.col, p.col + first.length + second.length)
    modifies board
    ensures board.Valid()
    ensures board.loc == PieceLocs(old(board.loc), first, second, p)
    ensures forall q :: q in board.cells <==> q in old(board.cells) || (q.row == p.row && p.col <= q.col < p.col + first.length + second.length)
    ensures p in board.cells && board.cells[p] == first
    ensures second.length > 0 ==> Pos(p.row, p.col + first.length) in board.cells && board.cells[Pos(p.row, p.col + first.length)] == second
  {
    board.AddBlockAt(first, p);
    var next := Right(board.dim, p, first.length);
    if next.Some? {
      board.AddBlockAt(second, next.value);
    } else {
      // the first block reaches the last column, so the second one is empty
      assert second.length == 0;
    }
  }

  /** The leftmost cell of the second piece of `b`, when the first one starts at `p`. */
  function SecondPieceAt(p: Pos, b: Block): Pos {
    Pos(p.row, p.col + FirstPieceLength(b.length))
  }

  /**
   * The loop of the fragile branch as written (Board.py lines 629-633): each
   * piece is written at the current position, which then moves right over
   * the piece's length. Once that position has left the board it is None,
   * and the next turn crashes: `right` unpacks it as a (row, column) pair,
   * also when a piece of length 0 is all that is left. None stands for that
   * crash; otherwise the result lists where each piece was written.
   */
  function PiecePositionsAsWritten(d: Dimension, pos: Option<Pos>, lengths: seq<int>): (r: Option<seq<Pos>>)
    ensures r.Some? ==> |r.value| == |lengths|
    decreases |lengths|
  {
    if lengths == [] then Some([])
    else if pos.None? then None
    else
      match PiecePositionsAsWritten(d, Right(d, pos.value, lengths[0]), lengths[1..])
      case None => None
      case Some(rest) => Some([pos.value] + rest)
  }

  /**
   * For a fragile block inside the board, the loop as written crashes
   * exactly when the block has length 1 and sits in the last column; in
   * every other case it writes the pieces where PlacePieces does.
   */
  lemma FragileSplitAsWritten(d: Dimension, b: Block, p: Pos)
    requires b.length >= 1 && 1 <= p.col && p.col + b.length - 1 <= d.cols
    ensures var r := PiecePositionsAsWritten(d, Some(p), [FirstPieceLength(b.length), SecondPieceLength(b.length)]);
            && (r.None? <==> b.length == 1 && p.col == d.cols)
            && (r.Some? ==> r.value == [p, SecondPieceAt(p, b)])
  {
    var lengths := [FirstPieceLength(b.length), SecondPieceLength(b.length)];
    assert lengths[1..][1..] == [];
    var next := Right(d, p, lengths[0]);
    if next.Some? {
      assert PiecePositionsAsWritten(d, Right(d, next.value, lengths[1]), lengths[1..][1..]) == Some([]);
    }
  }

  /** Where two pieces sit once written from `p`; a piece of length 0 sits nowhere. */
  ghost function PieceLocs(loc: Locs, first: Block, second: Block, p: Pos): Locs {
    var withFirst := loc[first := p];
    if second.length > 0 then withFirst[second := Pos(p.row, p.col + first.length)] else withFirst
  }

  /**
   * Replacing a fragile block by its two new pieces moves no other block,
   * adds no electrified block and lowers the weight of the board.
   */
  lemma PieceLocsFacts(loc: Locs, b: Block, first: Block, second: Block, p: Pos, loc': Locs)
    requires b in loc && b.kind == Fragile && b.length >= 1 && first !in loc && second !in loc && first != second
    requires first.length == FirstPieceLength(b.length) && first.kind == PieceKind(first.length)
    requires second.length == SecondPieceLength(b.length) && second.kind == PieceKind(second.length)
    requires loc' == PieceLocs(loc - {b}, first, second, p)
    ensures first in loc' && loc'[first] == p
    ensures second.length > 0 ==> second in loc' && loc'[second] == Pos(p.row, p.col + first.length)
    ensures && b !in loc'
      && (forall x | x in loc && x != b :: x in loc' && loc'[x] == loc[x])
      && (forall x | x in loc' && x !in loc :: x == first || x == second)
      && ElectrifiedOn(loc') == ElectrifiedOn(loc)
      && SumWeights(loc'.Keys) < SumWeights(loc.Keys)
  {
    var loc1 := loc - {b};
    var loc2 := loc1[first := p];
    SumWeightsRemove(loc.Keys, b);
    assert loc1.Keys == loc.Keys - {b};
    SumWeightsAdd(loc1.Keys, first);
    assert loc2.Keys == loc1.Keys + {first};
    if second.length > 0 {
      SumWeightsAdd(loc2.Keys, second);
      assert loc2[second := Pos(p.row, p.col + first.length)].Keys == loc2.Keys + {second};
    }
    PiecesWeighLess(b, first, second);
  }

  /** The pieces of a fragile block fill exactly the cells it filled. */
  lemma FragileKeepsCells(d: Dimension, cells: Cells, loc: Locs, b: Block, cells1: Cells, cells2: Cells)
    requires WF(d, cells, loc) && b in loc
    requires RemovedRun(cells, cells1, b)
    requires forall q :: q in cells2 <==> q in cells1 || (q.row == loc[b].row && loc[b].col <= q.col < loc[b].col + b.length)
    ensures cells2.Keys == cells.Keys
  {
    var p := loc[b];
    forall q | q in cells2 ensures q in cells {
      if q.row == p.row && p.col <= q.col < p.col + b.length {
        CellOfBlock(d, cells, loc, b, q.col - p.col);
      }
    }
  }

  /** Once written, each non-empty piece of `b` sits where the fragile branch puts it. */
  lemma PiecesInPlace(cells: Cells, loc: Locs, b: Block, first: Block, second: Block, p: Pos)
    requires b.length >= 1 && first != b && second != b
    requires first.length == FirstPieceLength(b.length) && first.kind == PieceKind(first.length) && first.color == b.color
    requires second.length == SecondPieceLength(b.length) && second.kind == PieceKind(second.length) && second.color == b.color
    requires first in loc && loc[first] == p && p in cells && cells[p] == first
    requires second.length > 0 ==>
               var p2 := Pos(p.row, p.col + first.length);
               second in loc && loc[second] == p2 && p2 in cells && cells[p2] == second
    ensures IsPieceAt(cells, loc, p, FirstPieceLength(b.length), b)
    ensures b.length > 1 ==> IsPieceAt(cells, loc, SecondPieceAt(p, b), SecondPieceLength(b.length), b)
  {
  }

  /**
   * The fragile branch of let_explode: `b` is taken off and its two pieces
   * are written into its cells, the first from its leftmost cell and the
   * second right after the first. Writing a piece of length 0 writes nothing.
   */
  method ExplodeFragile(board: Board, b: Block) returns (score: int, ghost first: Block, ghost second: Block)
    requires board.Valid() && b in board.loc && b.kind == Fragile
    modifies board
    ensures board.Valid() && b !in board.loc && score == 2 * b.length
    ensures board.cells.Keys == old(board.cells.Keys)
    ensures forall x | x in old(board.loc) && x != b :: x in board.loc && board.loc[x] == old(board.loc[x])
    ensures forall x | x in board.loc && x !in old(board.loc) :: fresh(x) && x.kind != Electrified
    ensures var p := old(board.loc[b]);
      && IsPieceAt(board.cells, board.loc, p, FirstPieceLength(b.length), b)
      && (b.length > 1 ==> IsPieceAt(board.cells, board.loc, SecondPieceAt(p, b), SecondPieceLength(b.length), b))
    ensures ElectrifiedOn(board.loc) == ElectrifiedOn(old(board.loc))
    ensures SumWeights(board.loc.Keys) < SumWeights(old(board.loc).Keys)
    ensures SplitInto(b, old(board.loc), board.loc, first, second)
  {
    ghost var loc0, p := board.loc, board.loc[b];
    var piece1, piece2 := SplitBlock(b);
    first, second := piece1, piece2;
    SplitConservesLength(b.length);
    ReplaceByPieces(board, b, piece1, piece2);
    PieceLocsFacts(loc0, b, piece1, piece2, p, board.loc);
    PiecesInPlace(board.cells, board.loc, b, piece1, piece2, p);
    forall x | x in board.loc && x !in loc0 ensures fresh(x) && x.kind != Electrified {
      assert x == piece1 || x == piece2;
    }
    score := 2 * b.length;
  }

  /**
   * Takes `b` off and writes `first` and `second` into its cells, `first`
   * from its leftmost cell.
   */
  method ReplaceByPieces(board: Board, b: Block, first: Block, second: Block)
    requires board.Valid() && b in board.loc && first !in board.loc && second !in board.loc
    requires first != second && first != b && second != b
    requires first.length >= 1 && second.length >= 0 && first.length + second.length == b.length
    modifies board
    ensures board.Valid()
    ensures board.loc == PieceLocs(old(board.loc) - {b}, first, second, old(board.loc[b]))
    ensures board.cells.Keys == old(board.cells.Keys)
    ensures var p := old(board.loc[b]);
      && p in board.cells && board.cells[p] == first
      && (second.length > 0 ==> Pos(p.row, p.col + first.length) in board.cells && board.cells[Pos(p.row, p.col + first.length)] == second)
  {
    var leftmost := board.LeftmostPositionOf(b);
    var pos := leftmost.value;
    assert Placed(board.dim, b, pos);
    board.RemoveBlockFrom(b);
    ghost var cells1 := board.cells;
    RemovedBlockCanReturn(board.dim, old(board.cells), old(board.loc), b, board.cells);
    PlacePieces(board, first, second, pos);
    FragileKeepsCells(board.dim, old(board.cells), old(board.loc), b, cells1, board.cells);
  }

  /** The sum of a sequence of scores. */
  function Total(s: seq<int>): int {
    if s == [] then 0 else Total(s[..|s| - 1]) + s[|s| - 1]
  }

  /**
   * How a block fared at its turn of an explosion loop: it was no longer on
   * the board, or it exploded as an ordinary block, as a fragile block split
   * into `first` and `second`, or as an electrified block that set off the
   * blocks `below` and `above` it in turns recorded by `scores`, `locs` and
   * `blasts` (see TurnsScored).
   */
  datatype Blast =
    | Missing
    | Removed
    | Split(first: Block, second: Block)
    | Chain(below: seq<Block>, above: seq<Block>, scores: seq<int>, locs: seq<Locs>, blasts: seq<Blast>)

  /**
   * Fragile `b` is replaced by `first` at its leftmost cell and, when not
   * empty, `second` right after it: two new blocks of the piece lengths and
   * kinds, in the colour of `b`; every other block stays where it was.
   */
  ghost predicate SplitInto(b: Block, before: Locs, after: Locs, first: Block, second: Block)
    requires b in before
  {
    && first !in before && second !in before && first != second
    && first.length == FirstPieceLength(b.length) && first.kind == PieceKind(first.length) && first.color == b.color
    && second.length == SecondPieceLength(b.length) && second.kind == PieceKind(second.length) && second.color == b.color
    && after == PieceLocs(before - {b}, first, second, before[b])
  }

  /**
   * One turn of a loop that lets a listed block explode if it is still on
   * the board, from the placements `before` to `after`, as let_explode does:
   * a block no longer on the board changes nothing and scores 0; an ordinary
   * block leaves the board and scores its length; a fragile block is split
   * in place and scores twice its length; an electrified block leaves the
   * board, then the blocks it rests on and those resting on it explode in
   * turn from the board without it, each of them gone afterwards, and it
   * scores its length plus their turns' scores.
   */
  ghost predicate Turn(d: Dimension, b: Block, score: int, before: Locs, after: Locs, r: Blast)
    decreases r, 1
  {
    match r
    case Missing => b !in before && score == 0 && after == before
    case Removed => b in before && b.kind == Ordinary && score == b.length && after == before - {b}
    case Split(first, second) =>
      && b in before && b.kind == Fragile && score == 2 * b.length
      && SplitInto(b, before, after, first, second)
    case Chain(below, above, scores, locs, blasts) =>
      && b in before && b.kind == Electrified
      && ListsAdjacent(d, before, b, below, above)
      && TurnsScored(d, before - {b}, after, below + above, scores, locs, blasts)
      && score == b.length + Total(scores)
      && (forall y | y in below + above :: y !in after)
  }

  /**
   * The record of such a loop over `blocks`, from the placements `loc0` to
   * `loc`: `locs[k]` is the board block k meets at its turn, `scores[k]`
   * what that turn scored and `blasts[k]` how the block fared.
   */
  ghost predicate TurnsScored(d: Dimension, loc0: Locs, loc: Locs, blocks: seq<Block>, scores: seq<int>, locs: seq<Locs>,
                              blasts: seq<Blast>)
    decreases blasts, 0
  {
    && |scores| == |blocks| && |locs| == |blocks| + 1 && |blasts| == |blocks|
    && locs[0] == loc0 && locs[|blocks|] == loc
    && forall k | 0 <= k < |blocks| :: Turn(d, blocks[k], scores[k], locs[k], locs[k + 1], blasts[k])
  }

  /** The lengths of the blocks of a list. */
  function Lengths(blocks: seq<Block>): (r: seq<int>)
    ensures |r| == |blocks| && forall k | 0 <= k < |blocks| :: r[k] == blocks[k].length
  {
    seq(|blocks|, k requires 0 <= k < |blocks| => blocks[k].length)
  }

  /** The blocks a list holds, as a set. */
  function Members(blocks: seq<Block>): (r: set<Block>)
    ensures (forall x | x in blocks :: x in r) && (forall x | x in r :: x in blocks)
  {
    set x | x in blocks
  }

  /**
   * When the listed blocks are distinct, ordinary and all on the board at
   * the start, every turn explodes its block: the loop takes exactly them off
   * and scores the sum of their lengths.
   */
  lemma {:induction false} OrdinaryTurns(d: Dimension, loc0: Locs, loc: Locs, blocks: seq<Block>, scores: seq<int>,
                                         locs: seq<Locs>, blasts: seq<Blast>)
    requires TurnsScored(d, loc0, loc, blocks, scores, locs, blasts)
    requires forall k | 0 <= k < |blocks| :: blocks[k] in loc0 && blocks[k].kind == Ordinary
    requires forall j, k | 0 <= j < k < |blocks| :: blocks[j] != blocks[k]
    ensures Total(scores) == Total(Lengths(blocks))
    ensures loc == loc0 - Members(blocks)
    decreases |blocks|
  {
    var n := |blocks|;
    if n == 0 {
      assert loc0 - Members(blocks) == loc0;
    } else {
      var b := blocks[n - 1];
      assert TurnsScored(d, loc0, locs[n - 1], blocks[..n - 1], scores[..n - 1], locs[..n], blasts[..n - 1]);
      OrdinaryTurns(d, loc0, locs[n - 1], blocks[..n - 1], scores[..n - 1], locs[..n], blasts[..n - 1]);
      assert b !in blocks[..n - 1];
      assert Turn(d, b, scores[n - 1], locs[n - 1], locs[n], blasts[n - 1]);
      assert Lengths(blocks)[..n - 1] == Lengths(blocks[..n - 1]);
      assert Members(blocks) == Members(blocks[..n - 1]) + {b} by {
        assert blocks == blocks[..n - 1] + [b];
      }
      assert loc == loc0 - Members(blocks);
    }
  }

  /**
   * `below` lists left to right the blocks of the row under `b` that overlap
   * its columns, which are the blocks `b` rests on; `above` lists those of the
   * row over `b`, which are the blocks resting on `b`.
   */
  ghost predicate ListsAdjacent(d: Dimension, loc: Locs, b: Block, below: seq<Block>, above: seq<Block>) {
    && b in loc && IsNamedDimension(d) && IsRowOf(d, loc[b].row)
    && (loc[b].row == 'a' ==> below == [])
    && (loc[b].row != 'a' ==> ListsOverlapping(loc, RowBelow(d, loc[b].row), loc[b].col, loc[b].col + b.length - 1, below))
    && (loc[b].row == 'X' ==> above == [])
    && (loc[b].row != 'X' ==> ListsOverlapping(loc, RowAbove(d, loc[b].row), loc[b].col, loc[b].col + b.length - 1, above))
    && (forall y | y in loc :: y in below <==> RestsOn(d, loc, b, y))
    && (forall y | y in loc :: y in above <==> RestsOn(d, loc, y, b))
  }

  /**
   * An electrified block whose neighbours are all ordinary: each neighbour
   * explodes at its turn, exactly the block and its neighbours leave the
   * board, and the score is the sum of their lengths.
   */
  lemma ChainOfOrdinary(d: Dimension, b: Block, score: int, before: Locs, after: Locs, r: Blast)
    requires r.Chain? && Turn(d, b, score, before, after, r)
    requires forall y | y in r.below + r.above :: y.kind == Ordinary
    ensures score == b.length + Total(Lengths(r.below + r.above))
    ensures after == before - {b} - Members(r.below + r.above)
  {
    var below, above := r.below, r.above;
    var adjacent := below + above;
    forall k | 0 <= k < |adjacent| ensures adjacent[k] in before - {b} && adjacent[k].kind == Ordinary {
      assert adjacent[k] in adjacent;
      if k < |below| {
        assert below[k] in below;
      } else {
        assert above[k - |below|] in above;
      }
    }
    forall j, k | 0 <= j < k < |adjacent| ensures adjacent[j] != adjacent[k] {
      if k < |below| {
        assert before[below[j]].col < before[below[k]].col;
      } else if |below| <= j {
        assert before[above[j - |below|]].col < before[above[k - |below|]].col;
      } else {
        assert below[j] in below && above[k - |below|] in above;
      }
    }
    OrdinaryTurns(d, before - {b}, after, adjacent, r.scores, r.locs, r.blasts);
  }

  lemma TotalAppend(s: seq<int>, x: int)
    ensures Total(s + [x]) == Total(s) + x
  {
    assert (s + [x])[..|s|] == s;
  }

  /** One more turn of the loop, from the board the record ends on, extends the record. */
  lemma TurnsScoredStep(d: Dimension, loc0: Locs, loc1: Locs, loc2: Locs, blocks: seq<Block>, i: int, scores: seq<int>,
                        locs: seq<Locs>, blasts: seq<Blast>, s: int, r: Blast)
    requires 0 <= i < |blocks| && TurnsScored(d, loc0, loc1, blocks[..i], scores, locs, blasts)
    requires Turn(d, blocks[i], s, loc1, loc2, r)
    ensures TurnsScored(d, loc0, loc2, blocks[..i + 1], scores + [s], locs + [loc2], blasts + [r])
    ensures Total(scores + [s]) == Total(scores) + s
  {
    TotalAppend(scores, s);
    TakeOneMore(blocks, i);
  }

  /** The blocks the adjacency methods list are those of ListsAdjacent, and `b` is not among them. */
  lemma AdjacentListed(d: Dimension, cells: Cells, loc: Locs, b: Block, below: seq<Block>, above: seq<Block>)
    requires WF(d, cells, loc) && b in loc
    requires loc[b].row == 'a' ==> below == []
    requires loc[b].row != 'a' ==> ListsOverlapping(loc, RowBelow(d, loc[b].row), loc[b].col, loc[b].col + b.length - 1, below)
    requires forall y | y in loc :: y in below <==> RestsOn(d, loc, b, y)
    requires loc[b].row == 'X' ==> above == []
    requires loc[b].row != 'X' ==> ListsOverlapping(loc, RowAbove(d, loc[b].row), loc[b].col, loc[b].col + b.length - 1, above)
    requires forall y | y in loc :: y in above <==> RestsOn(d, loc, y, b)
    ensures ListsAdjacent(d, loc, b, below, above)
    ensures b !in below + above
  {
    assert Placed(d, b, loc[b]);
    assert !RestsOn(d, loc, b, b);
  }

  /**
   * let_explode: an ordinary block is removed and scores its length; a
   * fragile block is replaced by its pieces and scores twice its length; an
   * electrified block is removed and sets off the blocks around it, scoring
   * its length plus their scores (see ExplodeElectrified).
   *
   * No explosion moves a block that stays, adds an occupied cell or an
   * electrified block, and each one lowers the weight of the board
   * (SumWeights), which bounds how often explosions can follow each other.
   */
  method LetExplode(board: Board, b: Block)
      returns (score: int, ghost blast: Blast)
    requires board.Valid() && b in board.loc
    modifies board
    ensures board.Valid() && b !in board.loc && score >= b.length
    ensures forall x | x in board.loc ::
              (x in old(board.loc) && board.loc[x] == old(board.loc[x])) || (fresh(x) && x.kind != Electrified)
    ensures board.cells.Keys <= old(board.cells.Keys)
    ensures ElectrifiedOn(board.loc) <= ElectrifiedOn(old(board.loc)) - {b}
    ensures SumWeights(board.loc.Keys) < SumWeights(old(board.loc).Keys)
    ensures Turn(board.dim, b, score, old(board.loc), board.loc, blast)
    ensures b.kind == Fragile ==>
              && board.cells.Keys == old(board.cells.Keys)
              && var p := old(board.loc[b]);
              && IsPieceAt(board.cells, board.loc, p, FirstPieceLength(b.length), b)
              && (b.length > 1 ==> IsPieceAt(board.cells, board.loc, SecondPieceAt(p, b), SecondPieceLength(b.length), b))
    decreases |ElectrifiedOn(board.loc)|, 2
  {
    if b.kind == Ordinary {
      board.RemoveBlockFrom(b);
      SumWeightsRemove(old(board.loc).Keys, b);
      assert board.loc.Keys == old(board.loc).Keys - {b};
      score, blast := b.length, Removed;
      return;
    }
    if b.kind == Fragile {
      ghost var first: Block, second: Block;
      score, first, second := ExplodeFragile(board, b);
      blast := Split(first, second);
      return;
    }
    score, blast := ExplodeElectrified(board, b);
  }

  /**
   * The electrified branch of let_explode: the blocks right below `b` and
   * those right above it are listed, `b` is removed, and each listed block
   * that an earlier explosion did not already take off explodes in turn,
   * starting from the board without `b`. The score is the length of `b` plus
   * theirs.
   */
  method ExplodeElectrified(board: Board, b: Block)
      returns (score: int, ghost blast: Blast)
    requires board.Valid() && b in board.loc && b.kind == Electrified
    modifies board
    ensures board.Valid() && b !in board.loc && score >= b.length
    ensures forall x | x in board.loc ::
              (x in old(board.loc) && board.loc[x] == old(board.loc[x])) || (fresh(x) && x.kind != Electrified)
    ensures board.cells.Keys <= old(board.cells.Keys)
    ensures ElectrifiedOn(board.loc) <= ElectrifiedOn(old(board.loc)) - {b}
    ensures SumWeights(board.loc.Keys) < SumWeights(old(board.loc).Keys)
    ensures blast.Chain? && Turn(board.dim, b, score, old(board.loc), board.loc, blast)
    decreases |ElectrifiedOn(board.loc)|, 1
  {
    var below, above := ListAdjacent(board, b);
    ghost var scores: seq<int>, locs: seq<Locs>, blasts: seq<Blast>;
    score, scores, locs, blasts := RemoveAndExplodeEach(board, b, below + above);
    blast := Chain(below, above, scores, locs, blasts);
  }

  /** The blocks `b` rests on and the blocks resting on `b`, each row left to right. */
  method ListAdjacent(board: Board, b: Block) returns (below: seq<Block>, above: seq<Block>)
    requires board.Valid() && b in board.loc
    ensures ListsAdjacent(board.dim, board.loc, b, below, above)
  {
    below := board.AdjacentBlocksBelow(b);
    above := board.AdjacentBlocksAbove(b);
    AdjacentListed(board.dim, board.cells, board.loc, b, below, above);
  }

  /**
   * The rest of the electrified branch: `b` leaves the board, then each of
   * `adjacent` still on the board explodes in turn.
   */
  method RemoveAndExplodeEach(board: Board, b: Block, adjacent: seq<Block>)
      returns (score: int, ghost scores: seq<int>, ghost locs: seq<Locs>, ghost blasts: seq<Blast>)
    requires board.Valid() && b in board.loc && b.kind == Electrified
    modifies board
    ensures board.Valid() && b !in board.loc && score >= b.length
    ensures forall x | x in board.loc ::
              (x in old(board.loc) && board.loc[x] == old(board.loc[x])) || (fresh(x) && x.kind != Electrified)
    ensures board.cells.Keys <= old(board.cells.Keys)
    ensures ElectrifiedOn(board.loc) <= ElectrifiedOn(old(board.loc)) - {b}
    ensures SumWeights(board.loc.Keys) < SumWeights(old(board.loc).Keys)
    ensures TurnsScored(board.dim, old(board.loc) - {b}, board.loc, adjacent, scores, locs, blasts)
    ensures score == b.length + Total(scores)
    ensures forall y | y in adjacent :: y !in board.loc
    decreases |ElectrifiedOn(board.loc)|, 0
  {
    RemoveElectrified(board, b);
    ghost var loc1 := board.loc;
    ghost var w0, w1 := SumWeights(old(board.loc).Keys), SumWeights(loc1.Keys);
    var rest;
    rest, scores, locs, blasts := ExplodeEach(board, adjacent);
    assert SumWeights(board.loc.Keys) <= w1 < w0;
    forall x | x in board.loc
      ensures (x in old(board.loc) && board.loc[x] == old(board.loc[x])) || (fresh(x) && x.kind != Electrified)
    {
      if x in loc1 && board.loc[x] == loc1[x] {
        assert loc1[x] == old(board.loc[x]);
      }
    }
    score := b.length + rest;
  }

  /** The electrified block itself leaves the board, which lowers its weight and its number of electrified blocks. */
  method RemoveElectrified(board: Board, b: Block)
    requires board.Valid() && b in board.loc && b.kind == Electrified
    modifies board
    ensures board.Valid() && board.loc == old(board.loc) - {b}
    ensures board.cells.Keys <= old(board.cells.Keys)
    ensures ElectrifiedOn(board.loc) == ElectrifiedOn(old(board.loc)) - {b}
    ensures |ElectrifiedOn(board.loc)| < |ElectrifiedOn(old(board.loc))|
    ensures SumWeights(board.loc.Keys) < SumWeights(old(board.loc).Keys)
  {
    board.RemoveBlockFrom(b);
    SumWeightsRemove(old(board.loc).Keys, b);
    assert board.loc.Keys == old(board.loc).Keys - {b};
    SubsetSmaller(ElectrifiedOn(board.loc), ElectrifiedOn(old(board.loc)), b);
  }

  /**
   * The loop of the electrified branch: each listed block still on the
   * board explodes, in the order of the list; the score is the sum of the
   * turns' scores, and a turn whose block is gone scores nothing.
   */
  method ExplodeEach(board: Board, blocks: seq<Block>)
      returns (score: int, ghost scores: seq<int>, ghost locs: seq<Locs>, ghost blasts: seq<Blast>)
    requires board.Valid()
    modifies board
    ensures board.Valid() && score >= 0
    ensures forall x | x in board.loc ::
              (x in old(board.loc) && board.loc[x] == old(board.loc[x])) || (fresh(x) && x.kind != Electrified)
    ensures board.cells.Keys <= old(board.cells.Keys)
    ensures ElectrifiedOn(board.loc) <= ElectrifiedOn(old(board.loc))
    ensures SumWeights(board.loc.Keys) <= SumWeights(old(board.loc).Keys)
    ensures |blocks| > 0 && blocks[0] in old(board.loc) ==> SumWeights(board.loc.Keys) < SumWeights(old(board.loc).Keys)
    ensures forall y | y in blocks :: y !in board.loc
    ensures TurnsScored(board.dim, old(board.loc), board.loc, blocks, scores, locs, blasts) && score == Total(scores)
    decreases |ElectrifiedOn(board.loc)|, 4
  {
    score, scores, locs, blasts := 0, [], [board.loc], [];
    var i := 0;
    while i < |blocks|
      invariant 0 <= i <= |blocks|
      invariant board.Valid() && score >= 0
      invariant i == 0 ==> board.loc == old(board.loc)
      invariant forall x | x in board.loc ::
                  (x in old(board.loc) && board.loc[x] == old(board.loc[x])) || (fresh(x) && x.kind != Electrified)
      invariant board.cells.Keys <= old(board.cells.Keys)
      invariant ElectrifiedOn(board.loc) <= ElectrifiedOn(old(board.loc))
      invariant SumWeights(board.loc.Keys) <= SumWeights(old(board.loc).Keys)
      invariant i > 0 && blocks[0] in old(board.loc) ==> SumWeights(board.loc.Keys) < SumWeights(old(board.loc).Keys)
      invariant forall y | y in blocks[..i] :: y !in board.loc
      invariant TurnsScored(board.dim, old(board.loc), board.loc, blocks[..i], scores, locs, blasts) && score == Total(scores)
    {
      SubsetNoLarger(ElectrifiedOn(board.loc), ElectrifiedOn(old(board.loc)));
      ghost var before := board.loc;
      var s;
      ghost var r;
      s, r := ExplodeIfOn(board, blocks[i], blocks[..i]);
      TurnsScoredStep(board.dim, old(board.loc), before, board.loc, blocks, i, scores, locs, blasts, s, r);
      TakeOneMore(blocks, i);
      score, scores, locs, blasts := score + s, scores + [s], locs + [board.loc], blasts + [r];
      i := i + 1;
    }
    assert blocks[..i] == blocks;
  }

  /** One turn of the loop of the electrified branch: `next` explodes if it is still on the board. */
  method ExplodeIfOn(board: Board, next: Block, ghost gone: seq<Block>) returns (score: int, ghost blast: Blast)
    requires board.Valid() && forall y | y in gone :: y !in board.loc
    modifies board
    ensures board.Valid() && score >= 0 && forall y | y in gone + [next] :: y !in board.loc
    ensures forall x | x in board.loc ::
              (x in old(board.loc) && board.loc[x] == old(board.loc[x])) || (fresh(x) && x.kind != Electrified)
    ensures board.cells.Keys <= old(board.cells.Keys)
    ensures ElectrifiedOn(board.loc) <= ElectrifiedOn(old(board.loc))
    ensures SumWeights(board.loc.Keys) <= SumWeights(old(board.loc).Keys)
    ensures Turn(board.dim, next, score, old(board.loc), board.loc, blast)
    ensures next in old(board.loc) ==> SumWeights(board.loc.Keys) < SumWeights(old(board.loc).Keys)
    decreases |ElectrifiedOn(board.loc)|, 3
  {
    score, blast := 0, Missing;
    var contained := board.ContainsBlock(next);
    if contained {
      score, blast := LetExplode(board, next);
    }
  }
}
