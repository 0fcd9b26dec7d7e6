# A falling-block puzzle, modelled in Dafny

The game is played on a board of rows and columns. Rows are named by letters from the
bottom (`a`, `b`, ...), and the top row, `X`, is the overflow row. Blocks are horizontal runs
of one or more cells. Each block is ordinary, fragile or electrified, and has a colour.

In each round every block is pushed up one row, and a batch of new blocks fills the bottom
row. The board is then stabilized:

- blocks fall until each one rests on something;
- full rows explode:
  - an ordinary block disappears;
  - a fragile block splits into two smaller blocks;
  - an electrified block also sets off the blocks directly above and below it;
- the score and the level are adjusted, and everything falls again.

The player moves one block sideways per round. `play_greedy` always picks the move with the
highest score. `get_top_moves` searches for the shortest sequence of moves that reaches a
minimum score.

The model follows the six core files of the program:

| module | file | what it holds |
|---|---|---|
| `Dimensions` | `dimensions.dfy` | Dimension.py |
| `Colors` | `colors.dfy` | Color.py |
| `Positions` | `positions.dfy` | Position.py |
| `Blocks` | `blocks.dfy` | Block.py |
| `BoardSpec` | `board_spec.dfy` | the specification of a board, as maps between cells and blocks |
| `Boards` | `board.dfy` | the queries and basic updates of Board.py |
| `Moves` | `moves.dfy` | sliding a block |
| `Gravity` | `gravity.dfy` | falling |
| `Explosions` | `explosions.dfy` | exploding |
| `Support` | `support.dfy` | supporting and supported blocks |
| `Pushes` | `pushes.dfy` | pushing rows up and inserting a bottom row |
| `ProperBoards` | `proper_boards.dfy` | `is_proper_board` |
| `Games` | `game.dfy` | Game.py |

How the model represents the program:

- A block is a Dafny `class` with constant fields. Two blocks with equal fields are still
  different blocks, as with the program's `is`.
- A board is a `class Board` with two parts:
  - its dimension;
  - a `map` from positions to blocks, which is the program's dictionary and is updated in place.
- A ghost map from each block to its leftmost position accompanies the board. The invariant
  `Valid()` says the two maps agree: every block fills exactly the run of cells of its length
  that starts at its leftmost position, inside the board.
- Functions of the program that loop over the board are `method`s with loop invariants. Each
  is proved against a specification predicate or function over those maps.

## Model

| member | source | states |
|---|---|---|
| Dimensions.NbOfRows | Dimension.py:27-35 | the number of rows of a dimension |
| Dimensions.NbOfColumns | Dimension.py:36-41 | the number of columns of a dimension |
| Dimensions.ProperDimensionExactly | Dimension.py:4-26 | a dimension is proper exactly when it has at least two rows and at least two columns |
| Colors.ProperColorsAreCodes | Color.py:14-22 | the proper colours are exactly the eight distinct codes 30 to 37 |
| Colors.ColorName | Color.py:30-55 | each proper colour code is named by the entry of the eight colour names at the code's offset from black |
| Colors.ColorNamesDistinct | Color.py:30-55 | different colours get different names |
| Positions.GetRow | Position.py:26-34 | the row of a position |
| Positions.GetColumn | Position.py:35-43 | the column of a position |
| Positions.NbOfRow | Position.py:44-59 | `X` is the top row, numbered `rows`; a lower-case letter is numbered by its place in the alphabet, from `a` = 1; a letter row of the board is numbered between 1 and rows-1 |
| Positions.IdOfRow | Position.py:60-74 | the row named for a number is a row of the board, and numbering it gives back the number |
| Positions.RowNumberRoundTrip | Position.py:44-74 | naming the number of a row gives back the row |
| Positions.RowNumberInjective | Position.py:44-59 | different rows have different numbers |
| Positions.WithinBoundariesExactly | Position.py:75-96 | for proper positions, the boundary test accepts exactly the rows of the board and the columns 1 to cols |
| Positions.Left | Position.py:97-115 | no position when the column would drop below 1; otherwise the same row, `steps` columns to the left |
| Positions.Right | Position.py:116-135 | no position past the last column; otherwise the same row, `steps` columns to the right |
| Positions.RightCompose | Position.py:116-135 | moving right by a and then by b is moving right by a+b |
| Positions.LeftCompose | Position.py:97-115 | moving left by a and then by b is moving left by a+b |
| Positions.Up | Position.py:136-157 | no position above the overflow row; otherwise a position of the board in the same column, `steps` rows higher, and it is `X` when that is the top row |
| Positions.Down | Position.py:158-177 | no position below row `a`; otherwise the same column one row lower, whatever the steps; below `X` is row rows-1 |
| Positions.DownIgnoresSteps | Position.py:158-177 | the result of `down` does not depend on the number of steps |
| Positions.DownAfterUp | Position.py:136-177 | one row down from one row up is the position itself |
| Positions.UpCompose | Position.py:136-157 | moving up by a and then by b is moving up by a+b |
| Blocks.Block.constructor | Block.py:10-21 | the new block carries exactly the given length, type and colour |
| Blocks.PieceKind | Block.py:79-84 | a piece is ordinary exactly when its length is odd and fragile exactly when it is even |
| Blocks.SplitConservesLength | Block.py:65-87 | the two pieces together are as long as the block; the first is at most one longer than the second; only a block of length 1 gives an empty second piece |
| Blocks.SplitBlock | Block.py:65-87 | two new, different blocks of lengths (L+1)/2 and L/2, of the block's colour, each typed by the parity of its length |
| BoardSpec.CellsDeterminedByLocs | Board.py:7-53 | on a proper board the cells are determined by the leftmost positions of the blocks |
| BoardSpec.NoOverlap | Board.py:7-53 | two blocks in the same row of a proper board do not overlap |
| BoardSpec.LocsInjective | Board.py:7-53 | two blocks never share a leftmost position |
| BoardSpec.CellsOfBlockAreRun | Board.py:139-156 | the cells holding a block are exactly the run of its length from its leftmost position |
| BoardSpec.ListingHasNoDuplicates | Board.py:274-291 | a listing of the board, bottom row first and left to right, names no block twice |
| BoardSpec.RowListingUnique | Board.py:177-200 | the blocks of a row starting left of a column have exactly one left-to-right listing |
| BoardSpec.RowListingEmpty | Board.py:228-238 | the listing of a row up to a column is empty exactly when no block of the row starts left of that column |
| BoardSpec.RowBelow | Position.py:158-177 | the row below a row other than `a` is a row of the board, numbered one less |
| BoardSpec.RowAbove | Position.py:136-157 | the row above a row other than `X` is a row of the board, numbered one more |
| BoardSpec.PlaceKeepsWF | Board.py:339-356 | placing a block on free cells inside the board keeps the board proper |
| BoardSpec.RemoveKeepsWF | Board.py:357-373 | removing a block keeps the board proper |
| BoardSpec.RemovedBlockCanReturn | Board.py:310-373 | a removed block can be added back at its old position |
| BoardSpec.FreeMeansUncovered | Board.py:99-112 | a cell is free exactly when no block covers it |
| BoardSpec.NoRestingBeyondEdges | Board.py:393-477 | nothing rests on a block in `X`, and a block in row `a` rests on nothing |
| BoardSpec.PiecesWeighLess | Block.py:65-87 | the two pieces of a fragile block weigh less than the block |
| BoardSpec.RowWalkLists | Board.py:393-477 | walking a row from a column lists, left to right, the blocks that overlap the columns up to `hi` |
| BoardSpec.WalkAboveRestsOn | Board.py:393-425 | the blocks listed above a block are exactly those that rest on it |
| BoardSpec.WalkBelowRestsOn | Board.py:442-477 | the blocks listed below a block are exactly those it rests on |
| Boards.Board.Make | Board.py:54-62 | a new empty board of the given dimension |
| Boards.Board.Copy | Board.py:63-73 | a fresh board with the same dimension and the same blocks at the same positions |
| Boards.Board.BlockAt | Board.py:83-98 | a block exactly when the position is inside the board and taken, and then the block covers it |
| Boards.Board.IsFreeAt | Board.py:99-112 | true exactly when the position is inside the board and no block covers it |
| Boards.Board.LeftmostPositionOf | Board.py:113-138 | the leftmost position of the block when it is on the board, otherwise none |
| Boards.Board.AllPositionsOf | Board.py:139-156 | the run of the block's length from its leftmost position, which are exactly the cells holding the block |
| Boards.Board.AllBlocksInRow | Board.py:177-200 | every block in the row, once each, left to right |
| Boards.Board.LengthLargestGapInRow | Board.py:201-227 | the length of the longest run of free cells in the row: one such run exists and none is longer |
| Boards.Board.IsEmptyRow | Board.py:228-238 | true exactly when no block is in the row |
| Boards.Board.IsFullRow | Board.py:239-257 | true exactly when every cell of the row is taken |
| Boards.Board.AllFullRows | Board.py:258-273 | exactly the full rows of the board |
| Boards.Board.AllBlocks | Board.py:274-291 | every block once, rows from the bottom up, each row left to right |
| Boards.Board.ContainsBlock | Board.py:292-309 | true exactly when the block itself is on the board |
| Boards.Board.CanAcceptBlockAt | Board.py:310-338 | true exactly when the block's run from the position is inside the board and free |
| Boards.Board.AddBlockAt | Board.py:339-356 | the block is at the position and fills its run; the rest of the board is kept |
| Boards.Board.RemoveBlockFrom | Board.py:357-373 | the block's cells are freed and every other block is kept |
| Boards.Board.IsAirborne | Board.py:374-392 | true exactly when the block is above row `a` and every cell below it is free |
| Boards.Board.AdjacentBlocksAbove | Board.py:393-425 | the blocks overlapping the block in the row above, left to right: exactly the blocks resting on it |
| Boards.Board.AdjacentBlocksBelow | Board.py:442-477 | the blocks overlapping the block in the row below, left to right: exactly the blocks it rests on |
| Boards.Board.AdjacentBlockLeft | Board.py:426-441 | a block exactly when the cell just left of the block is taken, and then that block ends right next to it |
| Boards.Board.AdjacentBlockRight | Board.py:478-493 | a block exactly when the cell just right of the block is taken, and then that block starts there |
| Moves.CanMoveOver | Board.py:732-761 | true exactly when every cell the block sweeps over is inside the board and free; always true for 0 steps |
| Moves.MoveBlockHorizontally | Board.py:762-779 | the block is n columns further in the same row, and every other block is kept |
| Moves.SlideCanBeUndone | Board.py:732-779 | after a slide of n, a slide of -n is possible |
| Gravity.IsStable | Board.py:646-658 | true exactly when no block is airborne |
| Gravity.LetFall | Board.py:563-583 | the block drops in its column until it is no longer airborne, never rising; it lands in the first row, going down, that it rests on: every row from there up to its old row is free under it but for the block itself; a block that was not airborne stays; every other block is kept |
| Gravity.OnlyLandingRowRests | Board.py:574-583 | of the rows from the landing row up to the old row, which are clear under the block, only the landing row has an occupied cell right below it, so the landing row is the first one the descent reaches on which the block rests |
| Gravity.LandedNotAirborne | Board.py:563-583 | a block that cannot go one row lower is not airborne |
| Gravity.FallKeepsGrounded | Board.py:584-601 | a fall does not make airborne a grounded block at or below the falling block's row |
| Gravity.LetRowFall | Board.py:584-601 | with every row below grounded, after its blocks fall this row is grounded too, and nothing rose |
| Gravity.LetAllBlocksFall | Board.py:584-601 | the board is stable afterwards, no block rose, and a stable board is left as it was |
| Explosions.PiecePositionsAsWritten | Board.py:629-633 | the loop as written: where each piece is written, or a crash once the position has left the board and a piece is still to come |
| Explosions.FragileSplitAsWritten | Board.py:629-633 | for a fragile block inside the board, the loop as written crashes exactly when the block has length 1 and sits in the last column; otherwise the pieces land where PlacePieces puts them |
| Explosions.PlacePieces | Board.py:628-633 | the two pieces are added from the position on, the first first and the second right after it |
| Explosions.ReplaceByPieces | Board.py:625-633 | the block is replaced by its pieces in the cells it held |
| Explosions.ExplodeFragile | Board.py:625-634 | the fragile block is replaced by two new blocks of the piece lengths and kinds in its colour, the first at its leftmost cell and the second right after it, in the same cells, every other block kept; the score is twice its length, and the potential drops |
| Explosions.FragileKeepsCells | Board.py:625-633 | the pieces fill exactly the cells of the fragile block |
| Explosions.TurnsScoredStep | Board.py:640-642 | a turn taken on the board the record ends on extends the record: a block no longer on the board leaves it unchanged and scores 0; an ordinary block leaves alone and scores its length; a fragile block is replaced by two new blocks of the piece lengths and kinds in its colour, at its leftmost cell and right after it, and scores twice its length; an electrified block leaves, the blocks right below and right above it (below first, each row left to right) then take their own turns of this same kind from the board without it, all of them are gone afterwards, and it scores its length plus their turns' scores; the total grows by the turn's score |
| Explosions.OrdinaryTurns | Board.py:640-642 | when the listed blocks are distinct, ordinary and on the board at the start, every turn explodes its block: exactly those blocks leave the board and the total is the sum of their lengths |
| Explosions.LetExplode | Board.py:600-643 | the block's turn as let_explode takes it: ordinary: removed alone, scoring its length; fragile: replaced by two new blocks of the piece lengths, kinds and its colour, the first at its leftmost cell and the second right after it, every other block kept, scoring twice its length; electrified: removed, then the blocks right below and right above it, listed below first and each row left to right, take their turns of this same kind, nested electrified ones included, from the board without it, all gone afterwards, scoring its length plus their scores; the potential always drops |
| Explosions.ExplodeElectrified | Board.py:635-643 | the lists below and above are exactly the blocks the electrified block rests on and that rest on it, each row left to right; starting from the board without the electrified block, each listed block takes its turn in list order, with the board effect and score of let_explode for its kind, nested electrified blocks included; the score is the block's length plus the sum of those turns' scores; all of them are gone afterwards, and no new electrified block appears |
| Explosions.ChainOfOrdinary | Board.py:635-643 | an electrified block whose neighbours are all ordinary: every neighbour explodes, exactly the block and its neighbours leave the board, and the score is the sum of their lengths (an electrified block of length 1 resting on one ordinary block of length 1 scores 2) |
| Explosions.ListAdjacent | Board.py:636-637 | the blocks below are exactly those the block rests on and the blocks above exactly those resting on it, each row left to right |
| Explosions.RemoveAndExplodeEach | Board.py:638-643 | the electrified block leaves first; the adjacent blocks then take their turns, each with the board effect and score of let_explode for its kind, nested electrified blocks included, from the board without it; the score is its length plus the sum of the turns |
| Explosions.RemoveElectrified | Board.py:638 | the electrified block leaves the board, which loses weight and one electrified block |
| Explosions.ExplodeEach | Board.py:640-642 | each listed block takes its turn on the board the previous turn left, in list order: a block no longer on the board leaves it unchanged and scores 0; an ordinary block leaves alone and scores its length; a fragile block is replaced by two new blocks of the piece lengths and kinds in its colour, at its leftmost cell and right after it, and scores twice its length; an electrified block leaves, the blocks right below and right above it (below first, each row left to right) then take their own turns of this same kind from the board without it, all of them are gone afterwards, and it scores its length plus their turns' scores; the score is the sum of the turns; every listed block is gone afterwards |
| Explosions.ExplodeIfOn | Board.py:641-642 | one turn for the block on the current board, recorded by how it fared: a block no longer on the board leaves it unchanged and scores 0; an ordinary block leaves alone and scores its length; a fragile block is replaced by two new blocks of the piece lengths and kinds in its colour, at its leftmost cell and right after it, and scores twice its length; an electrified block leaves, the blocks right below and right above it (below first, each row left to right) then take their own turns of this same kind from the board without it, all of them are gone afterwards, and it scores its length plus their turns' scores; the potential drops when the block was on the board |
| Support.AboveIsHigher | Board.py:530-562 | a block above another is in a higher row |
| Support.SupportedFrom | Board.py:530-562 | the positions of the blocks above a block, found from the blocks already handled |
| Support.SupportedBlocks | Board.py:530-562 | the leftmost positions of exactly the blocks that, directly or not, rest on the block |
| Support.SupportingBlocksBy | Board.py:494-529 | the walk over the blocks below, with the `in` test by value or by identity |
| Support.WalkFindsSupporters | Board.py:494-529 | the identity walk collects exactly the positions of the blocks below |
| Support.SupportingBlocks | Board.py:494-529 | the leftmost positions of exactly the blocks the block, directly or not, rests on, not counting itself |
| Support.SupportingAsWrittenMisses | Board.py:525 | on a 3-by-4 board with two equal-looking blocks under a block of length 2, the walk as written finds one supporter where there are two |
| Pushes.PushAllBlocksInRowUp | Board.py:659-674 | every block of the row moves one row up in the same columns; no other block moves |
| Pushes.LiftAboveStep | Board.py:683-685 | the row above the next row to push is empty, and pushing it extends the lift by one row |
| Pushes.PushAllBlocksUp | Board.py:675-686 | every block moves one row up in the same columns |
| Pushes.LiftAllEmptiesBottom | Board.py:675-686 | after the push the same blocks are on the board and row `a` is empty |
| Pushes.BatchLocsOf | Board.py:729-731 | the blocks a batch places are exactly its entries, each at its own position |
| Pushes.InsertBottomRow | Board.py:714-731 | every block moves one row up, and the batch's blocks are at their positions in row `a` |
| ProperBoards.IsProperBoard | Board.py:7-53 | the test as written: every position within the boundaries, every block short enough, and a run of the block's length from each position whose left neighbour holds something else |
| ProperBoards.WFIsProper | Board.py:7-53 | a board whose blocks each fill one run of their length is proper |
| ProperBoards.ProperHasPlacement | Board.py:7-53 | a proper board has leftmost positions for its blocks under which each block fills one run |
| ProperBoards.ProperCellsExactly | Board.py:7-53 | the proper boards are exactly those whose cells arise from placing each block in one run |
| ProperBoards.AsWrittenAcceptsColumnZero | Board.py:29 | the test as written accepts a block in column 0, which no placement allows |
| ProperBoards.AsWrittenAcceptsTwoRuns | Board.py:40-50 | the test as written accepts one block filling two separate runs |
| ProperBoards.AsWrittenAcceptsEmptyBlock | Board.py:33 | the test as written accepts a block of length 0 |
| Games.SortRows | Game.py:30-31 | the same rows, in strictly ascending character order (so `X` before `a`) |
| Games.CollectFullRowBlocks | Game.py:29-33 | every block of every full row once, rows in sorted order of their names, each row left to right |
| Games.LetAllFullRowsExplode | Game.py:8-40 | the blocks of the full rows are listed in row order, each row left to right; each takes its turn on the board the previous turn left, with the board effect and score of let_explode for its kind (nested electrified explosions included; 0 and no change when the block was already gone), and the total is the sum of the turns' scores; every block of a full row is gone, and the potential drops whenever a row was full |
| Games.OrdinaryFullRows | Game.py:29-39 | when every block of the full rows is ordinary, exactly those blocks leave the board and the total is the sum of their lengths (two ordinary blocks of length 1 filling a row score 2) |
| Games.ThresholdClosedForm | Game.py:51-55 | six times the threshold of level n is cols * n * (n+1) * (2n+31) |
| Games.ThresholdIncreasing | Game.py:51-55 | the thresholds increase with the level |
| Games.AdjustScore | Game.py:41-63 | the score grows by exactly explosions * rows * level, and does not drop when both are nonnegative; the level goes up by one exactly when the new score exceeds the level's threshold |
| Games.StabilizeBoard | Game.py:64-92 | the board ends stable with no full row; level and score never drop; only new pieces join the board |
| Games.GetAllPossibleSteps | Game.py:93-115 | every nonzero number of steps the block can move over, ascending |
| Games.StepsAreContiguous | Game.py:93-115 | the possible steps form one range around 0 |
| Games.TryMove | Game.py:137-139 | a move and the stabilization after it never lower the score |
| Games.GetMoveWithHighestScore | Game.py:116-147 | every legal move is tried in board order; none exactly when no block can move; otherwise the first move with the highest score |
| Games.BatchQueue.PopFirst | Game.py:240 | the first batch is returned and removed from the list |
| Games.BatchQueue.InsertFirst | Game.py:258 | the batch is put back at the front of the list |
| Games.FillBottomRow | Game.py:182-183 | the filled board is the old one lifted by one row plus the batch in row `a`; it is then stabilized: nothing can fall and no row is full, and every block on it is from the filled board or a new piece |
| Games.PlayMove | Game.py:185-187 | the block is moved over the steps; the board is then stabilized, and every block on it is a moved one or a new piece |
| Games.PlayBestMove | Game.py:184-187 | the move made is the answer of get_move_with_highest_score on the board as it was; without a move nothing changes; with one, the board holds the blocks as moved, stabilized, and level and score do not drop |
| Games.PlayRound | Game.py:182-187 | one batch is used; level and score never drop; the remaining batches still fit the board |
| Games.PlayGreedy | Game.py:150-188 | at most one move per batch; the batches used are the first ones; play ends when they run out or a block is in the overflow row |
| Games.SolveAfterMove | Game.py:248-252 | a solution found after a move is within the bound, and the batches are put back |
| Games.TryStep | Game.py:248-257 | a solution found after the move is adopted with the move (leftmost position, block, steps) in front, and the bound becomes one below its length; without one nothing changes |
| Games.TopMovesOfBlock | Game.py:247-257 | the steps tried are exactly the legal moves of the block; every solution found is adopted, each shorter than the one before; a new solution left at the end starts with the block's move from its leftmost position over one of those steps |
| Games.FoundFromStep | Game.py:248-257 | one more step tried extends the record of the inner loop: a solution found there is adopted, one move longer, with the block's move in front; otherwise nothing changes |
| Games.FilledCopy | Game.py:238-244 | a fresh copy of the board, lifted by one row and filled with the popped batch, then stabilized (nothing can fall, no row full); the board itself is untouched, and the rest of the batches fits the copy |
| Games.GetTopMoves | Game.py:191-261 | the empty solution once the score is reached; none without batches, without moves or with a block in `X`; the list of batches is as on entry; each adopted solution is shorter than the previous one and within the move limit |

## Left out

- print_board (Board.py:780-825), get_symbol (Block.py:128-154), let_player_move_block and play_keyboard (Game.py:262-359): these are terminal rendering and keyboard input.
- make_random_block, get_random_color, get_random_position_for and fill_bottom_row: these are random, so the model has no way to state their outcome. The play functions receive their batches as data instead.
- get_length, get_type and get_color are the block's constant fields. get_dimension is the board's `dim` field.
- is_proper_block and is_proper_block_for_dimension are predicates (`IsProperBlock`, `IsProperBlockForDimension`).
- Positions.IsProperPosition: is_proper_position (Position.py:18-19) accepts any single character for which Python's `str.islower()` holds, such as `é`, `ß` or `ª`; the model accepts only `a` to `z` and `X`. Such a row lies outside every board of at most 27 rows, so only is_proper_position itself differs.
- The `isinstance` and tuple-shape checks of the program are carried by the Dafny types.
- Rows are named `a` to `z` and `X`, so the model limits boards to at most 27 rows. The program's `chr` arithmetic gives no sensible names beyond that.
- The program's boards are proper by assumption. The model's `Board.Valid()` states this as a class invariant, and a ghost map from blocks to their leftmost positions carries it.
- Games.SortRows: `list.sort` is modelled by a selection sort over rows; only the result is the program's.
- Games.GetMoveWithHighestScore: the scores of the trials are tied to the board only through the contract of StabilizeBoard. The exact score each move yields is not computed by the model.
- Games.TryMove: states only that a trial does not lower the score, not its exact value.
- Games.PlayGreedy: states the bookkeeping of the rounds, not that each move is the best one, which is PlayBestMove's contract. When no block can move, the program fails on unpacking `None`; the model returns `NoMoveLeft`.
- Games.GetTopMoves: does not prove that the solution is the shortest, or that it reaches the minimum score. It states the trivial and failing cases, the restored list of batches and that adopted solutions keep getting shorter. The docstring's tie-break between solutions of equal length ("less than using Python's operator") is not what the code does. The code keeps the first solution found that is strictly shorter, and the model follows the code.
- Games.PlayGreedy and Games.GetTopMoves: the default arguments of play_greedy (dimension (8, 10)) and get_top_moves (min_score 100, max_nb_moves 10, level 1, score 0) are ordinary parameters without defaults in the model; a caller passes these values explicitly, and no member of the model relies on them.
- Games.GetTopMoves: requires level >= 1, as the docstring's "positive" says, where the code's assertion only checks level >= 0.
- Games.GetTopMoves: the code pops the batch after copying and before pushing the copy up. The model pops it first; no caller can observe the difference.
- Games.StabilizeBoard: does not state how the score is adjusted round by round, only that level and score never drop. AdjustScore states the adjustment.
- Games.PlayRound: states the bookkeeping of a round (one batch used, scores not dropping, the rest of the batches fitting). What the round does to the board is stated by the two calls it makes: FillBottomRow (lift, fill, stabilize) and PlayBestMove (the best move on the filled board, made and stabilized).
- Explosions.ExplodeFragile: the program crashes on a fragile block of length 1 in the last column (see Findings); the model writes the second, empty piece nowhere and finishes.
- Explosions.LetExplode: follows ExplodeFragile for that input and finishes where the program crashes.
- Explosions.ReplaceByPieces: follows ExplodeFragile for that input.
- Explosions.PlacePieces: writes nothing for a piece of length 0, where the program crashes once the position has left the board.

## Findings

| source | as written | input that shows it | evidently intended | confidence | as-written member | corrected member |
|---|---|---|---|---|---|---|
| Board.py:29 | is_proper_board checks positions only with is_within_boundaries, which has no lower bound on the column | a 3-by-4 board with a block of length 1 at `a`, column 0 | only cells inside the board are accepted | not executed | ProperBoards.AsWrittenAcceptsColumnZero | ProperBoards.ProperCellsExactly |
| Board.py:40-50 | the run check starts only where the left neighbour holds a different block, so a second run of the same block is checked on its own | a 3-by-4 board with one block of length 1 at both `a1` and `b1` | each block fills exactly one run | not executed | ProperBoards.AsWrittenAcceptsTwoRuns | ProperBoards.ProperCellsExactly |
| Board.py:33 | is_proper_block is never called, so a block of length 0 passes | a 3-by-4 board with a block of length 0 at `a1` | every block on a board has a positive length | not executed | ProperBoards.AsWrittenAcceptsEmptyBlock | ProperBoards.ProperCellsExactly |
| Board.py:631-633 | after each piece the position moves right over the piece's length; once it has left the board it is None, and the next turn unpacks it in `right` (Position.py:129) | a fragile block of length 1 in the last column: its second piece has length 0 and is reached with position None | the block is replaced by its one non-empty piece | not executed | Explosions.FragileSplitAsWritten | Explosions.ExplodeFragile |
| Board.py:525 | `block_below not in blocks_to_handle` compares blocks by value, so a block equal in fields to one already queued is never queued | a 3-by-4 board: a block of length 2 at `b1` on two blocks of length 1 with the same type and colour at `a1` and `a2` | every supporting block is found, with blocks compared by identity as elsewhere in the function | not executed | Support.SupportingAsWrittenMisses | Support.SupportingBlocks |
