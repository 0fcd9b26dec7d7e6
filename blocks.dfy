/**
 * Blocks (Block.py). A block is an immutable triple (length, type, colour) that
 * nevertheless has an identity: two blocks with equal fields are different
 * blocks. A class with only constant fields gives exactly that, since `==` on
 * objects is reference equality and reading a constant field needs no frame.
 */
module Blocks {
  import opened Dimensions
  import opened Colors

  datatype BlockType = Ordinary | Electrified | Fragile

  class Block {
    const length: int
    const kind: BlockType
    const color: int

    /** make_block: the block carries exactly the given fields. */
    constructor (length: int, kind: BlockType, color: int)
      ensures this.length == length && this.kind == kind && this.color == color
    {
      this.length := length;
      this.kind := kind;
      this.color := color;
    }
  }

  /** A proper block has a positive length and a proper colour (its type is proper by construction). */
  predicate IsProperBlock(b: Block) {
    b.length > 0 && IsProperColor(b.color)
  }

  /** A block fits a dimension when it is at most half as long as a row. */
  predicate IsProperBlockForDimension(b: Block, d: Dimension) {
    b.length <= NbOfColumns(d) / 2
  }

  /** Two blocks that the source's tuple equality `==` cannot tell apart. */
  predicate SameFields(x: Block, y: Block) {
    x.length == y.length && x.kind == y.kind && x.color == y.color
  }

  /** The type split_block gives a piece: ordinary when its length is odd, fragile when even. */
  function PieceKind(length: int): (k: BlockType)
    ensures k == Ordinary <==> length % 2 == 1
    ensures k == Fragile <==> length % 2 == 0
  {
    if length % 2 == 1 then Ordinary else Fragile
  }

  function FirstPieceLength(length: int): int { (length + 1) / 2 }
  function SecondPieceLength(length: int): int { length / 2 }

  /** Splitting conserves length; the first piece is the longer one by at most one. */
  lemma SplitConservesLength(length: int)
    requires length > 0
    ensures FirstPieceLength(length) + SecondPieceLength(length) == length
    ensures 0 <= FirstPieceLength(length) - SecondPieceLength(length) <= 1
    ensures 1 <= FirstPieceLength(length) <= length
    ensures SecondPieceLength(length) < length
    ensures length == 1 <==> SecondPieceLength(length) == 0
  {
  }

  /**
   * split_block: two new blocks of lengths (L+1)/2 and L/2, each ordinary when
   * its own length is odd and fragile when even, both of the original colour.
   * A block of length 1 yields a second piece of length 0.
   */
  method SplitBlock(b: Block) returns (first: Block, second: Block)
    ensures fresh(first) && fresh(second) && first != second
    ensures first.length == FirstPieceLength(b.length) && first.kind == PieceKind(first.length)
    ensures second.length == SecondPieceLength(b.length) && second.kind == PieceKind(second.length)
    ensures first.color == b.color && second.color == b.color
  {
    var length1 := (b.length + 1) / 2;
    first := new Block(length1, PieceKind(length1), b.color);
    var length2 := b.length / 2;
    second := new Block(length2, PieceKind(length2), b.color);
  }
}
