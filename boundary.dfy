/** The boundary test that marks an area as an edge area. The scan takes the
    rule as a parameter: `AsWritten` is the source's test, whose right-edge
    clause compares the column with the height; `WidthCorrected` compares it
    with the width. */
module Boundary {

  datatype EdgeRule = AsWritten | WidthCorrected

  /** Whether the scan treats pixel (x, y) of a width x height image as lying
      on the image boundary. */
  predicate OnBoundary(rule: EdgeRule, width: nat, height: nat, x: nat, y: nat): (b: bool)
    ensures x == 0 || y == 0 || y + 1 == height ==> b
    ensures rule == WidthCorrected && x < width && y < height ==> (b <==> LacksNeighbour(width, height, x, y))
  {
    x == 0 || y == 0 || y == height - 1 ||
    (match rule
     case AsWritten => x == height - 1
     case WidthCorrected => x == width - 1)
  }

  /** A pixel lies on the boundary when one of its four orthogonal neighbours
      falls outside the image. */
  predicate LacksNeighbour(width: nat, height: nat, x: nat, y: nat) {
    x == 0 || y == 0 || x + 1 >= width || y + 1 >= height
  }

  /** The corrected rule marks exactly the in-image pixels that lack a neighbour,
      and it departs from the rule as written only in the columns height - 1 and
      width - 1. */
  lemma CorrectedIsBoundary(width: nat, height: nat, x: nat, y: nat)
    requires x < width && y < height
    ensures OnBoundary(WidthCorrected, width, height, x, y) <==> LacksNeighbour(width, height, x, y)
    ensures OnBoundary(AsWritten, width, height, x, y) != OnBoundary(WidthCorrected, width, height, x, y) ==>
      x + 1 == height || x + 1 == width
  {
  }

  /** The two rules agree on square images. */
  lemma RulesAgreeWhenSquare(side: nat, x: nat, y: nat)
    ensures OnBoundary(AsWritten, side, side, x, y) <==> OnBoundary(WidthCorrected, side, side, x, y)
  {
  }

  /** On a 4 x 3 image the source's test misses the right-edge pixel (3, 1) and
      marks the interior pixel (2, 1). */
  lemma AsWrittenMisclassifies()
    ensures !OnBoundary(AsWritten, 4, 3, 3, 1) && LacksNeighbour(4, 3, 3, 1)
    ensures OnBoundary(AsWritten, 4, 3, 2, 1) && !LacksNeighbour(4, 3, 2, 1)
  {
  }
}
