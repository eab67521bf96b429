/** Row-major indexing shared by both pixel grids: the cell of column `x`
    in row `y` of a grid `xSize` cells wide.

    The row offset `y * xSize` is written as a repeated sum, `RowStart`,
    and `RowStartIsProduct` proves it equal to the product. Stated this way
    the solver does not need non-linear arithmetic to reason about cells. */
module PixelGrid {

  /** The flat index of the first cell of row `y`. */
  function RowStart(y: nat, xSize: nat): nat
    decreases y
  {
    if y == 0 then 0 else RowStart(y - 1, xSize) + xSize
  }

  /** The number of cells of an `xSize` by `ySize` grid. */
  function CellCount(xSize: nat, ySize: nat): nat {
    RowStart(ySize, xSize)
  }

  /** `to_index`. */
  function ToIndex(x: nat, y: nat, xSize: nat): nat {
    RowStart(y, xSize) + x
  }

  lemma {:induction false} RowStartIsProduct(y: nat, xSize: nat)
    ensures RowStart(y, xSize) == y * xSize
    decreases y
  {
    if y > 0 {
      RowStartIsProduct(y - 1, xSize);
      assert (y - 1) * xSize + xSize == y * xSize;
    }
  }

  /** `to_index` is `y * x_size + x`, and a grid has `xSize * ySize` cells. */
  lemma ToIndexIsRowMajor(x: nat, y: nat, xSize: nat, ySize: nat)
    ensures ToIndex(x, y, xSize) == y * xSize + x
    ensures CellCount(xSize, ySize) == xSize * ySize
  {
    RowStartIsProduct(y, xSize);
    RowStartIsProduct(ySize, xSize);
  }

  /** Later rows start no earlier. */
  lemma {:induction false} RowStartMonotone(y1: nat, y2: nat, xSize: nat)
    requires y1 <= y2
    ensures RowStart(y1, xSize) <= RowStart(y2, xSize)
    decreases y2
  {
    if y1 < y2 {
      RowStartMonotone(y1, y2 - 1, xSize);
    }
  }

  /** Every in-bounds coordinate lands inside the grid. */
  lemma ToIndexInRange(x: nat, y: nat, xSize: nat, ySize: nat)
    requires x < xSize && y < ySize
    ensures ToIndex(x, y, xSize) < CellCount(xSize, ySize)
  {
    RowStartMonotone(y + 1, ySize, xSize);
  }

  /** Every cell of an earlier row comes before every cell of a later one. */
  lemma ToIndexRowOrder(x1: nat, y1: nat, x2: nat, y2: nat, xSize: nat)
    requires x1 < xSize && y1 < y2
    ensures ToIndex(x1, y1, xSize) < ToIndex(x2, y2, xSize)
  {
    RowStartMonotone(y1 + 1, y2, xSize);
  }

  /** Distinct in-bounds coordinates never share a cell. */
  lemma ToIndexInjective(x1: nat, y1: nat, x2: nat, y2: nat, xSize: nat)
    requires x1 < xSize && x2 < xSize
    requires ToIndex(x1, y1, xSize) == ToIndex(x2, y2, xSize)
    ensures x1 == x2 && y1 == y2
  {
    if y1 < y2 {
      ToIndexRowOrder(x1, y1, x2, y2, xSize);
    } else if y2 < y1 {
      ToIndexRowOrder(x2, y2, x1, y1, xSize);
    }
  }

  /** A column one past the end of its row is the first cell of the next
      row: nothing but the flat index is checked. */
  lemma ToIndexAliasesNextRow(x: nat, y: nat, xSize: nat)
    ensures ToIndex(xSize + x, y, xSize) == ToIndex(x, y + 1, xSize)
  {
  }

  /** Every in-bounds coordinate of an `xSize` by `ySize` grid has its cell
      among the first `n`. */
  ghost predicate CellsInRange(n: nat, xSize: nat, ySize: nat) {
    forall x: nat, y: nat :: x < xSize && y < ySize ==> ToIndex(x, y, xSize) < n
  }

  /** The grid facts in the form loops over cells use them. */
  lemma GridFacts(xSize: nat, ySize: nat)
    ensures CellsInRange(CellCount(xSize, ySize), xSize, ySize)
    ensures forall x1: nat, y1: nat, x2: nat, y2: nat {:trigger ToIndex(x1, y1, xSize), ToIndex(x2, y2, xSize)} ::
              x1 < xSize && x2 < xSize && ToIndex(x1, y1, xSize) == ToIndex(x2, y2, xSize) ==> x1 == x2 && y1 == y2
  {
    forall x: nat, y: nat | x < xSize && y < ySize
      ensures ToIndex(x, y, xSize) < CellCount(xSize, ySize)
    {
      ToIndexInRange(x, y, xSize, ySize);
    }
    forall x1: nat, y1: nat, x2: nat, y2: nat | x1 < xSize && x2 < xSize && ToIndex(x1, y1, xSize) == ToIndex(x2, y2, xSize)
      ensures x1 == x2 && y1 == y2
    {
      ToIndexInjective(x1, y1, x2, y2, xSize);
    }
  }
}
