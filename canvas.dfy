/** The earlier pixel grid: the same row-major cells as the image
    accumulator, without a completion fraction. Each cell is locked on its
    own in the source; here every access is one sequential call. */
module Canvases {
  import opened PixelGrid

  class Canvas<T> {
    const xSize: nat
    const ySize: nat
    /** The cells, row-major; the vector itself is never resized. */
    const canvas: array<T>

    /** The vector has one cell per coordinate, and every in-bounds
        coordinate has its cell inside it. */
    ghost predicate Valid() {
      canvas.Length == CellCount(xSize, ySize) && CellsInRange(canvas.Length, xSize, ySize)
    }

    /** `new_blank`: `xSize * ySize` cells, every one of them `initValue`. */
    constructor NewBlank(xSize: nat, ySize: nat, initValue: T)
      ensures Valid() && fresh(canvas)
      ensures this.xSize == xSize && this.ySize == ySize
      ensures canvas.Length == xSize * ySize
      ensures forall k :: 0 <= k < canvas.Length ==> canvas[k] == initValue
    {
      this.xSize := xSize;
      this.ySize := ySize;
      canvas := new T[xSize * ySize](_ => initValue);
      ToIndexIsRowMajor(0, 0, xSize, ySize);
      GridFacts(xSize, ySize);
    }

    /** Reads one cell; the source panics unless the flat index is inside
        the vector. */
    method ReadPixel(x: nat, y: nat) returns (v: T)
      requires ToIndex(x, y, xSize) < canvas.Length
      ensures v == canvas[ToIndex(x, y, xSize)]
    {
      v := canvas[ToIndex(x, y, xSize)];
    }

    /** Replaces the cell `v` at `(x, y)` by `update(v)` and returns the new
        value; every other cell stays as it was. */
    method UpdatePixel(x: nat, y: nat, update: T -> T) returns (v: T)
      requires ToIndex(x, y, xSize) < canvas.Length
      modifies canvas
      ensures canvas[ToIndex(x, y, xSize)] == update(old(canvas[ToIndex(x, y, xSize)]))
      ensures v == canvas[ToIndex(x, y, xSize)]
      ensures forall k :: 0 <= k < canvas.Length && k != ToIndex(x, y, xSize) ==> canvas[k] == old(canvas[k])
    {
      var index := ToIndex(x, y, xSize);
      canvas[index] := update(canvas[index]);
      v := canvas[index];
    }

    /** The conversion into a vector: the cell values in index order. */
    method Snapshot() returns (s: seq<T>)
      ensures s == canvas[..]
    {
      s := canvas[..];
    }
  }

  /** The blank-canvas test: a 16 by 9 canvas has 144 cells. */
  method BlankCanvasSize() returns (n: nat)
    ensures n == 16 * 9
  {
    var c := new Canvas.NewBlank(16, 9, 0.0);
    n := c.canvas.Length;
  }

  /** The access test run on one thread: ten `+1.0` updates of the single
      cell of a 1 by 1 canvas starting at 0.0 leave 10.0. */
  method TenCanvasIncrements() returns (v: real)
    ensures v == 10.0
  {
    var c := new Canvas.NewBlank(1, 1, 0.0);
    var n := 0;
    while n < 10
      invariant 0 <= n <= 10
      invariant c.canvas[0] == n as real
    {
      var _ := c.UpdatePixel(0, 0, x => x + 1.0);
      n := n + 1;
    }
    v := c.ReadPixel(0, 0);
  }

  /** The conversion test: a snapshot taken before an update keeps the old
      values while later reads see the new one. */
  method CanvasSnapshotBeforeUpdate() returns (before: seq<real>, first: real, second: real, after: seq<real>)
    ensures before == [0.0, 0.0]
    ensures first == 1.0 && second == 0.0
    ensures after == [1.0, 0.0]
  {
    var c := new Canvas.NewBlank(2, 1, 0.0);
    before := c.Snapshot();
    var _ := c.UpdatePixel(0, 0, _ => 1.0);
    first := c.ReadPixel(0, 0);
    second := c.ReadPixel(1, 0);
    after := c.Snapshot();
  }
}
