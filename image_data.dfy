/** The image accumulator: a row-major grid of cells plus a completion
    fraction. In the source every cell and the fraction sit behind their
    own lock; this model runs one thread, so each locked read or
    read-modify-write is a single method call. */
module Images {
  import opened PixelGrid

  class ImageData<T> {
    const xSize: nat
    const ySize: nat
    /** The cells, row-major; the vector itself is never resized. */
    const canvas: array<T>
    /** The completion fraction. */
    var complete: real

    /** The vector has one cell per coordinate, and every in-bounds
        coordinate has its cell inside it. */
    ghost predicate Valid() {
      canvas.Length == CellCount(xSize, ySize) && CellsInRange(canvas.Length, xSize, ySize)
    }

    /** `new_blank`: `xSize * ySize` cells, every one of them `initValue`,
        and nothing completed yet. */
    constructor NewBlank(xSize: nat, ySize: nat, initValue: T)
      ensures Valid() && fresh(canvas)
      ensures this.xSize == xSize && this.ySize == ySize
      ensures canvas.Length == xSize * ySize
      ensures forall k :: 0 <= k < canvas.Length ==> canvas[k] == initValue
      ensures complete == 0.0
    {
      this.xSize := xSize;
      this.ySize := ySize;
      canvas := new T[xSize * ySize](_ => initValue);
      ToIndexIsRowMajor(0, 0, xSize, ySize);
      GridFacts(xSize, ySize);
      complete := 0.0;
    }

    method GetComplete() returns (c: real)
      ensures c == complete
    {
      c := complete;
    }

    /** Replaces the completion fraction `c` by `update(c)` and returns the
        new value; no cell changes. */
    method UpdateComplete(update: real -> real) returns (c: real)
      modifies this
      ensures complete == update(old(complete)) && c == complete
      ensures canvas[..] == old(canvas[..])
    {
      complete := update(complete);
      c := complete;
    }

    /** Reads one cell. The source panics (an `unwrap` of a failed `get`)
        unless the flat index is inside the vector; a column past the end
        of its row is not detected and reads the next row. */
    method GetPixel(x: nat, y: nat) returns (v: T)
      requires ToIndex(x, y, xSize) < canvas.Length
      ensures v == canvas[ToIndex(x, y, xSize)]
    {
      v := canvas[ToIndex(x, y, xSize)];
    }

    /** Replaces the cell `v` at `(x, y)` by `update(v)` and returns the new
        value; every other cell and the completion fraction stay as they were. */
    method UpdatePixel(x: nat, y: nat, update: T -> T) returns (v: T)
      requires ToIndex(x, y, xSize) < canvas.Length
      modifies canvas
      ensures canvas[ToIndex(x, y, xSize)] == update(old(canvas[ToIndex(x, y, xSize)]))
      ensures v == canvas[ToIndex(x, y, xSize)]
      ensures forall k :: 0 <= k < canvas.Length && k != ToIndex(x, y, xSize) ==> canvas[k] == old(canvas[k])
      ensures complete == old(complete)
    {
      var index := ToIndex(x, y, xSize);
      canvas[index] := update(canvas[index]);
      v := canvas[index];
    }

    /** The conversion into a vector: the cell values in index order, as a
        value that later updates cannot change. */
    method Snapshot() returns (s: seq<T>)
      ensures s == canvas[..]
    {
      s := canvas[..];
    }
  }

  /** The blank-canvas test: a 16 by 9 image has 144 cells. */
  method BlankImageSize() returns (n: nat)
    ensures n == 16 * 9
  {
    var image := new ImageData.NewBlank(16, 9, 0.0);
    n := image.canvas.Length;
  }

  /** The access test run on one thread: ten `+1.0` updates of the single
      cell of a 1 by 1 image starting at 0.0 leave 10.0. */
  method TenIncrements() returns (v: real)
    ensures v == 10.0
  {
    var image := new ImageData.NewBlank(1, 1, 0.0);
    var n := 0;
    while n < 10
      invariant 0 <= n <= 10
      invariant image.canvas[0] == n as real
    {
      var _ := image.UpdatePixel(0, 0, x => x + 1.0);
      n := n + 1;
    }
    v := image.GetPixel(0, 0);
  }

  /** The conversion test: a snapshot of a blank 2 by 1 image is two zeros,
      an update of cell (0, 0) is seen by later reads and not by the
      snapshot taken before it. */
  method SnapshotBeforeUpdate() returns (before: seq<real>, first: real, second: real, after: seq<real>)
    ensures before == [0.0, 0.0]
    ensures first == 1.0 && second == 0.0
    ensures after == [1.0, 0.0]
  {
    var image := new ImageData.NewBlank(2, 1, 0.0);
    before := image.Snapshot();
    var _ := image.UpdatePixel(0, 0, _ => 1.0);
    first := image.GetPixel(0, 0);
    second := image.GetPixel(1, 0);
    after := image.Snapshot();
  }
}
