/** Pixel values, image resolutions and the index arithmetic of row-major memory. */
module Image {

  /** One 8-bit single-channel sample (Rust `u8`). */
  newtype u8 = x: int | 0 <= x < 256

  /** A resolution: logical width and height in pixels. */
  datatype Dims = Dims(width: nat, height: nat)

  /**
   * Number of pixels of an image of resolution `d`, i.e. the length of its
   * packed form: `height` rows of `width` (AreaIsProduct).
   */
  function Area(d: Dims): nat
  {
    RowStart(d.height, d.width)
  }

  /** `a` is at least `b` in both dimensions. */
  predicate Covers(a: Dims, b: Dims)
  {
    a.width >= b.width && a.height >= b.height
  }

  /**
   * Index of the first sample of row `y` in a row-major block whose rows are
   * `stride` samples apart (that is, `y * stride`: see RowStartIsProduct).
   * Spelled as a recursion so that the proofs about layouts only ever need
   * the linear step from one row to the next.
   */
  function RowStart(y: nat, stride: nat): nat
  {
    if y == 0 then 0 else RowStart(y - 1, stride) + stride
  }

  /** Index of pixel (x, y) in a row-major block whose rows are `stride` samples apart. */
  function Offset(x: nat, y: nat, stride: nat): nat
  {
    RowStart(y, stride) + x
  }

  /** The row that index `i` of a row-major block with rows `stride > 0` apart falls in. */
  function RowOf(i: nat, stride: nat): nat
    requires stride > 0
    decreases i
  {
    if i < stride then 0 else RowOf(i - stride, stride) + 1
  }

  /** The column of index `i` within its row. */
  function ColOf(i: nat, stride: nat): nat
    requires stride > 0
  {
    RowOfBounds(i, stride);
    i - RowStart(RowOf(i, stride), stride)
  }

  lemma {:induction false} RowStartIsProduct(y: nat, stride: nat)
    ensures RowStart(y, stride) == y * stride
  {
    if y > 0 {
      RowStartIsProduct(y - 1, stride);
    }
  }

  /** The packed image has `width * height` pixels. */
  lemma AreaIsProduct(d: Dims)
    ensures Area(d) == d.width * d.height
  {
    RowStartIsProduct(d.height, d.width);
  }

  /** Rows are laid out in order: row `y` ends no later than row `h > y` starts. */
  lemma {:induction false} RowStartMonotone(y: nat, h: nat, stride: nat)
    requires y < h
    ensures RowStart(y, stride) + stride <= RowStart(h, stride)
  {
    if y + 1 < h {
      RowStartMonotone(y, h - 1, stride);
    }
  }

  /** Index `i` lies in row RowOf(i): at or after its start, before the next row's. */
  lemma {:induction false} RowOfBounds(i: nat, stride: nat)
    requires stride > 0
    ensures RowStart(RowOf(i, stride), stride) <= i < RowStart(RowOf(i, stride), stride) + stride
  {
    if i >= stride {
      RowOfBounds(i - stride, stride);
    }
  }

  /** The decomposition of an index into row and column is unique. */
  lemma {:induction false} RowOfOffset(x: nat, y: nat, stride: nat)
    requires x < stride
    ensures RowOf(Offset(x, y, stride), stride) == y
    ensures ColOf(Offset(x, y, stride), stride) == x
  {
    if y > 0 {
      RowOfOffset(x, y - 1, stride);
      assert Offset(x, y, stride) - stride == Offset(x, y - 1, stride);
    }
  }

  /** An index before the start of row `h` lies in one of the rows `0 .. h`. */
  lemma RowOfBelow(i: nat, h: nat, stride: nat)
    requires stride > 0 && i < RowStart(h, stride)
    ensures RowOf(i, stride) < h
  {
    RowOfBounds(i, stride);
    if RowOf(i, stride) >= h {
      if h < RowOf(i, stride) {
        RowStartMonotone(h, RowOf(i, stride), stride);
      }
      assert false;
    }
  }
}
