/** The pitched single-channel 8-bit image buffer (`IppImageBuf<u8>`). */
module Buffers {
  import opened Image
  import opened Layout

  /**
   * Per-row padding the native allocator adds for alignment: a buffer of
   * `width` x `height` gets rows `width + padding(width, height)` samples
   * apart. The allocator is foreign; any padding is allowed.
   */
  type Allocator = (nat, nat) -> nat

  /**
   * A `width` x `height` image held in `pitch * height` samples of memory,
   * rows `pitch >= width` samples apart; the samples of columns
   * `width .. pitch` are padding.
   */
  class ImageBuf {
    const width: nat
    const height: nat
    const pitch: nat
    const data: array<u8>

    /** The memory holds `height` rows of `pitch` samples, each wide enough for a row of the image. */
    ghost predicate Valid()
    {
      width <= pitch && data.Length == RowStart(height, pitch)
    }

    /** The buffer's resolution. */
    function Shape(): Dims
    {
      Dims(width, height)
    }

    /** The image the buffer holds: its region of interest, packed row by row. */
    function Pixels(): (px: seq<u8>)
      requires Valid()
      reads data
      ensures |px| == Area(Shape())
    {
      Packed(data[..], width, height, pitch)
    }

    /** `ippiMalloc_8u_C1`: fresh, uninitialised memory with an allocator-chosen pitch. */
    constructor Alloc(width: nat, height: nat, alloc: Allocator)
      ensures Valid() && fresh(data)
      ensures this.width == width && this.height == height
      ensures pitch == width + alloc(width, height)
    {
      this.width := width;
      this.height := height;
      pitch := width + alloc(width, height);
      data := new u8[(width + alloc(width, height)) * height];
      RowStartIsProduct(height, width + alloc(width, height));
    }

    /**
     * `load`: copy a packed image into the region of interest. Fails (Rust's
     * `assert_eq!` on the length) unless the image has exactly
     * `width * height` samples; the padding is never written.
     */
    method Load(img: seq<u8>) returns (ok: bool)
      requires Valid()
      modifies data
      ensures ok <==> |img| == Area(Shape())
      ensures ok ==> data[..] == Scatter(old(data[..]), img, width, height, pitch)
      ensures ok ==> Pixels() == img
      ensures forall y: nat, x: nat :: y < height && width <= x < pitch ==>
        Offset(x, y, pitch) < data.Length && data[Offset(x, y, pitch)] == old(data[Offset(x, y, pitch)])
      ensures !ok ==> unchanged(data)
    {
      AreaIsProduct(Shape());
      if |img| != width * height {
        forall y: nat, x: nat | y < height && width <= x < pitch
          ensures Offset(x, y, pitch) < data.Length
        {
          RowStartMonotone(y, height, pitch);
        }
        return false;
      }
      WriteRoi(img);
      ok := true;
    }

    /**
     * The structured copy into the region of interest, row by row, through
     * a row pointer that advances by the pitch; also how the resize engine
     * delivers its result into a destination buffer.
     */
    method WriteRoi(img: seq<u8>)
      requires Valid() && |img| == Area(Shape())
      modifies data
      ensures data[..] == Scatter(old(data[..]), img, width, height, pitch)
      ensures Pixels() == img
      ensures forall y: nat, x: nat :: y < height && width <= x < pitch ==>
        Offset(x, y, pitch) < data.Length && data[Offset(x, y, pitch)] == old(data[Offset(x, y, pitch)])
    {
      ghost var mem := data[..];
      ghost var goal := Scatter(mem, img, width, height, pitch);
      ScatterKeepsPadding(mem, img, width, height, pitch);
      var y, row, src := 0, 0, 0;
      while y < height
        invariant y <= height
        invariant row == RowStart(y, pitch) <= data.Length && src == RowStart(y, width) <= |img|
        invariant forall i :: 0 <= i < data.Length ==> data[i] == if i < row then goal[i] else mem[i]
      {
        RowStartMonotone(y, height, pitch);
        RowStartMonotone(y, height, width);
        var x := 0;
        while x < width
          invariant x <= width
          invariant forall i :: 0 <= i < data.Length ==> data[i] == if i < row + x then goal[i] else mem[i]
        {
          ScatterAt(mem, img, width, height, pitch, x, y);
          data[row + x] := img[src + x];
          x := x + 1;
        }
        forall i | row + width <= i < row + pitch
          ensures goal[i] == mem[i]
        {
          assert i == Offset(i - row, y, pitch);
        }
        y, row, src := y + 1, row + pitch, src + width;
      }
      assert data[..] == goal;
      PackedOfScatter(mem, img, width, height, pitch);
    }

    /**
     * `store`: copy the region of interest out into `out`. Fails (Rust's
     * `assert_eq!` on the length) unless `out` has exactly `width * height`
     * samples; the buffer itself is only read.
     */
    method Store(out: array<u8>) returns (ok: bool)
      requires Valid() && out != data
      modifies out
      ensures ok <==> out.Length == Area(Shape())
      ensures ok ==> out[..] == Pixels()
      ensures !ok ==> unchanged(out)
    {
      AreaIsProduct(Shape());
      if out.Length != width * height {
        return false;
      }
      ghost var goal := Pixels();
      var y, row, dst := 0, 0, 0;
      while y < height
        invariant y <= height
        invariant row == RowStart(y, pitch) <= data.Length && dst == RowStart(y, width) <= out.Length
        invariant forall k :: 0 <= k < dst ==> out[k] == goal[k]
      {
        RowStartMonotone(y, height, pitch);
        RowStartMonotone(y, height, width);
        var x := 0;
        while x < width
          invariant x <= width
          invariant forall k :: 0 <= k < dst + x ==> out[k] == goal[k]
        {
          PackedAt(data[..], width, height, pitch, x, y);
          out[dst + x] := data[row + x];
          x := x + 1;
        }
        y, row, dst := y + 1, row + pitch, dst + width;
      }
      assert out[..] == goal;
      ok := true;
    }
  }
}
