/** The linear resize operator (`IppImageResizeLinear<u8>`). */
module Resize {
  import opened Image
  import opened Layout
  import opened Buffers

  /**
   * The native engine's linear interpolation: the value of sample `i`
   * (row-major) of the destination image, given the source and destination
   * resolutions and the source image, packed. Foreign code, so it is a
   * parameter; the model assumes only that the result depends on the
   * region of interest of the source and on nothing else.
   */
  type Interpolation = (Dims, Dims, seq<u8>, nat) -> u8

  /** The destination image the engine computes from the packed source image `px`. */
  function Resampled(interp: Interpolation, src: Dims, dst: Dims, px: seq<u8>): (r: seq<u8>)
    ensures |r| == Area(dst)
  {
    seq(Area(dst), (i: int) requires 0 <= i => interp(src, dst, px, i))
  }

  /**
   * An operator fixed at construction to one source and one destination
   * resolution. The filter specification and the scratch memory the engine
   * keeps beside them are opaque and are not modelled.
   */
  datatype ResizeLinear = ResizeLinear(src: Dims, dst: Dims)
  {
    /**
     * `resize`: interpolate the image of `source` into the region of
     * interest of `target`. Fails (Rust's `assert_eq!`s) unless both
     * buffers have exactly the configured resolutions; `source` is only read
     * and the padding of `target` is never written.
     */
    method Resize(source: ImageBuf, target: ImageBuf, interp: Interpolation) returns (ok: bool)
      requires source.Valid() && target.Valid() && source.data != target.data
      modifies target.data
      ensures ok <==> source.Shape() == src && target.Shape() == dst
      ensures ok ==> target.Pixels() == Resampled(interp, src, dst, source.Pixels())
      ensures ok ==> target.data[..] == Scatter(old(target.data[..]), target.Pixels(), dst.width, dst.height, target.pitch)
      ensures !ok ==> unchanged(target.data)
    {
      if src.width != source.width || src.height != source.height
        || dst.width != target.width || dst.height != target.height
      {
        return false;
      }
      target.WriteRoi(Resampled(interp, src, dst, source.Pixels()));
      ok := true;
    }
  }

  /**
   * `new`: an operator configured for `srcWidth` x `srcHeight` to
   * `dstWidth` x `dstHeight`; only the two resolutions are observable.
   */
  function NewResizeLinear(srcWidth: nat, srcHeight: nat, dstWidth: nat, dstHeight: nat): (op: ResizeLinear)
    ensures op.src.width == srcWidth && op.src.height == srcHeight
    ensures op.dst.width == dstWidth && op.dst.height == dstHeight
  {
    ResizeLinear(Dims(srcWidth, srcHeight), Dims(dstWidth, dstHeight))
  }
}
