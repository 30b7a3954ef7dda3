/**
 * The downsampling pyramid: one buffer per level resolution and one resize
 * operator per pair of consecutive levels, run as a cascade.
 */
module Pyramid {
  import opened Image
  import opened Layout
  import opened Buffers
  import opened Resize
  import opened Topology

  /**
   * The image at the last resolution of `ls` when `px`, an image at `ls[0]`,
   * is resized along the chain, one level after the other.
   */
  function Cascade(interp: Interpolation, ls: seq<Dims>, px: seq<u8>): (r: seq<u8>)
    requires |ls| >= 1
    ensures |ls| > 1 ==> |r| == Area(Last(ls))
  {
    if |ls| == 1 then px
    else Resampled(interp, ls[|ls| - 2], ls[|ls| - 1], Cascade(interp, ls[..|ls| - 1], px))
  }

  /** One more level of the cascade is one more resize. */
  lemma CascadeStep(interp: Interpolation, ls: seq<Dims>, k: nat, px: seq<u8>)
    requires k + 1 < |ls|
    ensures Cascade(interp, ls[..k + 2], px) == Resampled(interp, ls[k], ls[k + 1], Cascade(interp, ls[..k + 1], px))
  {
    assert ls[..k + 2][..k + 1] == ls[..k + 1];
  }

  /** Moving the loop's first unvisited level to the visited ones. */
  lemma LevelsUnfold(done: seq<Dims>, prev: Dims, dst: Dims)
    requires Covers(prev, dst) && Terminates(prev, dst) && Continues(prev, dst)
    ensures done + Levels(prev, dst) == (done + [prev]) + Levels(NextLevel(prev, dst), dst)
  {
    assert Levels(prev, dst) == [prev] + Levels(NextLevel(prev, dst), dst);
  }

  /** A pyramid whose source is its target has one level, and the cascade is the identity. */
  lemma IdentityCascade(interp: Interpolation, d: Dims, px: seq<u8>)
    ensures Levels(d, d) == [d] && Cascade(interp, Levels(d, d), px) == px
  {
  }

  /** The resolutions of a sequence of buffers. */
  ghost function ShapesOf(bs: seq<ImageBuf>): (ds: seq<Dims>)
    ensures |ds| == |bs|
  {
    seq(|bs|, (k: int) requires 0 <= k < |bs| => bs[k].Shape())
  }

  /**
   * Buffers of resolutions `shapes`, well formed and owning distinct
   * storage, with operator `k` resizing level `k` into level `k + 1`.
   */
  ghost predicate Chain(bs: seq<ImageBuf>, os: seq<ResizeLinear>, shapes: seq<Dims>)
  {
    && |bs| == |os| + 1 == |shapes|
    && (forall k :: 0 <= k < |bs| ==> bs[k].Valid() && bs[k].Shape() == shapes[k])
    && (forall i, j :: 0 <= i < j < |bs| ==> bs[i].data != bs[j].data)
    && (forall k :: 0 <= k < |os| ==> os[k] == ResizeLinear(shapes[k], shapes[k + 1]))
  }

  /**
   * One iteration of the constructor's loop: allocate a buffer for the next
   * level and an operator from the current last level to it.
   */
  method PushLevel(bs: seq<ImageBuf>, os: seq<ResizeLinear>, ghost shapes: seq<Dims>, prev: Dims, next: Dims, alloc: Allocator)
    returns (bs': seq<ImageBuf>, os': seq<ResizeLinear>)
    requires Chain(bs, os, shapes) && prev == shapes[|shapes| - 1]
    ensures Chain(bs', os', shapes + [next])
    ensures |bs'| == |bs| + 1 && bs'[..|bs|] == bs && fresh(bs'[|bs|].data)
  {
    var b := new ImageBuf.Alloc(next.width, next.height, alloc);
    assert forall k :: 0 <= k < |bs| ==> bs[k].data != b.data;
    bs' := bs + [b];
    os' := os + [NewResizeLinear(prev.width, prev.height, next.width, next.height)];
    forall i, j | 0 <= i < j < |bs'|
      ensures bs'[i].data != bs'[j].data
    {
      assert bs'[i] == bs[i];
      if j < |bs| {
        assert bs'[j] == bs[j];
      }
    }
  }

  class DownsamplePyramid {
    const bufs: seq<ImageBuf>
    const ops: seq<ResizeLinear>
    const src: Dims
    const dst: Dims

    /** The level resolutions, one per buffer. */
    ghost function Shapes(): seq<Dims>
    {
      ShapesOf(bufs)
    }

    /** The pixel storage of all the levels. */
    ghost function Memory(): set<array<u8>>
    {
      set k | 0 <= k < |bufs| :: bufs[k].data
    }

    /**
     * The buffers are well formed and own distinct storage, the first has
     * the source resolution, operator `k` resizes buffer `k` into buffer
     * `k + 1`, and the buffer resolutions are the levels the constructor's
     * loop visits.
     */
    ghost predicate Valid()
    {
      && Covers(src, dst) && Terminates(src, dst)
      && Chain(bufs, ops, Shapes())
      && Shapes() == Levels(src, dst)
    }

    /**
     * Builds the levels: halve each dimension (rounding up) while it is at
     * least twice the target, else snap it to the target, for as long as
     * both dimensions are above the target.
     */
    constructor (srcWidth: nat, srcHeight: nat, dstWidth: nat, dstHeight: nat, alloc: Allocator)
      requires srcWidth >= dstWidth && srcHeight >= dstHeight
      requires Terminates(Dims(srcWidth, srcHeight), Dims(dstWidth, dstHeight))
      ensures Valid() && fresh(Memory())
      ensures src == Dims(srcWidth, srcHeight) && dst == Dims(dstWidth, dstHeight)
      ensures Shapes() == Levels(src, dst)
    {
      var source, target := Dims(srcWidth, srcHeight), Dims(dstWidth, dstHeight);
      var first := new ImageBuf.Alloc(srcWidth, srcHeight, alloc);
      var bs := [first];
      var os: seq<ResizeLinear> := [];
      var prevWidth: nat, prevHeight: nat := srcWidth, srcHeight;
      ghost var done: seq<Dims> := [];
      ghost var shapes := [source];
      while prevWidth > dstWidth && prevHeight > dstHeight
        invariant Chain(bs, os, shapes) && shapes == done + [Dims(prevWidth, prevHeight)]
        invariant Covers(Dims(prevWidth, prevHeight), target)
        invariant Terminates(Dims(prevWidth, prevHeight), target)
        invariant done + Levels(Dims(prevWidth, prevHeight), target) == Levels(source, target)
        invariant forall k :: 0 <= k < |bs| ==> fresh(bs[k].data)
        decreases prevWidth + prevHeight
      {
        var prev := Dims(prevWidth, prevHeight);
        var nextWidth: nat := if prevWidth >= 2 * dstWidth then (prevWidth + 1) / 2 else dstWidth;
        var nextHeight: nat := if prevHeight >= 2 * dstHeight then (prevHeight + 1) / 2 else dstHeight;
        var next := Dims(nextWidth, nextHeight);
        assert next == NextLevel(prev, target);
        ghost var before := bs;
        bs, os := PushLevel(bs, os, shapes, prev, next, alloc);
        assert forall k :: 0 <= k < |before| ==> bs[k] == before[k];
        LevelsUnfold(done, prev, target);
        done := done + [prev];
        shapes := shapes + [next];
        prevWidth, prevHeight := nextWidth, nextHeight;
      }
      assert ShapesOf(bs) == shapes;
      bufs, ops, src, dst := bs, os, source, target;
    }

    /**
     * Loads the source image into the first level, resizes level `k` into
     * level `k + 1` for every operator in order, and stores the last level
     * into `target`. It fails, with `target` unchanged, when either image
     * length does not match its resolution's area or when the last level's
     * area is not the target's.
     */
    method Downsample(source: seq<u8>, target: array<u8>, interp: Interpolation) returns (ok: bool)
      requires Valid() && target !in Memory()
      modifies Memory(), target
      ensures ok <==> |source| == Area(src) && target.Length == Area(dst) && Area(Last(Levels(src, dst))) == Area(dst)
      ensures ok ==> target[..] == Cascade(interp, Levels(src, dst), source)
      ensures !(|source| == Area(src) && target.Length == Area(dst)) ==> unchanged(Memory())
      ensures !ok ==> unchanged(target)
    {
      if |source| != Area(src) || target.Length != Area(dst) {
        return false;
      }
      var loaded := bufs[0].Load(source);
      assert bufs[0].Pixels() == Cascade(interp, Shapes()[..1], source);
      for k := 0 to |ops|
        invariant bufs[k].Pixels() == Cascade(interp, Shapes()[..k + 1], source)
        invariant unchanged(target)
      {
        var resized := ops[k].Resize(bufs[k], bufs[k + 1], interp);
        CascadeStep(interp, Shapes(), k, source);
      }
      ok := bufs[|ops|].Store(target);
      assert Shapes()[..|ops| + 1] == Shapes();
    }
  }
}
