/**
 * The two directions of the structured 2-D copy between a packed image
 * (rows of `w` samples, back to back) and a pitched block (rows `p >= w`
 * samples apart): pure functions on sequences, defined index by index.
 */
module Layout {
  import opened Image

  /** Position `i` of a block with rows `p` apart lies in its `w` x `h` region of interest. */
  predicate InRoi(i: nat, w: nat, h: nat, p: nat)
  {
    p > 0 && RowOf(i, p) < h && ColOf(i, p) < w
  }

  /** Sample `k` of a packed `w`-wide image sits in the block at this index. */
  function BlockIndex(k: nat, w: nat, p: nat): nat
    requires w > 0
  {
    Offset(ColOf(k, w), RowOf(k, w), p)
  }

  /** Sample `k` of the packed image lies inside the block. */
  lemma BlockIndexInRange(k: nat, w: nat, h: nat, p: nat)
    requires 0 < w <= p && k < RowStart(h, w)
    ensures RowOf(k, w) < h && ColOf(k, w) < w
    ensures BlockIndex(k, w, p) < RowStart(h, p)
  {
    RowOfBelow(k, h, w);
    RowOfBounds(k, w);
    RowStartMonotone(RowOf(k, w), h, p);
  }

  /** Position `i` of the region of interest holds this sample of the packed image. */
  function ImageIndex(i: nat, p: nat, w: nat): nat
    requires p > 0
  {
    Offset(ColOf(i, p), RowOf(i, p), w)
  }

  lemma ImageIndexInRange(i: nat, w: nat, h: nat, p: nat)
    requires InRoi(i, w, h, p)
    ensures ImageIndex(i, p, w) < RowStart(h, w)
  {
    RowStartMonotone(RowOf(i, p), h, w);
  }

  /**
   * The packed image of the `w` x `h` region of interest of the pitched block
   * `mem`: what a copy out of the block (`store`) produces.
   */
  function Packed(mem: seq<u8>, w: nat, h: nat, p: nat): (r: seq<u8>)
    requires w <= p && RowStart(h, p) <= |mem|
    ensures |r| == RowStart(h, w)
  {
    if w == 0 then
      RowStartIsProduct(h, w);
      []
    else
      seq(RowStart(h, w), (k: int) requires 0 <= k < RowStart(h, w) =>
        BlockIndexInRange(k, w, h, p);
        mem[BlockIndex(k, w, p)])
  }

  /**
   * The block `mem` after the packed image `img` was copied into its
   * `w` x `h` region of interest (what `load` produces).
   */
  function Scatter(mem: seq<u8>, img: seq<u8>, w: nat, h: nat, p: nat): (r: seq<u8>)
    requires w <= p && RowStart(h, p) <= |mem| && RowStart(h, w) == |img|
    ensures |r| == |mem|
  {
    seq(|mem|, (i: int) requires 0 <= i < |mem| =>
      if InRoi(i, w, h, p) then
        ImageIndexInRange(i, w, h, p);
        img[ImageIndex(i, p, w)]
      else mem[i])
  }

  /** Pixel (x, y) of the packed image is pixel (x, y) of the block's region of interest. */
  lemma PackedAt(mem: seq<u8>, w: nat, h: nat, p: nat, x: nat, y: nat)
    requires w <= p && RowStart(h, p) <= |mem| && x < w && y < h
    ensures Offset(x, y, w) < RowStart(h, w) && Offset(x, y, p) < |mem|
    ensures Packed(mem, w, h, p)[Offset(x, y, w)] == mem[Offset(x, y, p)]
  {
    RowStartMonotone(y, h, w);
    RowStartMonotone(y, h, p);
    RowOfOffset(x, y, w);
  }

  /** Copying in puts pixel (x, y) of the image at pixel (x, y) of the region of interest. */
  lemma ScatterAt(mem: seq<u8>, img: seq<u8>, w: nat, h: nat, p: nat, x: nat, y: nat)
    requires w <= p && RowStart(h, p) <= |mem| && RowStart(h, w) == |img| && x < w && y < h
    ensures Offset(x, y, w) < |img| && Offset(x, y, p) < |mem|
    ensures Scatter(mem, img, w, h, p)[Offset(x, y, p)] == img[Offset(x, y, w)]
  {
    RowStartMonotone(y, h, w);
    RowStartMonotone(y, h, p);
    RowOfOffset(x, y, p);
  }

  /** Round trip: copying an image in and then out again yields the image. */
  lemma PackedOfScatter(mem: seq<u8>, img: seq<u8>, w: nat, h: nat, p: nat)
    requires w <= p && RowStart(h, p) <= |mem| && RowStart(h, w) == |img|
    ensures Packed(Scatter(mem, img, w, h, p), w, h, p) == img
  {
    var s := Scatter(mem, img, w, h, p);
    var r := Packed(s, w, h, p);
    forall k | 0 <= k < |img|
      ensures r[k] == img[k]
    {
      var x, y := ColOf(k, w), RowOf(k, w);
      BlockIndexInRange(k, w, h, p);
      ScatterAt(mem, img, w, h, p, x, y);
    }
  }

  /**
   * Copying an image in writes the region of interest only: the padding
   * columns `w .. p` of every row, and everything past row `h`, keep their
   * old values.
   */
  lemma ScatterKeepsPadding(mem: seq<u8>, img: seq<u8>, w: nat, h: nat, p: nat)
    requires w <= p && RowStart(h, p) <= |mem| && RowStart(h, w) == |img|
    ensures forall y: nat, x: nat :: y < h && w <= x < p ==>
      Offset(x, y, p) < |mem| && Scatter(mem, img, w, h, p)[Offset(x, y, p)] == mem[Offset(x, y, p)]
    ensures forall i :: RowStart(h, p) <= i < |mem| ==> Scatter(mem, img, w, h, p)[i] == mem[i]
  {
    forall y: nat, x: nat | y < h && w <= x < p
      ensures Offset(x, y, p) < |mem| && Scatter(mem, img, w, h, p)[Offset(x, y, p)] == mem[Offset(x, y, p)]
    {
      RowStartMonotone(y, h, p);
      RowOfOffset(x, y, p);
    }
    forall i | RowStart(h, p) <= i < |mem|
      ensures Scatter(mem, img, w, h, p)[i] == mem[i]
    {
      if p > 0 {
        RowOfBounds(i, p);
        if RowOf(i, p) < h {
          RowStartMonotone(RowOf(i, p), h, p);
        }
      }
    }
  }

  /** Copying a block's own packed image back into it changes nothing. */
  lemma ScatterOfPacked(mem: seq<u8>, w: nat, h: nat, p: nat)
    requires w <= p && RowStart(h, p) <= |mem|
    ensures Scatter(mem, Packed(mem, w, h, p), w, h, p) == mem
  {
    var s := Scatter(mem, Packed(mem, w, h, p), w, h, p);
    forall i | 0 <= i < |mem|
      ensures s[i] == mem[i]
    {
      if InRoi(i, w, h, p) {
        var x, y := ColOf(i, p), RowOf(i, p);
        assert Offset(x, y, p) == i;
        PackedAt(mem, w, h, p, x, y);
        assert s[i] == Packed(mem, w, h, p)[Offset(x, y, w)];
      }
    }
  }
}
