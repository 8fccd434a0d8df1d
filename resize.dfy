/**
 * Canvas size for one image (ImageConverter.jsx lines 36-38): the width is
 * the target width and the height is the source height scaled by
 * `width / img.width`. A canvas dimension is an unsigned integer, so for
 * positive sizes the stored height is the scaled height with its fraction
 * dropped.
 */
module Resize {
  /** A positive pixel count. */
  type Pos = x: int | x > 0 witness 1

  /** Initial value of the target width control. */
  const DefaultWidth: Pos := 800

  datatype Dims = Dims(width: int, height: int)

  /**
   * Size of the canvas an image of `w0` by `h0` pixels is drawn into.
   * The height is the largest integer not above `h0 * target / w0`.
   */
  function CanvasSize(target: Pos, w0: Pos, h0: nat): (d: Dims)
    ensures d.width == target
    ensures 0 <= d.height
    ensures d.height * w0 <= h0 * target < (d.height + 1) * w0
  {
    Dims(target, h0 * target / w0)
  }

  /** Comparing two multiples of the same positive width compares the multipliers. */
  lemma LessFromProducts(a: int, b: int, w: Pos)
    requires a * w < b * w
    ensures a < b
  {
    assert (b - a) * w == b * w - a * w;
  }

  /** The height is determined by the bounds in CanvasSize's contract: no other integer satisfies them. */
  lemma CanvasHeightUnique(target: Pos, w0: Pos, h0: nat, h: int)
    requires h * w0 <= h0 * target < (h + 1) * w0
    ensures CanvasSize(target, w0, h0).height == h
  {
    var d := CanvasSize(target, w0, h0).height;
    LessFromProducts(d, h + 1, w0);
    LessFromProducts(h, d + 1, w0);
  }

  /** Converting to the image's own width keeps its height. */
  lemma NativeWidthKeepsHeight(w0: Pos, h0: nat)
    ensures CanvasSize(w0, w0, h0) == Dims(w0, h0)
  {
    CanvasHeightUnique(w0, w0, h0, h0);
  }

  /** In exact arithmetic, when the scaled height is whole, the canvas keeps the aspect ratio exactly. */
  lemma ExactAspectRatio(target: Pos, w0: Pos, h0: nat)
    requires (h0 * target) % w0 == 0
    ensures CanvasSize(target, w0, h0).height * w0 == h0 * target
  {
  }

  /** A wider target never gives a lower canvas. */
  lemma HeightMonotone(t1: Pos, t2: Pos, w0: Pos, h0: nat)
    requires t1 <= t2
    ensures CanvasSize(t1, w0, h0).height <= CanvasSize(t2, w0, h0).height
  {
    var a := CanvasSize(t1, w0, h0).height;
    var b := CanvasSize(t2, w0, h0).height;
    assert h0 * t2 - h0 * t1 == h0 * (t2 - t1);
    LessFromProducts(a, b + 1, w0);
  }

  /** An 800 by 600 image converted to width 400 is drawn at 400 by 300. */
  lemma HalfWidthExample()
    ensures CanvasSize(400, 800, 600) == Dims(400, 300)
  {
    CanvasHeightUnique(400, 800, 600, 300);
  }
}
