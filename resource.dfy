/**
 * A target pattern anchored on the canvas (art/resource/resource.go) and
 * the reconciling scan over it: the first coordinate, in column-major order,
 * that is not in flight, not transparent in the pattern, and shows another
 * colour on the canvas than the pattern wants.
 */
module Resource {
  import opened Wrappers
  import opened Art
  import opened Canvas

  /** An inclusive rectangle of canvas coordinates, [x0, x1] x [y0, y1]. */
  datatype Box = Box(x0: int, y0: int, x1: int, y1: int) {
    predicate Contains(x: int, y: int) {
      x0 <= x <= x1 && y0 <= y <= y1
    }
  }

  /** Go's `ignorePixels[x|(y<<16)]`: a key that is absent reads as false. */
  predicate Ignored(ignore: map<int, bool>, x: int, y: int) {
    var k := PackKey(x, y);
    k in ignore && ignore[k]
  }

  /** The colour the target anchored at the box's corner wants at canvas (x, y). */
  function Want(target: CanvasState, box: Box, x: int, y: int): int {
    ColorAt(target, x - box.x0, y - box.y0)
  }

  /** The scan passes over (x, y) without proposing it. */
  ghost predicate Settled(target: CanvasState, box: Box, image: Image, ignore: map<int, bool>, x: int, y: int)
    reads image
  {
    Ignored(ignore, x, y) || Want(target, box, x, y) == Transparent ||
    Want(target, box, x, y) == image.At(x, y)
  }

  /** Nothing in the box needs correcting. */
  ghost predicate AllSettled(target: CanvasState, box: Box, image: Image, ignore: map<int, bool>)
    reads image
  {
    forall x, y :: box.Contains(x, y) ==> Settled(target, box, image, ignore, x, y)
  }

  /** p is the first correction of the box in scan order, painted with the target's colour. */
  ghost predicate IsFirstWork(target: CanvasState, box: Box, image: Image, ignore: map<int, bool>, p: Pixel)
    reads image
  {
    && box.Contains(p.x, p.y)
    && !Settled(target, box, image, ignore, p.x, p.y)
    && p.c == Want(target, box, p.x, p.y)
    && forall x, y :: box.Contains(x, y) && Before(x, y, p.x, p.y) ==>
         Settled(target, box, image, ignore, x, y)
  }

  /** The first correction is unique, so each scan result is determined by its inputs. */
  lemma FirstWorkUnique(target: CanvasState, box: Box, image: Image, ignore: map<int, bool>, p: Pixel, q: Pixel)
    requires IsFirstWork(target, box, image, ignore, p)
    requires IsFirstWork(target, box, image, ignore, q)
    ensures p == q
  {
  }

  /**
   * The nested scan shared by Resource.GetWork and EstCows.GetWork: x from
   * x0 to x1, and within it y from y0 to y1, returning the first coordinate
   * to correct. Reads only.
   */
  method ScanTarget(target: CanvasState, box: Box, image: Image, ignore: map<int, bool>) returns (p: Option<Pixel>)
    ensures p.None? <==> AllSettled(target, box, image, ignore)
    ensures p.Some? ==> IsFirstWork(target, box, image, ignore, p.value)
    ensures p.Some? ==> box.Contains(p.value.x, p.value.y)
    ensures p.Some? ==> !Ignored(ignore, p.value.x, p.value.y)
    ensures p.Some? ==> p.value.c != Transparent && p.value.c == Want(target, box, p.value.x, p.value.y)
    ensures p.Some? ==> p.value.c != image.At(p.value.x, p.value.y)
  {
    var x := box.x0;
    while x <= box.x1
      invariant box.x0 <= x && (x <= box.x1 + 1 || x == box.x0)
      invariant forall x', y' :: box.Contains(x', y') && x' < x ==> Settled(target, box, image, ignore, x', y')
    {
      var y := box.y0;
      while y <= box.y1
        invariant box.y0 <= y && (y <= box.y1 + 1 || y == box.y0)
        invariant forall x', y' :: box.Contains(x', y') && Before(x', y', x, y) ==>
          Settled(target, box, image, ignore, x', y')
      {
        if !Ignored(ignore, x, y) {
          var c1 := ColorAt(target, x - box.x0, y - box.y0);
          if c1 != Transparent {
            var c2 := image.At(x, y);
            if c1 != c2 {
              assert box.Contains(x, y) && !Settled(target, box, image, ignore, x, y);
              return Some(Pixel(x, y, c1));
            }
          }
        }
        y := y + 1;
      }
      x := x + 1;
    }
    return None;
  }

  /**
   * A pattern image together with the canvas rectangle it covers. Nothing
   * writes the pattern after New, so it is held as a value.
   */
  class Resource {
    const img: CanvasState
    const x0: int
    const x1: int
    const y0: int
    const y1: int

    /**
     * New, after the file is read and parsed: the pattern `img` of
     * dimensions w x h (img.Dimensions()) anchored at (x, y).
     */
    constructor New(x: int, y: int, img: CanvasState, w: int, h: int)
      ensures this.img == img
      ensures x0 == x && y0 == y && x1 == x + w - 1 && y1 == y + h - 1
      ensures w >= 0 && h >= 0 ==> x1 - x0 + 1 == w && y1 - y0 + 1 == h
    {
      this.img := img;
      x0, x1 := x, x + w - 1;
      y0, y1 := y, y + h - 1;
    }

    function Bounds(): Box {
      Box(x0, y0, x1, y1)
    }

    ghost predicate HasNoWork(image: Image, ignorePixels: map<int, bool>)
      reads image
    {
      AllSettled(img, Bounds(), image, ignorePixels)
    }

    ghost predicate IsWork(image: Image, ignorePixels: map<int, bool>, p: Pixel)
      reads image
    {
      IsFirstWork(img, Bounds(), image, ignorePixels, p)
    }

    /** The first pixel of this pattern that needs correcting, or None. */
    method GetWork(image: Image, ignorePixels: map<int, bool>) returns (p: Option<Pixel>)
      ensures p.None? <==> HasNoWork(image, ignorePixels)
      ensures p.Some? ==> IsWork(image, ignorePixels, p.value)
      ensures p.Some? ==> x0 <= p.value.x <= x1 && y0 <= p.value.y <= y1
      ensures p.Some? ==> !Ignored(ignorePixels, p.value.x, p.value.y)
      ensures p.Some? ==> p.value.c != Transparent && p.value.c == ColorAt(img, p.value.x - x0, p.value.y - y0)
      ensures p.Some? ==> p.value.c != image.At(p.value.x, p.value.y)
    {
      p := ScanTarget(img, Bounds(), image, ignorePixels);
    }
  }
}
