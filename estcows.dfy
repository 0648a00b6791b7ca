/**
 * The Estonian flag with cows (art/estcows/estcows.go): a fixed 35 x 23
 * pattern at canvas offset (74, 35), reconciled by the same scan as a
 * Resource. The pattern image itself is loaded from a file at start-up.
 */
module EstCows {
  import opened Wrappers
  import opened Art
  import opened Canvas
  import opened Resource

  const W := 35
  const H := 23
  const X0 := 74
  const Y0 := 35
  const X1 := X0 + W - 1
  const Y1 := Y0 + H - 1

  const CowsBox := Box(X0, Y0, X1, Y1)

  /**
   * The first pixel of the cows pattern that needs correcting, or None;
   * `cows` is the pattern read by the package's init.
   */
  method GetWork(cows: CanvasState, image: Image, ignorePixels: map<int, bool>) returns (p: Option<Pixel>)
    ensures p.None? <==> AllSettled(cows, CowsBox, image, ignorePixels)
    ensures p.Some? ==> IsFirstWork(cows, CowsBox, image, ignorePixels, p.value)
    ensures p.Some? ==> 74 <= p.value.x <= 108 && 35 <= p.value.y <= 57
    ensures p.Some? ==> !Ignored(ignorePixels, p.value.x, p.value.y)
    ensures p.Some? ==> p.value.c != Transparent && p.value.c == ColorAt(cows, p.value.x - 74, p.value.y - 35)
    ensures p.Some? ==> p.value.c != image.At(p.value.x, p.value.y)
  {
    p := ScanTarget(cows, CowsBox, image, ignorePixels);
  }
}
