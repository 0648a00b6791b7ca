/**
 * The shared vocabulary of the canvas bot (art/art.go): the 16-colour
 * palette, the Pixel record, the bounds check applied to a decoded canvas
 * image, and colour equality on RGBA samples.
 */
module Art {
  import opened Wrappers

  // The palette indices, in the order of the iota enumeration.
  const White := 0
  const LightGray := 1
  const Gray := 2
  const Black := 3
  const Pink := 4
  const Red := 5
  const Orange := 6
  const Brown := 7
  const Yellow := 8
  const LightGreen := 9
  const Green := 10
  const Cyan := 11
  const MediumBlue := 12
  const DarkBlue := 13
  const LightPurple := 14
  const DarkPurple := 15

  /** The palette in enumeration order. */
  const Palette: seq<int> := [White, LightGray, Gray, Black, Pink, Red, Orange, Brown,
                              Yellow, LightGreen, Green, Cyan, MediumBlue, DarkBlue,
                              LightPurple, DarkPurple]

  /**
   * The "no opinion" marker a pattern image carries where it is transparent.
   * It is never a palette index.
   */
  const Transparent := -1

  predicate IsPaletteColor(c: int) {
    0 <= c < 16
  }

  /** A corrective write: paint canvas coordinate (x, y) with colour c. */
  datatype Pixel = Pixel(x: int, y: int, c: int)

  /** The four 16-bit components that color.Color.RGBA() reports. */
  datatype Rgba = Rgba(r: int, g: int, b: int, a: int)

  /** The rectangle image.Image.Bounds() reports: Min is inclusive, Max exclusive. */
  datatype Rect = Rect(minX: int, minY: int, maxX: int, maxY: int)

  /** The only rectangle a canvas snapshot may have: 1000 x 1000 at the origin. */
  const CanvasRect := Rect(0, 0, 1000, 1000)

  datatype ImageError = DecodeFailed | UnexpectedBounds

  /**
   * ParseImage after PNG decoding: `decoded` is the bounds of the decoded
   * image, or None when decoding failed. The image is accepted exactly when
   * it decoded and its bounds are the canvas rectangle.
   */
  function ParseImage(decoded: Option<Rect>): (r: Result<Rect, ImageError>)
    ensures r.Success? <==> decoded == Some(CanvasRect)
    ensures r.Success? ==> r.value == CanvasRect
    ensures decoded.None? ==> r == Failure(DecodeFailed)
    ensures decoded.Some? && decoded.value != CanvasRect ==> r == Failure(UnexpectedBounds)
  {
    match decoded
    case None => Failure(DecodeFailed)
    case Some(b) =>
      if b.minX != 0 || b.minY != 0 || b.maxX != 1000 || b.maxY != 1000 then
        Failure(UnexpectedBounds)
      else
        Success(b)
  }

  /** SameColor: equal RGBA components, which for these samples is equality. */
  function SameColor(c1: Rgba, c2: Rgba): (same: bool)
    ensures same <==> c1 == c2
  {
    c1.r == c2.r && c1.g == c2.g && c1.b == c2.b && c1.a == c2.a
  }

  /** SameColor is an equivalence relation. */
  lemma SameColorIsEquivalence(c1: Rgba, c2: Rgba, c3: Rgba)
    ensures SameColor(c1, c1)
    ensures SameColor(c1, c2) == SameColor(c2, c1)
    ensures SameColor(c1, c2) && SameColor(c2, c3) ==> SameColor(c1, c3)
  {
  }

  /** The palette holds 16 distinct indices, the i-th being i, so each fits a 4-bit field. */
  lemma PaletteIsNibbles()
    ensures |Palette| == 16
    ensures forall i :: 0 <= i < |Palette| ==> Palette[i] == i && IsPaletteColor(Palette[i])
    ensures forall i, j :: 0 <= i < j < |Palette| ==> Palette[i] != Palette[j]
    ensures !IsPaletteColor(Transparent)
  {
  }

  /**
   * Go's integer division, which truncates toward zero (Dafny's `/` on int
   * rounds toward negative infinity when the divisor is positive).
   */
  /**
   * (x, y) comes before (x', y') in the order every scan of the program
   * visits the canvas: x outer, y inner.
   */
  predicate Before(x: int, y: int, x': int, y': int) {
    x < x' || (x == x' && y < y')
  }

  function Quot(a: int, b: int): int
    requires b > 0
  {
    if a >= 0 then a / b else -((-a) / b)
  }
}
