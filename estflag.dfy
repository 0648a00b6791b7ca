/**
 * The Estonian flag by rule (art/estflag/estflag.go): a 33 x 21 box at
 * canvas offset (740, 900) whose rows form three 7-row stripes, blue, black
 * and white from the top. No pattern image is involved.
 */
module EstFlag {
  import opened Wrappers
  import opened Art
  import opened Canvas
  import opened Resource

  const X0 := 740
  const Y0 := 900
  const X1 := X0 + 33 - 1
  const Y1 := Y0 + 21 - 1

  const FlagBox := Box(X0, Y0, X1, Y1)

  /** The colour of row y: the `switch (y - y0) / 7` of GetWork; no case matches outside the stripes. */
  function StripeColor(y: int): Option<int> {
    var stripe := Quot(y - Y0, 7);
    if stripe == 0 then Some(DarkBlue)
    else if stripe == 1 then Some(Black)
    else if stripe == 2 then Some(White)
    else None
  }

  /** Rows 900-906 are blue, 907-913 black, 914-920 white: every row of the box has a colour. */
  lemma StripeRows(y: int)
    requires Y0 <= y <= Y1
    ensures StripeColor(y).Some?
    ensures y <= 906 ==> StripeColor(y) == Some(DarkBlue)
    ensures 907 <= y <= 913 ==> StripeColor(y) == Some(Black)
    ensures 914 <= y ==> StripeColor(y) == Some(White)
  {
  }

  /** The scan passes over (x, y) without proposing it. */
  ghost predicate Settled(image: Image, ignore: map<int, bool>, x: int, y: int)
    reads image
  {
    Ignored(ignore, x, y) || StripeColor(y).None? || image.At(x, y) == StripeColor(y).value
  }

  ghost predicate AllSettled(image: Image, ignore: map<int, bool>)
    reads image
  {
    forall x, y :: FlagBox.Contains(x, y) ==> Settled(image, ignore, x, y)
  }

  ghost predicate IsFirstWork(image: Image, ignore: map<int, bool>, p: Pixel)
    reads image
  {
    && FlagBox.Contains(p.x, p.y)
    && !Settled(image, ignore, p.x, p.y)
    && StripeColor(p.y) == Some(p.c)
    && forall x, y :: FlagBox.Contains(x, y) && Before(x, y, p.x, p.y) ==> Settled(image, ignore, x, y)
  }

  /** The first flag pixel, in column-major order, whose canvas colour is not its stripe's. */
  method GetWork(image: Image, ignorePixels: map<int, bool>) returns (p: Option<Pixel>)
    ensures p.None? <==> AllSettled(image, ignorePixels)
    ensures p.Some? ==> IsFirstWork(image, ignorePixels, p.value)
    ensures p.Some? ==> 740 <= p.value.x <= 772 && 900 <= p.value.y <= 920
    ensures p.Some? ==> !Ignored(ignorePixels, p.value.x, p.value.y)
    ensures p.Some? ==> StripeColor(p.value.y) == Some(p.value.c) && p.value.c != image.At(p.value.x, p.value.y)
  {
    var x := X0;
    while x <= X1
      invariant X0 <= x <= X1 + 1
      invariant forall x', y' :: FlagBox.Contains(x', y') && x' < x ==> Settled(image, ignorePixels, x', y')
    {
      var y := Y0;
      while y <= Y1
        invariant Y0 <= y <= Y1 + 1
        invariant forall x', y' :: FlagBox.Contains(x', y') && Before(x', y', x, y) ==>
          Settled(image, ignorePixels, x', y')
      {
        if !Ignored(ignorePixels, x, y) {
          var c := image.At(x, y);
          var stripe := Quot(y - Y0, 7);
          if stripe == 0 {
            if c != DarkBlue {
              assert FlagBox.Contains(x, y) && !Settled(image, ignorePixels, x, y);
              return Some(Pixel(x, y, DarkBlue));
            }
          } else if stripe == 1 {
            if c != Black {
              assert FlagBox.Contains(x, y) && !Settled(image, ignorePixels, x, y);
              return Some(Pixel(x, y, Black));
            }
          } else if stripe == 2 {
            if c != White {
              assert FlagBox.Contains(x, y) && !Settled(image, ignorePixels, x, y);
              return Some(Pixel(x, y, White));
            }
          }
        }
        y := y + 1;
      }
      x := x + 1;
    }
    return None;
  }
}
