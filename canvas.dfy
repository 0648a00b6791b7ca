/**
 * The canvas mirror, art.Image, as far as the modelled callers rely on it:
 * a server-assigned version and a colour per observed coordinate, read with
 * Version and At and patched with UpdatePixel. Keyframe parsing and palette
 * classification belong to art.Image's own implementation, which is not part
 * of this model.
 *
 * Also here: the packed integer key x | (y << 16) under which the painter
 * and the reconcilers index coordinates in their in-flight maps.
 */
module Canvas {
  import opened Art

  type Coord = (int, int)

  /** What At reports for a coordinate that was never observed. */
  const Unknown := -2

  /** The value of an Image: its version and its colour map. */
  datatype CanvasState = CanvasState(version: int, colors: map<Coord, int>)

  /** The colour a state shows at (x, y). */
  function ColorAt(s: CanvasState, x: int, y: int): int {
    if (x, y) in s.colors then s.colors[(x, y)] else Unknown
  }

  /** The state after UpdatePixel(x, y, c, v). */
  function Patch(s: CanvasState, x: int, y: int, c: int, v: int): (t: CanvasState)
    ensures t.version == v
    ensures ColorAt(t, x, y) == c
    ensures forall x', y' :: (x', y') != (x, y) ==> ColorAt(t, x', y') == ColorAt(s, x', y')
  {
    CanvasState(v, s.colors[(x, y) := c])
  }

  class Image {
    var version: int
    var colors: map<Coord, int>

    /** A fresh mirror: version 0, meaning "no data yet". */
    constructor ()
      ensures version == 0 && colors == map[]
    {
      version := 0;
      colors := map[];
    }

    function State(): CanvasState
      reads this
    {
      CanvasState(version, colors)
    }

    function Version(): (v: int)
      reads this
      ensures v == State().version
    {
      version
    }

    /** The colour last recorded at (x, y), or Unknown if none was. */
    function At(x: int, y: int): (c: int)
      reads this
      ensures (x, y) in colors ==> c == colors[(x, y)]
      ensures (x, y) !in colors ==> c == Unknown
    {
      ColorAt(State(), x, y)
    }

    /** Sets one coordinate and adopts the update's version. */
    method UpdatePixel(x: int, y: int, c: int, v: int)
      modifies this
      ensures State() == Patch(old(State()), x, y, c, v)
      ensures At(x, y) == c && Version() == v
    {
      colors := colors[(x, y) := c];
      version := v;
    }
  }

  function Abs(a: int): nat {
    if a < 0 then -a else a
  }

  /**
   * Bitwise OR of two integers in two's complement of unbounded width
   * (Dafny's / and % by 2 are floor division and a non-negative remainder,
   * that is, an arithmetic shift and the lowest bit).
   */
  function BitOr(a: int, b: int): int
    decreases Abs(a) + Abs(b)
  {
    if (a == 0 || a == -1) && (b == 0 || b == -1) then
      (if a == -1 || b == -1 then -1 else 0)
    else
      2 * BitOr(a / 2, b / 2) + (if a % 2 == 1 || b % 2 == 1 then 1 else 0)
  }

  /**
   * The in-flight key of a coordinate: x | (y << 16). For x in [0, 65536)
   * it is x + 65536 * y.
   */
  function PackKey(x: int, y: int): (k: int)
    ensures 0 <= x < 65536 ==> k == x + 65536 * y
  {
    if 0 <= x < 65536 then
      Pow2Sixteen();
      OrDisjoint(x, y, 16);
      BitOr(x, y * 65536)
    else
      BitOr(x, y * 65536)
  }

  function Pow2(k: nat): (p: nat)
    ensures p >= 1
  {
    if k == 0 then 1 else 2 * Pow2(k - 1)
  }

  lemma {:induction false} OrZero(b: int)
    ensures BitOr(0, b) == b
    decreases Abs(b)
  {
    if b != 0 && b != -1 {
      OrZero(b / 2);
    }
  }

  /** OR of a value below 2^k with a multiple of 2^k is their sum. */
  lemma {:induction false} OrDisjoint(a: int, m: int, k: nat)
    requires 0 <= a < Pow2(k)
    ensures BitOr(a, m * Pow2(k)) == a + m * Pow2(k)
  {
    if k == 0 {
      OrZero(m);
    } else {
      var b := m * Pow2(k);
      assert b == 2 * (m * Pow2(k - 1));
      if (a == 0 || a == -1) && (b == 0 || b == -1) {
      } else {
        assert b / 2 == m * Pow2(k - 1);
        assert b % 2 == 0;
        OrDisjoint(a / 2, m, k - 1);
      }
    }
  }

  lemma Pow2Sixteen()
    ensures Pow2(16) == 65536
  {
    assert Pow2(4) == 16 by {
      assert Pow2(1) == 2 && Pow2(2) == 4 && Pow2(3) == 8;
    }
    assert Pow2(8) == 256 by {
      assert Pow2(5) == 32 && Pow2(6) == 64 && Pow2(7) == 128;
    }
    assert Pow2(12) == 4096 by {
      assert Pow2(9) == 512 && Pow2(10) == 1024 && Pow2(11) == 2048;
    }
    assert Pow2(16) == 65536 by {
      assert Pow2(13) == 8192 && Pow2(14) == 16384 && Pow2(15) == 32768;
    }
  }

  /** The packed key tells coordinates with x in [0, 65536) apart. */
  lemma PackKeyInjective(x: int, y: int, x': int, y': int)
    requires 0 <= x < 65536 && 0 <= x' < 65536
    requires PackKey(x, y) == PackKey(x', y')
    ensures x == x' && y == y'
  {
  }
}
