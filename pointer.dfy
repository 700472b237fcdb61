/**
 * The horizontal clamp applied to pointer positions before the aimed piece is moved
 * or dropped: x is pushed right of the left padding plus the radius, then left of the
 * right padding minus the radius (in that order, so the right bound wins when the
 * field is narrower than the piece).
 */
module Pointer {
  /** Wall padding in unscaled pixels. */
  const WallPadding: real := 20.0

  /** Centre of the left wall; the right wall's centre is this far from the right edge. */
  const WallCenterInset: real := 10.0

  function Max(a: real, b: real): (m: real)
    ensures m >= a && m >= b && (m == a || m == b)
  {
    if a >= b then a else b
  }

  function Min(a: real, b: real): (m: real)
    ensures m <= a && m <= b && (m == a || m == b)
  {
    if a <= b then a else b
  }

  /** Smallest x the clamp admits. */
  function LowBound(scaleFactor: real, pizzaRadius: real): real
  {
    WallPadding * scaleFactor + pizzaRadius
  }

  /** Largest x the clamp admits. */
  function HighBound(canvasWidth: real, scaleFactor: real, pizzaRadius: real): real
  {
    canvasWidth - WallPadding * scaleFactor - pizzaRadius
  }

  function ClampX(x: real, canvasWidth: real, scaleFactor: real, pizzaRadius: real): (r: real)
    ensures r <= HighBound(canvasWidth, scaleFactor, pizzaRadius)
    ensures LowBound(scaleFactor, pizzaRadius) <= HighBound(canvasWidth, scaleFactor, pizzaRadius)
            ==> LowBound(scaleFactor, pizzaRadius) <= r
    ensures LowBound(scaleFactor, pizzaRadius) <= x <= HighBound(canvasWidth, scaleFactor, pizzaRadius)
            ==> r == x
    ensures r == x || r == LowBound(scaleFactor, pizzaRadius) || r == HighBound(canvasWidth, scaleFactor, pizzaRadius)
  {
    Min(Max(x, LowBound(scaleFactor, pizzaRadius)), HighBound(canvasWidth, scaleFactor, pizzaRadius))
  }

  /** Clamping twice is clamping once. */
  lemma ClampIdempotent(x: real, canvasWidth: real, scaleFactor: real, pizzaRadius: real)
    ensures var c := ClampX(x, canvasWidth, scaleFactor, pizzaRadius);
            ClampX(c, canvasWidth, scaleFactor, pizzaRadius) == c
  {
  }

  /** The clamp preserves the order of pointer positions. */
  lemma ClampMonotone(x1: real, x2: real, canvasWidth: real, scaleFactor: real, pizzaRadius: real)
    requires x1 <= x2
    ensures ClampX(x1, canvasWidth, scaleFactor, pizzaRadius) <= ClampX(x2, canvasWidth, scaleFactor, pizzaRadius)
  {
  }

  /**
   * When the padding plus the radius reaches the wall centre and the field is wide
   * enough for the piece, a clamped position lies between the two wall centres, so a
   * piece released there does not count as having crossed a wall.
   */
  lemma ClampInsideWalls(x: real, canvasWidth: real, scaleFactor: real, pizzaRadius: real)
    requires WallCenterInset <= LowBound(scaleFactor, pizzaRadius)
    requires LowBound(scaleFactor, pizzaRadius) <= HighBound(canvasWidth, scaleFactor, pizzaRadius)
    ensures var c := ClampX(x, canvasWidth, scaleFactor, pizzaRadius);
            WallCenterInset <= c <= canvasWidth - WallCenterInset
  {
  }
}
