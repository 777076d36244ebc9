/** Pixel and coordinate types shared by the three stages of the pipeline. */
module Pixels {

  /** An 8-bit unsigned channel value. */
  newtype byte = x: int | 0 <= x < 256

  /** One pixel: red, green and blue channels, no alpha. */
  datatype Rgb = Rgb(r: byte, g: byte, b: byte)

  /** A pixel coordinate; both components are unsigned, like the source's size_t. */
  datatype Point = Point(x: nat, y: nat)

  /** Edge-map sentinel written where the gradient stays below the threshold ("no edge"). */
  const Black: Rgb := Rgb(0, 0, 0)

  /** Edge-map sentinel written where the gradient reaches the threshold ("edge"). */
  const White: Rgb := Rgb(255, 255, 255)

  /** The sum of the three raw channel values: what the Sobel kernels weigh. */
  function Intensity(p: Rgb): (s: int)
    ensures 0 <= s <= 3 * 255
    ensures s == 0 <==> p == Black
    ensures s == 3 * 255 <==> p == White
  {
    p.r as int + p.g as int + p.b as int
  }

  // Arithmetic facts the stages share

  /** Squaring is monotone on non-negative integers. */
  lemma SquareMonotone(a: int, b: int)
    requires 0 <= a <= b
    ensures a * a <= b * b
  {
    assert a * a <= a * b by { MulLeft(a, a, b); }
    assert a * b <= b * b by { MulLeft(b, a, b); }
  }

  lemma MulLeft(c: int, a: int, b: int)
    requires 0 <= c && a <= b
    ensures c * a <= c * b
  {
  }

  /** A square grows with the absolute value: |a| <= b gives a*a <= b*b. */
  lemma SquareBound(a: int, b: int)
    requires 0 <= b && -b <= a <= b
    ensures a * a <= b * b
  {
    if a >= 0 {
      SquareMonotone(a, b);
    } else {
      SquareMonotone(-a, b);
    }
  }
}
