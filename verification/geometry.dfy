/** Plane coordinates over exact reals, and the few JTS geometric notions the graph
    operators rely on. */
module Geometry {

  datatype Coord = Coord(x: real, y: real)

  function Add(a: Coord, b: Coord): Coord {
    Coord(a.x + b.x, a.y + b.y)
  }

  function Sub(a: Coord, b: Coord): Coord {
    Coord(a.x - b.x, a.y - b.y)
  }

  function Mul(k: real, a: Coord): Coord {
    Coord(k * a.x, k * a.y)
  }

  function Neg(a: Coord): Coord {
    Coord(-a.x, -a.y)
  }

  function SqNorm(a: Coord): real {
    a.x * a.x + a.y * a.y
  }

  /** Squared Euclidean distance. */
  function SqDist(a: Coord, b: Coord): real {
    SqNorm(Sub(b, a))
  }

  /** A distance function that is the Euclidean one: non-negative, and its square is the
      squared Euclidean distance. JTS computes it with a square root, which the model does
      not evaluate. */
  ghost predicate IsEuclidean(dist: (Coord, Coord) -> real) {
    forall a, b :: dist(a, b) >= 0.0 && dist(a, b) * dist(a, b) == SqDist(a, b)
  }

  /** The homothety of ratio `factor` centred on `center`, which AffineTransformUtil.applyScaling
      is taken to apply in place. */
  function ScaleAbout(c: Coord, center: Coord, factor: real): (r: Coord)
    ensures Sub(r, center) == Mul(factor, Sub(c, center))
  {
    Add(center, Mul(factor, Sub(c, center)))
  }

  /** A scaling moves a point exactly when the factor is not 1 and the point is not the centre. */
  lemma ScaleAboutFixes(c: Coord, center: Coord, factor: real)
    ensures ScaleAbout(c, center, factor) == c <==> factor == 1.0 || c == center
  {
    var r := ScaleAbout(c, center, factor);
    if r == c && factor != 1.0 {
      assert (factor - 1.0) * (c.x - center.x) == 0.0;
      assert (factor - 1.0) * (c.y - center.y) == 0.0;
      ZeroProduct(factor - 1.0, c.x - center.x);
      ZeroProduct(factor - 1.0, c.y - center.y);
    }
  }

  lemma ZeroProduct(k: real, t: real)
    requires k != 0.0 && k * t == 0.0
    ensures t == 0.0
  {
    assert t == (k * t) / k;
  }

  /** Scaling every coordinate of a sequence, each exactly once. */
  function ScaleAll(cs: seq<Coord>, center: Coord, factor: real): (r: seq<Coord>)
    ensures |r| == |cs|
    ensures forall i :: 0 <= i < |cs| ==> r[i] == ScaleAbout(cs[i], center, factor)
  {
    seq(|cs|, i requires 0 <= i < |cs| => ScaleAbout(cs[i], center, factor))
  }

  lemma StrictSquare(a: real, b: real)
    requires 0.0 <= a < b
    ensures a * a < b * b
  {
    assert a * (b - a) >= 0.0;
    assert b * (b - a) > 0.0;
  }

  /** Two non-negative reals with the same square are equal. */
  lemma SquareRootUnique(a: real, b: real)
    requires a >= 0.0 && b >= 0.0 && a * a == b * b
    ensures a == b
  {
    if a < b {
      StrictSquare(a, b);
    } else if b < a {
      StrictSquare(b, a);
    }
  }
}
