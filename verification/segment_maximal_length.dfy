/** SegmentMaximalLength: a deformation constraint that shrinks a segment whose length
    exceeds a goal length, by pulling both of its end points towards each other. */
module SegmentMaximalLength {
  import Numeric
  import opened Geometry

  /** A point of the deformable structure. `getDisplacement` compares points by reference; the
      identifier stands for that reference. */
  datatype GPoint = GPoint(id: nat, pos: Coord)

  datatype Segment = Segment(pt1: GPoint, pt2: GPoint, iniLength: real)

  datatype Constraint = Constraint(seg: Segment, importance: real, goalLength: real)

  /** What getDisplacement returns: a displacement vector, a vector whose components are NaN
      or infinite (a division by a zero length), or null. */
  datatype Displacement = Vector(v: Coord) | NonFinite | Null

  /** The constructor with an explicit goal length. */
  function NewWithGoal(s: Segment, importance: real, goalLength: real): (c: Constraint)
    ensures c.seg == s && c.importance == importance && c.goalLength == goalLength
  {
    Constraint(s, importance, goalLength)
  }

  /** The constructor without a goal: the goal is the segment's initial length, so the
      constraint keeps the segment from growing. */
  function New(s: Segment, importance: real): (c: Constraint)
    ensures c == NewWithGoal(s, importance, s.iniLength)
    ensures c.goalLength == s.iniLength
  {
    NewWithGoal(s, importance, s.iniLength)
  }

  predicate IsEndpoint(c: Constraint, p: GPoint) {
    p.id == c.seg.pt1.id || p.id == c.seg.pt2.id
  }

  /** The current length of the segment, as measured by `dist`. */
  function Length(c: Constraint, dist: (Coord, Coord) -> real): real {
    dist(c.seg.pt1.pos, c.seg.pt2.pos)
  }

  /** The share of the vector pt1->pt2 each end point moves by: half of `alpha` times the
      relative excess length, negative when the segment is too long. */
  function ShrinkFactor(c: Constraint, alpha: real, d: real): real
    requires d != 0.0
  {
    alpha * (c.goalLength - d) / d * 0.5
  }

  /** The displacement asked of point `p` with strength `alpha`. A segment shorter than
      the goal asks nothing of any point. Otherwise each end point moves along the segment by
      the shrink factor, pt1 backwards and pt2 forwards (pt1 is checked first, as in
      `getDisplacement`); a point that is not an end point gets null. A zero length with a goal not
      above it divides by zero. */
  function GetDisplacement(c: Constraint, p: GPoint, alpha: real, dist: (Coord, Coord) -> real): (r: Displacement)
    ensures Length(c, dist) < c.goalLength ==> r == Vector(Coord(0.0, 0.0))
    ensures Length(c, dist) >= c.goalLength && !IsEndpoint(c, p) ==> r == Null
    ensures r.NonFinite? <==> Length(c, dist) >= c.goalLength && Length(c, dist) == 0.0 && IsEndpoint(c, p)
    ensures Length(c, dist) >= c.goalLength && Length(c, dist) != 0.0 && IsEndpoint(c, p) ==>
              r.Vector? &&
              r.v == Mul(if p.id == c.seg.pt1.id then -ShrinkFactor(c, alpha, Length(c, dist))
                         else ShrinkFactor(c, alpha, Length(c, dist)),
                         Sub(c.seg.pt2.pos, c.seg.pt1.pos))
  {
    var d := Length(c, dist);
    if d < c.goalLength then Vector(Coord(0.0, 0.0))
    else if !IsEndpoint(c, p) then Null
    else if d == 0.0 then NonFinite
    else
      var delta := Mul(ShrinkFactor(c, alpha, d), Sub(c.seg.pt2.pos, c.seg.pt1.pos));
      if p.id == c.seg.pt1.id then Vector(Neg(delta)) else Vector(delta)
  }

  /** The two end points are asked opposite displacements (when they are distinct points). */
  lemma DisplacementsOpposite(c: Constraint, alpha: real, dist: (Coord, Coord) -> real)
    requires c.seg.pt1.id != c.seg.pt2.id
    ensures var r1 := GetDisplacement(c, c.seg.pt1, alpha, dist);
            var r2 := GetDisplacement(c, c.seg.pt2, alpha, dist);
            && (r1.Vector? <==> r2.Vector?)
            && (r1.Vector? ==> r1.v == Neg(r2.v))
  {
  }

  /** A segment exactly at its goal length, or a zero strength, asks no displacement of its
      end points. */
  lemma NoDisplacementAtGoal(c: Constraint, p: GPoint, alpha: real, dist: (Coord, Coord) -> real)
    requires IsEndpoint(c, p) && Length(c, dist) != 0.0
    requires Length(c, dist) == c.goalLength || alpha == 0.0
    ensures GetDisplacement(c, p, alpha, dist) == Vector(Coord(0.0, 0.0))
  {
  }

  /** Moving both end points by their displacements brings a segment of length d to length
      d + alpha*(goal - d): for alpha in [0, 1] the new length lies between the old one and
      the goal. */
  lemma DisplacedLength(c: Constraint, alpha: real, dist: (Coord, Coord) -> real)
    requires IsEuclidean(dist) && c.seg.pt1.id != c.seg.pt2.id
    requires Length(c, dist) >= c.goalLength >= 0.0 && Length(c, dist) > 0.0
    requires 0.0 <= alpha <= 1.0
    ensures var q1 := Add(c.seg.pt1.pos, GetDisplacement(c, c.seg.pt1, alpha, dist).v);
            var q2 := Add(c.seg.pt2.pos, GetDisplacement(c, c.seg.pt2, alpha, dist).v);
            dist(q1, q2) == Length(c, dist) + alpha * (c.goalLength - Length(c, dist))
  {
    var d := Length(c, dist);
    var p1 := c.seg.pt1.pos;
    var p2 := c.seg.pt2.pos;
    var a := ShrinkFactor(c, alpha, d);
    var u := Sub(p2, p1);
    var q1 := Add(p1, GetDisplacement(c, c.seg.pt1, alpha, dist).v);
    var q2 := Add(p2, GetDisplacement(c, c.seg.pt2, alpha, dist).v);
    var target := d + alpha * (c.goalLength - d);
    assert Sub(q2, q1) == Mul(1.0 + 2.0 * a, u);
    var k := 1.0 + 2.0 * a;
    assert k * d == target by {
      assert 2.0 * a == alpha * (c.goalLength - d) / d;
    }
    assert target >= 0.0 by {
      assert target == (1.0 - alpha) * d + alpha * c.goalLength;
      Numeric.NonNegProduct(1.0 - alpha, d);
      Numeric.NonNegProduct(alpha, c.goalLength);
    }
    assert d * d == SqNorm(u);
    SqNormScale(k, u);
    assert SqDist(q1, q2) == k * k * (d * d);
    assert k * k * (d * d) == target * target;
    SquareRootUnique(dist(q1, q2), target);
  }

  lemma SqNormScale(k: real, u: Coord)
    ensures SqNorm(Mul(k, u)) == k * k * SqNorm(u)
  {
  }

  /** With full strength the displaced segment has exactly the goal length. */
  lemma DisplacedLengthFullStrength(c: Constraint, dist: (Coord, Coord) -> real)
    requires IsEuclidean(dist) && c.seg.pt1.id != c.seg.pt2.id
    requires Length(c, dist) >= c.goalLength >= 0.0 && Length(c, dist) > 0.0
    ensures var q1 := Add(c.seg.pt1.pos, GetDisplacement(c, c.seg.pt1, 1.0, dist).v);
            var q2 := Add(c.seg.pt2.pos, GetDisplacement(c, c.seg.pt2, 1.0, dist).v);
            dist(q1, q2) == c.goalLength
  {
    DisplacedLength(c, 1.0, dist);
  }
}
