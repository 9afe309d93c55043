/** The edge weighters of the routing code: the cost a shortest-path search gives a
    network section, either its length or its travel time at a speed. */
module Weighting {
  import opened Numeric

  /** A network section, reduced to what the weighters read: the length of its geometry
      and its attributes (from which a speed calculator may read a road class). */
  datatype Section = Section(length: real, attributes: map<string, string>)

  /** A DijkstraIterator.EdgeWeighter: the geometry length, the travel time at the speed a
      speed calculator gives, or any other cost. */
  datatype EdgeWeighter =
    | LengthWeighter
    | SpeedWeighter(speedKmH: Section -> real)
    | CustomWeighter(weight: Section -> Double)

  /** The `1000/60` of the speed weighter: an `int` division. */
  const SpeedFactorAsWritten: int := JavaDiv(1000, 60)

  lemma SpeedFactorIsSixteen()
    ensures SpeedFactorAsWritten == 16
  {
  }

  /** The travel time as `getWeight` computes it: the length over 16 times the speed. */
  function SpeedWeightAsWritten(lengthM: real, speedKmH: real): (r: Double)
    ensures r.NonFinite? <==> speedKmH == 0.0
    ensures r.Finite? ==> r.value * (16.0 * speedKmH) == lengthM
  {
    SpeedFactorIsSixteen();
    Divide(lengthM, SpeedFactorAsWritten as real * speedKmH)
  }

  /** The travel time in minutes of `lengthM` metres at `speedKmH` km/h, with the metres
      per minute of a speed of 1 km/h taken as the exact 1000/60. A zero speed divides by
      zero. */
  function SpeedWeight(lengthM: real, speedKmH: real): (r: Double)
    ensures r.NonFinite? <==> speedKmH == 0.0
    ensures r.Finite? ==> r.value * speedKmH * 1000.0 == lengthM * 60.0
  {
    var speedMPerMinute := 1000.0 / 60.0 * speedKmH;
    Divide(lengthM, speedMPerMinute)
  }

  /** One kilometre at 60 km/h takes one minute; `getWeight` gives 1000/960. */
  lemma SpeedWeightCounterexample()
    ensures SpeedWeight(1000.0, 60.0) == Finite(1.0)
    ensures SpeedWeightAsWritten(1000.0, 60.0) == Finite(1000.0 / 960.0)
    ensures SpeedWeightAsWritten(1000.0, 60.0) != SpeedWeight(1000.0, 60.0)
  {
    SpeedFactorIsSixteen();
  }

  /** For any non-zero speed the travel time `getWeight` gives is 25/24 of the exact one: every
      section is costed about 4% too slow, uniformly. */
  lemma SpeedWeightAsWrittenRatio(lengthM: real, speedKmH: real)
    requires speedKmH != 0.0
    ensures SpeedWeightAsWritten(lengthM, speedKmH).value * 24.0 == SpeedWeight(lengthM, speedKmH).value * 25.0
  {
    var w := SpeedWeightAsWritten(lengthM, speedKmH).value;
    var e := SpeedWeight(lengthM, speedKmH).value;
    assert w * (16.0 * speedKmH) == lengthM;
    assert e * speedKmH * 1000.0 == lengthM * 60.0;
    assert (w * 24.0 - e * 25.0) * speedKmH * 16.0 == 0.0 by {
      assert w * 24.0 * speedKmH * 16.0 == 24.0 * lengthM;
      assert e * 25.0 * speedKmH * 16.0 == 24.0 * lengthM;
    }
    assert (w * 24.0 - e * 25.0) * (speedKmH * 16.0) == 0.0;
    NonZeroFactor(w * 24.0 - e * 25.0, speedKmH * 16.0);
  }

  lemma NonZeroFactor(t: real, k: real)
    requires k != 0.0 && t * k == 0.0
    ensures t == 0.0
  {
    assert t == (t * k) / k;
  }

  /** The cost `getWeight` gives a section under a weighter. The speed weighter computes
      its travel time with the `int` factor 16, as `setEdgeWeighter(SpeedCalculator)`
      writes it. */
  function Weight(w: EdgeWeighter, s: Section): (r: Double)
    ensures w.LengthWeighter? ==> r == Finite(s.length)
    ensures w.SpeedWeighter? ==> r == SpeedWeightAsWritten(s.length, w.speedKmH(s))
    ensures w.SpeedWeighter? ==> (r.Finite? <==> w.speedKmH(s) != 0.0)
    ensures w.SpeedWeighter? && r.Finite? ==> r.value * (16.0 * w.speedKmH(s)) == s.length
    ensures w.CustomWeighter? ==> r == w.weight(s)
  {
    match w
    case LengthWeighter => Finite(s.length)
    case SpeedWeighter(speed) => SpeedWeightAsWritten(s.length, speed(s))
    case CustomWeighter(weight) => weight(s)
  }
}
