/** AccessibilityRoutingPaths: the accessibility delay indicator and the choice of the edge
    weighter used to compute the fastest routes from grid cells to points of interest. */
module AccessibilityRoutingPaths {
  import opened Wrappers
  import opened Numeric
  import opened Weighting

  /** The value marking a cell without a usable duration. */
  const NoDuration: real := -999.0

  /** The delay, in minute-persons, of a population reaching a service in `durMin` minutes
      against a target of `durT`: the excess duration times the population, 0 within the
      target, and -999 for a negative duration. */
  function DelayMinPerson(durMin: real, durT: real, population: real): (r: real)
    ensures durMin < 0.0 ==> r == NoDuration
    ensures 0.0 <= durMin <= durT ==> r == 0.0
    ensures 0.0 <= durMin && durT < durMin ==> r == (durMin - durT) * population
  {
    if durMin < 0.0 then NoDuration
    else
      var delay := durMin - durT;
      if delay < 0.0 then 0.0 else delay * population
  }

  /** "From 0 (good accessibility) to infinity": with a duration and a population, the
      delay is never negative. */
  lemma DelayNonNegative(durMin: real, durT: real, population: real)
    requires durMin >= 0.0 && population >= 0.0
    ensures DelayMinPerson(durMin, durT, population) >= 0.0
  {
    if durT < durMin {
      NonNegProduct(durMin - durT, population);
    }
  }

  /** A longer duration never gives a smaller delay. */
  lemma DelayMonotone(d1: real, d2: real, durT: real, population: real)
    requires 0.0 <= d1 <= d2 && population >= 0.0
    ensures DelayMinPerson(d1, durT, population) <= DelayMinPerson(d2, durT, population)
  {
    DelayNonNegative(d2, durT, population);
    if durT < d1 {
      NonNegProduct(d2 - d1, population);
      assert (d2 - durT) * population - (d1 - durT) * population == (d2 - d1) * population;
    }
  }

  /** The state the weighter accessors work on; the cells, points of interest and network
      are not part of this model. */
  datatype Paths = Paths(edgeWeighter: Option<EdgeWeighter>)

  /** setEdgeWeighter(SpeedCalculator): the weighter costing each section the length over
      16 times the calculator's speed, that is 25/24 of its travel time in minutes; a zero
      speed gives a non-finite weight. */
  function SetSpeedCalculator(p: Paths, speedKmH: Section -> real): (r: Paths)
    ensures r.edgeWeighter.Some? && r.edgeWeighter.value.SpeedWeighter?
    ensures forall s :: Weight(r.edgeWeighter.value, s) == SpeedWeightAsWritten(s.length, speedKmH(s))
    ensures forall s :: speedKmH(s) == 0.0 <==> Weight(r.edgeWeighter.value, s).NonFinite?
    ensures forall s :: Weight(r.edgeWeighter.value, s).Finite? ==>
              Weight(r.edgeWeighter.value, s).value * (16.0 * speedKmH(s)) == s.length
  {
    p.(edgeWeighter := Some(SpeedWeighter(speedKmH)))
  }

  /** The installed weighter overstates every travel time by the same 25/24: its weight of
      a section at a non-zero speed is 25/24 of the minutes the section takes. */
  lemma SpeedCalculatorOverstates(p: Paths, speedKmH: Section -> real, s: Section)
    requires speedKmH(s) != 0.0
    ensures var w := SetSpeedCalculator(p, speedKmH).edgeWeighter.value;
            Weight(w, s).value * 24.0 == SpeedWeight(s.length, speedKmH(s)).value * 25.0
  {
    SpeedWeightAsWrittenRatio(s.length, speedKmH(s));
  }

  /** The speed of the default weighter: 70 km/h on every section. */
  function DefaultSpeed(s: Section): real {
    70.0
  }

  /** getEdgeWeighter: the weighter that is set, or, when none is, a 70 km/h speed weighter
      that is installed and returned. */
  function GetEdgeWeighter(p: Paths): (r: (Paths, EdgeWeighter))
    ensures r.0.edgeWeighter == Some(r.1)
    ensures p.edgeWeighter.Some? ==> r == (p, p.edgeWeighter.value)
    ensures p.edgeWeighter.None? ==> forall s :: Weight(r.1, s) == SpeedWeightAsWritten(s.length, 70.0)
    ensures p.edgeWeighter.None? ==> forall s :: Weight(r.1, s).Finite? && Weight(r.1, s).value * 1120.0 == s.length
  {
    if p.edgeWeighter.None? then
      var q := SetSpeedCalculator(p, DefaultSpeed);
      (q, q.edgeWeighter.value)
    else (p, p.edgeWeighter.value)
  }

  /** Asking again gives the same weighter and changes nothing more. */
  lemma GetEdgeWeighterStable(p: Paths)
    ensures var (q, w) := GetEdgeWeighter(p);
            GetEdgeWeighter(q) == (q, w)
  {
  }
}
