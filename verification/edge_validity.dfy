/** CEdgeValidity: the hard constraint of an edge agent of a tesselation generalisation,
    satisfied when the edge and the faces on either side of it are valid. */
module CEdgeValidity {
  import opened Wrappers
  import opened Topology

  /** The agent of an edge: it exposes the edge record it was built on. */
  datatype AEdge = AEdge(id: EdgeId, edge: Edge)

  /** EdgeValidity.get and FaceValidity.get, which the model does not see: each takes the
      edge or face (by identifier, standing for the object) and two flags choosing which
      checks to run. */
  datatype Validity = Validity(edgeValid: (EdgeId, bool, bool) -> bool, faceValid: (FaceId, bool, bool) -> bool)

  datatype Constraint = Constraint(agent: AEdge)

  /** The constructor keeps the agent. */
  function New(agent: AEdge): (c: Constraint)
    ensures c.agent == agent
  {
    Constraint(agent)
  }

  /** A side of the edge is acceptable when there is no face there or the face is valid
      with both flags set. */
  predicate SideOk(side: Option<FaceId>, v: Validity) {
    side.None? || v.faceValid(side.value, true, true)
  }

  /** The satisfaction the constraint computes: 10 when the edge is valid with both flags
      cleared and both sides are acceptable, 0 otherwise. */
  function ComputeSatisfaction(c: Constraint, v: Validity): (s: real)
    ensures s == 0.0 || s == 10.0
    ensures s == 10.0 <==>
              v.edgeValid(c.agent.id, false, false) && SideOk(c.agent.edge.f1, v) && SideOk(c.agent.edge.f2, v)
  {
    var e := c.agent.edge;
    var ok := v.edgeValid(c.agent.id, false, false) && SideOk(e.f1, v) && SideOk(e.f2, v);
    if ok then 10.0 else 0.0
  }

  /** The constraint is hard: it can never be traded against other constraints. */
  function IsHard(c: Constraint): (r: bool)
    ensures r
  {
    true
  }

  /** An invalid edge gives 0 whatever its faces. */
  lemma InvalidEdgeUnsatisfied(c: Constraint, v: Validity)
    requires !v.edgeValid(c.agent.id, false, false)
    ensures ComputeSatisfaction(c, v) == 0.0
  {
  }

  /** An edge on no face is judged on its own validity alone. */
  lemma MissingFacesNeverFail(c: Constraint, v: Validity)
    requires c.agent.edge.f1.None? && c.agent.edge.f2.None?
    ensures ComputeSatisfaction(c, v) == 10.0 <==> v.edgeValid(c.agent.id, false, false)
  {
  }

  /** Only the checks with flags (false, false) on the edge and (true, true) on the faces
      matter: two validity oracles that agree on those give the same satisfaction. */
  lemma OnlyChosenFlagsMatter(c: Constraint, v: Validity, w: Validity)
    requires v.edgeValid(c.agent.id, false, false) == w.edgeValid(c.agent.id, false, false)
    requires forall f :: v.faceValid(f, true, true) == w.faceValid(f, true, true)
    ensures ComputeSatisfaction(c, v) == ComputeSatisfaction(c, w)
  {
  }

  /** The two sides play the same part: swapping them changes nothing. */
  lemma SidesSymmetric(c: Constraint, v: Validity)
    ensures var e := c.agent.edge;
            ComputeSatisfaction(Constraint(c.agent.(edge := e.(f1 := e.f2, f2 := e.f1))), v) == ComputeSatisfaction(c, v)
  {
  }

  /** Taking a face away from one side never lowers the satisfaction. */
  lemma DroppingAFaceNeverHurts(c: Constraint, v: Validity)
    ensures var e := c.agent.edge;
            ComputeSatisfaction(Constraint(c.agent.(edge := e.(f1 := None))), v) >= ComputeSatisfaction(c, v)
  {
  }
}
