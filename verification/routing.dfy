/** Routing: nearest-node search over the nodes of a road network graph, and the default
    weighting of its sections. */
module Routing {
  import opened Wrappers
  import opened Numeric
  import opened Geometry
  import opened Weighting

  /** A graph node; its object is the point it stands at, which may be null. */
  datatype Node = Node(id: nat, point: Option<Coord>)

  /** Double.MAX_VALUE, the starting minimum of the search. */
  const MaxDouble: real := 179769313486231570814527423731704356798070567525844996598917476803157260780028538760589558632766878171540458953514382464234321326889464182768467546703537516986049910576551282076245490090389328944075868508455133942304583236903222948165808559332123348274797826204144723168738177180919299881250404026184124858368.0

  /** The weighter used when none is given: every section costs its length. */
  function DefaultEdgeWeighter(): (w: EdgeWeighter)
    ensures forall s :: Weight(w, s) == Finite(s.length)
  {
    LengthWeighter
  }

  /** The position of a node: null for a null node or a node without a point. */
  function GetPosition(n: Option<Node>): (r: Option<Coord>)
    ensures r.None? <==> n.None? || n.value.point.None?
    ensures r.Some? ==> r.value == n.value.point.value
  {
    match n
    case None => None
    case Some(node) => node.point
  }

  /** The distance from node `j` to `c`. */
  function NodeDist(nodes: seq<Node>, c: Coord, dist: (Coord, Coord) -> real, j: int): real
    requires 0 <= j < |nodes| && nodes[j].point.Some?
  {
    dist(nodes[j].point.value, c)
  }

  /** The search gets past the first `i` nodes: each has a point, none of them at distance 0. */
  ghost predicate Reaches(nodes: seq<Node>, c: Coord, dist: (Coord, Coord) -> real, i: int)
    requires 0 <= i <= |nodes|
  {
    forall j :: 0 <= j < i ==> nodes[j].point.Some? && NodeDist(nodes, c, dist, j) != 0.0
  }

  /** getNode: the closest node to `c`, as its position in the iteration order of the
      graph's nodes. The first node at distance 0 is returned at once; otherwise the first
      node of least distance below Double.MAX_VALUE, ties going to the earlier node; null
      when there is none. A node without a point met before that fails, as `distance` is
      called on a null position. */
  method GetNode(nodes: seq<Node>, c: Coord, dist: (Coord, Coord) -> real) returns (r: Result<Option<nat>>)
    ensures |nodes| == 0 ==> r == Success(None)
    ensures r.Failure? <==> exists i :: 0 <= i < |nodes| && Reaches(nodes, c, dist, i) && nodes[i].point.None?
    ensures r.Failure? ==> r.error == NullPointer
    ensures r.Success? && r.value.None? ==>
              Reaches(nodes, c, dist, |nodes|) &&
              forall j :: 0 <= j < |nodes| ==> NodeDist(nodes, c, dist, j) >= MaxDouble
    ensures r.Success? && r.value.Some? ==>
              var i := r.value.value;
              && i < |nodes| && Reaches(nodes, c, dist, i) && nodes[i].point.Some?
              && NodeDist(nodes, c, dist, i) < MaxDouble
              && (NodeDist(nodes, c, dist, i) == 0.0 ||
                  (&& Reaches(nodes, c, dist, |nodes|)
                   && (forall j :: 0 <= j < i ==> NodeDist(nodes, c, dist, i) < NodeDist(nodes, c, dist, j))
                   && (forall j :: i < j < |nodes| ==> NodeDist(nodes, c, dist, i) <= NodeDist(nodes, c, dist, j))))
    ensures (forall a, b :: dist(a, b) >= 0.0) && r.Success? && r.value.Some? ==>
              forall j :: 0 <= j < |nodes| && nodes[j].point.Some? ==>
                NodeDist(nodes, c, dist, r.value.value) <= NodeDist(nodes, c, dist, j)
  {
    var dMin := MaxDouble;
    var nMin: Option<nat> := None;
    var i := 0;
    while i < |nodes|
      invariant 0 <= i <= |nodes|
      invariant Reaches(nodes, c, dist, i)
      invariant nMin.None? ==> dMin == MaxDouble && forall j :: 0 <= j < i ==> NodeDist(nodes, c, dist, j) >= MaxDouble
      invariant nMin.Some? ==>
                  && nMin.value < i && dMin == NodeDist(nodes, c, dist, nMin.value) && dMin < MaxDouble
                  && (forall j :: 0 <= j < nMin.value ==> dMin < NodeDist(nodes, c, dist, j))
                  && (forall j :: nMin.value < j < i ==> dMin <= NodeDist(nodes, c, dist, j))
    {
      var pos := GetPosition(Some(nodes[i]));
      if pos.None? {
        return Failure(NullPointer);
      }
      var d := dist(pos.value, c);
      if d == 0.0 {
        return Success(Some(i));
      }
      if d < dMin {
        dMin := d;
        nMin := Some(i);
      }
      i := i + 1;
    }
    return Success(nMin);
  }
}
