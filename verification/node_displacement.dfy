/** NodeDisplacement.moveTo: move one node, keeping its spatial index entry and the
    geometries of the faces around it up to date. */
module NodeDisplacement {
  import opened Wrappers
  import opened Geometry
  import opened Topology

  /** Moves node `n` to (x, y). A move to the current position does nothing at all.
      Otherwise the node is taken out of the index, moved, put back (so its entry is built
      from the new position), and then every face incident to it recomputes its geometry.
      `moveTo` guards on the JTS distance being 0, which for exact coordinates is
      equality. */
  function MoveTo(g: Graph, n: NodeId, x: real, y: real): (r: Graph)
    requires WellFormed(g) && n in g.nodes
    ensures WellFormed(r)
    ensures g.nodes[n] == Coord(x, y) ==> r == g
    ensures r.nodes == g.nodes[n := Coord(x, y)]
    ensures r.edges == g.edges
    ensures g.nodes[n] != Coord(x, y) ==> r.index == g.index[NodeRef(n) := PointShape(Coord(x, y))]
    ensures r.faces.Keys == g.faces.Keys
    ensures forall f :: f in g.faces ==> r.faces[f].edges == g.faces[f].edges
    ensures forall f :: f in g.faces && g.nodes[n] != Coord(x, y) && f in NodeFaces(g, n) ==>
              r.faces[f].geom == Some(Boundary(r, f))
    ensures forall f :: f in g.faces && (g.nodes[n] == Coord(x, y) || f !in NodeFaces(g, n)) ==>
              r.faces[f] == g.faces[f]
  {
    if g.nodes[n] == Coord(x, y) then g
    else
      var g1 := RemoveFromIndex(g, NodeRef(n)).graph;
      var g2 := g1.(nodes := g1.nodes[n := Coord(x, y)]);
      WellFormedFrame(g, g2);
      var g3 := InsertInIndex(g2, NodeRef(n));
      assert g3.index == g.index[NodeRef(n) := PointShape(Coord(x, y))];
      NodeFacesFrame(g, g3, n);
      var r := RefreshFaces(g3, NodeFaces(g3, n));
      assert forall f :: f in r.faces ==> Boundary(r, f) == Boundary(g3, f) by {
        forall f | f in r.faces {
          BoundaryFrame(g3, r, f);
        }
      }
      r
  }

  /** Moving twice to the same place is moving once: the second call meets the guard. */
  lemma MoveToIdempotent(g: Graph, n: NodeId, x: real, y: real)
    requires WellFormed(g) && n in g.nodes
    ensures MoveTo(MoveTo(g, n, x, y), n, x, y) == MoveTo(g, n, x, y)
  {
  }

  /** After a real move the node's index entry is its new position, and the entries of
      all other entities are as before. */
  lemma MoveToReindexesOnlyTheNode(g: Graph, n: NodeId, x: real, y: real)
    requires WellFormed(g) && n in g.nodes && g.nodes[n] != Coord(x, y)
    ensures EntryFresh(MoveTo(g, n, x, y), NodeRef(n))
    ensures forall ent :: ent != NodeRef(n) ==>
              (ent in MoveTo(g, n, x, y).index <==> ent in g.index)
    ensures forall ent :: ent in g.index && ent != NodeRef(n) ==>
              MoveTo(g, n, x, y).index[ent] == g.index[ent]
  {
  }

  /** The move keeps every index entry in sync except those of the edges ending at the node,
      which `moveTo` does not re-index. */
  lemma MoveToKeepsOtherEntriesInSync(g: Graph, n: NodeId, x: real, y: real)
    requires IndexInSync(g) && n in g.nodes
    ensures forall ent :: ent in MoveTo(g, n, x, y).index && !(ent.EdgeRef? && IsEndpoint(g.edges[ent.e], n)) ==>
              EntryFresh(MoveTo(g, n, x, y), ent)
  {
    var r := MoveTo(g, n, x, y);
    forall ent | ent in r.index && !(ent.EdgeRef? && IsEndpoint(g.edges[ent.e], n))
      ensures EntryFresh(r, ent)
    {
      if g.nodes[n] != Coord(x, y) && ent != NodeRef(n) {
        assert EntryFresh(g, ent);
        if ent.EdgeRef? {
          EdgeCoordsFrame(g, r, ent.e);
        }
      }
    }
  }

  /** The entry of an indexed edge ending at the moved node goes stale: it still holds the
      vertex list from before the move. */
  lemma MoveToStalesIncidentEdgeEntries(g: Graph, n: NodeId, x: real, y: real, e: EdgeId)
    requires WellFormed(g) && n in g.nodes && g.nodes[n] != Coord(x, y)
    requires e in g.edges && IsEndpoint(g.edges[e], n) && EntryFresh(g, EdgeRef(e))
    ensures !EntryFresh(MoveTo(g, n, x, y), EdgeRef(e))
  {
    var r := MoveTo(g, n, x, y);
    var edge := g.edges[e];
    if edge.n1 == n {
      assert EdgeCoords(r, e)[0] != EdgeCoords(g, e)[0];
    } else {
      assert EdgeCoords(r, e)[|EdgeCoords(r, e)| - 1] != EdgeCoords(g, e)[|EdgeCoords(g, e)| - 1];
    }
  }

  /** The stored envelope of an edge ending at the moved node goes stale whenever the new
      position lies outside the edge's old envelope: the entry keeps the old box, and the
      live box holds the new position. */
  lemma MoveToShiftsIncidentEdgeEnvelope(g: Graph, n: NodeId, x: real, y: real, e: EdgeId)
    requires WellFormed(g) && n in g.nodes
    requires e in g.edges && IsEndpoint(g.edges[e], n) && EntryFresh(g, EdgeRef(e))
    requires !InEnvelope(Coord(x, y), EnvelopeOf(EdgeCoords(g, e)))
    ensures !EnvelopeFresh(MoveTo(g, n, x, y), EdgeRef(e))
  {
    var r := MoveTo(g, n, x, y);
    var before := EdgeCoords(g, e);
    var after := EdgeCoords(r, e);
    var last := |before| - 1;
    if g.edges[e].n1 == n {
      assert before[0] == g.nodes[n] && after[0] == Coord(x, y);
    } else {
      assert before[last] == g.nodes[n] && after[last] == Coord(x, y);
    }
    assert g.nodes[n] != Coord(x, y);
    assert r.index[EdgeRef(e)] == g.index[EdgeRef(e)] == LineShape(before);
    assert InEnvelope(Coord(x, y), ShapeEnvelope(Live(r, EdgeRef(e))));
  }

  /** The snapshot of an entry is stricter than its envelope: moving the end node of the
      edge (5,0)-(0,10)-(10,0) to (6,0) makes the entry's vertex list stale while its
      envelope, the box from (0,0) to (10,10), is still the live one. */
  lemma MoveInsideEnvelopeExample()
    ensures var g := Graph(map[0 := Coord(5.0, 0.0), 1 := Coord(10.0, 0.0)],
                           map[0 := Edge(0, 1, [Coord(0.0, 10.0)], None, None)],
                           map[],
                           map[EdgeRef(0) := LineShape([Coord(5.0, 0.0), Coord(0.0, 10.0), Coord(10.0, 0.0)])]);
            var r := MoveTo(g, 0, 6.0, 0.0);
            && WellFormed(g) && EntryFresh(g, EdgeRef(0))
            && !EntryFresh(r, EdgeRef(0)) && EnvelopeFresh(r, EdgeRef(0))
  {
    var g := Graph(map[0 := Coord(5.0, 0.0), 1 := Coord(10.0, 0.0)],
                   map[0 := Edge(0, 1, [Coord(0.0, 10.0)], None, None)],
                   map[],
                   map[EdgeRef(0) := LineShape([Coord(5.0, 0.0), Coord(0.0, 10.0), Coord(10.0, 0.0)])]);
    var r := MoveTo(g, 0, 6.0, 0.0);
    assert EdgeCoords(g, 0) == [Coord(5.0, 0.0), Coord(0.0, 10.0), Coord(10.0, 0.0)];
    assert EdgeCoords(r, 0) == [Coord(6.0, 0.0), Coord(0.0, 10.0), Coord(10.0, 0.0)];
    var before := [Coord(5.0, 0.0), Coord(0.0, 10.0), Coord(10.0, 0.0)];
    var after := [Coord(6.0, 0.0), Coord(0.0, 10.0), Coord(10.0, 0.0)];
    assert before[1..][1..] == [Coord(10.0, 0.0)] && after[1..][1..] == [Coord(10.0, 0.0)];
    assert before[1..] == after[1..];
    assert EnvelopeOf(before) == Envelope(0.0, 0.0, 10.0, 10.0);
    assert EnvelopeOf(after) == Envelope(0.0, 0.0, 10.0, 10.0);
  }

  /** Staying inside the old box is not enough for a fresh envelope: moving the end (10,0)
      of the edge (0,0)-(10,0) to (5,0) keeps it inside the box, but the live box shrinks
      to (0,0)-(5,0). */
  lemma MoveInsideShrinksEnvelopeExample()
    ensures var g := Graph(map[0 := Coord(0.0, 0.0), 1 := Coord(10.0, 0.0)],
                           map[0 := Edge(0, 1, [], None, None)],
                           map[],
                           map[EdgeRef(0) := LineShape([Coord(0.0, 0.0), Coord(10.0, 0.0)])]);
            var r := MoveTo(g, 1, 5.0, 0.0);
            && WellFormed(g) && EntryFresh(g, EdgeRef(0))
            && InEnvelope(Coord(5.0, 0.0), EnvelopeOf(EdgeCoords(g, 0)))
            && !EnvelopeFresh(r, EdgeRef(0))
  {
    var g := Graph(map[0 := Coord(0.0, 0.0), 1 := Coord(10.0, 0.0)],
                   map[0 := Edge(0, 1, [], None, None)],
                   map[],
                   map[EdgeRef(0) := LineShape([Coord(0.0, 0.0), Coord(10.0, 0.0)])]);
    var r := MoveTo(g, 1, 5.0, 0.0);
    var before := [Coord(0.0, 0.0), Coord(10.0, 0.0)];
    var after := [Coord(0.0, 0.0), Coord(5.0, 0.0)];
    assert EdgeCoords(g, 0) == before;
    assert EdgeCoords(r, 0) == after;
    assert before[1..][1..] == [] && after[1..][1..] == [];
    assert EnvelopeOf(before) == Envelope(0.0, 0.0, 10.0, 0.0);
    assert EnvelopeOf(after) == Envelope(0.0, 0.0, 5.0, 0.0);
  }

  /** If every cached face geometry was up to date, it still is after the move: the faces
      that are not refreshed have no edge ending at the node, so their polygons are unchanged. */
  lemma MoveToKeepsGeometriesFresh(g: Graph, n: NodeId, x: real, y: real)
    requires GeomsFresh(g) && n in g.nodes
    ensures GeomsFresh(MoveTo(g, n, x, y))
  {
    var r := MoveTo(g, n, x, y);
    forall f | f in r.faces
      ensures GeomFresh(r, f)
    {
      assert GeomFresh(g, f);
      if g.nodes[n] != Coord(x, y) && f !in NodeFaces(g, n) {
        forall e, m | e in g.faces[f].edges && IsEndpoint(g.edges[e], m)
          ensures r.nodes[m] == g.nodes[m]
        {
          assert m != n;
        }
        BoundaryFrame(g, r, f);
      }
    }
  }
}
