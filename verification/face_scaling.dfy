/** FaceScaling.scale: scale a face about its centroid, moving its boundary nodes and the
    interior vertices of its boundary edges, re-indexing those edges and refreshing the
    geometry of the face and of the faces that share an edge with it. */
module FaceScaling {
  import opened Geometry
  import opened Topology

  /** What the operator logs. Neither message stops it. */
  datatype Message = NullGeometry(f: FaceId) | NotInIndex(e: EdgeId)

  datatype Scaled = Scaled(graph: Graph, log: set<Message>)

  /** The operator does something only for a factor other than 1 and a face that has a
      geometry. */
  predicate Active(g: Graph, f: FaceId, factor: real)
    requires f in g.faces
  {
    factor != 1.0 && g.faces[f].geom.Some?
  }

  /** The interior vertices of every edge of `es` scaled once; edges keep their end nodes
      and faces. */
  function ScaleInteriors(edges: map<EdgeId, Edge>, es: set<EdgeId>, center: Coord, factor: real): (r: map<EdgeId, Edge>)
    ensures r.Keys == edges.Keys
    ensures forall e :: e in edges && e in es ==>
              r[e] == edges[e].(interior := ScaleAll(edges[e].interior, center, factor))
    ensures forall e :: e in edges && e !in es ==> r[e] == edges[e]
    ensures forall e :: e in edges ==>
              r[e].n1 == edges[e].n1 && r[e].n2 == edges[e].n2 && r[e].f1 == edges[e].f1 && r[e].f2 == edges[e].f2
  {
    map e | e in edges :: if e in es then edges[e].(interior := ScaleAll(edges[e].interior, center, factor)) else edges[e]
  }

  /** Every node of `ns` scaled once. */
  function ScaleNodes(nodes: map<NodeId, Coord>, ns: set<NodeId>, center: Coord, factor: real): (r: map<NodeId, Coord>)
    ensures r.Keys == nodes.Keys
    ensures forall n :: n in nodes && n in ns ==> r[n] == ScaleAbout(nodes[n], center, factor)
    ensures forall n :: n in nodes && n !in ns ==> r[n] == nodes[n]
  {
    map n | n in nodes :: if n in ns then ScaleAbout(nodes[n], center, factor) else nodes[n]
  }

  /** Scales face `f` by `factor`. The centre is the centroid of the face's cached geometry,
      taken once, before anything moves; `centroid` stands for the JTS computation. A factor
      of 1 returns at once; a face without geometry is only logged. */
  function Scale(g: Graph, f: FaceId, factor: real, centroid: Polygon -> Coord): (r: Scaled)
    requires WellFormed(g) && f in g.faces
    ensures WellFormed(r.graph)
    ensures factor == 1.0 ==> r == Scaled(g, {})
    ensures factor != 1.0 && g.faces[f].geom.None? ==> r == Scaled(g, {NullGeometry(f)})
    ensures Active(g, f, factor) ==> r == ScaleFace(g, f, factor, centroid(g.faces[f].geom.value))
  {
    if factor == 1.0 then Scaled(g, {})
    else if g.faces[f].geom.None? then Scaled(g, {NullGeometry(f)})
    else ScaleFace(g, f, factor, centroid(g.faces[f].geom.value))
  }

  /** The scaling proper, about a fixed `center`, in the order of `FaceScaling.scale`: take every
      boundary edge out of the index (logging those that were not there), scale the
      interior vertices of those edges, scale the nodes of the face, put the edges back into
      the index, then refresh the face and its touching faces. Nodes are not taken out of
      or put back into the index. */
  function ScaleFace(g: Graph, f: FaceId, factor: real, center: Coord): (r: Scaled)
    requires WellFormed(g) && f in g.faces
    ensures WellFormed(r.graph)
    ensures r.graph.nodes.Keys == g.nodes.Keys && r.graph.edges.Keys == g.edges.Keys
    ensures r.graph.faces.Keys == g.faces.Keys
    ensures forall h :: h in g.faces ==> r.graph.faces[h].edges == g.faces[h].edges
  {
    var reindexed := Reindexed(g, f, factor, center);
    Scaled(RefreshFaces(reindexed, {f} + TouchingFaces(reindexed, f)), Unindexed(g, f))
  }

  /** One log message per boundary edge the index did not hold. */
  function Unindexed(g: Graph, f: FaceId): set<Message>
    requires f in g.faces
  {
    set e | e in RemoveEdgesFromIndex(g, g.faces[f].edges).missing :: NotInIndex(e)
  }

  /** The graph once the edges are out of the index and all coordinates are scaled. */
  function Moved(g: Graph, f: FaceId, factor: real, center: Coord): (r: Graph)
    requires WellFormed(g) && f in g.faces
    ensures WellFormed(r)
    ensures r.faces == g.faces && r.nodes.Keys == g.nodes.Keys && r.edges.Keys == g.edges.Keys
  {
    var es := g.faces[f].edges;
    var g1 := RemoveEdgesFromIndex(g, es).graph;
    var g2 := g1.(edges := ScaleInteriors(g1.edges, es, center, factor));
    WellFormedFrame(g, g2);
    var r := g2.(nodes := ScaleNodes(g2.nodes, FaceNodes(g2, f), center, factor));
    WellFormedFrame(g2, r);
    r
  }

  /** The graph once the edges are back in the index, before the faces are refreshed. */
  function Reindexed(g: Graph, f: FaceId, factor: real, center: Coord): (r: Graph)
    requires WellFormed(g) && f in g.faces
    ensures WellFormed(r)
    ensures r.faces == g.faces && r.nodes.Keys == g.nodes.Keys && r.edges.Keys == g.edges.Keys
  {
    var moved := Moved(g, f, factor, center);
    InsertEdgesInIndex(moved, moved.faces[f].edges)
  }

  /** The topology is untouched; every node of the face and every interior vertex of its
      edges is scaled once about the centre; every other coordinate is as before. */
  lemma ScaleFaceCoordinates(g: Graph, f: FaceId, factor: real, center: Coord)
    requires WellFormed(g) && f in g.faces
    ensures var r := ScaleFace(g, f, factor, center).graph;
            && (forall n :: n in g.nodes ==>
                  r.nodes[n] == if n in FaceNodes(g, f) then ScaleAbout(g.nodes[n], center, factor) else g.nodes[n])
            && (forall e :: e in g.edges ==>
                  r.edges[e] == if e in g.faces[f].edges then g.edges[e].(interior := ScaleAll(g.edges[e].interior, center, factor)) else g.edges[e])
  {
    var m := Moved(g, f, factor, center);
    MovedCoordinates(g, f, factor, center);
    ScaleFaceOnlyRefreshes(g, f, factor, center);
    ReindexedCoordinates(g, f, factor, center);
  }

  lemma MovedCoordinates(g: Graph, f: FaceId, factor: real, center: Coord)
    requires WellFormed(g) && f in g.faces
    ensures var m := Moved(g, f, factor, center);
            && (forall n :: n in g.nodes ==>
                  m.nodes[n] == if n in FaceNodes(g, f) then ScaleAbout(g.nodes[n], center, factor) else g.nodes[n])
            && (forall e :: e in g.edges ==>
                  m.edges[e] == if e in g.faces[f].edges then g.edges[e].(interior := ScaleAll(g.edges[e].interior, center, factor)) else g.edges[e])
  {
    assert FaceNodes(RemoveEdgesFromIndex(g, g.faces[f].edges).graph.(edges := ScaleInteriors(g.edges, g.faces[f].edges, center, factor)), f) == FaceNodes(g, f);
  }

  /** Re-indexing leaves every coordinate as the move left it. */
  lemma ReindexedCoordinates(g: Graph, f: FaceId, factor: real, center: Coord)
    requires WellFormed(g) && f in g.faces
    ensures Reindexed(g, f, factor, center).nodes == Moved(g, f, factor, center).nodes
    ensures Reindexed(g, f, factor, center).edges == Moved(g, f, factor, center).edges
  {
  }

  /** Index: exactly the face's edges are re-entered, with their final geometry; every
      other entry, node entries included, is untouched. Edges that were not indexed
      end up indexed. */
  lemma ScaleFaceIndex(g: Graph, f: FaceId, factor: real, center: Coord)
    requires WellFormed(g) && f in g.faces
    ensures var r := ScaleFace(g, f, factor, center).graph;
            && (forall k :: k in r.index <==> k in g.index || (k.EdgeRef? && k.e in g.faces[f].edges))
            && (forall e :: e in g.faces[f].edges ==> EntryFresh(r, EdgeRef(e)))
            && (forall k :: k in g.index && !(k.EdgeRef? && k.e in g.faces[f].edges) ==> r.index[k] == g.index[k])
  {
    var r := ScaleFace(g, f, factor, center).graph;
    var ri := Reindexed(g, f, factor, center);
    ScaleFaceOnlyRefreshes(g, f, factor, center);
    ReindexedIndex(g, f, factor, center);
    forall e | e in g.faces[f].edges
      ensures EntryFresh(r, EdgeRef(e))
    {
      EntryFreshFrame(ri, r, EdgeRef(e));
    }
  }

  /** After re-indexing, the scaling only rewrites cached face geometries. */
  lemma ScaleFaceOnlyRefreshes(g: Graph, f: FaceId, factor: real, center: Coord)
    requires WellFormed(g) && f in g.faces
    ensures var r := ScaleFace(g, f, factor, center).graph;
            var ri := Reindexed(g, f, factor, center);
            r.index == ri.index && r.nodes == ri.nodes && r.edges == ri.edges
  {
  }

  lemma ReindexedIndex(g: Graph, f: FaceId, factor: real, center: Coord)
    requires WellFormed(g) && f in g.faces
    ensures var ri := Reindexed(g, f, factor, center);
            && (forall k :: k in ri.index <==> k in g.index || (k.EdgeRef? && k.e in g.faces[f].edges))
            && (forall e :: e in g.faces[f].edges ==> EntryFresh(ri, EdgeRef(e)))
            && (forall k :: k in g.index && !(k.EdgeRef? && k.e in g.faces[f].edges) ==> ri.index[k] == g.index[k])
  {
    ReindexedKeys(g, f, factor, center);
    ReindexedOthers(g, f, factor, center);
    ReindexedFresh(g, f, factor, center);
  }

  lemma ReindexedKeys(g: Graph, f: FaceId, factor: real, center: Coord)
    requires WellFormed(g) && f in g.faces
    ensures var ri := Reindexed(g, f, factor, center);
            forall k :: k in ri.index <==> k in g.index || (k.EdgeRef? && k.e in g.faces[f].edges)
  {
  }

  lemma ReindexedOthers(g: Graph, f: FaceId, factor: real, center: Coord)
    requires WellFormed(g) && f in g.faces
    ensures var ri := Reindexed(g, f, factor, center);
            forall k :: k in g.index && !(k.EdgeRef? && k.e in g.faces[f].edges) ==> ri.index[k] == g.index[k]
  {
  }

  lemma ReindexedFresh(g: Graph, f: FaceId, factor: real, center: Coord)
    requires WellFormed(g) && f in g.faces
    ensures var ri := Reindexed(g, f, factor, center);
            forall e :: e in g.faces[f].edges ==> EntryFresh(ri, EdgeRef(e))
  {
    var m := Moved(g, f, factor, center);
    InsertEdgesFresh(m, m.faces[f].edges);
  }

  /** One message is logged for each boundary edge that was not in the index, and nothing
      else; the scaling goes on regardless. */
  lemma ScaleFaceLog(g: Graph, f: FaceId, factor: real, center: Coord)
    requires WellFormed(g) && f in g.faces
    ensures forall m :: m in ScaleFace(g, f, factor, center).log <==>
              m.NotInIndex? && m.e in g.faces[f].edges && EdgeRef(m.e) !in g.index
  {
  }

  /** Geometries: the face and every face sharing an edge with it are rebuilt from the
      final coordinates; no other face is touched. */
  lemma ScaleFaceGeometries(g: Graph, f: FaceId, factor: real, center: Coord)
    requires WellFormed(g) && f in g.faces
    ensures var r := ScaleFace(g, f, factor, center).graph;
            && (forall h :: h in g.faces && (h == f || h in TouchingFaces(g, f)) ==> GeomFresh(r, h))
            && (forall h :: h in g.faces && h != f && h !in TouchingFaces(g, f) ==> r.faces[h] == g.faces[h])
  {
    var r := ScaleFace(g, f, factor, center).graph;
    var ri := Reindexed(g, f, factor, center);
    assert TouchingFaces(ri, f) == TouchingFaces(g, f);
    forall h | h in g.faces && (h == f || h in TouchingFaces(g, f))
      ensures GeomFresh(r, h)
    {
      BoundaryFrame(ri, r, h);
    }
  }

  /** No vertex of the face is scaled twice: the live vertex list of every boundary edge,
      end positions included, is the old list with each vertex scaled exactly once. */
  lemma ScaleMovesEachEdgeVertexOnce(g: Graph, f: FaceId, factor: real, center: Coord, e: EdgeId)
    requires WellFormed(g) && f in g.faces && e in g.faces[f].edges
    ensures EdgeCoords(ScaleFace(g, f, factor, center).graph, e) == ScaleAll(EdgeCoords(g, e), center, factor)
  {
    var r := ScaleFace(g, f, factor, center).graph;
    ScaleFaceCoordinates(g, f, factor, center);
    var edge := g.edges[e];
    assert IsEndpoint(edge, edge.n1) && IsEndpoint(edge, edge.n2);
    assert edge.n1 in FaceNodes(g, f) && edge.n2 in FaceNodes(g, f);
    ScaledEdgeCoords(g, r, e, factor, center);
  }

  /** The vertex list of an edge whose interior and both end nodes were scaled once is the
      old vertex list scaled once. */
  lemma ScaledEdgeCoords(g: Graph, r: Graph, e: EdgeId, factor: real, center: Coord)
    requires WellFormed(g) && WellFormed(r) && e in g.edges && e in r.edges
    requires r.edges[e] == g.edges[e].(interior := ScaleAll(g.edges[e].interior, center, factor))
    requires r.nodes[g.edges[e].n1] == ScaleAbout(g.nodes[g.edges[e].n1], center, factor)
    requires r.nodes[g.edges[e].n2] == ScaleAbout(g.nodes[g.edges[e].n2], center, factor)
    ensures EdgeCoords(r, e) == ScaleAll(EdgeCoords(g, e), center, factor)
  {
    var lhs := EdgeCoords(r, e);
    var rhs := ScaleAll(EdgeCoords(g, e), center, factor);
    assert |lhs| == |rhs|;
    forall i | 0 <= i < |lhs|
      ensures lhs[i] == rhs[i]
    {
      if 0 < i < |lhs| - 1 {
        assert lhs[i] == r.edges[e].interior[i - 1];
        assert EdgeCoords(g, e)[i] == g.edges[e].interior[i - 1];
      }
    }
  }

  /** Nodes are moved but their index entries are left as they were, so an indexed node of
      the face that actually moves ends with a stale entry: a point's envelope is the point,
      so the stored box no longer contains the node's live position. */
  lemma ScaleStalesNodeEntries(g: Graph, f: FaceId, factor: real, center: Coord, n: NodeId)
    requires WellFormed(g) && f in g.faces && factor != 1.0
    requires n in FaceNodes(g, f) && EntryFresh(g, NodeRef(n)) && g.nodes[n] != center
    ensures NodeRef(n) in ScaleFace(g, f, factor, center).graph.index
    ensures ScaleFace(g, f, factor, center).graph.index[NodeRef(n)] == g.index[NodeRef(n)]
    ensures !EntryFresh(ScaleFace(g, f, factor, center).graph, NodeRef(n))
    ensures !EnvelopeFresh(ScaleFace(g, f, factor, center).graph, NodeRef(n))
  {
    ScaleFaceCoordinates(g, f, factor, center);
    ScaleFaceIndex(g, f, factor, center);
    ScaleAboutFixes(g.nodes[n], center, factor);
  }

  /** The entries a scaling of `f` can leave out of sync: the nodes of the face and the
      edges ending at them that are not boundary edges of the face. */
  ghost function Touched(g: Graph, f: FaceId): set<Entity>
    requires WellFormed(g) && f in g.faces
  {
    (set n | n in FaceNodes(g, f) :: NodeRef(n))
    + (set e | e in g.edges && e !in g.faces[f].edges && exists n :: n in FaceNodes(g, f) && IsEndpoint(g.edges[e], n) :: EdgeRef(e))
  }

  /** After a scaling every entry of the index is in sync except possibly those of the nodes
      of the face and of the other edges ending at them. */
  lemma ScaleKeepsOtherEntriesInSync(g: Graph, f: FaceId, factor: real, center: Coord)
    requires IndexInSync(g) && f in g.faces
    ensures var r := ScaleFace(g, f, factor, center).graph;
            forall k :: k in r.index && k !in Touched(g, f) ==> EntryFresh(r, k)
  {
    var r := ScaleFace(g, f, factor, center).graph;
    ScaleFaceCoordinates(g, f, factor, center);
    ScaleFaceIndex(g, f, factor, center);
    forall k | k in r.index && k !in Touched(g, f)
      ensures EntryFresh(r, k)
    {
      if !(k.EdgeRef? && k.e in g.faces[f].edges) {
        UntouchedEntryFresh(g, r, f, factor, center, k);
      }
    }
  }

  /** An entry outside the boundary edges and outside `Touched` keeps its geometry and its
      entity's coordinates, so it stays fresh. */
  lemma UntouchedEntryFresh(g: Graph, r: Graph, f: FaceId, factor: real, center: Coord, k: Entity)
    requires IndexInSync(g) && WellFormed(r) && f in g.faces
    requires r.nodes.Keys == g.nodes.Keys && r.edges.Keys == g.edges.Keys
    requires forall n :: n in g.nodes && n !in FaceNodes(g, f) ==> r.nodes[n] == g.nodes[n]
    requires forall e :: e in g.edges && e !in g.faces[f].edges ==> r.edges[e] == g.edges[e]
    requires forall x :: x in r.index <==> x in g.index || (x.EdgeRef? && x.e in g.faces[f].edges)
    requires forall x :: x in g.index && !(x.EdgeRef? && x.e in g.faces[f].edges) ==> r.index[x] == g.index[x]
    requires k in r.index && k !in Touched(g, f) && !(k.EdgeRef? && k.e in g.faces[f].edges)
    ensures EntryFresh(r, k)
  {
    assert k in g.index && EntryFresh(g, k);
    assert r.index[k] == g.index[k];
    match k
    case NodeRef(n) =>
      UntouchedNode(g, f, n);
    case EdgeRef(e) =>
      UntouchedEdge(g, f, e);
      EdgeCoordsFrame(g, r, e);
  }

  lemma UntouchedNode(g: Graph, f: FaceId, n: NodeId)
    requires WellFormed(g) && f in g.faces && NodeRef(n) !in Touched(g, f)
    ensures n !in FaceNodes(g, f)
  {
  }

  lemma UntouchedEdge(g: Graph, f: FaceId, e: EdgeId)
    requires WellFormed(g) && f in g.faces && e in g.edges && e !in g.faces[f].edges
    requires EdgeRef(e) !in Touched(g, f)
    ensures g.edges[e].n1 !in FaceNodes(g, f) && g.edges[e].n2 !in FaceNodes(g, f)
  {
    var edge := g.edges[e];
    if edge.n1 in FaceNodes(g, f) {
      assert IsEndpoint(edge, edge.n1);
    }
    if edge.n2 in FaceNodes(g, f) {
      assert IsEndpoint(edge, edge.n2);
    }
  }

  /** Cached geometries stay up to date for every face that is refreshed or that has no
      node of the scaled face; a face meeting it only at a node is not refreshed. */
  lemma ScaleKeepsGeometriesFresh(g: Graph, f: FaceId, factor: real, center: Coord)
    requires GeomsFresh(g) && f in g.faces
    ensures var r := ScaleFace(g, f, factor, center).graph;
            forall h :: h in r.faces && (h == f || h in TouchingFaces(g, f) || FaceNodes(g, h) !! FaceNodes(g, f)) ==>
              GeomFresh(r, h)
  {
    var r := ScaleFace(g, f, factor, center).graph;
    ScaleFaceCoordinates(g, f, factor, center);
    ScaleFaceGeometries(g, f, factor, center);
    forall h | h in r.faces && (h == f || h in TouchingFaces(g, f) || FaceNodes(g, h) !! FaceNodes(g, f))
      ensures GeomFresh(r, h)
    {
      if h != f && h !in TouchingFaces(g, f) {
        UntouchedGeomFresh(g, r, f, factor, center, h);
      }
    }
  }

  /** A face with no node of the scaled face and no edge of it keeps its edges and their
      nodes, so its cached geometry stays fresh. */
  lemma UntouchedGeomFresh(g: Graph, r: Graph, f: FaceId, factor: real, center: Coord, h: FaceId)
    requires GeomsFresh(g) && WellFormed(r) && f in g.faces && h in g.faces && h in r.faces
    requires r.nodes.Keys == g.nodes.Keys && r.edges.Keys == g.edges.Keys
    requires forall n :: n in g.nodes && n !in FaceNodes(g, f) ==> r.nodes[n] == g.nodes[n]
    requires forall e :: e in g.edges && e !in g.faces[f].edges ==> r.edges[e] == g.edges[e]
    requires r.faces[h] == g.faces[h]
    requires h != f && h !in TouchingFaces(g, f) && FaceNodes(g, h) !! FaceNodes(g, f)
    ensures GeomFresh(r, h)
  {
    assert GeomFresh(g, h);
    forall e | e in g.faces[h].edges
      ensures r.edges[e] == g.edges[e]
    {
      assert e !in g.faces[f].edges;
    }
    forall e, m | e in g.faces[h].edges && IsEndpoint(g.edges[e], m)
      ensures r.nodes[m] == g.nodes[m]
    {
      assert m in FaceNodes(g, h);
    }
    BoundaryFrame(g, r, h);
  }
}
