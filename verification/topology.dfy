/** The topological planar graph the generalisation operators mutate: nodes, edges and
    faces held in maps keyed by identifiers, the cached geometry of every face, and a
    spatial index over nodes and edges.

    An edge refers to its two end nodes and owns only its interior vertices: its end
    positions are always read through the nodes, which is how the Java graph shares one
    coordinate object between a node and the edges it ends. */
module Topology {
  import opened Wrappers
  import opened Geometry

  type NodeId = nat
  type EdgeId = nat
  type FaceId = nat

  /** `f1`/`f2` are the faces on either side, absent on the outer boundary. */
  datatype Edge = Edge(n1: NodeId, n2: NodeId, interior: seq<Coord>, f1: Option<FaceId>, f2: Option<FaceId>)

  /** A face polygon, given by the full vertex list of each of its boundary edges. */
  type Polygon = map<EdgeId, seq<Coord>>

  /** A face: its boundary edges and its cached geometry (null until first computed). */
  datatype Face = Face(edges: set<EdgeId>, geom: Option<Polygon>)

  /** What the spatial index holds entries for. */
  datatype Entity = NodeRef(n: NodeId) | EdgeRef(e: EdgeId)

  /** The geometry an index entry was built from when it was inserted (its envelope is a
      function of it). */
  datatype Shape = PointShape(c: Coord) | LineShape(cs: seq<Coord>)

  datatype Graph = Graph(
    nodes: map<NodeId, Coord>,
    edges: map<EdgeId, Edge>,
    faces: map<FaceId, Face>,
    index: map<Entity, Shape>)

  /** Every edge ends at existing nodes and every face is bounded by existing edges; an
      edge lies on the boundary of a face exactly when it names that face on one side. */
  ghost predicate WellFormed(g: Graph) {
    && (forall e :: e in g.edges ==> g.edges[e].n1 in g.nodes && g.edges[e].n2 in g.nodes)
    && (forall f :: f in g.faces ==> g.faces[f].edges <= g.edges.Keys)
    && (forall f, e :: f in g.faces && e in g.edges ==>
          (e in g.faces[f].edges <==> Borders(g.edges[e], f)))
  }

  /** The edge names face `f` on one of its sides. */
  predicate Borders(edge: Edge, f: FaceId) {
    edge.f1 == Some(f) || edge.f2 == Some(f)
  }

  predicate Exists(g: Graph, ent: Entity) {
    match ent
    case NodeRef(n) => n in g.nodes
    case EdgeRef(e) => e in g.edges
  }

  predicate IsEndpoint(edge: Edge, n: NodeId) {
    edge.n1 == n || edge.n2 == n
  }

  /** The full vertex list of an edge, end positions resolved through its nodes. */
  function EdgeCoords(g: Graph, e: EdgeId): (cs: seq<Coord>)
    requires WellFormed(g) && e in g.edges
    ensures |cs| == |g.edges[e].interior| + 2
  {
    var edge := g.edges[e];
    [g.nodes[edge.n1]] + edge.interior + [g.nodes[edge.n2]]
  }

  /** The live geometry of an indexed entity. */
  function Live(g: Graph, ent: Entity): Shape
    requires WellFormed(g) && Exists(g, ent)
  {
    match ent
    case NodeRef(n) => PointShape(g.nodes[n])
    case EdgeRef(e) => LineShape(EdgeCoords(g, e))
  }

  /** The polygon rebuilt from the live boundary edges of a face. */
  function Boundary(g: Graph, f: FaceId): Polygon
    requires WellFormed(g) && f in g.faces
  {
    map e | e in g.faces[f].edges :: EdgeCoords(g, e)
  }

  /** The faces having an edge that ends at node `n` (Node.getFaces). */
  function NodeFaces(g: Graph, n: NodeId): set<FaceId>
    requires WellFormed(g)
  {
    set f | f in g.faces && exists e :: e in g.faces[f].edges && IsEndpoint(g.edges[e], n)
  }

  /** Well-formedness depends only on the identifiers, on the end nodes and sides of each
      edge, and on the edge set of each face. */
  lemma WellFormedFrame(g: Graph, h: Graph)
    requires WellFormed(g)
    requires h.nodes.Keys == g.nodes.Keys && h.edges.Keys == g.edges.Keys && h.faces.Keys == g.faces.Keys
    requires forall e :: e in g.edges ==>
               h.edges[e].n1 == g.edges[e].n1 && h.edges[e].n2 == g.edges[e].n2 &&
               h.edges[e].f1 == g.edges[e].f1 && h.edges[e].f2 == g.edges[e].f2
    requires forall f :: f in g.faces ==> h.faces[f].edges == g.faces[f].edges
    ensures WellFormed(h)
  {
    forall f, e | f in h.faces && e in h.edges
      ensures e in h.faces[f].edges <==> Borders(h.edges[e], f)
    {
      assert e in g.faces[f].edges <==> Borders(g.edges[e], f);
    }
  }

  /** The faces around a node depend only on the edges and on each face's edge set. */
  lemma NodeFacesFrame(g: Graph, h: Graph, n: NodeId)
    requires WellFormed(g) && WellFormed(h)
    requires h.edges == g.edges && h.faces.Keys == g.faces.Keys
    requires forall f :: f in g.faces ==> h.faces[f].edges == g.faces[f].edges
    ensures NodeFaces(h, n) == NodeFaces(g, n)
  {
  }

  /** The end nodes of the boundary edges of face `f` (Face.getNodes). */
  function FaceNodes(g: Graph, f: FaceId): set<NodeId>
    requires WellFormed(g) && f in g.faces
  {
    set n | n in g.nodes && exists e :: e in g.faces[f].edges && IsEndpoint(g.edges[e], n)
  }

  /** The other faces sharing a boundary edge with `f` (Face.getTouchingFaces). */
  function TouchingFaces(g: Graph, f: FaceId): set<FaceId>
    requires f in g.faces
  {
    set h | h in g.faces && h != f && !(g.faces[h].edges !! g.faces[f].edges)
  }

  // ---------------------------------------------------------------------------
  // Spatial index primitives (Graph.removeFromSpatialIndex / insertInSpatialIndex)

  datatype Removal = Removal(graph: Graph, found: bool)

  /** Removes the entry of an entity, found by identity whatever its stored geometry;
      `found` is the boolean `removeFromSpatialIndex` returns. */
  function RemoveFromIndex(g: Graph, ent: Entity): (r: Removal)
    ensures r.found <==> ent in g.index
    ensures ent !in r.graph.index
    ensures r.graph == g.(index := r.graph.index)
    ensures forall k :: k in g.index && k != ent ==> k in r.graph.index && r.graph.index[k] == g.index[k]
    ensures forall k :: k in r.graph.index ==> k in g.index
  {
    Removal(g.(index := g.index - {ent}), ent in g.index)
  }

  /** Inserts an entry built from the entity's geometry at the time of the call. */
  function InsertInIndex(g: Graph, ent: Entity): (r: Graph)
    requires WellFormed(g) && Exists(g, ent)
    ensures r == g.(index := r.index)
    ensures r.index.Keys == g.index.Keys + {ent}
    ensures r.index[ent] == Live(g, ent)
    ensures forall k :: k in g.index && k != ent ==> r.index[k] == g.index[k]
  {
    g.(index := g.index[ent := Live(g, ent)])
  }

  function EdgeRefs(es: set<EdgeId>): (r: set<Entity>)
    ensures forall ent :: ent in r <==> ent.EdgeRef? && ent.e in es
  {
    set e | e in es :: EdgeRef(e)
  }

  datatype BatchRemoval = BatchRemoval(graph: Graph, missing: set<EdgeId>)

  /** Removes the entries of a set of edges; `missing` are those that were not indexed. */
  function RemoveEdgesFromIndex(g: Graph, es: set<EdgeId>): (r: BatchRemoval)
    ensures r.graph == g.(index := r.graph.index)
    ensures forall k :: k in r.graph.index <==> k in g.index && !(k.EdgeRef? && k.e in es)
    ensures forall k :: k in r.graph.index ==> r.graph.index[k] == g.index[k]
    ensures forall e :: e in r.missing <==> e in es && EdgeRef(e) !in g.index
  {
    BatchRemoval(g.(index := g.index - EdgeRefs(es)), set e | e in es && EdgeRef(e) !in g.index)
  }

  /** Inserts entries for a set of edges, built from their geometry at the time of the call. */
  function InsertEdgesInIndex(g: Graph, es: set<EdgeId>): (r: Graph)
    requires WellFormed(g) && es <= g.edges.Keys
    ensures r == g.(index := r.index)
    ensures forall k :: k in r.index <==> k in g.index || (k.EdgeRef? && k.e in es)
    ensures forall e :: e in es ==> r.index[EdgeRef(e)] == LineShape(EdgeCoords(g, e))
    ensures forall k :: k in g.index && !(k.EdgeRef? && k.e in es) ==> r.index[k] == g.index[k]
  {
    g.(index := g.index + map k | k in EdgeRefs(es) :: LineShape(EdgeCoords(g, k.e)))
  }

  /** Freshly inserted edge entries match the live geometry. */
  lemma InsertEdgesFresh(g: Graph, es: set<EdgeId>)
    requires WellFormed(g) && es <= g.edges.Keys
    ensures forall e :: e in es ==> EntryFresh(InsertEdgesInIndex(g, es), EdgeRef(e))
  {
    var r := InsertEdgesInIndex(g, es);
    forall e | e in es
      ensures EntryFresh(r, EdgeRef(e))
    {
      EdgeCoordsFrame(g, r, e);
    }
  }

  // ---------------------------------------------------------------------------
  // Face geometry refresh (Face.updateGeometry)

  /** Recomputes the cached geometry of every face of `S` from the live boundary. Each
      refresh reads only nodes and edges, so refreshing several faces in any order is the
      same as refreshing them all at once. */
  function RefreshFaces(g: Graph, S: set<FaceId>): (r: Graph)
    requires WellFormed(g)
    ensures r == g.(faces := r.faces)
    ensures r.faces.Keys == g.faces.Keys
    ensures forall f :: f in g.faces ==> r.faces[f].edges == g.faces[f].edges
    ensures forall f :: f in g.faces && f in S ==> r.faces[f].geom == Some(Boundary(g, f))
    ensures forall f :: f in g.faces && f !in S ==> r.faces[f] == g.faces[f]
    ensures WellFormed(r)
  {
    g.(faces := map f | f in g.faces :: if f in S then g.faces[f].(geom := Some(Boundary(g, f))) else g.faces[f])
  }

  // ---------------------------------------------------------------------------
  // Envelopes: what a JTS spatial index keys an entry on

  /** An axis-aligned bounding box. */
  datatype Envelope = Envelope(minX: real, minY: real, maxX: real, maxY: real)

  predicate InEnvelope(c: Coord, b: Envelope) {
    b.minX <= c.x <= b.maxX && b.minY <= c.y <= b.maxY
  }

  /** The smallest box holding every coordinate of a non-empty list. */
  function EnvelopeOf(cs: seq<Coord>): (b: Envelope)
    requires |cs| > 0
    ensures forall i :: 0 <= i < |cs| ==> InEnvelope(cs[i], b)
  {
    var c := cs[0];
    if |cs| == 1 then Envelope(c.x, c.y, c.x, c.y)
    else
      var t := EnvelopeOf(cs[1..]);
      assert forall i :: 1 <= i < |cs| ==> cs[i] == cs[1..][i - 1];
      Envelope(Min(c.x, t.minX), Min(c.y, t.minY), Max(c.x, t.maxX), Max(c.y, t.maxY))
  }

  function Min(a: real, b: real): real { if a <= b then a else b }
  function Max(a: real, b: real): real { if a >= b then a else b }

  /** The envelope of an indexed geometry: a point's box is the point itself. */
  function ShapeEnvelope(sh: Shape): (b: Envelope)
    ensures sh.PointShape? ==> b == Envelope(sh.c.x, sh.c.y, sh.c.x, sh.c.y)
  {
    match sh
    case PointShape(c) => Envelope(c.x, c.y, c.x, c.y)
    case LineShape(cs) => if |cs| == 0 then Envelope(0.0, 0.0, 0.0, 0.0) else EnvelopeOf(cs)
  }

  // ---------------------------------------------------------------------------
  // The invariants the index and the cached geometries are meant to keep

  /** The index entry of `ent` exists and matches its live geometry. */
  ghost predicate EntryFresh(g: Graph, ent: Entity)
    requires WellFormed(g)
  {
    ent in g.index && Exists(g, ent) && g.index[ent] == Live(g, ent)
  }

  /** The index entry of `ent` exists and its envelope is that of the live geometry: the
      condition under which an envelope-keyed index still finds the entity. */
  ghost predicate EnvelopeFresh(g: Graph, ent: Entity)
    requires WellFormed(g)
  {
    ent in g.index && Exists(g, ent) && ShapeEnvelope(g.index[ent]) == ShapeEnvelope(Live(g, ent))
  }

  /** Every index entry belongs to a live entity and matches its live geometry. */
  ghost predicate IndexInSync(g: Graph) {
    WellFormed(g) && forall ent :: ent in g.index ==> EntryFresh(g, ent)
  }

  ghost predicate GeomFresh(g: Graph, f: FaceId)
    requires WellFormed(g) && f in g.faces
  {
    g.faces[f].geom == Some(Boundary(g, f))
  }

  /** Every cached face geometry equals the polygon rebuilt from its live edges. */
  ghost predicate GeomsFresh(g: Graph) {
    WellFormed(g) && forall f :: f in g.faces ==> GeomFresh(g, f)
  }

  /** An edge's vertex list depends only on the edge record and its two end positions. */
  lemma EdgeCoordsFrame(g: Graph, h: Graph, e: EdgeId)
    requires WellFormed(g) && WellFormed(h) && e in g.edges && e in h.edges
    requires h.edges[e] == g.edges[e]
    requires h.nodes[g.edges[e].n1] == g.nodes[g.edges[e].n1]
    requires h.nodes[g.edges[e].n2] == g.nodes[g.edges[e].n2]
    ensures EdgeCoords(h, e) == EdgeCoords(g, e)
  {
  }

  /** Whether an index entry is in sync depends only on the index, nodes and edges. */
  lemma EntryFreshFrame(g: Graph, h: Graph, ent: Entity)
    requires WellFormed(g) && WellFormed(h)
    requires h.index == g.index && h.nodes == g.nodes && h.edges == g.edges
    ensures EntryFresh(h, ent) == EntryFresh(g, ent)
  {
    if ent in g.index && Exists(g, ent) && ent.EdgeRef? {
      EdgeCoordsFrame(g, h, ent.e);
    }
  }

  /** A face polygon depends only on its boundary edges and their end positions. */
  lemma BoundaryFrame(g: Graph, h: Graph, f: FaceId)
    requires WellFormed(g) && WellFormed(h) && f in g.faces && f in h.faces
    requires h.faces[f].edges == g.faces[f].edges
    requires forall e :: e in g.faces[f].edges ==> h.edges[e] == g.edges[e]
    requires forall e, n :: e in g.faces[f].edges && IsEndpoint(g.edges[e], n) ==> h.nodes[n] == g.nodes[n]
    ensures Boundary(h, f) == Boundary(g, f)
  {
    forall e | e in g.faces[f].edges
      ensures EdgeCoords(h, e) == EdgeCoords(g, e)
    {
      EdgeCoordsFrame(g, h, e);
    }
  }
}
