/**
 * The wall mesh of one merged polygon, as a function of its boundary edges.
 *
 * The extruder walks the exterior ring and then every hole ring; each ring
 * point j contributes the edge from point j to point (j + 1) mod n, and every
 * edge becomes one quad: four vertices and two triangles whose indices start
 * at four times the number of edges already emitted.  This module defines
 * that mesh edge by edge and proves its layout: sizes, where each edge's
 * vertices and faces sit, that every face index is valid, and which way each
 * triangle faces.
 */
module Mesh {

  /** A ring point (pixel or merged-polygon coordinates). */
  datatype Point = Point(x: real, y: real)

  /** A ring as the extruder receives it: the point list, possibly closed (first point repeated last). */
  type Ring = seq<Point>

  datatype Vertex = Vertex(x: real, y: real, z: real)

  /** A triangle given by three 0-based indices into its part's vertex list. */
  datatype Face = Face(a: nat, b: nat, c: nat)

  /** One boundary edge, from p0 to p1, flagged when it belongs to a hole ring. */
  datatype Edge = Edge(p0: Point, p1: Point, hole: bool)

  /** The index after j in a ring of n points, wrapping from the last point back to the first. */
  function Succ(j: nat, n: nat): (k: nat)
    requires j < n
    ensures k < n
  {
    if j + 1 < n then j + 1 else 0
  }

  /** Succ is the source's (j + 1) mod n. */
  lemma {:induction false} SuccIsMod(j: nat, n: nat)
    requires j < n
    ensures Succ(j, n) == (j + 1) % n
  {
  }

  /** The edges of the first k points of ring c: point j to point Succ(j). */
  function EdgesUpTo(c: Ring, k: nat, hole: bool): (es: seq<Edge>)
    requires k <= |c|
    ensures |es| == k
  {
    if k == 0 then [] else EdgesUpTo(c, k - 1, hole) + [Edge(c[k - 1], c[Succ(k - 1, |c|)], hole)]
  }

  /** The edges of one ring, the last one wrapping from the last point back to the first. */
  function RingEdges(c: Ring, hole: bool): (es: seq<Edge>)
    ensures |es| == |c|
  {
    EdgesUpTo(c, |c|, hole)
  }

  /** The edges of the hole rings, ring after ring, in the order given. */
  function HoleEdges(holes: seq<Ring>): seq<Edge>
  {
    if holes == [] then []
    else HoleEdges(holes[..|holes| - 1]) + RingEdges(holes[|holes| - 1], true)
  }

  /** Total number of points over the hole rings. */
  function PointCount(holes: seq<Ring>): nat
  {
    if holes == [] then 0 else PointCount(holes[..|holes| - 1]) + |holes[|holes| - 1]|
  }

  /** Every edge of a polygon: exterior first, then the holes. */
  function PolygonEdges(ext: Ring, holes: seq<Ring>): seq<Edge>
  {
    RingEdges(ext, false) + HoleEdges(holes)
  }

  /** The four vertices of an edge's quad: bottom start, bottom end, top end, top start. */
  function QuadVerts(e: Edge, height: real): (r: seq<Vertex>)
    ensures |r| == 4
  {
    [Vertex(e.p0.x, e.p0.y, 0.0), Vertex(e.p1.x, e.p1.y, 0.0),
     Vertex(e.p1.x, e.p1.y, height), Vertex(e.p0.x, e.p0.y, height)]
  }

  /** A triangle on three distinct corners of the quad whose first vertex has index o. */
  predicate QuadCorners(f: Face, o: nat)
  {
    && o <= f.a < o + 4 && o <= f.b < o + 4 && o <= f.c < o + 4
    && f.a != f.b && f.b != f.c && f.a != f.c
  }

  /** The two triangles of a quad whose first vertex has index o. */
  function QuadFaces(o: nat, hole: bool): (r: seq<Face>)
    ensures |r| == 2
  {
    if hole then [Face(o, o + 2, o + 1), Face(o + 2, o + 3, o)]
    else [Face(o, o + 1, o + 2), Face(o + 2, o + 3, o)]
  }

  /**
   * A quad stands upright: two corners on the floor and two at the wall
   * height, one column above each end point; each of its triangles uses
   * three distinct corners of its own quad.
   */
  lemma QuadShape(e: Edge, height: real, o: nat, hole: bool)
    ensures var r := QuadVerts(e, height);
      && r[0].z == 0.0 && r[1].z == 0.0 && r[2].z == height && r[3].z == height
      && r[0].x == r[3].x && r[0].y == r[3].y && r[1].x == r[2].x && r[1].y == r[2].y
    ensures QuadCorners(QuadFaces(o, hole)[0], o) && QuadCorners(QuadFaces(o, hole)[1], o)
  {
  }

  function MeshVerts(es: seq<Edge>, height: real): seq<Vertex>
  {
    if es == [] then []
    else MeshVerts(es[..|es| - 1], height) + QuadVerts(es[|es| - 1], height)
  }

  function MeshFaces(es: seq<Edge>): seq<Face>
  {
    if es == [] then []
    else MeshFaces(es[..|es| - 1]) + QuadFaces(4 * (|es| - 1), es[|es| - 1].hole)
  }

  /** Every index of every face is below n. */
  predicate FacesBelow(faces: seq<Face>, n: nat)
  {
    forall i :: 0 <= i < |faces| ==> faces[i].a < n && faces[i].b < n && faces[i].c < n
  }

  // ---------------------------------------------------------------------
  // Sizes and layout

  /** Edge j of a ring runs from point j to point Succ(j). */
  lemma {:induction false} EdgesUpToAt(c: Ring, k: nat, hole: bool, j: nat)
    requires j < k <= |c|
    ensures EdgesUpTo(c, k, hole)[j] == Edge(c[j], c[Succ(j, |c|)], hole)
  {
    if j < k - 1 {
      EdgesUpToAt(c, k - 1, hole, j);
    }
  }

  lemma {:induction false} RingEdgesAt(c: Ring, hole: bool, j: nat)
    requires j < |c|
    ensures RingEdges(c, hole)[j] == Edge(c[j], c[Succ(j, |c|)], hole)
  {
    EdgesUpToAt(c, |c|, hole, j);
  }

  lemma {:induction false} MeshSizes(es: seq<Edge>, height: real)
    ensures |MeshVerts(es, height)| == 4 * |es|
    ensures |MeshFaces(es)| == 2 * |es|
  {
    if es != [] {
      MeshSizes(es[..|es| - 1], height);
    }
  }

  lemma {:induction false} HoleEdgesSize(holes: seq<Ring>)
    ensures |HoleEdges(holes)| == PointCount(holes)
  {
    if holes != [] {
      HoleEdgesSize(holes[..|holes| - 1]);
    }
  }

  /** Appending an edge appends its quad: the step the extruder's loops take. */
  lemma {:induction false} MeshSnoc(es: seq<Edge>, e: Edge, height: real)
    ensures MeshVerts(es + [e], height) == MeshVerts(es, height) + QuadVerts(e, height)
    ensures MeshFaces(es + [e]) == MeshFaces(es) + QuadFaces(4 * |es|, e.hole)
  {
    assert (es + [e])[..|es|] == es;
  }

  /** Taking one more ring point appends that point's edge. */
  lemma {:induction false} EdgesUpToSnoc(done: seq<Edge>, c: Ring, j: nat, hole: bool)
    requires j < |c|
    ensures done + EdgesUpTo(c, j + 1, hole)
         == (done + EdgesUpTo(c, j, hole)) + [Edge(c[j], c[Succ(j, |c|)], hole)]
  {
  }

  /** Extruding one more point of a ring appends exactly that point's quad at offset 4 * (edges so far). */
  lemma {:induction false} RingStep(done: seq<Edge>, c: Ring, j: nat, hole: bool, height: real)
    requires j < |c|
    ensures var es, e := done + EdgesUpTo(c, j, hole), Edge(c[j], c[Succ(j, |c|)], hole);
      && MeshVerts(done + EdgesUpTo(c, j + 1, hole), height) == MeshVerts(es, height) + QuadVerts(e, height)
      && MeshFaces(done + EdgesUpTo(c, j + 1, hole)) == MeshFaces(es) + QuadFaces(4 * (|done| + j), hole)
  {
    var es, e := done + EdgesUpTo(c, j, hole), Edge(c[j], c[Succ(j, |c|)], hole);
    EdgesUpToSnoc(done, c, j, hole);
    MeshSnoc(es, e, height);
  }

  /** Taking one more hole ring appends that ring's edges. */
  lemma {:induction false} PolygonEdgesPrefix(ext: Ring, holes: seq<Ring>, i: nat)
    requires i < |holes|
    ensures PolygonEdges(ext, holes[..i + 1]) == PolygonEdges(ext, holes[..i]) + RingEdges(holes[i], true)
  {
    assert holes[..i + 1][..i] == holes[..i];
  }

  /** The vertices 4i .. 4i+3 are exactly the quad of edge i. */
  lemma {:induction false} MeshVertsAt(es: seq<Edge>, height: real, i: nat)
    requires i < |es|
    ensures |MeshVerts(es, height)| == 4 * |es|
    ensures MeshVerts(es, height)[4 * i .. 4 * i + 4] == QuadVerts(es[i], height)
  {
    MeshSizes(es, height);
    var init := es[..|es| - 1];
    MeshSizes(init, height);
    if i < |es| - 1 {
      MeshVertsAt(init, height, i);
      assert MeshVerts(es, height)[4 * i .. 4 * i + 4] == MeshVerts(init, height)[4 * i .. 4 * i + 4];
    }
  }

  /** The faces 2i and 2i+1 are exactly the triangles of edge i's quad, offset 4i. */
  lemma {:induction false} MeshFacesAt(es: seq<Edge>, i: nat)
    requires i < |es|
    ensures |MeshFaces(es)| == 2 * |es|
    ensures MeshFaces(es)[2 * i .. 2 * i + 2] == QuadFaces(4 * i, es[i].hole)
  {
    MeshSizes(es, 0.0);
    var init := es[..|es| - 1];
    MeshSizes(init, 0.0);
    if i < |es| - 1 {
      MeshFacesAt(init, i);
      assert MeshFaces(es)[2 * i .. 2 * i + 2] == MeshFaces(init)[2 * i .. 2 * i + 2];
    }
  }

  /** Faces only refer to the part's own vertices: every index is below 4 |es| = |verts|. */
  lemma {:induction false} MeshFacesValid(es: seq<Edge>, height: real)
    ensures |MeshVerts(es, height)| == 4 * |es|
    ensures FacesBelow(MeshFaces(es), |MeshVerts(es, height)|)
  {
    MeshSizes(es, height);
    if es != [] {
      var init := es[..|es| - 1];
      MeshFacesValid(init, height);
      MeshSizes(init, height);
      var fs := MeshFaces(es);
      forall i | 0 <= i < |fs|
        ensures fs[i].a < 4 * |es| && fs[i].b < 4 * |es| && fs[i].c < 4 * |es|
      {
        if i < |MeshFaces(init)| {
          assert fs[i] == MeshFaces(init)[i];
        }
      }
    }
  }

  /** Edge k of hole ring i sits right after the edges of the earlier holes. */
  lemma {:induction false} HoleEdgesAt(holes: seq<Ring>, i: nat, k: nat)
    requires i < |holes| && k < |holes[i]|
    ensures |HoleEdges(holes)| == PointCount(holes)
    ensures PointCount(holes[..i]) + k < PointCount(holes)
    ensures HoleEdges(holes)[PointCount(holes[..i]) + k]
         == Edge(holes[i][k], holes[i][Succ(k, |holes[i]|)], true)
  {
    HoleEdgesSize(holes);
    var m := |holes| - 1;
    var init := holes[..m];
    HoleEdgesSize(init);
    if i < m {
      assert holes[..i] == init[..i];
      HoleEdgesAt(init, i, k);
    } else {
      RingEdgesAt(holes[i], true, k);
      assert holes[..i] == init;
    }
  }

  // ---------------------------------------------------------------------
  // Winding: which side of its edge each triangle faces

  /** The (unnormalised) normal of triangle (p, q, r): (q - p) x (r - p). */
  function Normal(p: Vertex, q: Vertex, r: Vertex): Vertex
  {
    var ux, uy, uz := q.x - p.x, q.y - p.y, q.z - p.z;
    var vx, vy, vz := r.x - p.x, r.y - p.y, r.z - p.z;
    Vertex(uy * vz - uz * vy, uz * vx - ux * vz, ux * vy - uy * vx)
  }

  function FaceNormal(f: Face, verts: seq<Vertex>): Vertex
    requires f.a < |verts| && f.b < |verts| && f.c < |verts|
  {
    Normal(verts[f.a], verts[f.b], verts[f.c])
  }

  /** The horizontal normal on the right-hand side of an edge, scaled by the wall height. */
  function RightNormal(e: Edge, height: real): Vertex
  {
    Vertex((e.p1.y - e.p0.y) * height, (e.p0.x - e.p1.x) * height, 0.0)
  }

  function Negate(v: Vertex): Vertex
  {
    Vertex(-v.x, -v.y, -v.z)
  }

  /**
   * Within one quad: on an exterior edge both triangles face the right-hand
   * side of the edge; on a hole edge the first triangle faces the left-hand
   * side while the second still faces the right-hand side.
   */
  lemma {:induction false} QuadNormals(e: Edge, height: real)
    ensures var q := QuadVerts(e, height);
      && Normal(q[0], q[1], q[2]) == RightNormal(e, height)
      && Normal(q[0], q[2], q[1]) == Negate(RightNormal(e, height))
      && Normal(q[2], q[3], q[0]) == RightNormal(e, height)
  {
    var dx, dy := e.p1.x - e.p0.x, e.p1.y - e.p0.y;
    assert dy * height - 0.0 * dy == (e.p1.y - e.p0.y) * height;
    assert 0.0 * dx - dx * height == (e.p0.x - e.p1.x) * height;
  }

  /** The winding of a quad laid out at vertex 4i and face 2i of any lists. */
  lemma {:induction false} QuadWinding(vs: seq<Vertex>, fs: seq<Face>, e: Edge, height: real, i: nat)
    requires 4 * i + 4 <= |vs| && 2 * i + 2 <= |fs|
    requires vs[4 * i .. 4 * i + 4] == QuadVerts(e, height)
    requires fs[2 * i .. 2 * i + 2] == QuadFaces(4 * i, e.hole)
    ensures FaceNormal(fs[2 * i], vs)
         == (if e.hole then Negate(RightNormal(e, height)) else RightNormal(e, height))
    ensures FaceNormal(fs[2 * i + 1], vs) == RightNormal(e, height)
  {
    var q := QuadVerts(e, height);
    QuadNormals(e, height);
    var o := 4 * i;
    assert vs[o] == q[0] && vs[o + 1] == q[1] && vs[o + 2] == q[2] && vs[o + 3] == q[3];
    assert fs[2 * i + 1] == QuadFaces(o, e.hole)[1];
  }

  /**
   * Both triangles of quad i reference vertices of the mesh; on an exterior
   * edge both face the edge's right-hand side, on a hole edge the first
   * faces the left-hand side and the second the right-hand side.
   */
  lemma {:induction false} MeshWinding(es: seq<Edge>, height: real, i: nat)
    requires i < |es|
    ensures var vs, fs := MeshVerts(es, height), MeshFaces(es);
      && |vs| == 4 * |es| && |fs| == 2 * |es|
      && FacesBelow(fs, |vs|)
      && FaceNormal(fs[2 * i], vs)
         == (if es[i].hole then Negate(RightNormal(es[i], height)) else RightNormal(es[i], height))
      && FaceNormal(fs[2 * i + 1], vs) == RightNormal(es[i], height)
  {
    MeshFacesValid(es, height);
    MeshVertsAt(es, height, i);
    MeshFacesAt(es, i);
    QuadWinding(MeshVerts(es, height), MeshFaces(es), es[i], height, i);
  }

  // ---------------------------------------------------------------------
  // The whole polygon

  /** The vertex list extruded from a polygon with exterior ext and interiors holes. */
  function WallVerts(ext: Ring, holes: seq<Ring>, height: real): seq<Vertex>
  {
    MeshVerts(PolygonEdges(ext, holes), height)
  }

  /** The face list extruded from a polygon with exterior ext and interiors holes. */
  function WallFaces(ext: Ring, holes: seq<Ring>): seq<Face>
  {
    MeshFaces(PolygonEdges(ext, holes))
  }

  /** Sizes of a polygon's mesh: four vertices and two faces per ring point. */
  lemma {:induction false} WallSizes(ext: Ring, holes: seq<Ring>, height: real)
    ensures |WallVerts(ext, holes, height)| == 4 * (|ext| + PointCount(holes))
    ensures |WallFaces(ext, holes)| == 2 * (|ext| + PointCount(holes))
  {
    HoleEdgesSize(holes);
    MeshSizes(PolygonEdges(ext, holes), height);
  }

  /** Every face index of a polygon's mesh refers to a vertex of that same mesh. */
  lemma {:induction false} WallFacesValid(ext: Ring, holes: seq<Ring>, height: real)
    ensures FacesBelow(WallFaces(ext, holes), |WallVerts(ext, holes, height)|)
  {
    MeshFacesValid(PolygonEdges(ext, holes), height);
  }

  /** Edge n's quad, spelled out vertex by vertex. */
  lemma {:induction false} QuadAt(es: seq<Edge>, height: real, n: nat, e: Edge)
    requires n < |es| && es[n] == e
    ensures |MeshVerts(es, height)| == 4 * |es| && |MeshFaces(es)| == 2 * |es|
    ensures MeshVerts(es, height)[4 * n .. 4 * n + 4]
         == [Vertex(e.p0.x, e.p0.y, 0.0), Vertex(e.p1.x, e.p1.y, 0.0),
             Vertex(e.p1.x, e.p1.y, height), Vertex(e.p0.x, e.p0.y, height)]
    ensures MeshFaces(es)[2 * n .. 2 * n + 2] == QuadFaces(4 * n, e.hole)
  {
    MeshVertsAt(es, height, n);
    MeshFacesAt(es, n);
  }

  /**
   * Exterior edge j (from point j to point Succ(j) = (j + 1) mod n, the last
   * one wrapping round) owns vertices 4j .. 4j+3 and faces 2j, 2j+1, with
   * the exterior winding.
   */
  lemma {:induction false} ExteriorQuadAt(ext: Ring, holes: seq<Ring>, height: real, j: nat)
    requires j < |ext|
    ensures |WallVerts(ext, holes, height)| == 4 * (|ext| + PointCount(holes))
    ensures |WallFaces(ext, holes)| == 2 * (|ext| + PointCount(holes))
    ensures var p, q := ext[j], ext[Succ(j, |ext|)];
      WallVerts(ext, holes, height)[4 * j .. 4 * j + 4]
      == [Vertex(p.x, p.y, 0.0), Vertex(q.x, q.y, 0.0), Vertex(q.x, q.y, height), Vertex(p.x, p.y, height)]
    ensures WallFaces(ext, holes)[2 * j .. 2 * j + 2]
         == [Face(4 * j, 4 * j + 1, 4 * j + 2), Face(4 * j + 2, 4 * j + 3, 4 * j)]
  {
    WallSizes(ext, holes, height);
    RingEdgesAt(ext, false, j);
    QuadAt(PolygonEdges(ext, holes), height, j, Edge(ext[j], ext[Succ(j, |ext|)], false));
  }

  /** The position of edge k of hole i among all the polygon's edges: after the exterior and the earlier holes. */
  function HoleEdgeIndex(ext: Ring, holes: seq<Ring>, i: nat, k: nat): nat
    requires i <= |holes|
  {
    |ext| + PointCount(holes[..i]) + k
  }

  lemma {:induction false} PolygonHoleEdge(ext: Ring, holes: seq<Ring>, i: nat, k: nat)
    requires i < |holes| && k < |holes[i]|
    ensures |ext| <= HoleEdgeIndex(ext, holes, i, k) < |PolygonEdges(ext, holes)| == |ext| + PointCount(holes)
    ensures PolygonEdges(ext, holes)[HoleEdgeIndex(ext, holes, i, k)]
         == Edge(holes[i][k], holes[i][Succ(k, |holes[i]|)], true)
  {
    HoleEdgesAt(holes, i, k);
  }

  /**
   * Edge k of hole i comes after every exterior edge and every edge of holes
   * 0 .. i-1; its quad has the hole winding: the first triangle is the
   * exterior's reversed, the second is the exterior's unchanged.
   */
  lemma {:induction false} HoleQuadAt(ext: Ring, holes: seq<Ring>, height: real, i: nat, k: nat)
    requires i < |holes| && k < |holes[i]|
    ensures |ext| <= HoleEdgeIndex(ext, holes, i, k) < |ext| + PointCount(holes)
    ensures |WallVerts(ext, holes, height)| == 4 * (|ext| + PointCount(holes))
    ensures |WallFaces(ext, holes)| == 2 * (|ext| + PointCount(holes))
    ensures var n, p, q := HoleEdgeIndex(ext, holes, i, k), holes[i][k], holes[i][Succ(k, |holes[i]|)];
      WallVerts(ext, holes, height)[4 * n .. 4 * n + 4]
      == [Vertex(p.x, p.y, 0.0), Vertex(q.x, q.y, 0.0), Vertex(q.x, q.y, height), Vertex(p.x, p.y, height)]
    ensures var n := HoleEdgeIndex(ext, holes, i, k);
      WallFaces(ext, holes)[2 * n .. 2 * n + 2]
      == [Face(4 * n, 4 * n + 2, 4 * n + 1), Face(4 * n + 2, 4 * n + 3, 4 * n)]
  {
    WallSizes(ext, holes, height);
    PolygonHoleEdge(ext, holes, i, k);
    QuadAt(PolygonEdges(ext, holes), height, HoleEdgeIndex(ext, holes, i, k),
           Edge(holes[i][k], holes[i][Succ(k, |holes[i]|)], true));
  }

  /**
   * A closed ring (first point repeated last, as Shapely hands rings over)
   * ends in a zero-length wrap-around edge, whose quad is a degenerate
   * wall with zero normals.
   */
  lemma {:induction false} ClosedRingWrapEdge(c: Ring, hole: bool, height: real)
    requires |c| >= 2 && c[0] == c[|c| - 1]
    ensures var e := RingEdges(c, hole)[|c| - 1];
      && e.p0 == e.p1 == c[0]
      && RightNormal(e, height) == Vertex(0.0, 0.0, 0.0)
  {
    RingEdgesAt(c, hole, |c| - 1);
  }

  /**
   * A filled rectangle: Shapely gives its exterior as five coordinates
   * (the corner repeated), so the wall has five quads, one of them
   * degenerate: 20 vertices and 10 triangles.
   */
  lemma {:induction false} RectangleWall(w: real, d: real, height: real)
    ensures var ext := [Point(0.0, 0.0), Point(w, 0.0), Point(w, d), Point(0.0, d), Point(0.0, 0.0)];
      && |WallVerts(ext, [], height)| == 20
      && |WallFaces(ext, [])| == 10
  {
    var ext := [Point(0.0, 0.0), Point(w, 0.0), Point(w, d), Point(0.0, d), Point(0.0, 0.0)];
    WallSizes(ext, [], height);
  }
}
