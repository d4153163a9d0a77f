/**
 * The wall extruder of convert_map: the loops that turn one merged polygon
 * into a wall part's vertex and face lists.
 */
module Extrude {
  import opened Mesh

  /**
   * The body of a ring's loop: extend the vertex list by the edge's quad
   * and the face list by its two triangles, then advance the offset by 4.
   * It is a method of its own so that each proof obligation stays small.
   */
  method AppendQuad(verts0: seq<Vertex>, faces0: seq<Face>, offset0: nat,
                    p: Point, q: Point, hole: bool, height: real)
    returns (verts: seq<Vertex>, faces: seq<Face>, offset: nat)
    ensures verts == verts0 + QuadVerts(Edge(p, q, hole), height)
    ensures faces == faces0 + QuadFaces(offset0, hole)
    ensures offset == offset0 + 4
  {
    verts := verts0 + [Vertex(p.x, p.y, 0.0), Vertex(q.x, q.y, 0.0),
                       Vertex(q.x, q.y, height), Vertex(p.x, p.y, height)];
    if hole {
      faces := faces0 + [Face(offset0, offset0 + 2, offset0 + 1), Face(offset0 + 2, offset0 + 3, offset0)];
    } else {
      faces := faces0 + [Face(offset0, offset0 + 1, offset0 + 2), Face(offset0 + 2, offset0 + 3, offset0)];
    }
    offset := offset0 + 4;
  }

  /**
   * One iteration of a ring's loop, for point j: the edge from point j to
   * point (j + 1) mod n is extruded after the edges already in the lists.
   * It is a method of its own so that each proof obligation stays small.
   */
  method ExtrudePoint(c: Ring, j: nat, hole: bool, height: real,
                      verts0: seq<Vertex>, faces0: seq<Face>, offset0: nat, ghost done: seq<Edge>)
    returns (verts: seq<Vertex>, faces: seq<Face>, offset: nat)
    requires j < |c|
    requires verts0 == MeshVerts(done + EdgesUpTo(c, j, hole), height)
    requires faces0 == MeshFaces(done + EdgesUpTo(c, j, hole))
    requires offset0 == 4 * (|done| + j)
    ensures verts == MeshVerts(done + EdgesUpTo(c, j + 1, hole), height)
    ensures faces == MeshFaces(done + EdgesUpTo(c, j + 1, hole))
    ensures offset == 4 * (|done| + j + 1)
  {
    var p, q := c[j], c[(j + 1) % |c|];
    SuccIsMod(j, |c|);
    RingStep(done, c, j, hole, height);
    verts, faces, offset := AppendQuad(verts0, faces0, offset0, p, q, hole, height);
  }

  /**
   * One ring's loop: for every point j it appends the quad of the edge to
   * point (j + 1) mod n and advances the running offset by 4.  Exterior
   * quads get the triangles (o, o+1, o+2), (o+2, o+3, o); hole quads get
   * (o, o+2, o+1), (o+2, o+3, o).  The ghost `done` is the edge list
   * already extruded into verts and faces.
   */
  method ExtrudeRing(c: Ring, hole: bool, height: real,
                     verts0: seq<Vertex>, faces0: seq<Face>, offset0: nat, ghost done: seq<Edge>)
    returns (verts: seq<Vertex>, faces: seq<Face>, offset: nat)
    requires verts0 == MeshVerts(done, height) && faces0 == MeshFaces(done)
    requires offset0 == 4 * |done|
    ensures verts == MeshVerts(done + RingEdges(c, hole), height)
    ensures faces == MeshFaces(done + RingEdges(c, hole))
    ensures offset == 4 * |done + RingEdges(c, hole)|
  {
    verts, faces, offset := verts0, faces0, offset0;
    assert done + EdgesUpTo(c, 0, hole) == done;
    var j := 0;
    while j < |c|
      invariant 0 <= j <= |c|
      invariant verts == MeshVerts(done + EdgesUpTo(c, j, hole), height)
      invariant faces == MeshFaces(done + EdgesUpTo(c, j, hole))
      invariant offset == 4 * (|done| + j)
    {
      verts, faces, offset := ExtrudePoint(c, j, hole, height, verts, faces, offset, done);
      j := j + 1;
    }
  }

  /**
   * Extrudes a merged polygon: the exterior ring, then each interior ring
   * in order, from empty lists and offset 0.  The lists built are exactly
   * the mesh of the polygon's edges, so the lemmas of module Mesh
   * (sizes, layout, valid indices, winding) describe them.
   */
  method ExtrudePolygon(ext: Ring, interiors: seq<Ring>, height: real)
    returns (verts: seq<Vertex>, faces: seq<Face>)
    ensures verts == WallVerts(ext, interiors, height)
    ensures faces == WallFaces(ext, interiors)
  {
    var offset: nat;
    verts, faces, offset := ExtrudeRing(ext, false, height, [], [], 0, []);
    ghost var es := RingEdges(ext, false);
    assert [] + es == es == PolygonEdges(ext, interiors[..0]);

    var i := 0;
    while i < |interiors|
      invariant 0 <= i <= |interiors|
      invariant es == PolygonEdges(ext, interiors[..i])
      invariant verts == MeshVerts(es, height) && faces == MeshFaces(es)
      invariant offset == 4 * |es|
    {
      verts, faces, offset := ExtrudeRing(interiors[i], true, height, verts, faces, offset, es);
      PolygonEdgesPrefix(ext, interiors, i);
      es := es + RingEdges(interiors[i], true);
      i := i + 1;
    }
    assert interiors[..|interiors|] == interiors;
  }
}
