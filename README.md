# Wall meshes from a floor-plan image: a Dafny model of `convert_map`

`convert_map` in `mcp_module.py` turns a floor-plan image into an archive of
3-D wall meshes. It takes the MD5 key of the image bytes and looks up the
archive `static/map_walls_<key>.zip`; when that archive exists, its path is
returned at once. Otherwise the image is decoded, and an undecodable image
is an error. Wall pixels are found and split into connected components.
Label 0, the background, is skipped, and so is every component with fewer
than 20 pixels or for which the contour tracer returns no hierarchy. For
each remaining component:

- every traced contour becomes a polygon whose holes are found by walking
  the hierarchy links (first child, then next sibling, until -1);
- the polygons are merged by a polygon union;
- every edge of the merged polygon's exterior and interior rings is
  extruded into a vertical quad 200 units high: four vertices and two
  triangles.

A part is kept when it has any vertices. Each part is written as an OBJ
text named `wall_<idx>.obj`. Every vertex coordinate is scaled by the
centimetre-per-pixel factor 1.0, and face indices are shifted to OBJ's
1-based numbering. The archive is stored under its path, and the path is
returned.

The model has seven modules:

- `Wrappers` (wrappers.dfy): `Option` and `Result`.
- `Mesh` (mesh.dfy): the mesh a polygon must extrude to, as functions of
  its flat edge list. It holds lemmas on the layout, face validity and
  winding (triangle normals as cross products).
- `Extrude` (extrude.dfy): the imperative extruder. Its loops append four
  vertices and two faces per ring point and are proved equal to the
  `Mesh` functions.
- `Hierarchy` (hierarchy.dfy): the hierarchy walk, as a loop, proved
  against the chain of links it follows.
- `Components` (components.dfy): the label loop and its filters, proved
  against a specification of which labels yield parts and in which order.
- `Obj` (obj.dfy): the OBJ lines of a part, a reader that inverts them,
  entry names, and the archive-writing loop.
- `Cache` (cache.dfy): the whole call, on a store of archives (a class
  whose map the call updates), proved against a pure `Convert` function.

### Behaviour of the code worth knowing

- **Hole winding.** The code reverses only the first triangle of a hole
  quad (`[o, o+2, o+1]`, mcp_module.py:124) and keeps the second as on the
  exterior (`[o+2, o+3, o]`, mcp_module.py:125). So the two triangles of a
  hole quad face opposite sides of their wall (`Mesh.MeshWinding`).
- **Closed rings.** The union hands rings over closed, with the first point
  repeated last. The `(j + 1) % len` wrap-around then adds one zero-length
  edge per ring, so a filled rectangle gives 20 vertices and 10 triangles,
  not 16 and 8 (`Mesh.ClosedRingWrapEdge`, `Mesh.RectangleWall`).
- **Short contours.** The code does not filter contours by their number of
  points. A contour with fewer than three points reaches `Polygon(outer,
  holes)` at mcp_module.py:86, where Shapely raises, and the whole call
  fails. The model does not cover that failure: see the line on Shapely's
  validation under "## Left out".

## Model

| member | source | states |
|---|---|---|
| Extrude.ExtrudePolygon | mcp_module.py:90-127 | The vertex and face lists built by the exterior loop and then the interior loops equal the mesh of the polygon's edge list: exterior edges first, then each hole's edges in order. |
| Extrude.ExtrudeRing | mcp_module.py:95-109 | One ring's loop appends, for point j, the quad of the edge from point j to point (j+1) mod n, and advances the offset by 4 per point. |
| Extrude.ExtrudePoint | mcp_module.py:96-109 | One iteration for point j extends the lists from the mesh of the edges before it to the mesh including its edge to point (j+1) mod n, and advances the offset by 4. |
| Extrude.AppendQuad | mcp_module.py:98-109 | One iteration appends the four quad vertices (bottom start, bottom end, top end, top start) and the two triangles at the current offset, with the first triangle reversed on hole rings; the offset grows by 4. |
| Mesh.MeshSizes | mcp_module.py:98-109 | A mesh has exactly four vertices and two faces per edge. |
| Mesh.WallSizes | mcp_module.py:93-127 | A polygon's mesh has 4·(exterior points + hole points) vertices and 2·(exterior points + hole points) faces. |
| Mesh.MeshFacesValid | mcp_module.py:105-108 | Every face index is below the number of vertices of the same mesh. |
| Mesh.WallFacesValid | mcp_module.py:93-127 | Every face of a polygon's mesh refers to a vertex of that mesh. |
| Mesh.MeshVertsAt | mcp_module.py:99-104 | Vertices 4i .. 4i+3 are exactly the quad of edge i. |
| Mesh.MeshFacesAt | mcp_module.py:105-108 | Faces 2i and 2i+1 are exactly edge i's two triangles, offset by 4i. |
| Mesh.MeshSnoc | mcp_module.py:99-109 | Appending one edge appends its quad's vertices and its two faces at offset 4·(edges so far). |
| Mesh.EdgesUpToAt | mcp_module.py:95-98 | Edge j of a ring runs from point j to point Succ(j), which is j+1 or 0 for the last point. |
| Mesh.RingEdgesAt | mcp_module.py:95-98 | Edge j of a whole ring runs from point j to its successor, wrapping round at the end. |
| Mesh.SuccIsMod | mcp_module.py:98 | The successor index equals (j + 1) mod n. |
| Mesh.HoleEdgesSize | mcp_module.py:112-114 | The hole edges number exactly the points of all interior rings. |
| Mesh.HoleEdgesAt | mcp_module.py:112-116 | Edge k of hole i comes after the edges of holes 0 .. i-1 and runs from its point k to its successor. |
| Mesh.RingStep | mcp_module.py:96-109 | Extruding one more ring point appends exactly that point's quad vertices and its two faces at offset 4·(edges so far). |
| Mesh.EdgesUpToSnoc | mcp_module.py:95-109 | Taking one more ring point appends exactly that point's edge. |
| Mesh.PolygonEdgesPrefix | mcp_module.py:112-127 | Processing one more interior ring appends exactly that ring's edges. |
| Mesh.QuadNormals | mcp_module.py:99-108 | Within a quad, triangle (o, o+1, o+2) and triangle (o+2, o+3, o) face the right-hand side of the edge, and the reversed (o, o+2, o+1) faces the left-hand side. |
| Mesh.QuadWinding | mcp_module.py:105-108 | A quad laid out at vertex 4i and face 2i has its first triangle facing right on an exterior edge and left on a hole edge; its second triangle faces right either way. |
| Mesh.MeshWinding | mcp_module.py:105-108 | For every edge of a mesh: exterior quads face right with both triangles; hole quads face left with the first triangle and right with the second. |
| Mesh.QuadAt | mcp_module.py:99-108 | Edge n's quad spelled out: the bottom and top corners of its two end points, and its two faces at offset 4n. |
| Mesh.ExteriorQuadAt | mcp_module.py:94-109 | Exterior point j yields vertices 4j .. 4j+3 (bottom start, bottom end, top end, top start) and faces [4j, 4j+1, 4j+2] and [4j+2, 4j+3, 4j]. |
| Mesh.PolygonHoleEdge | mcp_module.py:111-116 | In the polygon's edge list, edge k of hole i sits at index exterior size + points of earlier holes + k. |
| Mesh.HoleQuadAt | mcp_module.py:111-127 | Hole i's point k yields, at edge index n after the exterior and earlier holes, the four quad vertices and faces [4n, 4n+2, 4n+1] and [4n+2, 4n+3, 4n]. |
| Mesh.ClosedRingWrapEdge | mcp_module.py:94-98 | On a closed ring the last (wrap-around) edge has equal end points, so its quad is degenerate with a zero normal. |
| Mesh.QuadVerts | mcp_module.py:99-104 | The quad of an edge (bottom start, bottom end, top end, top start) has exactly four vertices; where they stand is proved by `Mesh.QuadShape`. |
| Mesh.QuadFaces | mcp_module.py:105-108 | The quad at vertex offset o has exactly two triangles, (o, o+1, o+2) and (o+2, o+3, o) on an exterior ring and (o, o+2, o+1) and (o+2, o+3, o) on a hole; their corners and winding are proved by `Mesh.QuadShape` and `Mesh.QuadWinding`. |
| Mesh.QuadShape | mcp_module.py:99-108 | A quad stands upright: two corners at height 0 and two at the wall height, the start point's column at corners 0 and 3 and the end point's at 1 and 2; each triangle uses three distinct corners of its own quad. |
| Mesh.RectangleWall | mcp_module.py:93-109 | A filled rectangle given as five closed coordinates extrudes to 20 vertices and 10 faces. |
| Hierarchy.Chain | mcp_module.py:81-85 | The walk from a contour along next links until -1, given a step bound: when it ends, it takes at most that many steps and starts at the contour it was started from. |
| Hierarchy.ChainLinks | mcp_module.py:81-85 | The walked chain is empty exactly when it starts at -1; it starts at the start index, each next element is the previous one's next link, its last element's next is -1, and every element is a contour index. |
| Hierarchy.ChainInRange | mcp_module.py:83-85 | Every contour the walk visits is a valid contour index. |
| Hierarchy.HoleIndices | mcp_module.py:81-85 | The holes of contour i are the contours visited from its first child along next links; every one is a contour index. |
| Hierarchy.HoleIndicesLinks | mcp_module.py:81-85 | Contour i's hole list is empty exactly when i has no first child; otherwise it starts at the first child, follows next links, and ends at a contour without a next sibling. |
| Hierarchy.CollectHoles | mcp_module.py:81-85 | The while loop over child links collects exactly the contours of contour i's hole chain, in chain order. |
| Hierarchy.BuildPolygons | mcp_module.py:79-86 | One polygon per contour, in contour order: contour i as the outer ring with its hole chain's contours as holes. |
| Components.PartOf | mcp_module.py:67-130 | The part one label contributes: none below 20 pixels or without a hierarchy, otherwise the extruded mesh of the merged polygon when it has vertices. A part implies at least 20 pixels, a trace and a non-empty vertex list. |
| Components.PartOfShape | mcp_module.py:67-130 | A label yields a part exactly when it has at least 20 pixels, a hierarchy, and a merged polygon with at least one ring point. The part then has four vertices and two faces per ring point, all faces referring to its own vertices. |
| Components.SurvivorsSnoc | mcp_module.py:67-130 | Label n-1 adds its part, if it yields one, after the parts of the labels before it, and itself after their survivors. |
| Components.SurvivorsInRange | mcp_module.py:67 | Every surviving label is a component label from 1 up, never the background label 0. |
| Components.SurvivorsIncreasing | mcp_module.py:67 | Surviving labels appear in strictly increasing order. |
| Components.SurvivorsComplete | mcp_module.py:67-130 | Every label that yields a part is among the survivors. |
| Components.PartsAreSurvivors | mcp_module.py:67-130 | There are as many parts as surviving labels, and the k-th part is the part of the k-th surviving label. |
| Components.ComponentPart | mcp_module.py:67-130 | One label's iteration: filter, polygons, union, extrusion, and keep-if-non-empty give exactly the label's part. |
| Components.VisitLabel | mcp_module.py:67-130 | One pass of the label loop extends the parts of the labels before lid by label lid's part, if it yields one. |
| Components.CollectParts | mcp_module.py:67-130 | The label loop from 1 to n-1 yields exactly the parts of the surviving labels, in label order. |
| Obj.ScaledAllAt | mcp_module.py:136 | Vertex k handed to the mesh library is vertex k with all three coordinates multiplied by the scale. |
| Obj.ScaledAllUnit | mcp_module.py:50 | At the converter's scale of 1.0 the scaled vertex list is the vertex list itself. |
| Obj.VertexLinesAt | mcp_module.py:142 | `v` line k carries exactly the coordinates of vertex k. |
| Obj.FaceLinesAt | mcp_module.py:143 | `f` line k is face k with each index increased by one. |
| Obj.ObjLines | mcp_module.py:142-143 | The OBJ text of a part: the scaled `v` lines, then the 1-based `f` lines; one line per vertex and per face. |
| Obj.ObjLinesAt | mcp_module.py:136-143 | An OBJ text has one line per vertex and then one per face: line k < |verts| is vertex k with every coordinate scaled, and the later lines are the faces with each index increased by one. |
| Obj.ObjIndicesValid | mcp_module.py:137-143 | When the part's faces refer to its own vertices, every `f` line index lies between 1 and the number of `v` lines. |
| Obj.ReadVerticesCons | mcp_module.py:142 | The reader turns a leading `v` line into a leading vertex. |
| Obj.ReadVerticesRoundTrip | mcp_module.py:142 | Reading back written vertex lines gives the original vertices and leaves the face lines that follow. |
| Obj.ReadFacesRoundTrip | mcp_module.py:143 | Reading back written face lines gives the original 0-based faces. |
| Obj.ObjRoundTrip | mcp_module.py:134-144 | Reading a part's written OBJ text gives the part back with its vertices scaled, for any scale. |
| Obj.ObjRoundTripUnitScale | mcp_module.py:134-144 | At the converter's scale of 1.0, reading a part's written OBJ text gives exactly the part back. |
| Obj.NatToStringRoundTrip | mcp_module.py:144 | Parsing the decimal text of n gives n. |
| Obj.EntryName | mcp_module.py:144 | An entry name starts with `wall_` and ends with `.obj`. |
| Obj.EntryNameInjective | mcp_module.py:144 | Two entry names are equal exactly when their part indices are. |
| Obj.EntryNamesDistinct | mcp_module.py:134-144 | No two entries of an archive share a name. |
| Obj.WriteEntry | mcp_module.py:142-144 | One pass writes the part's `v` lines then its `f` lines under `wall_<idx>.obj`. |
| Obj.EntriesSnoc | mcp_module.py:134-144 | Writing one more part appends exactly its entry. |
| Obj.WriteEntries | mcp_module.py:134-144 | The writing loop produces, for each part idx in order, the entry `wall_<idx>.obj` holding that part's OBJ lines. |
| Cache.ArchivePath | mcp_module.py:32-34 | The archive path is `static/map_walls_` + key + `.zip`. |
| Cache.ArchivePathInjective | mcp_module.py:32-34 | Two archive paths are equal exactly when their keys are. |
| Cache.Convert | mcp_module.py:30-150 | One call on a store of archives: a cached path is returned as is, an undecodable image fails, otherwise the new archive is stored under the key's path. The store keeps every archive key and gains at most the key's path; a success returns that path, which is then stored. |
| Cache.ConvertOutcome | mcp_module.py:30-150 | On success the returned path is the key's archive path and is stored. Failure happens exactly when no archive is cached and the image does not decode, and then nothing changes. No other archive is added, removed or altered. |
| Cache.CacheHitIgnoresImage | mcp_module.py:31-47 | When the archive is cached, its path is returned and nothing changes, whatever the image decodes to, even when it does not decode. |
| Cache.ConvertIdempotent | mcp_module.py:30-36 | After a successful call, the same call again returns the same path and changes nothing. |
| Cache.FreshArchiveShape | mcp_module.py:67-144 | A fresh archive has one entry per surviving label. Entry k is named `wall_<k>.obj` and holds part k's OBJ lines, and every face of part k refers to its own vertices. |
| Cache.ConvertMap | mcp_module.py:23-150 | The call's result and the store afterwards are those of `Convert`: cached path, decode failure, or a new archive of the parts' OBJ entries under the key's path. |
| Cache.StaticStore.constructor | mcp_module.py:16 | A store holds the given archives. |

## Left out

- Base64 decoding, MD5 hashing and the image decoder are not modelled. The hash key is a parameter. The decoder's outcome is a parameter too: the labelled components, or None when decoding fails. A malformed base64 string, which raises before the cache check, is not modelled.
- The image processing is not modelled: grey-scale conversion, Canny edges, dilation, closing and connected-component labelling (mcp_module.py:54-63). A label's pixel count and traced contours are inputs.
- The contour tracer is an input. Its result is assumed well formed: links in range, and every sibling chain ending in -1. A cyclic hierarchy would make the source loop forever and is excluded by requirement.
- Hierarchy.Link: only the next and first-child entries are read; previous and parent are carried but unused, as in the source.
- The polygon union (Shapely `unary_union`) is a function parameter that returns a single polygon. The model does not cover a union that yields a multipolygon or an empty geometry; the source would fail on `.exterior` there. Shapely's own validation, which rejects rings with fewer than three points, is not modelled either.
- Coordinates are exact reals, not floating point. Face indices are unbounded naturals, not the 32-bit integers of the mesh library.
- The mesh library's vertex normals are computed but never written, so they are not modelled. Float-to-text formatting of `v` lines, the newline join and the ZIP compression are not modelled either: an entry is a name and a list of lines.
- The file system is a map from archive path to entries. Directory creation, the temporary archive and the final move are folded into one store update. Concurrent calls are not modelled.
- The web front end and its caching layer (app.py) are not part of this model.
