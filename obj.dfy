/**
 * Wavefront OBJ text of one wall part and the archive entries: every
 * vertex, scaled by the centimetre-per-pixel factor in all three
 * coordinates, becomes a `v` line, then every face becomes an `f` line
 * whose indices are shifted to OBJ's 1-based numbering; part idx is stored
 * under the entry name wall_<idx>.obj.
 */
module Obj {
  import opened Wrappers
  import opened Mesh
  import opened Components

  /** One OBJ line: `v x y z` or `f a b c`. */
  datatype ObjLine = V(x: real, y: real, z: real) | F(a: nat, b: nat, c: nat)

  /** An archive member: its name and its lines. */
  datatype Entry = Entry(name: string, lines: seq<ObjLine>)

  /** A vertex with all three coordinates multiplied by the scale. */
  function Scaled(v: Vertex, scale: real): Vertex
  {
    Vertex(v.x * scale, v.y * scale, v.z * scale)
  }

  /** The vertex list handed to the mesh library: every vertex scaled. */
  function ScaledAll(verts: seq<Vertex>, scale: real): (ws: seq<Vertex>)
    ensures |ws| == |verts|
  {
    if verts == [] then [] else [Scaled(verts[0], scale)] + ScaledAll(verts[1..], scale)
  }

  /** Vertex k of the scaled list is vertex k scaled. */
  lemma {:induction false} ScaledAllAt(verts: seq<Vertex>, scale: real, k: nat)
    requires k < |verts|
    ensures ScaledAll(verts, scale)[k] == Scaled(verts[k], scale)
  {
    if k > 0 {
      ScaledAllAt(verts[1..], scale, k - 1);
    }
  }

  /** A scale of 1.0, the converter's centimetres per pixel, leaves every vertex as it is. */
  lemma {:induction false} ScaledAllUnit(verts: seq<Vertex>)
    ensures ScaledAll(verts, 1.0) == verts
  {
    if verts != [] {
      ScaledAllUnit(verts[1..]);
      assert [verts[0]] + verts[1..] == verts;
    }
  }

  /** The `v` lines of a vertex list. */
  function VertexLines(verts: seq<Vertex>): (ls: seq<ObjLine>)
    ensures |ls| == |verts|
  {
    if verts == [] then [] else [V(verts[0].x, verts[0].y, verts[0].z)] + VertexLines(verts[1..])
  }

  /** The `f` lines of a face list, 1-based. */
  function FaceLines(faces: seq<Face>): (ls: seq<ObjLine>)
    ensures |ls| == |faces|
  {
    if faces == [] then []
    else [F(faces[0].a + 1, faces[0].b + 1, faces[0].c + 1)] + FaceLines(faces[1..])
  }

  /** The whole OBJ text of a part, line by line: the scaled vertices, then the faces. */
  function ObjLines(p: Part, scale: real): (ls: seq<ObjLine>)
    ensures |ls| == |p.verts| + |p.faces|
  {
    VertexLines(ScaledAll(p.verts, scale)) + FaceLines(p.faces)
  }

  /** Line k of the text: vertex k scaled, or face k - |verts| shifted by one. */
  lemma {:induction false} ObjLinesAt(p: Part, scale: real, k: nat)
    requires k < |p.verts| + |p.faces|
    ensures |ObjLines(p, scale)| == |p.verts| + |p.faces|
    ensures k < |p.verts| ==>
      var v := p.verts[k]; ObjLines(p, scale)[k] == V(v.x * scale, v.y * scale, v.z * scale)
    ensures |p.verts| <= k ==>
      var f := p.faces[k - |p.verts|]; ObjLines(p, scale)[k] == F(f.a + 1, f.b + 1, f.c + 1)
  {
    if k < |p.verts| {
      VertexLinesAt(ScaledAll(p.verts, scale), k);
      ScaledAllAt(p.verts, scale, k);
    } else {
      FaceLinesAt(p.faces, k - |p.verts|);
    }
  }

  lemma {:induction false} VertexLinesAt(verts: seq<Vertex>, k: nat)
    requires k < |verts|
    ensures VertexLines(verts)[k] == V(verts[k].x, verts[k].y, verts[k].z)
  {
    if k > 0 {
      VertexLinesAt(verts[1..], k - 1);
    }
  }

  lemma {:induction false} FaceLinesAt(faces: seq<Face>, k: nat)
    requires k < |faces|
    ensures FaceLines(faces)[k] == F(faces[k].a + 1, faces[k].b + 1, faces[k].c + 1)
  {
    if k > 0 {
      FaceLinesAt(faces[1..], k - 1);
    }
  }

  /**
   * When every face refers to one of the part's vertices, every `f` line
   * refers to an existing `v` line in OBJ's 1-based numbering.
   */
  lemma ObjIndicesValid(p: Part, scale: real)
    requires FacesBelow(p.faces, |p.verts|)
    ensures forall k :: |p.verts| <= k < |ObjLines(p, scale)| ==>
      var l := ObjLines(p, scale)[k];
      l.F? && 1 <= l.a <= |p.verts| && 1 <= l.b <= |p.verts| && 1 <= l.c <= |p.verts|
  {
    forall k | |p.verts| <= k < |ObjLines(p, scale)|
      ensures var l := ObjLines(p, scale)[k];
        l.F? && 1 <= l.a <= |p.verts| && 1 <= l.b <= |p.verts| && 1 <= l.c <= |p.verts|
    {
      ObjLinesAt(p, scale, k);
    }
  }

  /** Reads the leading `v` lines back; returns their vertices and the remaining lines. */
  function ReadVertices(lines: seq<ObjLine>): (seq<Vertex>, seq<ObjLine>)
  {
    if lines == [] || lines[0].F? then ([], lines)
    else
      var rest := ReadVertices(lines[1..]);
      ([Vertex(lines[0].x, lines[0].y, lines[0].z)] + rest.0, rest.1)
  }

  /** Reads `f` lines back to 0-based faces; fails on a `v` line or an index 0. */
  function ReadFaces(lines: seq<ObjLine>): (r: Option<seq<Face>>)
    ensures r.Some? ==> |r.value| == |lines|
  {
    if lines == [] then Some([])
    else if lines[0].V? || lines[0].a == 0 || lines[0].b == 0 || lines[0].c == 0 then None
    else
      match ReadFaces(lines[1..])
      case None => None
      case Some(fs) => Some([Face(lines[0].a - 1, lines[0].b - 1, lines[0].c - 1)] + fs)
  }

  /** An OBJ reader for the subset written here: vertices first, then faces. */
  function ReadObj(lines: seq<ObjLine>): Option<Part>
  {
    var (verts, rest) := ReadVertices(lines);
    match ReadFaces(rest)
    case None => None
    case Some(faces) => Some(Part(verts, faces))
  }

  /** A `v` line in front adds its vertex in front. */
  lemma ReadVerticesCons(v: Vertex, more: seq<ObjLine>)
    ensures ReadVertices([V(v.x, v.y, v.z)] + more) == ([v] + ReadVertices(more).0, ReadVertices(more).1)
  {
    assert ([V(v.x, v.y, v.z)] + more)[1..] == more;
  }

  lemma {:induction false} ReadVerticesRoundTrip(verts: seq<Vertex>, tail: seq<ObjLine>)
    requires tail == [] || tail[0].F?
    ensures ReadVertices(VertexLines(verts) + tail) == (verts, tail)
  {
    if verts == [] {
      assert VertexLines(verts) + tail == tail;
    } else {
      var v, more := verts[0], VertexLines(verts[1..]) + tail;
      assert VertexLines(verts) + tail == [V(v.x, v.y, v.z)] + more;
      ReadVerticesCons(v, more);
      ReadVerticesRoundTrip(verts[1..], tail);
      assert [v] + verts[1..] == verts;
    }
  }

  lemma {:induction false} ReadFacesRoundTrip(faces: seq<Face>)
    ensures ReadFaces(FaceLines(faces)) == Some(faces)
  {
    if faces != [] {
      ReadFacesRoundTrip(faces[1..]);
      assert [faces[0]] + faces[1..] == faces;
    }
  }

  /** Reading the written text gives back the part with its vertices scaled. */
  lemma ObjRoundTrip(p: Part, scale: real)
    ensures ReadObj(ObjLines(p, scale)) == Some(Part(ScaledAll(p.verts, scale), p.faces))
  {
    ReadVerticesRoundTrip(ScaledAll(p.verts, scale), FaceLines(p.faces));
    ReadFacesRoundTrip(p.faces);
  }

  /** At the converter's scale of 1.0, reading the written text gives the part itself back. */
  lemma ObjRoundTripUnitScale(p: Part)
    ensures ReadObj(ObjLines(p, 1.0)) == Some(p)
  {
    ObjRoundTrip(p, 1.0);
    ScaledAllUnit(p.verts);
  }

  /** The decimal digits of n, most significant first, as Python's str() gives them. */
  function NatToString(n: nat): (s: string)
    ensures |s| >= 1
    ensures forall i :: 0 <= i < |s| ==> '0' <= s[i] <= '9'
    decreases n
  {
    if n < 10 then [DigitChar(n)] else NatToString(n / 10) + [DigitChar(n % 10)]
  }

  function DigitChar(d: nat): (c: char)
    requires d < 10
    ensures '0' <= c <= '9'
  {
    "0123456789"[d]
  }

  /** The value of a string of decimal digits. */
  function ParseNat(s: string): nat
    requires forall i :: 0 <= i < |s| ==> '0' <= s[i] <= '9'
  {
    if s == [] then 0 else 10 * ParseNat(s[..|s| - 1]) + ((s[|s| - 1] as int) - ('0' as int))
  }

  lemma {:induction false} NatToStringRoundTrip(n: nat)
    ensures ParseNat(NatToString(n)) == n
    decreases n
  {
    if n >= 10 {
      NatToStringRoundTrip(n / 10);
      var s := NatToString(n);
      assert s[..|s| - 1] == NatToString(n / 10);
    }
  }

  /** The archive name of part idx. */
  function EntryName(idx: nat): (name: string)
    ensures |name| > 9 && name[..5] == "wall_" && name[|name| - 4..] == ".obj"
  {
    "wall_" + NatToString(idx) + ".obj"
  }

  /** Distinct parts are stored under distinct names. */
  lemma EntryNameInjective(i: nat, j: nat)
    ensures EntryName(i) == EntryName(j) <==> i == j
  {
    if EntryName(i) == EntryName(j) {
      var s, t := EntryName(i), EntryName(j);
      assert s[5..|s| - 4] == NatToString(i);
      assert t[5..|t| - 4] == NatToString(j);
      NatToStringRoundTrip(i);
      NatToStringRoundTrip(j);
    }
  }

  /** Part idx as an archive entry: named wall_<idx>.obj, holding the part's OBJ lines. */
  function PartEntry(idx: nat, p: Part, scale: real): Entry
  {
    Entry(EntryName(idx), ObjLines(p, scale))
  }

  /** The archive entries of the parts, in part order. */
  function Entries(parts: seq<Part>, scale: real): (es: seq<Entry>)
  {
    seq(|parts|, k requires 0 <= k < |parts| => PartEntry(k, parts[k], scale))
  }

  /** No two entries of the archive share a name. */
  lemma EntryNamesDistinct(parts: seq<Part>, scale: real)
    ensures forall j, k :: 0 <= j < k < |parts| ==> Entries(parts, scale)[j].name != Entries(parts, scale)[k].name
  {
    forall j, k | 0 <= j < k < |parts|
      ensures Entries(parts, scale)[j].name != Entries(parts, scale)[k].name
    {
      EntryNameInjective(j, k);
    }
  }

  /**
   * One pass of the archive-writing loop: part idx's `v` lines, then its
   * `f` lines, under wall_<idx>.obj.
   * It is a method of its own so that each proof obligation stays small.
   */
  method WriteEntry(idx: nat, p: Part, scale: real) returns (e: Entry)
    ensures e == PartEntry(idx, p, scale)
  {
    var lines := VertexLines(ScaledAll(p.verts, scale));
    lines := lines + FaceLines(p.faces);
    e := Entry(EntryName(idx), lines);
  }

  /** Writing one more part appends its entry. */
  lemma EntriesSnoc(parts: seq<Part>, scale: real, n: nat)
    requires n < |parts|
    ensures Entries(parts[..n + 1], scale) == Entries(parts[..n], scale) + [PartEntry(n, parts[n], scale)]
  {
    var lhs, rhs := Entries(parts[..n + 1], scale), Entries(parts[..n], scale) + [PartEntry(n, parts[n], scale)];
    forall k | 0 <= k < n + 1
      ensures lhs[k] == rhs[k]
    {
      assert parts[..n + 1][k] == parts[k];
      if k < n {
        assert parts[..n][k] == parts[k];
      }
    }
  }

  /** The archive-writing loop: part idx is written as wall_<idx>.obj. */
  method WriteEntries(parts: seq<Part>, scale: real) returns (entries: seq<Entry>)
    ensures entries == Entries(parts, scale)
  {
    entries := [];
    var idx := 0;
    while idx < |parts|
      invariant idx <= |parts|
      invariant entries == Entries(parts[..idx], scale)
    {
      var e := WriteEntry(idx, parts[idx], scale);
      EntriesSnoc(parts, scale, idx);
      entries := entries + [e];
      idx := idx + 1;
    }
    assert parts[..|parts|] == parts;
  }
}
