/**
 * The component loop of convert_map: labels 1 .. n-1 of the connected
 * components (0 is the background) are visited in order; a label with
 * fewer than 20 pixels, or for which the tracer gave no hierarchy, is
 * skipped; otherwise its contours become polygons, the polygons are
 * merged by the union, the merged polygon is extruded, and the result is
 * kept as a wall part when it has any vertices.
 */
module Components {
  import opened Wrappers
  import opened Mesh
  import opened Hierarchy
  import opened Extrude

  /** Components with fewer pixels than this are noise. */
  const MinPixels: nat := 20

  /** What the contour tracer returned for one component. */
  datatype Trace = Trace(contours: seq<Ring>, hierarchy: seq<Link>)

  /** One component label: its pixel count and the tracer's result, None when it gave no hierarchy. */
  datatype Label = Label(pixels: nat, trace: Option<Trace>)

  /** A wall part: one component's vertex and face lists. */
  datatype Part = Part(verts: seq<Vertex>, faces: seq<Face>)

  /** The polygon union, an external library operation, as a parameter. */
  type Merge = seq<Polygon> -> Polygon

  predicate TraceOk(t: Trace)
  {
    |t.hierarchy| == |t.contours| && WellFormed(t.hierarchy)
  }

  /** What the tracer guarantees for every label the loop traces. */
  predicate LabelsOk(labels: seq<Label>)
  {
    forall l :: 1 <= l < |labels| && labels[l].pixels >= MinPixels && labels[l].trace.Some? ==>
      TraceOk(labels[l].trace.value)
  }

  /** Contour i with its hole rings, for every contour of the trace. */
  function TracePolygons(t: Trace): (ps: seq<Polygon>)
    requires TraceOk(t)
    ensures |ps| == |t.contours|
  {
    seq(|t.contours|, i requires 0 <= i < |t.contours| =>
      Polygon(t.contours[i], RingsAt(t.contours, HoleIndices(t.hierarchy, i))))
  }

  /** The part one label contributes, if any. */
  function PartOf(l: Label, merge: Merge, height: real): (r: Option<Part>)
    requires l.pixels >= MinPixels && l.trace.Some? ==> TraceOk(l.trace.value)
    ensures r.Some? ==> MinPixels <= l.pixels && l.trace.Some? && r.value.verts != []
  {
    if l.pixels < MinPixels then None
    else if l.trace.None? then None
    else
      var m := merge(TracePolygons(l.trace.value));
      var verts := WallVerts(m.outer, m.holes, height);
      if verts == [] then None else Some(Part(verts, WallFaces(m.outer, m.holes)))
  }

  /** The parts contributed by labels 1 .. n-1, in label order; label 0 is the background. */
  function PartsUpTo(labels: seq<Label>, merge: Merge, height: real, n: nat): seq<Part>
    requires LabelsOk(labels) && n <= |labels|
  {
    if n <= 1 then []
    else
      PartsUpTo(labels, merge, height, n - 1)
      + (match PartOf(labels[n - 1], merge, height)
         case None => []
         case Some(p) => [p])
  }

  /** The parts of all labels. */
  function Parts(labels: seq<Label>, merge: Merge, height: real): seq<Part>
    requires LabelsOk(labels)
  {
    PartsUpTo(labels, merge, height, |labels|)
  }

  /** The labels among 1 .. n-1 that contribute a part, in increasing order. */
  function SurvivingLabels(labels: seq<Label>, merge: Merge, height: real, n: nat): seq<nat>
    requires LabelsOk(labels) && n <= |labels|
  {
    if n <= 1 then []
    else
      SurvivingLabels(labels, merge, height, n - 1)
      + (if PartOf(labels[n - 1], merge, height).Some? then [n - 1] else [])
  }

  /**
   * A label contributes a part exactly when it has at least 20 pixels, the
   * tracer gave a hierarchy, and the merged polygon has at least one ring
   * point; the part then has four vertices and two faces per ring point,
   * and every face index refers to one of the part's own vertices.
   */
  lemma PartOfShape(l: Label, merge: Merge, height: real)
    requires l.pixels >= MinPixels && l.trace.Some? ==> TraceOk(l.trace.value)
    ensures PartOf(l, merge, height).Some? <==>
      && l.pixels >= MinPixels
      && l.trace.Some?
      && var m := merge(TracePolygons(l.trace.value)); |m.outer| + PointCount(m.holes) > 0
    ensures PartOf(l, merge, height).Some? ==>
      var p, m := PartOf(l, merge, height).value, merge(TracePolygons(l.trace.value));
      && |p.verts| == 4 * (|m.outer| + PointCount(m.holes)) > 0
      && |p.faces| == 2 * (|m.outer| + PointCount(m.holes))
      && FacesBelow(p.faces, |p.verts|)
  {
    if l.pixels >= MinPixels && l.trace.Some? {
      var m := merge(TracePolygons(l.trace.value));
      WallSizes(m.outer, m.holes, height);
      WallFacesValid(m.outer, m.holes, height);
    }
  }

  /** Strictly increasing. */
  predicate Increasing(s: seq<nat>)
  {
    forall j, k :: 0 <= j < k < |s| ==> s[j] < s[k]
  }

  /** Label n-1 adds its part, if any, after the parts and survivors of the labels before it. */
  lemma SurvivorsSnoc(labels: seq<Label>, merge: Merge, height: real, n: nat)
    requires LabelsOk(labels) && 1 < n <= |labels|
    ensures var o := PartOf(labels[n - 1], merge, height);
      && PartsUpTo(labels, merge, height, n)
         == PartsUpTo(labels, merge, height, n - 1) + (if o.Some? then [o.value] else [])
      && SurvivingLabels(labels, merge, height, n)
         == SurvivingLabels(labels, merge, height, n - 1) + (if o.Some? then [n - 1] else [])
  {
  }

  /** Every surviving label below n is a component label: at least 1, so never the background. */
  lemma {:induction false} SurvivorsInRange(labels: seq<Label>, merge: Merge, height: real, n: nat)
    requires LabelsOk(labels) && n <= |labels|
    ensures forall k :: 0 <= k < |SurvivingLabels(labels, merge, height, n)| ==>
      1 <= SurvivingLabels(labels, merge, height, n)[k] < n
  {
    if n > 1 {
      SurvivorsInRange(labels, merge, height, n - 1);
      SurvivorsSnoc(labels, merge, height, n);
    }
  }

  /** The surviving labels are visited in strictly increasing order. */
  lemma {:induction false} SurvivorsIncreasing(labels: seq<Label>, merge: Merge, height: real, n: nat)
    requires LabelsOk(labels) && n <= |labels|
    ensures Increasing(SurvivingLabels(labels, merge, height, n))
  {
    if n > 1 {
      SurvivorsIncreasing(labels, merge, height, n - 1);
      SurvivorsInRange(labels, merge, height, n - 1);
      SurvivorsSnoc(labels, merge, height, n);
      var ls0 := SurvivingLabels(labels, merge, height, n - 1);
      var ls := SurvivingLabels(labels, merge, height, n);
      forall j, k | 0 <= j < k < |ls|
        ensures ls[j] < ls[k]
      {
        assert ls[j] == ls0[j];
        if k < |ls0| {
          assert ls[k] == ls0[k];
        }
      }
    }
  }

  /** Every label below n that yields a part is among the survivors. */
  lemma {:induction false} SurvivorsComplete(labels: seq<Label>, merge: Merge, height: real, n: nat)
    requires LabelsOk(labels) && n <= |labels|
    ensures forall l :: 1 <= l < n && PartOf(labels[l], merge, height).Some? ==>
      l in SurvivingLabels(labels, merge, height, n)
  {
    if n > 1 {
      SurvivorsComplete(labels, merge, height, n - 1);
      SurvivorsSnoc(labels, merge, height, n);
      var ls0 := SurvivingLabels(labels, merge, height, n - 1);
      var ls := SurvivingLabels(labels, merge, height, n);
      forall l | 1 <= l < n && PartOf(labels[l], merge, height).Some?
        ensures l in ls
      {
        if l < n - 1 {
          assert l in ls0;
        } else {
          assert ls[|ls| - 1] == l;
        }
      }
    }
  }

  /** The k-th part is the part of the k-th surviving label. */
  lemma {:induction false} PartsAreSurvivors(labels: seq<Label>, merge: Merge, height: real, n: nat)
    requires LabelsOk(labels) && n <= |labels|
    ensures |PartsUpTo(labels, merge, height, n)| == |SurvivingLabels(labels, merge, height, n)|
    ensures forall k :: 0 <= k < |SurvivingLabels(labels, merge, height, n)| ==>
      && 1 <= SurvivingLabels(labels, merge, height, n)[k] < |labels|
      && PartOf(labels[SurvivingLabels(labels, merge, height, n)[k]], merge, height)
         == Some(PartsUpTo(labels, merge, height, n)[k])
  {
    SurvivorsInRange(labels, merge, height, n);
    if n > 1 {
      PartsAreSurvivors(labels, merge, height, n - 1);
      SurvivorsSnoc(labels, merge, height, n);
      var ps0, ls0 := PartsUpTo(labels, merge, height, n - 1), SurvivingLabels(labels, merge, height, n - 1);
      var ps, ls := PartsUpTo(labels, merge, height, n), SurvivingLabels(labels, merge, height, n);
      forall k | 0 <= k < |ls|
        ensures PartOf(labels[ls[k]], merge, height) == Some(ps[k])
      {
        if k < |ls0| {
          assert ls[k] == ls0[k] && ps[k] == ps0[k];
        }
      }
    }
  }

  /**
   * One iteration of the label loop: skip a small component or one without
   * hierarchy, build its polygons, merge them, extrude, and keep the part
   * when it has vertices.
   */
  method ComponentPart(l: Label, merge: Merge, height: real) returns (p: Option<Part>)
    requires l.pixels >= MinPixels && l.trace.Some? ==> TraceOk(l.trace.value)
    ensures p == PartOf(l, merge, height)
  {
    if l.pixels < MinPixels || l.trace.None? {
      return None;
    }
    var t := l.trace.value;
    var polys := BuildPolygons(t.contours, t.hierarchy);
    assert polys == TracePolygons(t);
    var merged := merge(polys);
    var verts, faces := ExtrudePolygon(merged.outer, merged.holes, height);
    if verts == [] {
      return None;
    }
    return Some(Part(verts, faces));
  }

  /**
   * The loop over labels 1 .. n-1: skip small components and components
   * without hierarchy, build the polygons, merge them, extrude, and keep
   * the part when it has vertices.
   */
  method CollectParts(labels: seq<Label>, merge: Merge, height: real) returns (parts: seq<Part>)
    requires LabelsOk(labels)
    ensures parts == Parts(labels, merge, height)
  {
    parts := [];
    var lid := 1;
    while lid < |labels|
      invariant 1 <= lid
      invariant lid <= |labels| || |labels| == 0
      invariant parts == PartsUpTo(labels, merge, height, if lid <= |labels| then lid else 0)
      decreases |labels| - lid
    {
      parts := VisitLabel(labels, lid, merge, height, parts);
      lid := lid + 1;
    }
  }

  /**
   * One pass of the label loop: label lid's part, if any, is appended.
   * It is a method of its own so that each proof obligation stays small.
   */
  method VisitLabel(labels: seq<Label>, lid: nat, merge: Merge, height: real, parts0: seq<Part>)
    returns (parts: seq<Part>)
    requires LabelsOk(labels) && 1 <= lid < |labels|
    requires parts0 == PartsUpTo(labels, merge, height, lid)
    ensures parts == PartsUpTo(labels, merge, height, lid + 1)
  {
    var p := ComponentPart(labels[lid], merge, height);
    SurvivorsSnoc(labels, merge, height, lid + 1);
    parts := parts0;
    if p.Some? {
      parts := parts + [p.value];
    }
  }
}
