/**
 * The contour hierarchy walk of convert_map.
 *
 * The contour tracer (two-level retrieval) hands over the contours and a
 * flat hierarchy array holding, per contour, the indices of its next and
 * previous sibling, its first child and its parent, -1 meaning none.  For
 * every contour i the converter collects the hole rings by following the
 * first-child link of i and then the next-sibling links until -1, and
 * builds one polygon from contour i and those holes.
 */
module Hierarchy {
  import opened Wrappers
  import opened Mesh

  /** One hierarchy entry: [next, prev, firstChild, parent]. */
  datatype Link = Link(next: int, prev: int, firstChild: int, parent: int)

  /** A polygon handed to the union: an outer ring and its hole rings. */
  datatype Polygon = Polygon(outer: Ring, holes: seq<Ring>)

  /** Every next and firstChild link is -1 or a contour index. */
  predicate LinksInRange(h: seq<Link>)
  {
    forall i :: 0 <= i < |h| ==> -1 <= h[i].next < |h| && -1 <= h[i].firstChild < |h|
  }

  /**
   * The sibling chain that starts at c and follows next links until -1,
   * taking at most fuel steps; None when it has not ended by then.
   */
  function Chain(h: seq<Link>, c: int, fuel: nat): (r: Option<seq<nat>>)
    requires LinksInRange(h) && -1 <= c < |h|
    ensures r.Some? ==> |r.value| <= fuel
    ensures r.Some? && c != -1 ==> |r.value| > 0 && r.value[0] == c
    decreases fuel
  {
    if c == -1 then Some([])
    else if fuel == 0 then None
    else match Chain(h, h[c].next, fuel - 1)
      case None => None
      case Some(rest) => Some([c as nat] + rest)
  }

  /**
   * What the walk needs of the tracer's output: links in range, and from
   * every contour the child chain ends.  A chain that ends visits each
   * contour at most once, so |h| steps are enough: this is acyclicity.
   */
  predicate WellFormed(h: seq<Link>)
  {
    && LinksInRange(h)
    && forall i :: 0 <= i < |h| ==> ChildChainEnds(h, i)
  }

  /** The child chain of contour i ends within |h| steps. */
  predicate ChildChainEnds(h: seq<Link>, i: nat)
    requires LinksInRange(h) && i < |h|
  {
    Chain(h, h[i].firstChild, |h|).Some?
  }

  /** The hole indices of contour i, in the order the walk visits them. */
  function HoleIndices(h: seq<Link>, i: nat): (r: seq<nat>)
    requires WellFormed(h) && i < |h|
    ensures forall k :: 0 <= k < |r| ==> r[k] < |h|
  {
    assert ChildChainEnds(h, i);
    ChainInRange(h, h[i].firstChild, |h|);
    Chain(h, h[i].firstChild, |h|).value
  }

  /** The contours at the given indices, in order. */
  function RingsAt(contours: seq<Ring>, idx: seq<nat>): (rs: seq<Ring>)
    requires forall k :: 0 <= k < |idx| ==> idx[k] < |contours|
    ensures |rs| == |idx|
    ensures forall k :: 0 <= k < |idx| ==> rs[k] == contours[idx[k]]
  {
    if idx == [] then [] else [contours[idx[0]]] + RingsAt(contours, idx[1..])
  }

  /**
   * The chain is the path of links: empty exactly when c is -1; otherwise it
   * starts at c, each element is followed by its next sibling, the last
   * one's next is -1, every element is a contour index, and it is no
   * longer than the fuel.
   */
  lemma {:induction false} ChainLinks(h: seq<Link>, c: int, fuel: nat)
    requires LinksInRange(h) && -1 <= c < |h|
    requires Chain(h, c, fuel).Some?
    ensures var r := Chain(h, c, fuel).value;
      && (r == [] <==> c == -1)
      && |r| <= fuel
      && (forall k :: 0 <= k < |r| ==> r[k] < |h|)
      && (r != [] ==> r[0] == c && h[r[|r| - 1]].next == -1)
      && (forall k :: 0 <= k < |r| - 1 ==> r[k + 1] == h[r[k]].next)
    decreases fuel
  {
    if c != -1 {
      ChainLinks(h, h[c].next, fuel - 1);
    }
  }

  /** Chain indices are contour indices. */
  lemma {:induction false} ChainInRange(h: seq<Link>, c: int, fuel: nat)
    requires LinksInRange(h) && -1 <= c < |h|
    requires Chain(h, c, fuel).Some?
    ensures forall k :: 0 <= k < |Chain(h, c, fuel).value| ==> Chain(h, c, fuel).value[k] < |h|
  {
    ChainLinks(h, c, fuel);
  }

  /**
   * The hole list of contour i follows the links: it is empty exactly when
   * i has no first child, starts at the first child, steps by next links
   * and ends at a contour whose next is -1.
   */
  lemma {:induction false} HoleIndicesLinks(h: seq<Link>, i: nat)
    requires WellFormed(h) && i < |h|
    ensures var r := HoleIndices(h, i);
      && (r == [] <==> h[i].firstChild == -1)
      && (forall k :: 0 <= k < |r| ==> r[k] < |h|)
      && (r != [] ==> r[0] == h[i].firstChild && h[r[|r| - 1]].next == -1)
      && (forall k :: 0 <= k < |r| - 1 ==> r[k + 1] == h[r[k]].next)
  {
    assert ChildChainEnds(h, i);
    ChainLinks(h, h[i].firstChild, |h|);
  }

  /**
   * Collects the hole rings of contour i: child := firstChild of i, then
   * while child != -1 append contours[child] and step to its next sibling.
   */
  method CollectHoles(contours: seq<Ring>, h: seq<Link>, i: nat) returns (holes: seq<Ring>)
    requires |h| == |contours| && WellFormed(h) && i < |h|
    ensures holes == RingsAt(contours, HoleIndices(h, i))
  {
    holes := [];
    var child := h[i].firstChild;
    assert ChildChainEnds(h, i);
    ghost var fuel: nat := |h|;
    ghost var visited: seq<nat> := [];
    while child != -1
      invariant -1 <= child < |h|
      invariant Chain(h, child, fuel).Some?
      invariant visited + Chain(h, child, fuel).value == HoleIndices(h, i)
      invariant forall k :: 0 <= k < |visited| ==> visited[k] < |h|
      invariant holes == RingsAt(contours, visited)
      decreases fuel
    {
      ghost var rest := Chain(h, h[child].next, fuel - 1).value;
      assert Chain(h, child, fuel).value == [child as nat] + rest;
      holes := holes + [contours[child]];
      assert RingsAt(contours, visited + [child as nat]) == RingsAt(contours, visited) + [contours[child]];
      visited := visited + [child as nat];
      child := h[child].next;
      fuel := fuel - 1;
    }
  }

  /** Builds one polygon per contour: contour i as the outer ring, its collected holes inside. */
  method BuildPolygons(contours: seq<Ring>, h: seq<Link>) returns (polys: seq<Polygon>)
    requires |h| == |contours| && WellFormed(h)
    ensures |polys| == |contours|
    ensures forall i :: 0 <= i < |polys| ==> polys[i] == Polygon(contours[i], RingsAt(contours, HoleIndices(h, i)))
  {
    polys := [];
    var i := 0;
    while i < |contours|
      invariant 0 <= i <= |contours| && |polys| == i
      invariant forall m :: 0 <= m < i ==> polys[m] == Polygon(contours[m], RingsAt(contours, HoleIndices(h, m)))
    {
      var holes := CollectHoles(contours, h, i);
      polys := polys + [Polygon(contours[i], holes)];
      i := i + 1;
    }
  }
}
