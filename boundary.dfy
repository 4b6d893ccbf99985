/**
 * boundary() without GEOS.  LineString and MultiLineString answer
 * themselves, Polygon its exterior ring, and MultiPoint and MultiPolygon use
 * HomogenousCollection's fallback: the components' boundaries, in order,
 * reduced by Factory::reduce.  Point has no boundary() method, and neither
 * has GeometryCollection (its __call rejects the name).
 */
module Boundary {
  import opened Wrappers
  import opened Types
  import opened Shapes
  import opened Reduction

  function Boundary(g: Geometry): Result<Option<Geometry>>
    decreases g, 1
  {
    match g
    case Point(_, _) => Err(UndefinedMethod)
    case LineString(_, _) => Ok(Some(g))
    case Polygon(_, _) =>
      (match ExteriorRing(g)
       case Err(e) => Err(e)
       case Ok(ring) => Ok(Some(ring)))
    case MultiLineString(_, _) => Ok(Some(g))
    case GeometryCollection(_, _) => Err(UndefinedMethod)
    case _ =>
      if IsEmpty(g) then
        match NewCollection(LineStringKind, [])
        case Err(e) => Err(e)
        case Ok(_) => Err(TypeError)
      else
        match BoundaryAll(g.components)
        case Err(e) => Err(e)
        case Ok(bs) => ReduceList(bs)
  }

  /** The fallback's loop: every component's boundary, stopping at the first error. */
  function BoundaryAll(gs: seq<Geometry>): (r: Result<seq<Option<Geometry>>>)
    ensures r.Ok? ==> |r.value| == |gs|
    decreases gs, 0
  {
    if gs == [] then Ok([])
    else
      match Boundary(gs[0])
      case Err(e) => Err(e)
      case Ok(b) =>
        match BoundaryAll(gs[1..])
        case Err(e) => Err(e)
        case Ok(bs) => Ok([b] + bs)
  }

  /** An empty homogeneous collection answers `new LineString`, which has too few points. */
  lemma BoundaryOfEmpty(g: Geometry)
    requires g.MultiPoint? || g.MultiPolygon?
    requires IsEmpty(g)
    ensures Boundary(g) == Err(TooFewComponents(LineStringKind))
  {
  }

  /**
   * A one-component homogeneous collection has the boundary of its
   * component, by the one-element rule of reduce(), whenever that boundary
   * is a single element.
   */
  lemma BoundaryOfOne(g: Geometry)
    requires g.MultiPoint? || g.MultiPolygon?
    requires |g.components| == 1 && !IsEmpty(g)
    ensures Boundary(g.components[0]).Err? ==> Boundary(g) == Boundary(g.components[0])
    ensures Boundary(g.components[0]).Ok? && Boundary(g.components[0]).value.Some?
            && IsSingle(Boundary(g.components[0]).value.value)
            ==> Boundary(g) == Boundary(g.components[0])
  {
    var c := g.components[0];
    assert g.components[1..] == [];
    if Boundary(c).Ok? {
      var b := Boundary(c).value;
      assert g.components == [c];
      assert BoundaryAll([c][1..]) == Ok([]);
      assert [b] + [] == [b];
      assert BoundaryAll([c]) == Ok([b]);
    }
  }

  /** A non-empty multi-point has no boundary: Point has no boundary() method. */
  lemma BoundaryOfMultiPoint(g: Geometry)
    requires g.MultiPoint? && Valid(g) && !IsEmpty(g)
    ensures Boundary(g) == Err(UndefinedMethod)
  {
    assert g.components[0].Point?;
    assert BoundaryAll(g.components) == Err(UndefinedMethod);
  }

  /** The first ring of every polygon. */
  function ExteriorRings(polys: seq<Geometry>): (r: seq<Geometry>)
    requires forall i :: 0 <= i < |polys| ==> !polys[i].Point? && polys[i].components != []
    ensures |r| == |polys| && forall i :: 0 <= i < |polys| ==> r[i] == polys[i].components[0]
  {
    seq(|polys|, i requires 0 <= i < |polys| => polys[i].components[0])
  }

  lemma NonEmptyHasComponents(g: Geometry)
    requires !g.Point? && !IsEmpty(g)
    ensures g.components != []
  {
  }

  lemma {:induction false} BoundaryAllPolygons(polys: seq<Geometry>)
    requires forall i :: 0 <= i < |polys| ==> polys[i].Polygon? && polys[i].components != [] && !IsEmpty(polys[i])
    ensures BoundaryAll(polys) == Ok(Somes(ExteriorRings(polys)))
  {
    if polys != [] {
      var p := polys[0];
      BoundaryAllPolygons(polys[1..]);
      assert Boundary(p) == Ok(Some(p.components[0]));
      var rest := Somes(ExteriorRings(polys[1..]));
      assert BoundaryAll(polys) == Ok([Some(p.components[0])] + rest);
      assert ExteriorRings(polys) == [p.components[0]] + ExteriorRings(polys[1..]);
      assert Somes(ExteriorRings(polys)) == [Some(p.components[0])] + rest;
    }
  }

  /** The components of a constructible multi-polygon are constructible polygons, and their first rings are lines. */
  lemma PolygonsOf(g: Geometry)
    requires g.MultiPolygon? && Valid(g)
    requires forall c :: c in g.components ==> !IsEmpty(c)
    ensures forall i :: 0 <= i < |g.components| ==>
      g.components[i].Polygon? && g.components[i].components != [] && !IsEmpty(g.components[i])
      && g.components[i].components[0].LineString?
  {
    var cs := g.components;
    forall i | 0 <= i < |cs|
      ensures cs[i].Polygon? && cs[i].components != [] && !IsEmpty(cs[i]) && cs[i].components[0].LineString?
    {
      assert cs[i] in cs;
      assert Accepts(MultiPolygonKind, Some(cs[i]));
      NonEmptyHasComponents(cs[i]);
      assert Accepts(PolygonKind, Some(cs[i].components[0]));
    }
  }

  /**
   * The boundary of a multi-polygon whose polygons are all non-empty is its
   * polygons' exterior rings: the ring itself for one polygon, otherwise a
   * multi-line string of the rings in order.
   */
  lemma BoundaryOfMultiPolygon(g: Geometry)
    requires g.MultiPolygon? && Valid(g)
    requires forall c :: c in g.components ==> !IsEmpty(c)
    ensures forall i :: 0 <= i < |g.components| ==> g.components[i].Polygon? && g.components[i].components != []
    ensures |g.components| == 1 ==> Boundary(g) == Ok(Some(g.components[0].components[0]))
    ensures |g.components| >= 2 ==> Boundary(g) == Ok(Some(MultiLineString(ExteriorRings(g.components), 0)))
  {
    var cs := g.components;
    PolygonsOf(g);
    assert !IsEmpty(g) by {
      assert cs[0] in cs;
    }
    BoundaryAllPolygons(cs);
    var rings := ExteriorRings(cs);
    var items := Somes(rings);
    assert Boundary(g) == ReduceList(items);
    if |cs| >= 2 {
      FlattenRings(items, rings);
      assert OneKind(rings);
      WrapShape(rings);
    }
  }

  lemma {:induction false} FlattenRings(items: seq<Option<Geometry>>, rings: seq<Geometry>)
    requires |items| == |rings| && forall i :: 0 <= i < |items| ==> items[i] == Some(rings[i]) && rings[i].LineString?
    ensures Flatten(items) == rings
  {
    if items != [] {
      FlattenRings(items[1..], rings[1..]);
    }
  }
}
