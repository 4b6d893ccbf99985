/**
 * The class-specific queries of LineString, Polygon, MultiPoint,
 * MultiLineString and GeometryCollection, explode(), the GeoJSON arrays
 * (toArray / toGeoJsonArray), and the measures whose non-GEOS value is a
 * constant.
 */
module Shapes {
  import opened Wrappers
  import opened Types

  // --------------------------------------------------------------- LineString

  /** pointN($n): geometryN, counting from 1. */
  function PointN(line: Geometry, n: int): (r: Option<Geometry>)
    requires line.LineString?
    ensures r.Some? <==> 1 <= n <= |line.components|
    ensures r.Some? ==> r.value == line.components[n - 1]
  {
    GeometryN(line, n)
  }

  /** startPoint(): pointN(1). */
  function StartPoint(line: Geometry): (r: Option<Geometry>)
    requires line.LineString?
    ensures r.Some? <==> line.components != []
    ensures r.Some? ==> r.value == line.components[0]
  {
    PointN(line, 1)
  }

  /** endPoint(): pointN(numPoints()), and numPoints() of a line is its component count. */
  function EndPoint(line: Geometry): (r: Option<Geometry>)
    requires line.LineString?
    ensures r.Some? <==> line.components != []
    ensures r.Some? ==> r.value == line.components[|line.components| - 1]
  {
    PointN(line, NumPoints(line))
  }

  /** isClosed(): the start point equals the end point. */
  predicate IsClosed(line: Geometry)
    requires line.LineString? && Valid(line)
  {
    PointEquals(StartPoint(line).value, EndPoint(line).value)
  }

  /** A line is closed exactly when its first and last points have the same x and y, or are both empty. */
  lemma IsClosedIff(line: Geometry)
    requires line.LineString? && Valid(line)
    ensures IsClosed(line) <==> PointKey(line.components[0]) == PointKey(line.components[|line.components| - 1])
  {
    PointEqualsByKey(line.components[0], line.components[|line.components| - 1]);
  }

  /** On a line, numPoints() is numGeometries(), and it counts the flattened points. */
  lemma LineNumPoints(line: Geometry)
    requires (line.LineString? || line.MultiPoint?) && Valid(line)
    ensures NumPoints(line) == NumGeometries(line) == |PointsFlatMap(line)|
    ensures PointsFlatMap(line) == line.components
  {
    PointsOfPoints(line.components);
  }

  /** The two-point segments between consecutive points, in order. */
  function Segments(ps: seq<Geometry>): (r: seq<Geometry>)
    ensures |r| == if ps == [] then 0 else |ps| - 1
    ensures forall i :: 0 <= i < |r| ==> r[i].LineString? && r[i].components == [ps[i], ps[i + 1]]
    ensures forall i :: 0 <= i < |r| ==> r[i].srid == 0
  {
    if |ps| < 2 then [] else [LineString([ps[0], ps[1]], 0)] + Segments(ps[1..])
  }

  /** Consecutive segments share a point: each segment ends where the next one starts. */
  lemma SegmentsChain(line: Geometry)
    requires line.LineString? && Valid(line)
    ensures PointsFlatMap(line) == line.components
    ensures var r := Segments(line.components);
      (forall i :: 0 <= i < |r| ==> Valid(r[i]))
      && (forall i :: 0 <= i < |r| - 1 ==> EndPoint(r[i]) == StartPoint(r[i + 1]))
      && StartPoint(r[0]) == StartPoint(line)
      && EndPoint(r[|r| - 1]) == EndPoint(line)
  {
    LineNumPoints(line);
    var ps := line.components;
    var r := Segments(ps);
    assert |r| == |ps| - 1 >= 1;
    forall i | 0 <= i < |r|
      ensures Valid(r[i]) && StartPoint(r[i]) == Some(ps[i]) && EndPoint(r[i]) == Some(ps[i + 1])
    {
      assert Accepts(LineStringKind, Some(ps[i])) && Accepts(LineStringKind, Some(ps[i + 1]));
      TwoPointLineValid(ps[i], ps[i + 1]);
    }
  }

  lemma TwoPointLineValid(p: Geometry, q: Geometry)
    requires p.Point? && q.Point?
    ensures Valid(LineString([p, q], 0))
  {
    var cs := [p, q];
    assert forall c :: c in cs ==> c == p || c == q;
  }

  // ------------------------------------------------------------------ explode

  /**
   * explode(): a point has none (null), a line string gives its segments,
   * any other collection merges its components' lists; merging a point's
   * null is a TypeError in array_merge.
   */
  function Explode(g: Geometry): Result<Option<seq<Geometry>>>
    decreases g, 1
  {
    match g
    case Point(_, _) => Ok(None)
    case LineString(_, _) => Ok(Some(Segments(PointsFlatMap(g))))
    case _ =>
      match ExplodeAll(g.components)
      case Err(e) => Err(e)
      case Ok(parts) => Ok(Some(parts))
  }

  function ExplodeAll(gs: seq<Geometry>): Result<seq<Geometry>>
    decreases gs, 0
  {
    if gs == [] then Ok([])
    else
      match Explode(gs[0])
      case Err(e) => Err(e)
      case Ok(None) => Err(TypeError)
      case Ok(Some(first)) =>
        match ExplodeAll(gs[1..])
        case Err(e) => Err(e)
        case Ok(rest) => Ok(first + rest)
  }

  /**
   * A list of line strings explodes into segments: one fewer per line than
   * the line has points, and every piece is a two-point line.
   */
  lemma {:induction false} ExplodeLines(lines: seq<Geometry>)
    requires forall c :: c in lines ==> c.LineString? && Valid(c)
    ensures ExplodeAll(lines).Ok?
    ensures |ExplodeAll(lines).value| + |lines| == NumPointsOf(lines)
    ensures forall i :: 0 <= i < |ExplodeAll(lines).value| ==>
      ExplodeAll(lines).value[i].LineString? && |ExplodeAll(lines).value[i].components| == 2
  {
    if lines != [] {
      var line := lines[0];
      assert line in lines;
      LineNumPoints(line);
      ExplodeLines(lines[1..]);
      var first := Segments(line.components);
      assert Explode(line) == Ok(Some(first));
      var rest := ExplodeAll(lines[1..]).value;
      var all: seq<Geometry> := first + rest;
      assert ExplodeAll(lines) == Ok(all);
      forall i | 0 <= i < |all| ensures all[i].LineString? && |all[i].components| == 2 {
        if i < |first| {
          assert all[i] == first[i];
          assert first[i].components == [line.components[i], line.components[i + 1]];
        } else {
          assert all[i] == rest[i - |first|];
          assert rest[i - |first|].LineString?;
          assert |rest[i - |first|].components| == 2;
        }
      }
    }
  }

  /** A polygon explodes into its rings' edges, a multi-line string into its lines' segments. */
  lemma ExplodeCountsEdges(g: Geometry)
    requires (g.Polygon? || g.MultiLineString?) && Valid(g)
    ensures Explode(g).Ok? && Explode(g).value.Some?
    ensures |Explode(g).value.value| == NumPoints(g) - NumGeometries(g)
  {
    ExplodeLines(g.components);
  }

  /** A multi-point with any point fails to explode: a point's explode() is null. */
  lemma ExplodeMultiPointFails(g: Geometry)
    requires g.MultiPoint? && Valid(g)
    ensures Explode(g) == Err(TypeError)
  {
    assert g.components[0].Point?;
    assert ExplodeAll(g.components) == Err(TypeError);
  }

  // ------------------------------------------------------------------ Polygon

  /** exteriorRing(): an empty polygon answers `new LineString`, which throws; otherwise the first ring. */
  function ExteriorRing(poly: Geometry): (r: Result<Geometry>)
    requires poly.Polygon?
    ensures r.Err? <==> IsEmpty(poly)
    ensures r.Err? ==> r.error == TooFewComponents(LineStringKind)
    ensures r.Ok? ==> poly.components != [] && r.value == poly.components[0]
  {
    if IsEmpty(poly) then
      match NewCollection(LineStringKind, [])
      case Err(e) => Err(e)
      case Ok(_) => Err(TypeError)
    else Ok(poly.components[0])
  }

  /** numInteriorRings(): 0 for an empty polygon, otherwise every ring but the first. */
  function NumInteriorRings(poly: Geometry): (r: int)
    requires poly.Polygon?
    ensures r >= 0
  {
    if IsEmpty(poly) then 0 else NumGeometries(poly) - 1
  }

  /** interiorRingN($n): geometryN($n + 1), so the count starts at 0 with the exterior ring. */
  function InteriorRingN(poly: Geometry, n: int): (r: Option<Geometry>)
    requires poly.Polygon?
    ensures r.Some? <==> 0 <= n < |poly.components|
    ensures r.Some? ==> r.value == poly.components[n]
  {
    GeometryN(poly, n + 1)
  }

  /**
   * On a non-empty polygon interiorRingN answers for 0 up to
   * numInteriorRings() inclusive, and interiorRingN(0) is the exterior ring.
   */
  lemma InteriorRingsOffByOne(poly: Geometry, n: int)
    requires poly.Polygon? && !IsEmpty(poly)
    ensures InteriorRingN(poly, n).Some? <==> 0 <= n <= NumInteriorRings(poly)
    ensures InteriorRingN(poly, 0) == Some(ExteriorRing(poly).value)
  {
  }

  /** pointOnVertex($point): whether some flattened vertex equals the point. */
  predicate PointOnVertex(poly: Geometry, point: Geometry)
    requires poly.Polygon?
  {
    AnyEqual(point, PointsFlatMap(poly))
  }

  /** The search loop: true at the first vertex that equals the point. */
  predicate AnyEqual(point: Geometry, vertices: seq<Geometry>)
  {
    vertices != [] && (Equals(point, vertices[0]) || AnyEqual(point, vertices[1..]))
  }

  lemma {:induction false} AnyEqualIff(point: Geometry, vertices: seq<Geometry>)
    ensures AnyEqual(point, vertices) <==> exists i :: 0 <= i < |vertices| && Equals(point, vertices[i])
  {
    if vertices != [] {
      AnyEqualIff(point, vertices[1..]);
      if AnyEqual(point, vertices[1..]) {
        var i :| 0 <= i < |vertices[1..]| && Equals(point, vertices[1..][i]);
        assert Equals(point, vertices[i + 1]);
      }
      if exists i :: 0 <= i < |vertices| && Equals(point, vertices[i]) {
        var i :| 0 <= i < |vertices| && Equals(point, vertices[i]);
        if i > 0 {
          assert vertices[1..][i - 1] == vertices[i];
        }
      }
    }
  }

  /** A point lies on a vertex exactly when some vertex has its x and y (or both are empty). */
  lemma PointOnVertexIff(poly: Geometry, point: Geometry)
    requires poly.Polygon? && point.Point?
    ensures PointOnVertex(poly, point) <==> PointKey(point) in Keys(PointsFlatMap(poly))
  {
    var vs := PointsFlatMap(poly);
    AnyEqualIff(point, vs);
    forall i | 0 <= i < |vs| ensures Equals(point, vs[i]) <==> PointKey(point) == Keys(vs)[i] {
      PointEqualsByKey(point, vs[i]);
    }
  }

  // ---------------------------------------------------------- MultiLineString

  /** MultiLineString::isClosed(): false at the first line that is not closed. */
  predicate AllClosed(lines: seq<Geometry>)
    requires forall c :: c in lines ==> c.LineString? && Valid(c)
  {
    lines == [] || (IsClosed(lines[0]) && AllClosed(lines[1..]))
  }

  predicate MultiIsClosed(multi: Geometry)
    requires multi.MultiLineString? && Valid(multi)
  {
    AllClosed(multi.components)
  }

  lemma {:induction false} AllClosedIff(lines: seq<Geometry>)
    requires forall c :: c in lines ==> c.LineString? && Valid(c)
    ensures AllClosed(lines) <==> forall i :: 0 <= i < |lines| ==> IsClosed(lines[i])
  {
    if lines != [] {
      AllClosedIff(lines[1..]);
      assert forall i :: 1 <= i < |lines| ==> lines[i] == lines[1..][i - 1];
    }
  }

  /** A multi-line string is closed exactly when every one of its lines is. */
  lemma MultiIsClosedIff(multi: Geometry)
    requires multi.MultiLineString? && Valid(multi)
    ensures MultiIsClosed(multi) <==> forall i :: 0 <= i < |multi.components| ==> IsClosed(multi.components[i])
  {
    AllClosedIff(multi.components);
  }

  // ------------------------------------------------------------------ GeoJSON

  /** The PHP arrays toArray() builds: lists, string-keyed maps, strings, numbers and null. */
  datatype Json =
    | JNull
    | JNumber(n: int)
    | JString(s: string)
    | JList(items: seq<Json>)
    | JObject(fields: seq<(string, Json)>)

  /** getGeoJsonDataKey(): "geometries" for a geometry collection, "coordinates" for the rest. */
  function GeoJsonDataKey(g: Geometry): (key: string)
    ensures key == "geometries" <==> g.GeometryCollection?
  {
    if g.GeometryCollection? then "geometries" else "coordinates"
  }

  /** getCoordinates() of a point: `[null, null]`, `[x, y]` or `[x, y, z]`. */
  function Coordinates(c: Coords): (r: seq<Json>)
    ensures |r| == if c.XYZ? then 3 else 2
  {
    match c
    case EmptyCoords => [JNull, JNull]
    case XY(x, y) => [JNumber(x), JNumber(y)]
    case XYZ(x, y, z) => [JNumber(x), JNumber(y), JNumber(z)]
  }

  /**
   * toGeoJsonArray(): a point's coordinates; a geometry collection lists
   * its components' toArray(); another collection lists its components'
   * toGeoJsonArray().
   */
  function ToGeoJsonArray(g: Geometry): (r: Json)
    ensures r.JList?
    ensures !g.Point? ==> |r.items| == |g.components|
    decreases g, 0
  {
    match g
    case Point(c, _) => JList(Coordinates(c))
    case GeometryCollection(cs, _) =>
      JList(seq(|cs|, i requires 0 <= i < |cs| => ToArray(cs[i])))
    case _ =>
      var cs := g.components;
      JList(seq(|cs|, i requires 0 <= i < |cs| => ToGeoJsonArray(cs[i])))
  }

  /** toArray(): `['type' => geometryType(), dataKey => toGeoJsonArray()]`. */
  function ToArray(g: Geometry): (r: Json)
    ensures r.JObject? && |r.fields| == 2
    ensures r.fields[0] == ("type", JString(GeometryType(g)))
    ensures r.fields[1].0 == GeoJsonDataKey(g)
    decreases g, 1
  {
    JObject([("type", JString(GeometryType(g))), (GeoJsonDataKey(g), ToGeoJsonArray(g))])
  }

  /** The geometry with every SRID, at every level, cleared. */
  function WithoutSrid(g: Geometry): (r: Geometry)
    ensures KindOf(r) == KindOf(g) && r.srid == 0
  {
    match g
    case Point(c, _) => Point(c, 0)
    case _ =>
      var cs := g.components;
      Make(KindOf(g), seq(|cs|, i requires 0 <= i < |cs| => WithoutSrid(cs[i])))
  }

  lemma CoordinatesInjective(a: Coords, b: Coords)
    requires Coordinates(a) == Coordinates(b)
    ensures a == b
  {
    var ra, rb := Coordinates(a), Coordinates(b);
    if a.XY? || a.XYZ? {
      assert ra[0] == JNumber(a.x) && ra[1] == JNumber(a.y);
    }
  }

  /**
   * toArray() loses only the SRIDs: two constructible geometries with the
   * same array are the same geometry once SRIDs are ignored.
   */
  lemma {:induction false} ToArrayInjective(g: Geometry, h: Geometry)
    requires Valid(g) && Valid(h)
    requires ToArray(g) == ToArray(h)
    ensures WithoutSrid(g) == WithoutSrid(h)
    decreases g, 1
  {
    assert ToArray(g).fields[0] == ToArray(h).fields[0];
    TypeNameInjective(KindOf(g), KindOf(h));
    assert ToArray(g).fields[1] == ToArray(h).fields[1];
    ToGeoJsonArrayInjective(g, h);
  }

  /** Within one class, toGeoJsonArray() determines the geometry up to SRIDs. */
  lemma {:induction false} ToGeoJsonArrayInjective(g: Geometry, h: Geometry)
    requires Valid(g) && Valid(h) && KindOf(g) == KindOf(h)
    requires ToGeoJsonArray(g) == ToGeoJsonArray(h)
    ensures WithoutSrid(g) == WithoutSrid(h)
    decreases g, 0
  {
    if g.Point? {
      CoordinatesInjective(g.coords, h.coords);
    } else {
      var cs, ds := g.components, h.components;
      var a, b := WithoutSrid(g), WithoutSrid(h);
      assert |cs| == |ds|;
      forall i | 0 <= i < |cs| ensures WithoutSrid(cs[i]) == WithoutSrid(ds[i]) {
        assert cs[i] in cs && ds[i] in ds;
        assert ToGeoJsonArray(g).items[i] == ToGeoJsonArray(h).items[i];
        if g.GeometryCollection? {
          ToArrayInjective(cs[i], ds[i]);
        } else {
          assert Accepts(KindOf(g), Some(cs[i])) && Accepts(KindOf(h), Some(ds[i]));
          ToGeoJsonArrayInjective(cs[i], ds[i]);
        }
      }
      assert a.components == b.components;
    }
  }

  // ----------------------------------------------------------------- measures

  /**
   * area() without GEOS: a point has 0 (the Operations default), an empty
   * polygon 0, a non-empty polygon a floating-point shoelace sum (None
   * here: not modelled), and any other collection the sum over its
   * components.
   */
  function Area(g: Geometry): Option<int>
    decreases g, 1
  {
    match g
    case Point(_, _) => Some(0)
    case Polygon(_, _) => if IsEmpty(g) then Some(0) else None
    case _ => AreaOf(g.components)
  }

  function AreaOf(gs: seq<Geometry>): Option<int>
    decreases gs, 0
  {
    if gs == [] then Some(0)
    else
      match (Area(gs[0]), AreaOf(gs[1..]))
      case (Some(a), Some(b)) => Some(a + b)
      case _ => None
  }

  /** Whether the geometry holds a non-empty polygon, at any depth. */
  predicate HasSurface(g: Geometry)
  {
    match g
    case Point(_, _) => false
    case Polygon(_, _) => !IsEmpty(g)
    case _ => exists c :: c in g.components && HasSurface(c)
  }

  /**
   * Without GEOS, the area of a geometry with no non-empty polygon is 0;
   * with one it is a floating-point computation.
   */
  lemma {:induction false} AreaWithoutSurface(g: Geometry)
    ensures Area(g).Some? <==> !HasSurface(g)
    ensures Area(g).Some? ==> Area(g).value == 0
    decreases g, 1
  {
    if !g.Point? && !g.Polygon? {
      AreaOfWithoutSurface(g.components);
    }
  }

  lemma {:induction false} AreaOfWithoutSurface(gs: seq<Geometry>)
    ensures AreaOf(gs).Some? <==> forall c :: c in gs ==> !HasSurface(c)
    ensures AreaOf(gs).Some? ==> AreaOf(gs).value == 0
    decreases gs, 0
  {
    if gs != [] {
      AreaWithoutSurface(gs[0]);
      AreaOfWithoutSurface(gs[1..]);
      assert forall c :: c in gs <==> c == gs[0] || c in gs[1..];
    }
  }

  /**
   * length(), greatCircleLength() and haversineLength() without GEOS: 0 for
   * a point (the Operations defaults), a floating-point sum over segments
   * for a line string (None here), and the sum over the components for the
   * other collections.
   */
  function Length(g: Geometry): Option<int>
    decreases g, 1
  {
    match g
    case Point(_, _) => Some(0)
    case LineString(_, _) => None
    case _ => LengthOf(g.components)
  }

  function LengthOf(gs: seq<Geometry>): Option<int>
    decreases gs, 0
  {
    if gs == [] then Some(0)
    else
      match (Length(gs[0]), LengthOf(gs[1..]))
      case (Some(a), Some(b)) => Some(a + b)
      case _ => None
  }

  /** Whether the geometry holds a line string, at any depth (a polygon's rings are line strings). */
  predicate HasLine(g: Geometry)
  {
    match g
    case Point(_, _) => false
    case LineString(_, _) => true
    case _ => exists c :: c in g.components && HasLine(c)
  }

  /** The lengths of a geometry with no line string are 0. */
  lemma {:induction false} LengthWithoutLines(g: Geometry)
    ensures Length(g).Some? <==> !HasLine(g)
    ensures Length(g).Some? ==> Length(g).value == 0
    decreases g, 1
  {
    if !g.Point? && !g.LineString? {
      LengthOfWithoutLines(g.components);
    }
  }

  lemma {:induction false} LengthOfWithoutLines(gs: seq<Geometry>)
    ensures LengthOf(gs).Some? <==> forall c :: c in gs ==> !HasLine(c)
    ensures LengthOf(gs).Some? ==> LengthOf(gs).value == 0
    decreases gs, 0
  {
    if gs != [] {
      LengthWithoutLines(gs[0]);
      LengthOfWithoutLines(gs[1..]);
      assert forall c :: c in gs <==> c == gs[0] || c in gs[1..];
    }
  }
}
