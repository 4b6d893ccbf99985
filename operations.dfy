/**
 * envelope() without GEOS: a one-ring polygon through the corners of the
 * bounding box.
 */
module Operations {
  import opened Wrappers
  import opened Types
  import opened Shapes

  /**
   * An empty geometry answers `new Polygon`, which has too few rings;
   * otherwise the ring runs (maxx, miny), (maxx, maxy), (minx, maxy),
   * (minx, miny) and back to (maxx, miny).  Reading a bound of a null box
   * gives null, and a corner with exactly one null coordinate fails in the
   * Point constructor.
   */
  function Envelope(g: Geometry): Result<Geometry>
  {
    if IsEmpty(g) then
      match NewCollection(PolygonKind, [])
      case Err(e) => Err(e)
      case Ok(_) => Err(TypeError)
    else
      var bbox :- GetBBox(g);
      var b := bbox.GetOr(BBox(None, None, None, None));
      var p1 :- NewPoint(b.maxx, b.miny, None);
      var p2 :- NewPoint(b.maxx, b.maxy, None);
      var p3 :- NewPoint(b.minx, b.maxy, None);
      var p4 :- NewPoint(b.minx, b.miny, None);
      var p5 := p1;  // the same arguments as the first corner
      var ring :- NewCollection(LineStringKind, [Some(p1), Some(p2), Some(p3), Some(p4), Some(p5)]);
      NewCollection(PolygonKind, [Some(ring)])
  }

  lemma EnvelopeOfEmpty(g: Geometry)
    requires IsEmpty(g)
    ensures Envelope(g) == Err(TooFewComponents(PolygonKind))
  {
  }

  function Corner(x: Coord, y: Coord): Geometry
  {
    Point(XY(x, y), 0)
  }

  /** The closed five-point ring through the corners of a box. */
  function Ring(minx: Coord, miny: Coord, maxx: Coord, maxy: Coord): Geometry
  {
    LineString([Corner(maxx, miny), Corner(maxx, maxy), Corner(minx, maxy), Corner(minx, miny), Corner(maxx, miny)], 0)
  }

  /**
   * The envelope of a geometry without empty parts is the polygon whose one
   * ring is the closed corner ring of its points' exact span; that ring is
   * a constructible, closed line, and every point of the geometry lies in
   * the box it encloses.
   */
  lemma EnvelopeOfSolid(g: Geometry)
    requires Solid(g)
    ensures var ps := PointsFlatMap(g);
      ps != [] && (forall p :: p in ps ==> !p.coords.EmptyCoords?)
      && var b := Span(ps);
      var ring := Ring(b.minx.value, b.miny.value, b.maxx.value, b.maxy.value);
      Envelope(g) == Ok(Polygon([ring], 0))
      && Valid(Polygon([ring], 0))
      && IsClosed(ring)
      && forall p :: p in ps ==> b.minx.value <= p.coords.x <= b.maxx.value && b.miny.value <= p.coords.y <= b.maxy.value
  {
    GetBBoxSpans(g);
    var ps := PointsFlatMap(g);
    assert !IsEmpty(g) by {
      IsEmptyIffPointsEmpty(g);
      assert ps[0] in ps;
    }
    var b := Span(ps);
    EnvelopeOfBox(g, b.minx.value, b.miny.value, b.maxx.value, b.maxy.value);
    RingValid(b.minx.value, b.miny.value, b.maxx.value, b.maxy.value);
    GetBBoxBounds(g);
  }

  /** A non-empty geometry whose box has four numbers has the corner ring of that box as its envelope. */
  lemma EnvelopeOfBox(g: Geometry, minx: Coord, miny: Coord, maxx: Coord, maxy: Coord)
    requires !IsEmpty(g)
    requires GetBBox(g) == Ok(Some(BBox(Some(maxy), Some(miny), Some(maxx), Some(minx))))
    ensures Envelope(g) == Ok(Polygon([Ring(minx, miny, maxx, maxy)], 0))
  {
    var ring := Ring(minx, miny, maxx, maxy);
    var items := [Some(ring.components[0]), Some(ring.components[1]), Some(ring.components[2]),
                  Some(ring.components[3]), Some(ring.components[4])];
    assert NewCollection(LineStringKind, items) == Ok(ring) by {
      assert forall i :: 0 <= i < 5 ==> Accepts(LineStringKind, items[i]);
      assert NewCollection(LineStringKind, items).value.components == ring.components;
    }
    assert NewCollection(PolygonKind, [Some(ring)]) == Ok(Polygon([ring], 0)) by {
      assert NewCollection(PolygonKind, [Some(ring)]).value.components == [ring];
    }
  }

  lemma RingValid(minx: Coord, miny: Coord, maxx: Coord, maxy: Coord)
    ensures Valid(Polygon([Ring(minx, miny, maxx, maxy)], 0))
    ensures IsClosed(Ring(minx, miny, maxx, maxy))
  {
    var ring := Ring(minx, miny, maxx, maxy);
    assert forall c :: c in ring.components ==> c.Point?;
    assert Valid(ring);
    var rings := [ring];
    assert forall c :: c in rings ==> c == ring;
  }

  /** A part's box as far as the envelope goes: null, or four numbers with a non-zero minimum x. */
  predicate NullOrNonZeroBox(c: Geometry)
  {
    GetBBox(c) == Ok(None)
    || (GetBBox(c).Ok? && GetBBox(c).value.Some?
        && var b := GetBBox(c).value.value;
        b.maxy.Some? && b.miny.Some? && b.maxx.Some? && b.minx.Some? && b.minx.value != 0)
  }

  /**
   * Growing a box over such parts keeps a number in maxx and maxy, and the
   * minimum x turns null at the first null part: PHP's `x > null` is true
   * for a non-zero x, and `null > x` never is, so a null never goes away.
   */
  lemma {:induction false} GrowOverNullPart(acc: BBox, gs: seq<Geometry>)
    requires acc.maxx.Some? && acc.maxy.Some? && (acc.minx.Some? ==> acc.minx.value != 0)
    requires forall c :: c in gs ==> NullOrNonZeroBox(c)
    ensures GrowOver(acc, gs).Ok?
    ensures var b := GrowOver(acc, gs).value;
      b.maxx.Some? && b.maxy.Some? && (b.minx.Some? ==> b.minx.value != 0)
      && ((acc.minx.None? || exists i :: 0 <= i < |gs| && GetBBox(gs[i]) == Ok(None)) ==> b.minx.None?)
    decreases |gs|
  {
    if gs != [] {
      assert gs[0] in gs;
      var next := Grow(acc, GetBBox(gs[0]).value);
      assert forall c :: c in gs[1..] ==> c in gs;
      GrowOverNullPart(next, gs[1..]);
      if exists i :: 0 <= i < |gs| && GetBBox(gs[i]) == Ok(None) {
        var i :| 0 <= i < |gs| && GetBBox(gs[i]) == Ok(None);
        if i > 0 {
          assert gs[1..][i - 1] == gs[i];
        }
      }
    }
  }

  /**
   * A collection whose first part has a box, whose parts have null or
   * non-zero-minimum boxes, and one of whose parts has a null box: the
   * minimum x of the grown box is null, so a corner Point gets only one of
   * its coordinates and envelope() fails in the Point constructor.
   */
  lemma EnvelopeWithNullPart(g: Geometry)
    requires !g.Point? && g.components != []
    requires GetBBox(g.components[0]).Ok? && GetBBox(g.components[0]).value.Some?
    requires forall c :: c in g.components ==> NullOrNonZeroBox(c)
    requires exists i :: 0 <= i < |g.components| && GetBBox(g.components[i]) == Ok(None)
    ensures Envelope(g) == Err(BadPointArguments)
  {
    var c0 := g.components[0];
    assert c0 in g.components;
    assert !IsEmpty(c0);
    assert !IsEmpty(g);
    var first := GetBBox(c0).value.value;
    GrowOverNullPart(first, g.components);
  }

  /** Every point of a part is a point of the whole. */
  lemma {:induction false} PartPoints(gs: seq<Geometry>, i: nat)
    requires i < |gs|
    ensures forall p :: p in PointsFlatMap(gs[i]) ==> p in PointsOf(gs)
    decreases i
  {
    PointsOfCons(gs);
    if i > 0 {
      PartPoints(gs[1..], i - 1);
    }
  }

  /**
   * A collection mixing parts without empty points and at least one empty
   * collection part fails to build its envelope when no point has x = 0.
   * With a zero minimum x, PHP's `0 > null` is false and the box keeps its
   * numbers (`EnvelopeWithPartAtZero`).
   */
  lemma EnvelopeWithEmptyPart(g: Geometry)
    requires !g.Point? && g.components != [] && Solid(g.components[0])
    requires forall c :: c in g.components ==> Solid(c) || (!c.Point? && c.components == [])
    requires exists i :: 0 <= i < |g.components| && !g.components[i].Point? && g.components[i].components == []
    requires forall p :: p in PointsFlatMap(g) && !p.coords.EmptyCoords? ==> p.coords.x != 0
    ensures Envelope(g) == Err(BadPointArguments)
  {
    forall c | c in g.components ensures NullOrNonZeroBox(c) {
      var i :| 0 <= i < |g.components| && g.components[i] == c;
      if Solid(c) {
        GetBBoxBounds(c);
        PartPoints(g.components, i);
      } else {
        assert IsEmpty(c);
      }
    }
    GetBBoxBounds(g.components[0]);
    var i :| 0 <= i < |g.components| && !g.components[i].Point? && g.components[i].components == [];
    assert IsEmpty(g.components[i]);
    EnvelopeWithNullPart(g);
  }

  /** With the part at the origin the box keeps four zeros and the envelope is built. */
  lemma EnvelopeWithPartAtZero()
    ensures Envelope(GeometryCollection([Point(XY(0, 0), 0), GeometryCollection([], 0)], 0))
      == Ok(Polygon([Ring(0, 0, 0, 0)], 0))
  {
    var p := Point(XY(0, 0), 0);
    var e := GeometryCollection([], 0);
    var g := GeometryCollection([p, e], 0);
    assert !IsEmpty(g) by {
      assert p in g.components;
    }
    var first := BBox(Some(0), Some(0), Some(0), Some(0));
    assert GetBBox(p) == Ok(Some(first));
    assert GetBBox(e) == Ok(None);
    assert GrowOver(first, [e]) == Ok(first) by {
      assert [e][1..] == [];
    }
    assert GrowOver(first, g.components) == GrowOver(Grow(first, Some(first)), [e]) by {
      assert g.components[1..] == [e];
    }
    EnvelopeOfBox(g, 0, 0, 0, 0);
  }
}
