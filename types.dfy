/**
 * The geometry value types: Point and the six collection classes, with the
 * queries the base Geometry class, Point and Collection define for all of
 * them (Types/Geometry.php, Types/Point.php, Types/Collection.php), and the
 * per-class constants (geometry type, minimum component count, component
 * class).
 *
 * Coordinates are integers standing for PHP floats.  The `srid` field is 0
 * when no SRID was set: the only reader of the field, SRID(), answers
 * `srid ?: 0`, so an unset id and an id of 0 cannot be told apart.
 */
module Types {
  import opened Wrappers

  type Coord = int

  /** A point's coordinate array: `[null, null]`, `[x, y]` or `[x, y, z]`. */
  datatype Coords = EmptyCoords | XY(x: Coord, y: Coord) | XYZ(x: Coord, y: Coord, z: Coord)

  datatype Geometry =
    | Point(coords: Coords, srid: int)
    | LineString(components: seq<Geometry>, srid: int)
    | Polygon(components: seq<Geometry>, srid: int)
    | MultiPoint(components: seq<Geometry>, srid: int)
    | MultiLineString(components: seq<Geometry>, srid: int)
    | MultiPolygon(components: seq<Geometry>, srid: int)
    | GeometryCollection(components: seq<Geometry>, srid: int)

  // ------------------------------------------------------------ class constants

  function KindOf(g: Geometry): Kind
  {
    match g
    case Point(_, _) => PointKind
    case LineString(_, _) => LineStringKind
    case Polygon(_, _) => PolygonKind
    case MultiPoint(_, _) => MultiPointKind
    case MultiLineString(_, _) => MultiLineStringKind
    case MultiPolygon(_, _) => MultiPolygonKind
    case GeometryCollection(_, _) => GeometryCollectionKind
  }

  /** The class-level `$geomType` string. */
  function TypeName(k: Kind): string
  {
    match k
    case PointKind => "Point"
    case LineStringKind => "LineString"
    case PolygonKind => "Polygon"
    case MultiPointKind => "MultiPoint"
    case MultiLineStringKind => "MultiLineString"
    case MultiPolygonKind => "MultiPolygon"
    case GeometryCollectionKind => "GeometryCollection"
  }

  lemma TypeNameInjective(k1: Kind, k2: Kind)
    ensures TypeName(k1) == TypeName(k2) <==> k1 == k2
  {
  }

  /** geometryType(): the class's type name, whatever the instance holds. */
  function GeometryType(g: Geometry): (r: string)
    ensures r == TypeName(KindOf(g))
  {
    TypeName(KindOf(g))
  }

  /** `$minimumComponentCount` of each collection class. */
  function MinimumComponentCount(k: Kind): nat
    requires k != PointKind
  {
    match k
    case LineStringKind => 2
    case PolygonKind => 1
    case MultiPointKind => 1
    case MultiLineStringKind => 1
    case MultiPolygonKind => 1
    case GeometryCollectionKind => 0
  }

  /**
   * `$collectionComponentClass`: the kind every component must have, or
   * None for GeometryCollection, which takes any geometry.
   */
  function ComponentKind(k: Kind): Option<Kind>
    requires k != PointKind
  {
    match k
    case LineStringKind => Some(PointKind)
    case MultiPointKind => Some(PointKind)
    case PolygonKind => Some(LineStringKind)
    case MultiLineStringKind => Some(LineStringKind)
    case MultiPolygonKind => Some(PolygonKind)
    case GeometryCollectionKind => None
  }

  /** validateItemType: null is an instance of nothing. */
  predicate Accepts(k: Kind, item: Option<Geometry>)
    requires k != PointKind
  {
    item.Some? && (ComponentKind(k).None? || KindOf(item.value) == ComponentKind(k).value)
  }

  /** A collection object of kind `k` with no SRID. */
  function Make(k: Kind, components: seq<Geometry>): (g: Geometry)
    requires k != PointKind
    ensures !g.Point? && KindOf(g) == k && g.components == components && g.srid == 0
  {
    match k
    case LineStringKind => LineString(components, 0)
    case PolygonKind => Polygon(components, 0)
    case MultiPointKind => MultiPoint(components, 0)
    case MultiLineStringKind => MultiLineString(components, 0)
    case MultiPolygonKind => MultiPolygon(components, 0)
    case GeometryCollectionKind => GeometryCollection(components, 0)
  }

  function Values(items: seq<Option<Geometry>>): (r: seq<Geometry>)
    requires forall i :: 0 <= i < |items| ==> items[i].Some?
    ensures |r| == |items| && forall i :: 0 <= i < |items| ==> r[i] == items[i].value
  {
    if items == [] then [] else [items[0].value] + Values(items[1..])
  }

  function Somes(gs: seq<Geometry>): (r: seq<Option<Geometry>>)
    ensures |r| == |gs| && forall i :: 0 <= i < |gs| ==> r[i] == Some(gs[i])
  {
    if gs == [] then [] else [Some(gs[0])] + Somes(gs[1..])
  }

  /**
   * new <Collection>($items): the item count is checked first, then every
   * item's class; a collection that passes holds the items in order.
   */
  function NewCollection(k: Kind, items: seq<Option<Geometry>>): (r: Result<Geometry>)
    requires k != PointKind
    ensures |items| < MinimumComponentCount(k) ==> r == Err(TooFewComponents(k))
    ensures (|items| >= MinimumComponentCount(k) && exists i :: 0 <= i < |items| && !Accepts(k, items[i]))
            ==> r == Err(WrongComponentType(k))
    ensures r.Ok? <==> |items| >= MinimumComponentCount(k) && forall i :: 0 <= i < |items| ==> Accepts(k, items[i])
    ensures r.Ok? ==> KindOf(r.value) == k && r.value.srid == 0
                      && |r.value.components| == |items|
                      && forall i :: 0 <= i < |items| ==> items[i] == Some(r.value.components[i])
  {
    if |items| < MinimumComponentCount(k) then Err(TooFewComponents(k))
    else if exists i :: 0 <= i < |items| && !Accepts(k, items[i]) then Err(WrongComponentType(k))
    else Ok(Make(k, Values(items)))
  }

  /**
   * new Point($x, $y, $z): no coordinates make an empty point (z is then
   * ignored), exactly one of x and y is an error, and a z makes a 3D point.
   */
  function NewPoint(x: Option<Coord>, y: Option<Coord>, z: Option<Coord>): (r: Result<Geometry>)
    ensures r.Err? <==> x.None? != y.None?
    ensures r.Err? ==> r.error == BadPointArguments
    ensures r.Ok? ==> r.value.Point? && r.value.srid == 0
    ensures r.Ok? ==> (r.value.coords.EmptyCoords? <==> x.None?)
    ensures r.Ok? && x.Some? ==> r.value.coords.x == x.value && r.value.coords.y == y.value
    ensures r.Ok? && x.Some? ==> (r.value.coords.XYZ? <==> z.Some?)
    ensures r.Ok? && x.Some? && z.Some? ==> r.value.coords.z == z.value
  {
    if x.None? && y.None? then Ok(Point(EmptyCoords, 0))
    else if x.None? || y.None? then Err(BadPointArguments)
    else if z.Some? then Ok(Point(XYZ(x.value, y.value, z.value), 0))
    else Ok(Point(XY(x.value, y.value), 0))
  }

  /** The objects the constructors can build: counts and component classes hold at every level. */
  predicate Valid(g: Geometry)
  {
    match g
    case Point(_, _) => true
    case _ =>
      |g.components| >= MinimumComponentCount(KindOf(g))
      && (forall i :: 0 <= i < |g.components| ==> Accepts(KindOf(g), Some(g.components[i])))
      && (forall c :: c in g.components ==> Valid(c))
  }

  lemma NewCollectionValid(k: Kind, gs: seq<Geometry>)
    requires k != PointKind
    requires forall c :: c in gs ==> Valid(c)
    ensures NewCollection(k, Somes(gs)).Ok? ==> Valid(NewCollection(k, Somes(gs)).value)
  {
    var r := NewCollection(k, Somes(gs));
    if r.Ok? {
      assert r.value.components == gs;
    }
  }

  // ------------------------------------------------------------ Geometry base

  /** SRID(): the id set on the object, 0 when none was set. */
  function Srid(g: Geometry): int
  {
    g.srid
  }

  /** setSRID($srid): only the id changes. */
  function SetSrid(g: Geometry, srid: int): (r: Geometry)
    ensures KindOf(r) == KindOf(g) && Srid(r) == srid
    ensures r.Point? ==> r.coords == g.coords
    ensures !r.Point? ==> r.components == g.components
  {
    g.(srid := srid)
  }

  lemma SetSridKeepsShape(g: Geometry, srid: int)
    ensures Valid(SetSrid(g, srid)) <==> Valid(g)
    ensures SetSrid(SetSrid(g, srid), g.srid) == g
  {
  }

  /** hasZ(), is3D() and isMeasured() of the base class: always false. */
  predicate HasZ(g: Geometry)
    ensures !HasZ(g)
  {
    false
  }

  /** coordinateDimension() of the base class: always 2, even for a point with a z. */
  function CoordinateDimension(g: Geometry): (r: nat)
    ensures r == 2
  {
    2
  }

  // ------------------------------------------------------------------- Point

  /** getX(): the first coordinate; an empty point returns null through a float return type. */
  function GetX(p: Geometry): (r: Result<Coord>)
    requires p.Point?
    ensures r.Ok? <==> !p.coords.EmptyCoords?
    ensures r.Ok? ==> r.value == p.coords.x
    ensures r.Err? ==> r.error == TypeError
  {
    if p.coords.EmptyCoords? then Err(TypeError) else Ok(p.coords.x)
  }

  function GetY(p: Geometry): (r: Result<Coord>)
    requires p.Point?
    ensures r.Ok? <==> !p.coords.EmptyCoords?
    ensures r.Ok? ==> r.value == p.coords.y
    ensures r.Err? ==> r.error == TypeError
  {
    if p.coords.EmptyCoords? then Err(TypeError) else Ok(p.coords.y)
  }

  /** z(): the third coordinate of a 3D point, null otherwise. */
  function GetZ(p: Geometry): (r: Option<Coord>)
    requires p.Point?
    ensures r.Some? <==> p.coords.XYZ?
    ensures r.Some? ==> r.value == p.coords.z
  {
    if p.coords.XYZ? then Some(p.coords.z) else None
  }

  /** Point::equals: same x and y (z is ignored), or both empty; never equal to a non-point. */
  predicate PointEquals(p: Geometry, other: Geometry)
    requires p.Point?
  {
    other.Point?
    && (if !p.coords.EmptyCoords? && !other.coords.EmptyCoords? then
          p.coords.x == other.coords.x && p.coords.y == other.coords.y
        else p.coords.EmptyCoords? && other.coords.EmptyCoords?)
  }

  /** What Point::equals compares: the x and y, or nothing for an empty point. */
  function PointKey(p: Geometry): Option<(Coord, Coord)>
    requires p.Point?
  {
    if p.coords.EmptyCoords? then None else Some((p.coords.x, p.coords.y))
  }

  lemma PointEqualsByKey(p: Geometry, q: Geometry)
    requires p.Point? && q.Point?
    ensures PointEquals(p, q) <==> PointKey(p) == PointKey(q)
    ensures PointEquals(p, q) <==> PointEquals(q, p)
  {
  }

  // ------------------------------------------------------------ shared queries

  /** numGeometries() / count(). */
  function NumGeometries(g: Geometry): (r: nat)
    requires !g.Point?
    ensures r == |g.components|
  {
    |g.components|
  }

  /** geometryN($n): the n-th component counting from 1, or null when there is none. */
  function GeometryN(g: Geometry, n: int): (r: Option<Geometry>)
    requires !g.Point?
    ensures r.Some? <==> 1 <= n <= NumGeometries(g)
    ensures r.Some? ==> r.value == g.components[n - 1]
  {
    if 1 <= n <= |g.components| then Some(g.components[n - 1]) else None
  }

  /** isEmpty(): an empty point, or a collection whose components are all empty (or that has none). */
  predicate IsEmpty(g: Geometry)
  {
    match g
    case Point(c, _) => c.EmptyCoords?
    case _ => forall c :: c in g.components ==> IsEmpty(c)
  }

  /** getPointsFlatMap(): every point, depth first, in component order. */
  function PointsFlatMap(g: Geometry): (r: seq<Geometry>)
    ensures forall p :: p in r ==> p.Point?
  {
    match g
    case Point(_, _) => [g]
    case _ => PointsOf(g.components)
  }

  function PointsOf(gs: seq<Geometry>): (r: seq<Geometry>)
    ensures forall p :: p in r ==> p.Point?
  {
    if gs == [] then [] else PointsFlatMap(gs[0]) + PointsOf(gs[1..])
  }

  lemma {:induction false} PointsOfAppend(a: seq<Geometry>, b: seq<Geometry>)
    ensures PointsOf(a + b) == PointsOf(a) + PointsOf(b)
    decreases |a|
  {
    if a == [] {
      assert a + b == b;
    } else {
      assert (a + b)[1..] == a[1..] + b;
      PointsOfAppend(a[1..], b);
    }
  }

  lemma PointsOfSingle(g: Geometry)
    ensures PointsOf([g]) == PointsFlatMap(g)
  {
    assert [g][1..] == [];
  }

  /** A geometry is empty exactly when every point it holds is an empty point. */
  lemma {:induction false} IsEmptyIffPointsEmpty(g: Geometry)
    ensures IsEmpty(g) <==> forall p :: p in PointsFlatMap(g) ==> p.coords.EmptyCoords?
    decreases g, 1
  {
    if !g.Point? {
      AllEmptyIffPointsEmpty(g.components);
    }
  }

  lemma {:induction false} AllEmptyIffPointsEmpty(gs: seq<Geometry>)
    ensures (forall c :: c in gs ==> IsEmpty(c)) <==> forall p :: p in PointsOf(gs) ==> p.coords.EmptyCoords?
    decreases gs, 0
  {
    if gs != [] {
      IsEmptyIffPointsEmpty(gs[0]);
      AllEmptyIffPointsEmpty(gs[1..]);
      assert forall c :: c in gs <==> c == gs[0] || c in gs[1..];
    }
  }

  /**
   * numPoints(): 1 for a point, the component count for LineString and
   * MultiPoint, otherwise the sum over the components.
   */
  function NumPoints(g: Geometry): nat
  {
    match g
    case Point(_, _) => 1
    case LineString(cs, _) => |cs|
    case MultiPoint(cs, _) => |cs|
    case _ => NumPointsOf(g.components)
  }

  function NumPointsOf(gs: seq<Geometry>): nat
  {
    if gs == [] then 0 else NumPoints(gs[0]) + NumPointsOf(gs[1..])
  }

  /** On the objects the constructors can build, numPoints() counts getPointsFlatMap(). */
  lemma {:induction false} NumPointsCountsFlatMap(g: Geometry)
    requires Valid(g)
    ensures NumPoints(g) == |PointsFlatMap(g)|
    decreases g, 1
  {
    match g
    case Point(_, _) =>
    case LineString(cs, _) => PointsOfPoints(cs);
    case MultiPoint(cs, _) => PointsOfPoints(cs);
    case _ => NumPointsOfCountsFlatMap(g.components);
  }

  lemma {:induction false} NumPointsOfCountsFlatMap(gs: seq<Geometry>)
    requires forall c :: c in gs ==> Valid(c)
    ensures NumPointsOf(gs) == |PointsOf(gs)|
    decreases gs, 0
  {
    if gs != [] {
      NumPointsCountsFlatMap(gs[0]);
      NumPointsOfCountsFlatMap(gs[1..]);
    }
  }

  lemma {:induction false} PointsOfPoints(gs: seq<Geometry>)
    requires forall i :: 0 <= i < |gs| ==> gs[i].Point?
    ensures PointsOf(gs) == gs
  {
    if gs != [] {
      PointsOfPoints(gs[1..]);
    }
  }

  /**
   * dimension(): 0 for points (Point does not override the base), 1 for
   * LineString, 2 for Polygon, and the largest component dimension
   * (starting from 0) for the other collections.
   */
  function Dimension(g: Geometry): nat
  {
    match g
    case Point(_, _) => 0
    case LineString(_, _) => 1
    case Polygon(_, _) => 2
    case _ => MaxDimension(g.components)
  }

  function MaxDimension(gs: seq<Geometry>): (r: nat)
    ensures forall i :: 0 <= i < |gs| ==> Dimension(gs[i]) <= r
    ensures r == 0 || exists i :: 0 <= i < |gs| && Dimension(gs[i]) == r
  {
    if gs == [] then 0
    else
      var rest := MaxDimension(gs[1..]);
      assert forall i :: 1 <= i < |gs| ==> gs[i] == gs[1..][i - 1];
      if Dimension(gs[0]) > rest then Dimension(gs[0]) else rest
  }

  /** No geometry has a dimension above 2. */
  lemma {:induction false} DimensionAtMostTwo(g: Geometry)
    ensures Dimension(g) <= 2
    decreases g
  {
    if !(g.Point? || g.LineString? || g.Polygon?) {
      var r := MaxDimension(g.components);
      if r != 0 {
        var i :| 0 <= i < |g.components| && Dimension(g.components[i]) == r;
        DimensionAtMostTwo(g.components[i]);
      }
    }
  }

  // ------------------------------------------------------------------ equality

  function Keys(ps: seq<Geometry>): (r: seq<Option<(Coord, Coord)>>)
    requires forall p :: p in ps ==> p.Point?
    ensures |r| == |ps| && forall i :: 0 <= i < |ps| ==> r[i] == PointKey(ps[i])
  {
    seq(|ps|, i requires 0 <= i < |ps| => PointKey(ps[i]))
  }

  /** The index of the first point of `qs` that Point::equals `p`. */
  function FirstMatch(p: Geometry, qs: seq<Geometry>): (r: Option<nat>)
    requires p.Point? && forall q :: q in qs ==> q.Point?
    ensures r.Some? ==> r.value < |qs| && PointEquals(p, qs[r.value])
    ensures r.None? ==> forall i :: 0 <= i < |qs| ==> !PointEquals(p, qs[i])
  {
    if qs == [] then None
    else if PointEquals(p, qs[0]) then Some(0)
    else
      match FirstMatch(p, qs[1..])
      case None => None
      case Some(i) => Some(i + 1)
  }

  /**
   * The matching loop of Collection::equals: each point of `ps` in turn
   * takes the first still-unmatched equal point of `qs`.
   */
  predicate GreedyMatch(ps: seq<Geometry>, qs: seq<Geometry>)
    requires forall p :: p in ps ==> p.Point?
    requires forall q :: q in qs ==> q.Point?
  {
    if ps == [] then true
    else
      match FirstMatch(ps[0], qs)
      case None => false
      case Some(i) => GreedyMatch(ps[1..], qs[..i] + qs[i + 1..])
  }

  /**
   * Geometry equality: a point compares with Point::equals, a collection
   * compares its flattened points with the matching loop after checking the
   * counts.
   */
  predicate Equals(g: Geometry, other: Geometry)
  {
    if g.Point? then PointEquals(g, other)
    else
      var ps := PointsFlatMap(g);
      var qs := PointsFlatMap(other);
      |ps| == |qs| && GreedyMatch(ps, qs)
  }

  lemma KeysRemove(qs: seq<Geometry>, i: nat)
    requires forall q :: q in qs ==> q.Point?
    requires i < |qs|
    ensures forall q :: q in qs[..i] + qs[i + 1..] ==> q.Point?
    ensures multiset(Keys(qs)) == multiset(Keys(qs[..i] + qs[i + 1..])) + multiset{PointKey(qs[i])}
  {
    var a, b := qs[..i], qs[i + 1..];
    assert qs == a + [qs[i]] + b;
    assert forall q :: q in a + [qs[i]] ==> q in qs;
    assert forall q :: q in a + b ==> q in qs;
    KeysConcat(a + [qs[i]], b);
    KeysConcat(a, [qs[i]]);
    KeysConcat(a, b);
    var ka, kb := Keys(a), Keys(b);
    assert Keys([qs[i]]) == [PointKey(qs[i])];
    assert Keys(qs) == ka + [PointKey(qs[i])] + kb;
    assert multiset(ka + [PointKey(qs[i])] + kb) == multiset(ka) + multiset{PointKey(qs[i])} + multiset(kb);
    assert multiset(Keys(a + b)) == multiset(ka) + multiset(kb);
  }

  lemma KeysConcat(xs: seq<Geometry>, ys: seq<Geometry>)
    requires forall q :: q in xs + ys ==> q.Point?
    ensures forall q :: q in xs ==> q.Point?
    ensures forall q :: q in ys ==> q.Point?
    ensures Keys(xs + ys) == Keys(xs) + Keys(ys)
  {
    assert forall q :: q in xs ==> q in xs + ys;
    assert forall q :: q in ys ==> q in xs + ys;
  }

  lemma KeyAbsent(p: Geometry, qs: seq<Geometry>)
    requires p.Point? && forall q :: q in qs ==> q.Point?
    requires FirstMatch(p, qs).None?
    ensures PointKey(p) !in multiset(Keys(qs))
  {
    forall i | 0 <= i < |qs| ensures Keys(qs)[i] != PointKey(p) {
      PointEqualsByKey(p, qs[i]);
    }
  }

  /** The matching loop succeeds exactly when both sides hold the same points, counted with multiplicity. */
  lemma {:induction false} GreedyMatchIffSameKeys(ps: seq<Geometry>, qs: seq<Geometry>)
    requires forall p :: p in ps ==> p.Point?
    requires forall q :: q in qs ==> q.Point?
    requires |ps| == |qs|
    ensures GreedyMatch(ps, qs) <==> multiset(Keys(ps)) == multiset(Keys(qs))
    decreases |ps|
  {
    if ps != [] {
      var p := ps[0];
      match FirstMatch(p, qs)
      case None =>
        assert Keys(ps)[0] == PointKey(p);
        KeyAbsent(p, qs);
      case Some(i) =>
        MatchStep(ps, qs, i);
        GreedyMatchIffSameKeys(ps[1..], qs[..i] + qs[i + 1..]);
    }
  }

  /** One round of the matching loop removes the same key from both sides. */
  lemma MatchStep(ps: seq<Geometry>, qs: seq<Geometry>, i: nat)
    requires forall p :: p in ps ==> p.Point?
    requires forall q :: q in qs ==> q.Point?
    requires ps != [] && FirstMatch(ps[0], qs) == Some(i)
    ensures forall q :: q in qs[..i] + qs[i + 1..] ==> q.Point?
    ensures GreedyMatch(ps, qs) == GreedyMatch(ps[1..], qs[..i] + qs[i + 1..])
    ensures (multiset(Keys(ps)) == multiset(Keys(qs)))
      == (multiset(Keys(ps[1..])) == multiset(Keys(qs[..i] + qs[i + 1..])))
  {
    var p := ps[0];
    var rest := qs[..i] + qs[i + 1..];
    assert Keys(ps) == [PointKey(p)] + Keys(ps[1..]);
    assert multiset(Keys(ps)) == multiset(Keys(ps[1..])) + multiset{PointKey(p)};
    PointEqualsByKey(p, qs[i]);
    KeysRemove(qs, i);
    MultisetCancel(multiset(Keys(ps[1..])), multiset(Keys(rest)), PointKey(p));
  }

  lemma MultisetCancel<T>(a: multiset<T>, b: multiset<T>, k: T)
    ensures a + multiset{k} == b + multiset{k} <==> a == b
  {
    if a + multiset{k} == b + multiset{k} {
      forall x ensures a[x] == b[x] {
        assert (a + multiset{k})[x] == (b + multiset{k})[x];
      }
    }
  }

  /** Two collections are equal exactly when they hold the same points with the same multiplicities. */
  lemma CollectionEqualsIffSamePoints(g: Geometry, other: Geometry)
    requires !g.Point?
    ensures Equals(g, other) <==>
      |PointsFlatMap(g)| == |PointsFlatMap(other)|
      && multiset(Keys(PointsFlatMap(g))) == multiset(Keys(PointsFlatMap(other)))
  {
    var ps := PointsFlatMap(g);
    var qs := PointsFlatMap(other);
    if |ps| == |qs| {
      GreedyMatchIffSameKeys(ps, qs);
    }
  }

  /**
   * Collection::equals as the fallback is reached: tryForwardCallToGeos runs
   * `value($fallback, ...$arguments)` with `$arguments` the other geometry
   * itself, so the spread passes the closure the other collection's first
   * component (a point cannot be spread; an empty collection leaves the
   * closure without its argument).  Point::equals is called directly.
   */
  function EqualsAsWritten(g: Geometry, other: Geometry): (r: Result<bool>)
  {
    if g.Point? then Ok(PointEquals(g, other))
    else if other.Point? then Err(NotUnpackable)
    else if other.components == [] then Err(TooFewArguments)
    else Ok(Equals(g, other.components[0]))
  }

  /**
   * The collection branch as written compares this collection's points with
   * those of the other's first component, and fails for a point or an empty
   * collection.
   */
  lemma EqualsAsWrittenComparesFirst(g: Geometry, other: Geometry)
    requires !g.Point?
    ensures other.Point? ==> EqualsAsWritten(g, other) == Err(NotUnpackable)
    ensures !other.Point? && other.components == [] ==> EqualsAsWritten(g, other) == Err(TooFewArguments)
    ensures !other.Point? && other.components != [] ==>
      EqualsAsWritten(g, other).Ok?
      && (EqualsAsWritten(g, other).value <==>
            |PointsFlatMap(g)| == |PointsFlatMap(other.components[0])|
            && multiset(Keys(PointsFlatMap(g))) == multiset(Keys(PointsFlatMap(other.components[0]))))
  {
    if !other.Point? && other.components != [] {
      CollectionEqualsIffSamePoints(g, other.components[0]);
    }
  }

  /**
   * As written, a line string is never equal to itself: its two or more
   * points are compared with the single point of its first component, while
   * the intended comparison holds.
   */
  lemma LineStringNotEqualToItself(g: Geometry)
    requires g.LineString? && Valid(g)
    ensures EqualsAsWritten(g, g) == Ok(false)
    ensures Equals(g, g)
  {
    var cs := g.components;
    assert Accepts(LineStringKind, Some(cs[0])) && Accepts(LineStringKind, Some(cs[1]));
    assert PointsOf(cs) == [cs[0]] + PointsOf(cs[1..]);
    assert PointsOf(cs[1..]) == [cs[1]] + PointsOf(cs[2..]);
    assert |PointsFlatMap(g)| >= 2 && |PointsFlatMap(cs[0])| == 1;
    CollectionEqualsIffSamePoints(g, g);
  }

  // --------------------------------------------------------------- bounding box

  /** getBBox()'s array; PHP holds a null in a field that was read from a null box. */
  datatype BBox = BBox(maxy: Option<Coord>, miny: Option<Coord>, maxx: Option<Coord>, minx: Option<Coord>)

  /** PHP's truth value of a float or null. */
  predicate Truthy(v: Option<Coord>)
  {
    v.Some? && v.value != 0
  }

  /** PHP's `a > b` on floats and nulls: two numbers compare as numbers, a null compares as a boolean. */
  predicate LooseGreater(a: Option<Coord>, b: Option<Coord>)
  {
    if a.Some? && b.Some? then a.value > b.value else Truthy(a) && !Truthy(b)
  }

  function Grow(acc: BBox, b: Option<BBox>): BBox
  {
    var c := b.GetOr(BBox(None, None, None, None));
    BBox(
      if LooseGreater(c.maxy, acc.maxy) then c.maxy else acc.maxy,
      if LooseGreater(acc.miny, c.miny) then c.miny else acc.miny,
      if LooseGreater(c.maxx, acc.maxx) then c.maxx else acc.maxx,
      if LooseGreater(acc.minx, c.minx) then c.minx else acc.minx)
  }

  /**
   * getBBox(): a point spans itself (an empty point fails in getX), an empty
   * collection has none, and any other collection starts from its first
   * component's box (which must be an array) and grows over every component.
   */
  function GetBBox(g: Geometry): Result<Option<BBox>>
    decreases g, 1
  {
    match g
    case Point(c, _) =>
      if c.EmptyCoords? then Err(TypeError)
      else Ok(Some(BBox(Some(c.y), Some(c.y), Some(c.x), Some(c.x))))
    case _ =>
      if IsEmpty(g) then Ok(None)
      else
        assert g.components != [];
        match GetBBox(g.components[0])
        case Err(e) => Err(e)
        case Ok(None) => Err(TypeError)
        case Ok(Some(first)) =>
          match GrowOver(first, g.components)
          case Err(e) => Err(e)
          case Ok(b) => Ok(Some(b))
  }

  function GrowOver(acc: BBox, gs: seq<Geometry>): Result<BBox>
    decreases gs, 0
  {
    if gs == [] then Ok(acc)
    else
      match GetBBox(gs[0])
      case Err(e) => Err(e)
      case Ok(b) => GrowOver(Grow(acc, b), gs[1..])
  }

  /** Every point is non-empty and every collection has components. */
  predicate Solid(g: Geometry)
  {
    match g
    case Point(c, _) => !c.EmptyCoords?
    case _ => g.components != [] && forall c :: c in g.components ==> Solid(c)
  }

  predicate AllSolid(gs: seq<Geometry>)
  {
    forall c :: c in gs ==> Solid(c)
  }

  /** The largest (or smallest) value of a non-empty list. */
  function Extreme(vs: seq<int>, upper: bool): (r: int)
    requires vs != []
    ensures r in vs
    ensures forall v :: v in vs ==> if upper then v <= r else r <= v
  {
    if |vs| == 1 then vs[0]
    else
      var rest := Extreme(vs[1..], upper);
      assert forall v :: v in vs ==> v == vs[0] || v in vs[1..];
      if (upper && vs[0] > rest) || (!upper && vs[0] < rest) then vs[0] else rest
  }

  function Xs(ps: seq<Geometry>): (r: seq<int>)
    requires forall p :: p in ps ==> p.Point? && !p.coords.EmptyCoords?
    ensures |r| == |ps| && forall i :: 0 <= i < |ps| ==> r[i] == ps[i].coords.x
  {
    seq(|ps|, i requires 0 <= i < |ps| => ps[i].coords.x)
  }

  function Ys(ps: seq<Geometry>): (r: seq<int>)
    requires forall p :: p in ps ==> p.Point? && !p.coords.EmptyCoords?
    ensures |r| == |ps| && forall i :: 0 <= i < |ps| ==> r[i] == ps[i].coords.y
  {
    seq(|ps|, i requires 0 <= i < |ps| => ps[i].coords.y)
  }

  /** The box that exactly spans a non-empty list of non-empty points. */
  function Span(ps: seq<Geometry>): (b: BBox)
    requires ps != [] && forall p :: p in ps ==> p.Point? && !p.coords.EmptyCoords?
  {
    BBox(Some(Extreme(Ys(ps), true)), Some(Extreme(Ys(ps), false)),
         Some(Extreme(Xs(ps), true)), Some(Extreme(Xs(ps), false)))
  }

  lemma {:induction false} SolidPoints(g: Geometry)
    requires Solid(g)
    ensures PointsFlatMap(g) != []
    ensures forall p :: p in PointsFlatMap(g) ==> !p.coords.EmptyCoords?
    decreases g, 1
  {
    if !g.Point? {
      SolidPointsOf(g.components);
    }
  }

  lemma {:induction false} SolidPointsOf(gs: seq<Geometry>)
    requires AllSolid(gs)
    ensures gs != [] ==> PointsOf(gs) != []
    ensures forall p :: p in PointsOf(gs) ==> !p.coords.EmptyCoords?
    decreases gs, 0
  {
    if gs != [] {
      SolidPoints(gs[0]);
      SolidPointsOf(gs[1..]);
    }
  }

  lemma ExtremeAppend(a: seq<int>, b: seq<int>, upper: bool)
    requires a != [] && b != []
    ensures Extreme(a + b, upper) == if upper then (if Extreme(a, upper) >= Extreme(b, upper) then Extreme(a, upper) else Extreme(b, upper))
                                     else (if Extreme(a, upper) <= Extreme(b, upper) then Extreme(a, upper) else Extreme(b, upper))
  {
    var m := Extreme(a + b, upper);
    assert m in a || m in b;
    assert Extreme(a, upper) in a + b && Extreme(b, upper) in a + b;
  }

  lemma SpanAppend(a: seq<Geometry>, b: seq<Geometry>)
    requires a != [] && forall p :: p in a ==> p.Point? && !p.coords.EmptyCoords?
    requires b != [] && forall p :: p in b ==> p.Point? && !p.coords.EmptyCoords?
    ensures Span(a + b) == Grow(Span(a), Some(Span(b)))
  {
    assert Xs(a + b) == Xs(a) + Xs(b);
    assert Ys(a + b) == Ys(a) + Ys(b);
    ExtremeAppend(Xs(a), Xs(b), true);
    ExtremeAppend(Xs(a), Xs(b), false);
    ExtremeAppend(Ys(a), Ys(b), true);
    ExtremeAppend(Ys(a), Ys(b), false);
  }

  /** Growing a box over components adds their points to the span. */
  lemma {:induction false} GrowOverSpans(acc: seq<Geometry>, gs: seq<Geometry>)
    requires acc != [] && forall p :: p in acc ==> p.Point? && !p.coords.EmptyCoords?
    requires AllSolid(gs)
    ensures forall p :: p in PointsOf(gs) ==> !p.coords.EmptyCoords?
    ensures GrowOver(Span(acc), gs) == Ok(Span(acc + PointsOf(gs)))
    decreases gs, 0
  {
    SolidPointsOf(gs);
    if gs == [] {
      assert acc + PointsOf(gs) == acc;
    } else {
      GrowOverStep(acc, gs);
    }
  }

  lemma {:induction false} GrowOverStep(acc: seq<Geometry>, gs: seq<Geometry>)
    requires acc != [] && forall p :: p in acc ==> p.Point? && !p.coords.EmptyCoords?
    requires gs != [] && AllSolid(gs)
    ensures forall p :: p in PointsOf(gs) ==> !p.coords.EmptyCoords?
    ensures GrowOver(Span(acc), gs) == Ok(Span(acc + PointsOf(gs)))
    decreases gs, 0, 0
  {
    SolidPointsOf(gs);
    var g := gs[0];
    GetBBoxSpans(g);
    var f := PointsFlatMap(g);
    var acc' := acc + f;
    SpanAppend(acc, f);
    var grown := Grow(Span(acc), Some(Span(f)));
    assert GrowOver(Span(acc), gs) == GrowOver(grown, gs[1..]);
    assert grown == Span(acc');
    GrowOverSpans(acc', gs[1..]);
    var r := PointsOf(gs[1..]);
    PointsOfCons(gs);
    ConcatAssoc(acc, f, r);
  }

  lemma ConcatAssoc<T>(a: seq<T>, b: seq<T>, c: seq<T>)
    ensures (a + b) + c == a + (b + c)
  {
  }

  lemma PointsOfCons(gs: seq<Geometry>)
    requires gs != []
    ensures PointsOf(gs) == PointsFlatMap(gs[0]) + PointsOf(gs[1..])
  {
  }

  /** The box of a geometry with no empty parts spans exactly its points. */
  lemma {:induction false} GetBBoxSpans(g: Geometry)
    requires Solid(g)
    ensures PointsFlatMap(g) != [] && forall p :: p in PointsFlatMap(g) ==> !p.coords.EmptyCoords?
    ensures GetBBox(g) == Ok(Some(Span(PointsFlatMap(g))))
    decreases g, 1
  {
    SolidPoints(g);
    if !g.Point? {
      var cs := g.components;
      assert !IsEmpty(g) by {
        IsEmptyIffPointsEmpty(g);
        var p := PointsFlatMap(g)[0];
        assert p in PointsFlatMap(g);
      }
      GetBBoxSpans(cs[0]);
      var f := PointsFlatMap(cs[0]);
      GrowOverSpans(f, cs);
      assert cs == [cs[0]] + cs[1..];
      assert PointsOf(cs) == f + PointsOf(cs[1..]);
      SpanAppend(f, PointsOf(cs));
      SpanIdempotentPrefix(f, PointsOf(cs[1..]));
    } else {
      assert Xs([g]) == [g.coords.x] && Ys([g]) == [g.coords.y];
    }
  }

  lemma SpanIdempotentPrefix(f: seq<Geometry>, rest: seq<Geometry>)
    requires f != [] && forall p :: p in f + rest ==> p.Point? && !p.coords.EmptyCoords?
    ensures Span(f + (f + rest)) == Span(f + rest)
  {
    var xs := Xs(f + (f + rest));
    var ys := Ys(f + (f + rest));
    assert Xs(f + (f + rest)) == Xs(f) + Xs(f + rest);
    assert Ys(f + (f + rest)) == Ys(f) + Ys(f + rest);
    assert Xs(f + rest) == Xs(f) + Xs(rest);
    assert Ys(f + rest) == Ys(f) + Ys(rest);
    SpanSameValues(Xs(f) + Xs(f + rest), Xs(f + rest));
    SpanSameValues(Ys(f) + Ys(f + rest), Ys(f + rest));
  }

  lemma SpanSameValues(a: seq<int>, b: seq<int>)
    requires a != [] && b != []
    requires forall v :: v in a <==> v in b
    ensures Extreme(a, true) == Extreme(b, true) && Extreme(a, false) == Extreme(b, false)
  {
  }

  /** The box of a geometry with no empty parts bounds every point, and each bound is met by some point. */
  lemma GetBBoxBounds(g: Geometry)
    requires Solid(g)
    ensures GetBBox(g).Ok? && GetBBox(g).value.Some?
    ensures var b := GetBBox(g).value.value;
      b.maxx.Some? && b.minx.Some? && b.maxy.Some? && b.miny.Some?
      && (forall p :: p in PointsFlatMap(g) ==>
            (!p.coords.EmptyCoords? && b.minx.value <= p.coords.x <= b.maxx.value && b.miny.value <= p.coords.y <= b.maxy.value))
      && (exists p :: p in PointsFlatMap(g) && !p.coords.EmptyCoords? && p.coords.x == b.maxx.value)
      && (exists p :: p in PointsFlatMap(g) && !p.coords.EmptyCoords? && p.coords.x == b.minx.value)
      && (exists p :: p in PointsFlatMap(g) && !p.coords.EmptyCoords? && p.coords.y == b.maxy.value)
      && (exists p :: p in PointsFlatMap(g) && !p.coords.EmptyCoords? && p.coords.y == b.miny.value)
  {
    GetBBoxSpans(g);
    var ps := PointsFlatMap(g);
    var xs := Xs(ps);
    var ys := Ys(ps);
    forall p | p in ps
      ensures Extreme(xs, false) <= p.coords.x <= Extreme(xs, true)
      ensures Extreme(ys, false) <= p.coords.y <= Extreme(ys, true)
    {
      var i :| 0 <= i < |ps| && ps[i] == p;
      assert xs[i] in xs && ys[i] in ys;
    }
    var i1 :| 0 <= i1 < |xs| && xs[i1] == Extreme(xs, true);
    assert ps[i1] in ps;
    var i2 :| 0 <= i2 < |xs| && xs[i2] == Extreme(xs, false);
    assert ps[i2] in ps;
    var i3 :| 0 <= i3 < |ys| && ys[i3] == Extreme(ys, true);
    assert ps[i3] in ps;
    var i4 :| 0 <= i4 < |ys| && ys[i4] == Extreme(ys, false);
    assert ps[i4] in ps;
  }
}
