/**
 * Factory::wrap and Factory::reduce: a list of geometries is wrapped into
 * the narrowest collection class that holds it, and a geometry (or list) is
 * reduced to its "lowest" form.
 *
 * The SingleGeometryElement interface is not part of this model; Point,
 * LineString and Polygon are taken to be the single elements (LineString and
 * Polygon implement SimpleCollection, which is used in its place).  Only
 * MultiLineString is a MultiGeometryElement: MultiPoint and MultiPolygon
 * implement MultiCollection instead.
 */
module Reduction {
  import opened Wrappers
  import opened Types

  predicate IsSingle(g: Geometry)
  {
    g.Point? || g.LineString? || g.Polygon?
  }

  predicate IsMultiElement(g: Geometry)
  {
    g.MultiLineString?
  }

  /** All geometries have the geometry type of the first. */
  predicate OneKind(gs: seq<Geometry>)
    requires gs != []
  {
    forall i :: 0 <= i < |gs| ==> KindOf(gs[i]) == KindOf(gs[0])
  }

  /** geometryList()['Multi' . type]: only Point, LineString and Polygon have a Multi class. */
  function MultiKind(k: Kind): (r: Option<Kind>)
    ensures r.Some? ==> r.value != PointKind && ComponentKind(r.value) == Some(k)
  {
    match k
    case PointKind => Some(MultiPointKind)
    case LineStringKind => Some(MultiLineStringKind)
    case PolygonKind => Some(MultiPolygonKind)
    case _ => None
  }

  /**
   * wrap($geometries): nothing for an empty list, a GeometryCollection of the
   * list when its types differ, the geometry itself when there is one, and
   * the Multi class of the common type otherwise (an undefined class when
   * that type has none).
   */
  function Wrap(gs: seq<Geometry>): (r: Result<Option<Geometry>>)
    ensures r.Ok? && r.value.None? <==> gs == []
    ensures r.Err? ==> r.error == UnknownClass
  {
    if gs == [] then Ok(None)
    else if !OneKind(gs) then
      match NewCollection(GeometryCollectionKind, Somes(gs))
      case Err(e) => Err(e)
      case Ok(c) => Ok(Some(c))
    else if |gs| == 1 then Ok(Some(gs[0]))
    else
      match MultiKind(KindOf(gs[0]))
      case None => Err(UnknownClass)
      case Some(k) =>
        match NewCollection(k, Somes(gs))
        case Err(e) => Err(e)
        case Ok(c) => Ok(Some(c))
  }

  /** wrap() cannot fail when the common type has a Multi class, and the result holds exactly the list. */
  lemma WrapShape(gs: seq<Geometry>)
    requires gs != []
    ensures !OneKind(gs) ==> Wrap(gs) == Ok(Some(GeometryCollection(gs, 0)))
    ensures OneKind(gs) && |gs| == 1 ==> Wrap(gs) == Ok(Some(gs[0]))
    ensures OneKind(gs) && |gs| >= 2 ==>
      (Wrap(gs).Ok? <==> MultiKind(KindOf(gs[0])).Some?)
      && (Wrap(gs).Ok? ==> Wrap(gs) == Ok(Some(Make(MultiKind(KindOf(gs[0])).value, gs))))
  {
    if OneKind(gs) && |gs| >= 2 && MultiKind(KindOf(gs[0])).Some? {
      var k := MultiKind(KindOf(gs[0])).value;
      assert forall i :: 0 <= i < |gs| ==> Accepts(k, Somes(gs)[i]);
      assert NewCollection(k, Somes(gs)).value.components == gs;
    }
    if !OneKind(gs) {
      assert NewCollection(GeometryCollectionKind, Somes(gs)).value.components == gs;
    }
  }

  /** wrap() keeps every point, in order. */
  lemma WrapKeepsPoints(gs: seq<Geometry>)
    requires Wrap(gs).Ok? && Wrap(gs).value.Some?
    ensures PointsFlatMap(Wrap(gs).value.value) == PointsOf(gs)
  {
    WrapShape(gs);
    if OneKind(gs) && |gs| == 1 {
      PointsOfSingle(gs[0]);
    }
  }

  /** wrap() of constructible geometries is constructible. */
  lemma WrapValid(gs: seq<Geometry>)
    requires forall c :: c in gs ==> Valid(c)
    requires Wrap(gs).Ok? && Wrap(gs).value.Some?
    ensures Valid(Wrap(gs).value.value)
  {
    WrapShape(gs);
    if !(OneKind(gs) && |gs| == 1) {
      var g := Wrap(gs).value.value;
      assert g.components == gs;
      if OneKind(gs) {
        assert forall i :: 0 <= i < |gs| ==> Accepts(KindOf(g), Some(gs[i]));
      }
    }
  }

  /** What the reduce loop takes from one item: a single element itself, anything else its components. */
  function Piece(g: Geometry): (r: seq<Geometry>)
    ensures PointsOf(r) == PointsFlatMap(g)
  {
    PointsOfSingle(g);
    if IsSingle(g) then [g] else g.components
  }

  /** The reduce loop: null items are skipped, the others contribute their pieces. */
  function Flatten(items: seq<Option<Geometry>>): (r: seq<Geometry>)
  {
    if items == [] then []
    else if items[0].None? then Flatten(items[1..])
    else Piece(items[0].value) + Flatten(items[1..])
  }

  /** The non-null items, in order. */
  function Present(items: seq<Option<Geometry>>): (r: seq<Geometry>)
    ensures forall g :: g in r ==> Some(g) in items
  {
    if items == [] then []
    else if items[0].None? then Present(items[1..])
    else [items[0].value] + Present(items[1..])
  }

  /** Flattening keeps every point of every non-null item, in order. */
  lemma {:induction false} FlattenKeepsPoints(items: seq<Option<Geometry>>)
    ensures PointsOf(Flatten(items)) == PointsOf(Present(items))
  {
    if items != [] {
      FlattenKeepsPoints(items[1..]);
      if items[0].Some? {
        var g := items[0].value;
        PointsOfAppend(Piece(g), Flatten(items[1..]));
        PointsOfAppend([g], Present(items[1..]));
        PointsOfSingle(g);
      }
    }
  }

  /** Flattening constructible geometries gives constructible geometries. */
  lemma {:induction false} FlattenValid(items: seq<Option<Geometry>>)
    requires forall i :: 0 <= i < |items| && items[i].Some? ==> Valid(items[i].value)
    ensures forall c :: c in Flatten(items) ==> Valid(c)
  {
    if items != [] {
      FlattenValid(items[1..]);
    }
  }

  /**
   * reduce($geometry): a single element is returned as it is; a
   * multi-line string with one line becomes that line and otherwise stays;
   * any other collection is replaced by wrap() of its components.
   */
  function Reduce(g: Geometry): (r: Result<Option<Geometry>>)
  {
    if IsSingle(g) then Ok(Some(g))
    else if IsMultiElement(g) then
      if |g.components| == 1 then Ok(Some(g.components[0])) else Ok(Some(g))
    else Wrap(Flatten([Some(g)]))
  }

  /**
   * reduce($geometries): nothing for an empty list, reduce() of the only
   * item (a null item is a TypeError), and otherwise wrap() of the
   * flattened non-null items.
   */
  function ReduceList(items: seq<Option<Geometry>>): (r: Result<Option<Geometry>>)
  {
    if items == [] then Ok(None)
    else if |items| == 1 then
      if items[0].None? then Err(TypeError) else Reduce(items[0].value)
    else Wrap(Flatten(items))
  }

  lemma FlattenOne(g: Geometry)
    ensures Flatten([Some(g)]) == Piece(g)
  {
    assert [Some(g)][1..] == [];
  }

  /**
   * reduce() keeps every point in order; it answers null only for a
   * collection without components.
   */
  lemma ReduceKeepsPoints(g: Geometry)
    requires Reduce(g).Ok?
    ensures Reduce(g).value.None? <==> !IsSingle(g) && !IsMultiElement(g) && g.components == []
    ensures Reduce(g).value.Some? ==> PointsFlatMap(Reduce(g).value.value) == PointsFlatMap(g)
  {
    FlattenOne(g);
    if IsMultiElement(g) && |g.components| == 1 {
      PointsOfSingle(g.components[0]);
    } else if !IsSingle(g) && !IsMultiElement(g) && g.components != [] {
      WrapKeepsPoints(g.components);
    }
  }

  /** reduce() of a constructible geometry is constructible. */
  lemma ReduceValid(g: Geometry)
    requires Valid(g) && Reduce(g).Ok? && Reduce(g).value.Some?
    ensures Valid(Reduce(g).value.value)
  {
    FlattenOne(g);
    if !IsSingle(g) {
      assert g.components[0] in g.components;
      if !IsMultiElement(g) {
        WrapValid(g.components);
      }
    }
  }

  /** reduce() of a list keeps the points of its non-null items, in order. */
  lemma ReduceListKeepsPoints(items: seq<Option<Geometry>>)
    requires ReduceList(items).Ok? && ReduceList(items).value.Some?
    ensures PointsFlatMap(ReduceList(items).value.value) == PointsOf(Present(items))
  {
    if |items| == 1 {
      var g := items[0].value;
      ReduceKeepsPoints(g);
      assert Present(items) == [g];
      PointsOfSingle(g);
    } else {
      WrapKeepsPoints(Flatten(items));
      FlattenKeepsPoints(items);
    }
  }

  /** reduce() of a list of constructible geometries is constructible. */
  lemma ReduceListValid(items: seq<Option<Geometry>>)
    requires forall i :: 0 <= i < |items| && items[i].Some? ==> Valid(items[i].value)
    requires ReduceList(items).Ok? && ReduceList(items).value.Some?
    ensures Valid(ReduceList(items).value.value)
  {
    if |items| == 1 {
      ReduceValid(items[0].value);
    } else {
      FlattenValid(items);
      WrapValid(Flatten(items));
    }
  }

  /**
   * reduce() is not idempotent: a collection holding one collection of two
   * points reduces to the inner collection, which reduces again to a
   * multi-point.
   */
  lemma ReduceNotIdempotent()
    ensures var p := Point(XY(0, 0), 0);
      var q := Point(XY(1, 1), 0);
      var inner := GeometryCollection([p, q], 0);
      Reduce(GeometryCollection([inner], 0)) == Ok(Some(inner))
      && Reduce(inner) == Ok(Some(MultiPoint([p, q], 0)))
  {
    var p := Point(XY(0, 0), 0);
    var q := Point(XY(1, 1), 0);
    var inner := GeometryCollection([p, q], 0);
    FlattenOne(GeometryCollection([inner], 0));
    FlattenOne(inner);
    WrapShape([inner]);
    WrapShape([p, q]);
  }

  /**
   * Two multi-geometries of one class have no common Multi class: reducing a
   * geometry collection of two multi-points fails.
   */
  lemma ReduceOfMultiPointsFails(a: Geometry, b: Geometry, srid: int)
    requires a.MultiPoint? && b.MultiPoint?
    ensures Reduce(GeometryCollection([a, b], srid)) == Err(UnknownClass)
  {
    FlattenOne(GeometryCollection([a, b], srid));
  }
}
