# Geometry core of lyhty/geometry, in Dafny

This project models the core of the PHP library lyhty/geometry, without
GEOS. Dafny proves properties of the model.

- **Geometry tree**, in `types.dfy` and `shapes.dfy`. The model has seven
  variants: Point, LineString, Polygon, MultiPoint, MultiLineString,
  MultiPolygon and GeometryCollection.
  - Construction is checked against each class's minimum count and
    component class.
  - Every query is modelled: points flat map, `numPoints`, `dimension`,
    `isEmpty`, `geometryN`, `equals` and the bounding box.
  - `Collection::equals` is modelled twice: as written, where the
    fallback closure receives the other geometry's first component, and
    as intended, a comparison of the two flattened point lists as
    multisets.
  - Line-string, polygon and multi-line-string accessors are modelled,
    and so are the GeoJSON arrays.
- **`envelope()` fallback and zero defaults**, in `operations.dfy`. The
  zero-valued `area()` and `length()` defaults are in `shapes.dfy`.
- **`boundary()` of a homogeneous collection**, in `boundary.dfy`.
- **`Factory::wrap` and `Factory::reduce`**, in `reduction.dfy`.
- **`detectFormat`, `geometryList` and `lcGeometryList`**, in
  `formats.dfy`. Proofs about them are in `format_proofs.dfy`.
- **The adapter registry**, in `registry.dfy`, with proofs in
  `registry_proofs.dfy`.
  - `makeAdapter` and `extend` are methods of the `Factory` class, whose
    two extension maps are fields.
  - `parse` is a method specified by a function.
- **The WKT reader and writer**, in `wkt.dfy`. Proofs are in
  `wkt_proofs.dfy` and `wkt_roundtrip.dfy`; `wkt_lost.dfy` follows a
  multi-polygon through the writer as it stands and back through the
  reader.
  - This covers `trimParens`, `getDataString` and the keyword dispatch.
  - It also covers every `parse…` function and `write`/`extractData`.
  - The EWKT `SRID=n;` prefix is in `ewkt.dfy`.
- **The legacy `_WKB` and `_EWKB` codecs.**
  - A pure specification is in `wkb.dfy` and `ewkb.dfy`: a reader is a
    function from a byte string and a cursor state to an outcome and the
    next state.
  - The imperative adapters are in `wkb_adapter.dfy` and
    `ewkb_adapter.dfy`. The reader is a class whose `dimension`, `z` and
    `m` fields change mid-read. It reads from a stream object with a byte
    sequence and a position. Each method is proved equal to the
    specification function.
  - Round trips are proved in `wkb_proofs.dfy` and `ewkb.dfy`.

Coordinates are integers, standing in for PHP floats. A double is packed
as its 8-byte little-endian two's complement, which inverts on the 64-bit
range. A WKT coordinate is written as a decimal integer, and `floatval`
reads the leading integer of a text.

## Model

Most operations are functions whose meaning is stated by the lemmas about
them rather than by a contract of their own. Each is listed here with the
rows that state it:

- `Types.Equals`: `Types.CollectionEqualsIffSamePoints`, `Types.PointEqualsByKey`; as written, `Types.EqualsAsWritten`: `Types.EqualsAsWrittenComparesFirst`, `Types.LineStringNotEqualToItself`.
- `Types.IsEmpty`: `Types.IsEmptyIffPointsEmpty`, `Types.AllEmptyIffPointsEmpty`.
- `Types.NumPoints`: `Types.NumPointsCountsFlatMap`, `Shapes.LineNumPoints`.
- `Types.Dimension`: `Types.MaxDimension`, `Types.DimensionAtMostTwo`.
- `Types.GetBBox`: `Types.GetBBoxSpans`, `Types.GetBBoxBounds`, `Operations.GrowOverNullPart`.
- `Shapes.NumInteriorRings`: `Shapes.InteriorRingsOffByOne`.
- `Shapes.Explode`: `Shapes.Segments`, `Shapes.SegmentsChain`, `Shapes.ExplodeLines`, `Shapes.ExplodeCountsEdges`, `Shapes.ExplodeMultiPointFails`.
- `Shapes.Area` and `Shapes.Length`: `Shapes.AreaWithoutSurface`, `Shapes.LengthWithoutLines`.
- `Operations.Envelope`: the `Operations.Envelope…` rows.
- `Boundary.Boundary`: the `Boundary.Boundary…` rows.
- `Reduction.Reduce` and `Reduction.ReduceList`: `Reduction.ReduceKeepsPoints`, `Reduction.ReduceValid`, `Reduction.ReduceListKeepsPoints`, `Reduction.ReduceListValid`, `Reduction.ReduceNotIdempotent`, `Reduction.ReduceOfMultiPointsFails`.
- `Formats.DetectFormat`: the `FormatProofs` rows and `RegistryProofs.DetectFormatRange`.
- `Wkt.Read`, `Wkt.WriteWith`, `Wkt.Write` and `Wkt.WriteAsWritten`: the `WktProofs`, `WktRoundTrip` and `WktLost` rows.
- `Ewkt.Read` and `Ewkt.Write`: `Ewkt.WriteWith`, `Ewkt.RoundTrip`, `Ewkt.EmptyRoundTrip`, `Ewkt.PrefixedRead`, `Ewkt.ReadWithSrid`.
- `Wkb.Read` and `Wkb.Write`: `WkbProofs.RoundTrip`, `WkbProofs.RecordBack`, `Wkb.Record`, and the methods of `WkbAdapter.Adapter`, each proved equal to them.
- `Ewkb.Read` and `Ewkb.WriteWithSrid`: `Ewkb.RoundTrip`, `Ewkb.FlaggedBack`, `Ewkb.Unflagged`, `Ewkb.ReadWithoutSrid`, `Ewkb.ShortSrid`, `EwkbAdapter.Read`.
- `Registry.Parsed`: `Registry.Factory.Parse` and the `RegistryProofs.Parse…` rows.
- `Registry.Extended`: `Registry.Factory.Extend`, `RegistryProofs.ExtendAccepts`, `RegistryProofs.ExtendedAdapter`, `RegistryProofs.ExtendLeavesOthers`, `RegistryProofs.ExtendTwice`.


| member | source | states |
|---|---|---|
| Types.TypeNameInjective | src/Types/Geometry.php:32-35 | two geometries have the same `geometryType()` tag exactly when they are of the same class |
| Types.NewCollection | src/Types/Collection.php:401-447 | construction fails with too-few-components when the count is below the class minimum, and otherwise with wrong-component-type when some item is not of the component class; it succeeds exactly when neither holds, and then holds exactly the given components with no SRID |
| Types.NewPoint | src/Types/Point.php:23-59 | construction fails exactly when only one of x and y is given; the point is empty exactly when x is missing; otherwise it holds x and y, and is 3-D with z exactly when z is given |
| Types.NewCollectionValid | src/Types/Collection.php:30-35 | a collection constructed from valid geometries is valid |
| Types.SetSrid | src/Types/Geometry.php:138-146 | after `setSRID(n)`, `SRID()` is n and the class, coordinates and components are unchanged |
| Types.SetSridKeepsShape | src/Types/Geometry.php:125-146 | setting the SRID keeps validity either way, and setting the old SRID back restores the geometry |
| Types.HasZ | src/Types/Geometry.php:148-152 | `hasZ()` is false for every geometry |
| Types.CoordinateDimension | src/Types/Geometry.php:166-170 | `coordinateDimension()` is 2 for every geometry |
| Types.GetX | src/Types/Point.php:66-69 | `getX()` is the x of a non-empty point; on an empty point, returning null from a float method is a TypeError |
| Types.GetY | src/Types/Point.php:86-89 | `getY()` is the y of a non-empty point and a TypeError on an empty one |
| Types.GetZ | src/Types/Point.php:106-111 | `z()` is present exactly for a 3-D point, and is its z |
| Types.PointEqualsByKey | src/Types/Point.php:187-200 | two points are equal exactly when both are empty or both have the same x and y (z ignored); equality is symmetric |
| Types.GeometryN | src/Types/Collection.php:196-203 | `geometryN(n)` is present exactly for 1 <= n <= count, and is then the n-th component |
| Types.PointsOfAppend | src/Types/Collection.php:294-302 | the flattened points of a concatenation are the concatenation of the flattened points |
| Types.IsEmptyIffPointsEmpty | src/Types/Collection.php:263-276 | a geometry is empty exactly when every point of its flat map is the empty point |
| Types.AllEmptyIffPointsEmpty | src/Types/Collection.php:263-276 | every component is empty exactly when every flattened point of the components is empty |
| Types.NumPointsCountsFlatMap | src/Types/Collection.php:281-289 | `numPoints()` of a valid geometry is the length of its flat map |
| Types.NumPointsOfCountsFlatMap | src/Types/Collection.php:281-289 | the summed `numPoints()` of valid components is the length of their joined flat maps |
| Types.MaxDimension | src/Types/Collection.php:247-258 | `dimension()` of a collection is at least each component's dimension and is 0 or some component's dimension |
| Types.DimensionAtMostTwo | src/Types/Collection.php:247-258 | no geometry has a dimension above 2 |
| Types.FirstMatch | src/Types/Collection.php:330-336 | the inner search finds the first point equal to the given one, or reports that none is |
| Types.GreedyMatchIffSameKeys | src/Types/Collection.php:329-340 | matching each point against the first equal remaining point, removing it, succeeds exactly when both point lists hold the same multiset of coordinates |
| Types.CollectionEqualsIffSamePoints | src/Types/Collection.php:309-345 | `Equals`, the closure's comparison applied to the other geometry itself as intended, holds exactly when the two flat maps have the same length and the same multiset of coordinates, order ignored |
| Types.EqualsAsWrittenComparesFirst | src/Concerns/InteractsWithGeos.php:79-87 | as written, `value($fallback, ...$arguments)` spreads the other geometry: a point cannot be spread, an empty collection leaves the closure without its argument, and otherwise this collection's points are compared with those of the other's first component |
| Types.LineStringNotEqualToItself | src/Types/Collection.php:309-311 | as written, a valid line string is not equal to itself, while the intended comparison holds |
| Types.GetBBoxSpans | src/Types/Collection.php:85-130 | for a geometry without empty parts, `getBBox()` is the span of all its points: the least and greatest x and y among them |
| Types.GetBBoxBounds | src/Types/Collection.php:114-129 | every point lies within the box and each bound is attained by some point |
| Shapes.PointN | src/Types/LineString.php:90-93 | `pointN(n)` is present exactly for 1 <= n <= count, and is then the n-th point |
| Shapes.StartPoint | src/Types/LineString.php:37-40 | `startPoint()` is the first point, and is missing exactly for an empty line |
| Shapes.EndPoint | src/Types/LineString.php:47-52 | `endPoint()` is the last point, and is missing exactly for an empty line |
| Shapes.IsClosedIff | src/Types/LineString.php:59-62 | a line string is closed exactly when its first and last points are equal |
| Shapes.LineNumPoints | src/Types/LineString.php:79-82 | the `numPoints()` of a line string or multi-point is its component count and the length of its flat map, which is its components |
| Shapes.Segments | src/Types/LineString.php:190-202 | `explode()` gives one two-point segment per pair of consecutive points, in order |
| Shapes.SegmentsChain | src/Types/LineString.php:190-202 | the segments are valid and chain: each ends where the next starts, the first starts at the line's start and the last ends at its end |
| Shapes.ExplodeLines | src/Types/Collection.php:372-383 | exploding line strings gives two-point segments, as many as points minus lines |
| Shapes.ExplodeCountsEdges | src/Types/Collection.php:372-383 | a polygon or multi-line string explodes into numPoints - numGeometries segments |
| Shapes.ExplodeMultiPointFails | src/Types/Collection.php:372-383 | exploding a multi-point merges `Point::explode()`'s null into an array, which is a TypeError |
| Shapes.ExteriorRing | src/Types/Polygon.php:154-161 | the exterior ring is the first ring; `new LineString` fails with too few components exactly for an empty polygon |
| Shapes.InteriorRingN | src/Types/Polygon.php:183-186 | `interiorRingN(n)` is present exactly for 0 <= n < ring count, and is the ring at 0-based index n |
| Shapes.InteriorRingsOffByOne | src/Types/Polygon.php:168-186 | `interiorRingN` reaches n = `numInteriorRings()`, and `interiorRingN(0)` is the exterior ring |
| Shapes.AnyEqualIff | src/Types/Polygon.php:287-294 | the vertex loop finds a match exactly when some vertex equals the point |
| Shapes.PointOnVertexIff | src/Types/Polygon.php:287-294 | `pointOnVertex(p)` holds exactly when p's coordinates are among the polygon's vertices |
| Shapes.AllClosedIff | src/Types/MultiLineString.php:28-37 | the loop over lines is true exactly when every line is closed |
| Shapes.MultiIsClosedIff | src/Types/MultiLineString.php:28-37 | a multi-line string is closed exactly when each of its lines is closed |
| Shapes.GeoJsonDataKey | src/Types/GeometryCollection.php:21-24 | the GeoJSON data key is "geometries" exactly for a geometry collection |
| Shapes.ToGeoJsonArray | src/Types/GeometryCollection.php:33-42 | the GeoJSON array is a list, and a collection's has one entry per component |
| Shapes.ToArray | src/Concerns/Formatting.php:56-62 | `toArray()` is the type name and the data under the class's key |
| Shapes.CoordinatesInjective | src/Types/Point.php:139-150 | different point coordinates give different coordinate arrays |
| Shapes.ToArrayInjective | src/Types/GeometryCollection.php:26-42 | two valid geometries with the same `toArray()` are equal apart from their SRID |
| Shapes.ToGeoJsonArrayInjective | src/Types/Collection.php:135-143 | two valid geometries of one class with the same GeoJSON array are equal apart from their SRID |
| Shapes.AreaWithoutSurface | src/Types/Collection.php:150-163 | without GEOS, `area()` is a sum of zero defaults, 0, exactly when the geometry holds no non-empty polygon; a polygon's shoelace sum is left undetermined |
| Shapes.AreaOfWithoutSurface | src/Concerns/Operations.php:20-23 | the summed area of components is determined, and 0, exactly when none holds a non-empty polygon |
| Shapes.LengthWithoutLines | src/Types/Collection.php:208-216 | `length()` is a sum of zero defaults, 0, exactly when the geometry holds no line string; a line's Euclidean length is left undetermined |
| Shapes.LengthOfWithoutLines | src/Concerns/Operations.php:184-187 | the summed length of components is determined, and 0, exactly when none holds a line string |
| Operations.EnvelopeOfEmpty | src/Concerns/Operations.php:106-108 | the envelope of an empty geometry fails: `new Polygon` has too few rings |
| Operations.EnvelopeOfSolid | src/Concerns/Operations.php:104-128 | the envelope of a geometry without empty parts is a valid one-ring polygon whose closed ring runs through the corners of its points' span, and every point lies in that box |
| Operations.EnvelopeOfBox | src/Concerns/Operations.php:112-125 | for a bounding box (minx, miny, maxx, maxy), the envelope is the one-ring polygon whose ring is (maxx,miny), (maxx,maxy), (minx,maxy), (minx,miny), (maxx,miny) |
| Operations.RingValid | src/Concerns/Operations.php:114-124 | that ring makes a valid polygon and is closed |
| Operations.GrowOverNullPart | src/Types/Collection.php:114-122 | growing a box over parts with null boxes or boxes with a non-zero minimum x keeps numbers in maxx and maxy, and minx turns null at the first null part and stays null |
| Operations.EnvelopeWithNullPart | src/Concerns/Operations.php:112-125 | a collection whose first part has a box, whose parts have null boxes or boxes with a non-zero minimum x, and one of whose parts has a null box, fails to build its envelope: two corners get a null x |
| Operations.EnvelopeWithEmptyPart | src/Concerns/Operations.php:112-125 | every collection whose first part has points, whose parts have points or are empty collections, one part being empty, and none of whose points has x = 0, fails to build its envelope in the Point constructor |
| Operations.EnvelopeWithPartAtZero | src/Concerns/Operations.php:112-125 | the x = 0 exception: POINT(0 0) beside an empty collection keeps its zero minimum x, and the envelope is the one-ring polygon at the origin |
| Boundary.BoundaryOfEmpty | src/Types/HomogenousCollection.php:16-18 | the boundary of an empty homogeneous collection fails: `new LineString` has too few points |
| Boundary.BoundaryOfOne | src/Types/HomogenousCollection.php:23-29 | a one-component collection's boundary is its component's boundary (or the same failure) |
| Boundary.BoundaryOfMultiPoint | src/Types/HomogenousCollection.php:23-27 | a point has no `boundary()`, so a multi-point's fails as an undefined method |
| Boundary.BoundaryAllPolygons | src/Types/HomogenousCollection.php:23-27 | the boundaries of non-empty polygons are their exterior rings, in order |
| Boundary.BoundaryOfMultiPolygon | src/Types/HomogenousCollection.php:14-31 | a multi-polygon's boundary is the single exterior ring, or the multi-line string of all the exterior rings |
| Boundary.FlattenRings | src/Factory.php:258-275 | reducing a list of rings keeps them as they are |
| Reduction.MultiKind | src/Factory.php:186-189 | the `Multi<T>` class exists for Point, LineString and Polygon only, and holds T |
| Reduction.Wrap | src/Factory.php:170-190 | `wrap` gives nothing exactly for an empty list, and fails only for an undefined Multi class |
| Reduction.WrapShape | src/Factory.php:170-190 | mixed types give a collection of the list; one geometry gives itself; n >= 2 of one type give `Multi<T>` of them, which fails exactly when that class does not exist |
| Reduction.WrapKeepsPoints | src/Factory.php:170-190 | wrapping keeps the flattened points, in order |
| Reduction.WrapValid | src/Factory.php:170-190 | wrapping valid geometries gives a valid geometry |
| Reduction.Piece | src/Factory.php:263-271 | each item contributes the same points, whether kept or replaced by its components |
| Reduction.FlattenKeepsPoints | src/Factory.php:258-275 | dropping null items and opening the non-single ones keeps the points of the items present |
| Reduction.FlattenValid | src/Factory.php:258-275 | the flattened list of valid items holds valid geometries |
| Reduction.ReduceKeepsPoints | src/Factory.php:228-276 | `reduce` gives nothing only for an empty non-single collection, and otherwise keeps the flattened points |
| Reduction.ReduceValid | src/Factory.php:228-276 | reducing a valid geometry gives a valid geometry |
| Reduction.ReduceListKeepsPoints | src/Factory.php:231-239 | reducing a list keeps the points of its present items |
| Reduction.ReduceListValid | src/Factory.php:231-239 | reducing a list of valid geometries gives a valid geometry |
| Reduction.ReduceNotIdempotent | src/Factory.php:258-275 | reduce opens one level only: reducing a collection holding a two-point collection gives that collection, which reduces further to a multi-point |
| Reduction.ReduceOfMultiPointsFails | src/Factory.php:249-275 | a collection of two multi-points reduces to an undefined `MultiMultiPoint` class |
| Formats.Prefix | src/Factory.php:288-291 | the first n bytes, or the whole text when shorter |
| Formats.Run | src/Factory.php:371-372 | the longest leading run of `[a-z0-9]` |
| Formats.CombineDistinct | src/Factory.php:407-415 | `array_combine` of distinct keys maps each key to its value and has no other key |
| Formats.EveryClassListed | src/Factory.php:82-90 | every geometry class is in `$geometries` |
| Formats.GeometryListOf | src/Factory.php:407-415 | `geometryList()` maps each type name to its class, and every key is its class's type name |
| Formats.MultiClassOf | src/Factory.php:186-189 | `geometryList()['Multi'.T]` exists exactly when T has a Multi class, and is that class |
| Formats.NoMultiOfMulti | src/Factory.php:186-189 | no class is named `Multi` + the name of a class without a Multi variant |
| Formats.LowerNameOf | src/Factory.php:422-428 | the lower-cased name of each class |
| Formats.LowerNameInjective | src/Factory.php:422-428 | different classes have different lower-cased names |
| Formats.LcGeometryListOf | src/Factory.php:422-428 | `lcGeometryList()` maps each lower-cased type name to the type name, and every key is its value lower-cased |
| FormatProofs.RunOfHashText | src/Factory.php:371-372 | a text of `[a-z0-9]` is its own leading run |
| FormatProofs.HashMatchShorter | src/Factory.php:371-372 | a match is no longer than the text |
| FormatProofs.HashMatchWhole | src/Factory.php:371-375 | the match is the whole text exactly when the text is non-empty and all `[a-z0-9]` |
| FormatProofs.GeoHashDetected | src/Factory.php:368-377 | a run of `[a-z0-9]` that is not hex WKB is detected as "geo_hash" |
| FormatProofs.FallThrough | src/Factory.php:295-377 | a text whose first byte starts no other format is "geo_hash" or nothing, by its trimmed first eight bytes |
| FormatProofs.LeadingSpaceIgnored | src/Factory.php:300-304 | tabs, line feeds and spaces in front of a text do not change its format |
| FormatProofs.InitialDetected | src/Factory.php:336-340 | a text starting with P, L, M or G is "wkt" |
| FormatProofs.KeywordInitial | src/Adapters/Wkt.php:58-74 | every WKT keyword starts with P, L, M or G |
| FormatProofs.WktDetected | src/Factory.php:336-340 | whatever the WKT writer writes is detected as "wkt" |
| FormatProofs.EwktDetected | src/Factory.php:331-334 | whatever the EWKT writer writes for a geometry with an SRID is detected as "ewkt" |
| FormatProofs.WkbDetected | src/Factory.php:306-314 | a WKB record is detected as "wkb" |
| FormatProofs.EwkbDetected | src/Factory.php:306-314 | an EWKB record with the SRID flag is detected as "ewkb" |
| FormatProofs.HexWkbDetected | src/Factory.php:316-324 | the hex of nine or more bytes starting with the order byte 1 is detected as "ewkb:1" |
| FormatProofs.HexDigitsAreHashChars | src/Adapters/_WKB.php:216-222 | lower-case hex digits are all geohash characters |
| FormatProofs.ShortHexIsGeoHash | src/Factory.php:316-377 | the hex of fewer than nine bytes is taken for a geohash |
| FormatProofs.EmptyPointRecord | src/Adapters/_WKB.php:183-188 | an empty point is written as the five bytes 1, 1, 0, 0, 0 |
| FormatProofs.EmptyPointHexIsGeoHash | src/Factory.php:316-377 | the hex WKB of an empty point is ten characters long, so it is detected as "geo_hash" |
| Registry.AdapterFor | src/Factory.php:453-464 | `makeAdapter` fails only with the adapter-not-found error |
| Registry.ReadAll | src/Factory.php:142-146 | reading the items of an array one by one, stopping at the first error, is mapping the adapter over them |
| Registry.Factory.MakeAdapter | src/Factory.php:453-496 | the method returns the built-in adapter, else the class extension, else the closure extension, as `AdapterFor` says |
| Registry.Factory.Extend | src/Factory.php:507-524 | on success the maps become the extended registry; on failure they are unchanged and the error is returned |
| Registry.Factory.Parse | src/Factory.php:107-149 | the method's result is `Parsed` on the current registry |
| RegistryProofs.DetectFormatRange | src/Factory.php:286-377 | every detected format is one of the ten strings detectFormat returns |
| RegistryProofs.DetectedAdapter | src/Factory.php:124-130 | every detected format names a built-in adapter; only "ewkb:1" adds the argument "1" |
| RegistryProofs.DetectedIsBuiltIn | src/Factory.php:124-133 | whatever the extensions, detected text is read by a built-in adapter |
| RegistryProofs.FreshFactory | src/Factory.php:453-464 | a fresh factory makes an adapter exactly for the built-in names |
| RegistryProofs.ExtendAccepts | src/Factory.php:507-524 | `extend` succeeds exactly for a closure pair, or for a class descending from GeoAdapter |
| RegistryProofs.BuiltInKept | src/Factory.php:453-459 | no extension overrides a built-in adapter |
| RegistryProofs.ExtendedAdapter | src/Factory.php:453-524 | after `extend`, a non-built-in name gives the new class; or, for a closure pair, an earlier class extension of that name, and else the new pair |
| RegistryProofs.ExtendLeavesOthers | src/Factory.php:514-523 | `extend` changes the adapter of no other name |
| RegistryProofs.ExtendTwice | src/Factory.php:514-523 | registering a name again, of the same kind, replaces the earlier entry |
| RegistryProofs.SplitHexFormat | src/Factory.php:128-130 | "ewkb:1" splits into the type "ewkb" and the argument "1" ahead of the caller's arguments |
| RegistryProofs.ParseDetected | src/Factory.php:115-138 | text detected as "wkt" or "ewkt" is read by the WKT reader, whatever the extensions |
| RegistryProofs.WktTypeReads | src/Factory.php:133-138 | `parse(text, 'wkt')` reads the text with the WKT reader |
| RegistryProofs.ParseWktText | src/Factory.php:107-138 | `parse` of text the WKT writer wrote detects it and gives back the geometry, whatever the extensions |
| RegistryProofs.ParseEwktText | src/Factory.php:107-138 | `parse` of text the EWKT writer wrote for a geometry with an SRID gives back the geometry with its SRID |
| RegistryProofs.ParseList | src/Factory.php:140-148 | `parse` of an array reduces the items read one by one |
| RegistryProofs.ParseListOfOne | src/Factory.php:140-148 | `parse` of a one-item array is the item read and reduced; a null item is a TypeError |
| Wkt.TrimParens | src/Adapters/Wkt.php:239-247 | `trimParens` never lengthens its text |
| Wkt.DataStringShorter | src/Adapters/Wkt.php:221-234 | the data string of a text not starting with `(` is shorter than it |
| Wkt.Keyword | src/Adapters/Wkt.php:58-74 | every keyword starts with an upper-case letter and has five letters or more |
| Wkt.KeywordStartsText | src/Adapters/Wkt.php:58-74 | a text with a keyword is at least that long and does not start with `(` |
| Wkt.FirstKeyword | src/Adapters/Wkt.php:58-74 | the dispatch picks a keyword the text starts with, and none is found only when no keyword fits |
| Wkt.ParsePoint | src/Adapters/Wkt.php:77-89 | `parsePoint` always gives a 2-D point without an SRID |
| Wkt.ParsePoints | src/Adapters/Wkt.php:133-149 | each piece is read as a point, in order |
| Wkt.ComponentParts | src/Adapters/Wkt.php:201-219 | the parts of a collection are each no longer than its data |
| Wkt.ReadEach | src/Adapters/Wkt.php:201-219 | reading the parts gives one result per part |
| WktProofs.ParsePointText | src/Adapters/Wkt.php:77-89 | `parsePoint` reads back the "x y" text the writer makes for a 2-D point |
| WktProofs.ParsePointParenthesised | src/Adapters/Wkt.php:77-89 | `parsePoint` also reads back "(x y)" |
| WktProofs.WriteSolid | src/Adapters/Wkt.php:265-280 | a geometry without empty parts is written as "TYPE (data)" |
| WktProofs.WrittenTextShape | src/Adapters/Wkt.php:27-54 | the written text needs no trimming, carries no SRID, and collapses to the compact text |
| WktProofs.ReadOfWritten | src/Adapters/Wkt.php:27-75 | reading the written text is parsing its compact form |
| WktProofs.ReadWithoutSrid | src/Adapters/Wkt.php:27-75 | a trimmed text with no SRID part is read by collapsing ", " and dispatching on its keyword |
| WktProofs.NoSemicolon | src/Adapters/Wkt.php:29-39 | a text without `;` has no SRID part |
| WktProofs.FirstKeywordAt | src/Adapters/Wkt.php:58-74 | the dispatch picks the first keyword in its order that the text starts with |
| WktProofs.KeywordDispatch | src/Adapters/Wkt.php:58-74 | a text that starts with a type's keyword is dispatched to that type, though earlier keywords are tried first |
| WktProofs.DataOfText | src/Adapters/Wkt.php:221-234 | the data string of "TYPE (d)" is "(d)" |
| WktRoundTrip.LineStringBack | src/Adapters/Wkt.php:91-107 | a line string's data, in parentheses, parses back to it |
| WktRoundTrip.LinesBack | src/Adapters/Wkt.php:151-174 | polygon and multi-line-string data with each ring in parentheses parses back to the geometry |
| WktRoundTrip.OnePolygonBack | src/Adapters/Wkt.php:109-131 | a one-ring polygon's data parses back to it |
| WktRoundTrip.MultiPointBack | src/Adapters/Wkt.php:133-149 | multi-point data with each point in parentheses parses back to the multi-point |
| WktRoundTrip.MultiPolygonBack | src/Adapters/Wkt.php:176-199 | multi-polygon data with each polygon in parentheses parses back to the multi-polygon |
| WktRoundTrip.ParsesBack | src/Adapters/Wkt.php:58-74 | the text a member writes parses back to it |
| WktRoundTrip.CollectionBack | src/Adapters/Wkt.php:201-219 | a collection's data, split before each member's keyword, reads back member by member to the collection |
| WktRoundTrip.RoundTrip | src/Adapters/Wkt.php:265-317 | `read(write(g))` is g for every constructible geometry without empty parts, z or SRID that the writer handles |
| WktRoundTrip.WriteRead | src/Adapters/Wkt.php:265-317 | with the corrected writer, `read(write(g))` is g for every such geometry whose collections nest no collection |
| WktRoundTrip.EmptyRoundTrip | src/Adapters/Wkt.php:267-269 | the empty point and the empty collection are written as "TYPE EMPTY" and read back |
| WktRoundTrip.HolesMerged | src/Adapters/Wkt.php:296-302 | a polygon with holes is written without parentheses around each ring, and reads back as one ring through all its points |
| WktRoundTrip.ParseTaggedPoint | src/Adapters/Wkt.php:77-89 | `parsePoint` of a "POINT (x y)" member reads the keyword and "(x" as numbers, giving (0, 0) |
| WktRoundTrip.PointsLost | src/Adapters/Wkt.php:303-314 | a multi-point is written with "POINT (x y)" members and reads back as a multi-point of origins |
| WktLost.PolygonsLost | src/Adapters/Wkt.php:303-314 | a multi-polygon without empty parts, z or SRID is written with "POLYGON (x y, …)" members and reads back as a multi-polygon of one polygon with one ring through all its points, each member's first point read as the origin; with two or more polygons that is not the original |
| WktLost.LostData | src/Adapters/Wkt.php:290-314 | that data is the members' pieces joined by commas, starts with "P", ends with ")" and has a ")" only before a comma or at the end |
| WktLost.ParseLostPieces | src/Adapters/Wkt.php:91-107 | the pieces read as points one by one: each member's "POLYGON (x y" piece as the origin, every other piece as the point written |
| WktLost.ParseOpenTagged | src/Adapters/Wkt.php:77-89 | `parsePoint` of "KEYWORD (x y" is the origin: `floatval` of the keyword and of "(x" are both 0 |
| WktLost.LostPolygon | src/Adapters/Wkt.php:109-131 | `parsePolygon` of that data finds no "),(" and reads it as one ring |
| WktLost.LostMultiPolygon | src/Adapters/Wkt.php:176-199 | `parseMultiPolygon` of that data finds no ")),((" and reads it as one polygon |
| Ewkt.SridPrefix | src/Adapters/Ewkt.php:20-26 | the prefix starts with "SRID=", ends with ";" and holds at least one digit |
| Ewkt.WriteWith | src/Adapters/Ewkt.php:18-30 | with no SRID the output is the WKT output; with one, it is the prefix followed by the WKT output |
| Ewkt.WktIgnoresSrid | src/Adapters/Wkt.php:265-317 | the WKT writer does not depend on the SRID |
| Ewkt.SplitPrefixed | src/Adapters/Wkt.php:29-39 | "SRID=n;" + wkt splits into the wkt and the text of n |
| Ewkt.ReadWithSrid | src/Adapters/Wkt.php:27-75 | a text with an SRID part reads as the parsed body with that SRID set |
| Ewkt.PrefixedRead | src/Adapters/Wkt.php:27-75 | for n other than 0, reading "SRID=n;" + t gives the geometry of t with SRID n |
| Ewkt.SridRoundTrip | src/Adapters/Ewkt.php:18-30 | an EWKT text reads back with its SRID whenever the WKT text without it reads back |
| Ewkt.WrittenPlain | src/Adapters/Wkt.php:265-317 | written WKT is non-empty, has no `;` and no spaces at either end |
| Ewkt.RoundTrip | src/Adapters/Ewkt.php:18-30 | `read(write(g))` is g, SRID included, for the geometries the WKT writer round-trips |
| Ewkt.EmptyRoundTrip | src/Adapters/Ewkt.php:18-30 | the empty point and collection round-trip with their SRID |
| Bytes.FromLittleEndianOf | src/Adapters/_WKB.php:237-248 | unpacking a little-endian number gives back the number |
| Bytes.LittleEndianOf | src/Adapters/_WKB.php:237-248 | packing an unpacked number gives back the bytes |
| Bytes.UnpackPackU32 | src/Adapters/_WKB.php:237-248 | `unpack('L', pack('L', v))` is v modulo 2^32 |
| Bytes.UnpackPackDouble | src/Adapters/_WKB.php:225-235 | an 8-byte coordinate reads back as itself |
| Bytes.HexEncode | src/Adapters/_WKB.php:216-222 | `unpack('H*')` is twice as long as its input |
| Bytes.HexDecodeEncode | src/Adapters/_WKB.php:44-46 | `pack('H*')` undoes `unpack('H*')` |
| Wkb.TypeCode | src/Adapters/_WKB.php:183-214 | each class is written with a type code from 1 to 7 |
| Wkb.KindOfCode | src/Adapters/_WKB.php:83-98 | codes 1 to 7 and only those name a class, the one written with that code |
| Wkb.CodeOfKind | src/Adapters/_WKB.php:83-98 | reading a written type code gives back the class |
| Wkb.PointPayload | src/Adapters/_WKB.php:225-235 | a point's payload is 16 bytes, or none for an empty point |
| Wkb.PointsPayload | src/Adapters/_WKB.php:237-248 | n points take 16n bytes |
| Wkb.ValidWritable | src/Adapters/_WKB.php:180-274 | the writer accepts every valid geometry's structure |
| Wkb.Record | src/Adapters/_WKB.php:180-214 | a record starts with the order byte 1 and the 4-byte type code |
| Wkb.Take | src/Adapters/_WKB.php:62-64 | `fread` gives at most n bytes, fewer only at the end of the stream |
| Wkb.HeaderAt | src/Adapters/_WKB.php:62-81 | the header read fails exactly when fewer than five bytes are left or the order byte is not 1 |
| Wkb.LineStringEmpty | src/Adapters/_WKB.php:111-134 | a line string with a zero or missing count fails with too few points |
| Wkb.LineStringPairs | src/Adapters/_WKB.php:111-134 | a line string reads count·dimension·8 bytes and pairs its numbers as points |
| Wkb.PolygonRings | src/Adapters/_WKB.php:136-149 | a polygon reads `count` line strings and builds a polygon of them |
| Wkb.MultiMembers | src/Adapters/_WKB.php:151-172 | a multi-geometry reads `count` full records and builds the collection of them |
| Wkb.GeometryBody | src/Adapters/_WKB.php:83-98 | after the header, the body is read by the type code |
| WkbAdapter.Stream.Read | src/Adapters/_WKB.php:62-64 | `fread(n)` returns the next at most n bytes and advances past them |
| WkbAdapter.Pairs | src/Adapters/_WKB.php:119-131 | the pairing loop is the pairing function |
| WkbAdapter.Adapter.Read | src/Adapters/_WKB.php:42-60 | `read` returns what the specification reads, and leaves `dimension`, `z` and `m` as it does |
| WkbAdapter.Adapter.GetGeometry | src/Adapters/_WKB.php:62-99 | `getGeometry` reads what `GeometryAt` reads, from the stream's position on |
| WkbAdapter.Adapter.ReadHeader | src/Adapters/_WKB.php:64-81 | the header read matches `HeaderAt`, including the dimension increments |
| WkbAdapter.Adapter.GetBody | src/Adapters/_WKB.php:83-98 | the type switch matches `BodyAt` |
| WkbAdapter.Adapter.GetPoint | src/Adapters/_WKB.php:101-109 | `getPoint` matches `PointAt` |
| WkbAdapter.Adapter.GetLineString | src/Adapters/_WKB.php:111-134 | `getLineString` matches `LineStringAt` |
| WkbAdapter.Adapter.GetPolygon | src/Adapters/_WKB.php:136-149 | `getPolygon`'s loop matches `PolygonAt` |
| WkbAdapter.Adapter.GetMulti | src/Adapters/_WKB.php:151-172 | `getMulti` matches `MultiAt` |
| WkbAdapter.Adapter.GetMembers | src/Adapters/_WKB.php:158-168 | the member loop matches `MembersFrom` |
| WkbAdapter.Adapter.Write | src/Adapters/_WKB.php:180-223 | `write` is the specification's writer, hex or binary |
| WkbAdapter.Adapter.WriteLineString | src/Adapters/_WKB.php:237-248 | the loop writes the count and then each point's payload |
| WkbAdapter.Adapter.WritePolygon | src/Adapters/_WKB.php:250-261 | the loop writes the ring count and then each ring's payload |
| WkbAdapter.Adapter.WriteMulti | src/Adapters/_WKB.php:263-274 | the loop writes the count and then each member's full record |
| WkbProofs.PointBack | src/Adapters/_WKB.php:101-109 | a point's 16 bytes read back as the point |
| WkbProofs.LineStringBack | src/Adapters/_WKB.php:111-134 | a line string's payload reads back as the line string |
| WkbProofs.PolygonBack | src/Adapters/_WKB.php:136-149 | a polygon's payload reads back as the polygon |
| WkbProofs.RecordBack | src/Adapters/_WKB.php:62-99 | the record of a valid geometry without SRID, with 2-D points whose coordinates fit eight bytes, reads back as the geometry, consuming exactly the record |
| WkbProofs.RoundTrip | src/Adapters/_WKB.php:42-223 | `read(write(g))`, hex or binary, is g for every such geometry that `writeMulti`'s type hint lets through, and for every such geometry with the corrected writer |
| WkbProofs.WriterRejects | src/Adapters/_WKB.php:263 | `writeMulti`'s MultiGeometryElement hint rejects a multi-point, a multi-polygon and a collection with a TypeError |
| WkbProofs.WriterAgrees | src/Adapters/_WKB.php:263-274 | where the hint lets a geometry through, the writer as it stands and the corrected one write the same bytes |
| WkbProofs.MultiPointLost | src/Adapters/_WKB.php:198-201 | a one-point multi-point cannot be written, though the corrected writer writes it and it reads back |
| Ewkb.ReadWithoutSrid | src/Adapters/_EWKB.php:28-43 | without the SRID flag, the EWKB read is the WKB read |
| Ewkb.ShortSrid | src/Adapters/_EWKB.php:28-31 | a flagged header with fewer than four SRID bytes fails |
| Ewkb.RecordIgnoresSrid | src/Adapters/_EWKB.php:55-98 | the writer does not depend on the SRID |
| Ewkb.FlaggedHeader | src/Adapters/_WKB.php:64-81 | a flagged header is followed by four SRID bytes that the WKB reader skips |
| Ewkb.FlaggedBack | src/Adapters/_EWKB.php:18-46 | a record with the SRID flag and SRID reads back with that SRID |
| Ewkb.HexRead | src/Adapters/_EWKB.php:20-22 | reading hex is reading the bytes it encodes |
| Ewkb.Unflagged | src/Adapters/_EWKB.php:18-46 | an unflagged record reads back without an SRID |
| Ewkb.RoundTrip | src/Adapters/_EWKB.php:18-46 | with the SRID written, `read(write(g))` is g, SRID included |
| Ewkb.SridDropped | src/Adapters/_EWKB.php:55-98 | the writer as it stands writes no SRID, so a geometry with one reads back without it |
| EwkbAdapter.Read | src/Adapters/_EWKB.php:18-46 | the method reads what `Ewkb.Read` reads |
| EwkbAdapter.Write | src/Adapters/_EWKB.php:55-98 | the method writes exactly `_WKB`'s record, hex or binary: no SRID flag and no SRID, so a geometry with an SRID reads back without it (`Ewkb.SridDropped`) |

## Left out

- GEOS is not modelled. This covers every `tryForwardCallToGeos` shortcut, `geosToGeometry`, the predicates and the forwarded operations. The model is the "GEOS not installed" path only: every forwarded call falls back to its closure, which `value($fallback, ...$arguments)` calls with the arguments spread.
- Floating point is not modelled. Coordinates are integers, and the shoelace area, centroids, great-circle and haversine lengths are left out: `Shapes.Area` and `Shapes.Length` leave them undetermined. `pack('d')` is stood in for by an 8-byte two's complement that inverts on the 64-bit range. The WKT number text is a decimal integer.
- `setSRID` is modelled on values: `Types.SetSrid` returns the updated geometry. Aliasing of geometry objects is not captured.
- The other adapters' `read` is not modelled. GeoJSON, KML, GPX, GeoRSS, GoogleGeocode, GeoHash, and the GeoIO-based `Wkb`/`Ewkb`, are a `Reader` parameter of `Parsed`.
- Closures passed to `extend` are represented by identities: what they compute is not modelled.
- Class ancestry for `extend` is the `parents` parameter, standing in for `class_parents()`.
- `parse` does not model the `Jsonable` and `JsonSerializable` conversions, or `parse(null)`. These are outside the core.
- `format()` and `__call` are not modelled. They only forward to `makeAdapter(...)->write`.
- `adapters()` is the constant `AdapterNames`, the basenames of `Factory::$adapters`.
- `Str::studly` is modelled character by character: it upper-cases the first letter and each letter after `_`, `-` or a space, and removes those separators. This agrees with Laravel's helper for the adapter names that occur here.
- Ewkb.Read: delegates to the `_WKB` reader. As written, `_EWKB` extends `WKB`, which PHP resolves to the GeoIO-based `Wkb` class of src/Adapters/Wkb.php:30; the model has the class extend `_WKB`, whose reader the `_EWKB` code evidently expects.
- EwkbAdapter.Read: delegates to `WkbAdapter.Adapter`, the `_WKB` reader, for the same reason.
- EwkbAdapter.Write: uses the `_WKB` write helpers. The GeoIO `Wkb` has no `writePoint`, `writeLineString`, `writePolygon` or `writeMulti`, and its three-parameter `write` (src/Adapters/Wkb.php:60) makes `_EWKB::write`'s two-parameter declaration incompatible, so as written PHP cannot load the class at all.
- PHP's `false` from `detectFormat` on empty input is modelled as `None`, the same as `null`.
- `Shapes.ToGeoJsonArray`: states the entry count only. `Shapes.ToArrayInjective` and `Shapes.ToGeoJsonArrayInjective` state the rest.
- `Reduction.Wrap`: states only when the result is empty and when it fails. `Reduction.WrapShape` states the rest.
- `Wkt.TrimParens`: states a bound only. `WktProofs.ParsePointParenthesised` and the round-trip lemmas state the rest.
- `is3D()` and `isMeasured()` return the same constant as `hasZ()`, which `Types.HasZ` models; they are not modelled separately.
- Registry.AdapterFor: states only its error. `RegistryProofs.FreshFactory`, `RegistryProofs.BuiltInKept` and `RegistryProofs.ExtendedAdapter` state which adapter it gives.
- Wkt.DataStringShorter: states a length bound only, which the reader's recursion needs. What the data string is, is stated by `WktProofs.DataOfText`.
- Wkt.ComponentParts: states a length bound only. How a collection's data splits is stated by `WktRoundTrip.CollectionBack`.
- Wkt.ReadEach: states the result count only. `WktRoundTrip.CollectionBack` states the results.
- Wkt.Keyword: states the keywords' shape only. `WktProofs.KeywordDispatch` states which keyword is read as which type.
- Wkb.TypeCode: states the range of the codes only. `Wkb.KindOfCode` and `Wkb.CodeOfKind` state the rest.
- Wkb.PointPayload: states the payload length only. `WkbProofs.PointBack` states its content.
- Wkb.PointsPayload: states the payload length only. `WkbProofs.LineStringBack` states its content.
- Bytes.HexEncode: states the length only. `Bytes.HexDecodeEncode` states that it is undone by `pack('H*')`.
- Ewkt.SridPrefix: states the prefix's shape only. `Ewkt.SplitPrefixed` states that it reads back as the SRID.
- `WktRoundTrip.RoundTrip`: covers geometries without empty parts and without nested collections under a multi-point or multi-polygon. Empty geometries are covered by `WktRoundTrip.EmptyRoundTrip` for the two classes whose empty form can be constructed.
- Query builders, Eloquent glue, the facade and the service provider are outside the core.

## Findings

| source | as written | input that shows it | evidently intended | confidence | as-written member | corrected member |
|---|---|---|---|---|---|---|
| src/Adapters/Wkt.php:296-302 | a polygon's rings are joined without parentheses around each ring | POLYGON with an exterior ring and one hole | each ring in parentheses, as the WKT grammar and `parsePolygon`'s `),(` split expect | not executed | WktRoundTrip.HolesMerged | WktRoundTrip.WriteRead |
| src/Adapters/Wkt.php:303-314 | multi-point and multi-polygon members fall through to the collection branch and are written as "POINT (x y)" and "POLYGON (x y, …)" | MULTIPOINT of (1 2); MULTIPOLYGON of two triangles | members in parentheses, as `parseMultiPoint` and `parseMultiPolygon` read them | not executed | WktRoundTrip.PointsLost, WktLost.PolygonsLost | WktRoundTrip.WriteRead |
| src/Types/Collection.php:311 | the GEOS fallback passes the other geometry as the argument list, so the closure compares with its first component; a point argument throws and an empty collection leaves the closure without its argument | a LineString compared with itself | the closure called with the other geometry itself | not executed | Types.LineStringNotEqualToItself | Types.CollectionEqualsIffSamePoints |
| src/Adapters/_WKB.php:263 | `writeMulti` is type-hinted MultiGeometryElement, which only MultiLineString implements | MultiPoint of one point | any collection, as the switch in `write` sends all four multi types there | not executed | WkbProofs.MultiPointLost | WkbProofs.RoundTrip |
| src/Adapters/_EWKB.php:55-98 | `write` emits no SRID flag and no SRID | a point with SRID 4326 | the SRID flag and the SRID after the type, which `read` looks for | not executed | Ewkb.SridDropped | Ewkb.RoundTrip |
