/**
 * The Well-Known Text adapter without GEOS (section 7 of OGC 06-103r4,
 * Simple Feature Access Part 1): a reader built from trim, explode and the
 * type keyword at the start of the text, and a writer built from implode.
 * A leading `<id>;` part, as PostGIS writes it, sets the SRID.
 *
 * Coordinates are the integral stand-ins of the geometry model: a number is
 * written as its decimal digits and read back with floatval().
 */
module Wkt {
  import opened Wrappers
  import opened Text
  import opened Types
  import opened Reduction

  // --------------------------------------------------------------- helpers

  /** substr($s, 0, strlen($p)) == $p */
  predicate BeginsWith(s: string, p: string)
  {
    |p| <= |s| && s[..|p|] == p
  }

  /** substr($s, -strlen($p)) == $p */
  predicate EndsWith(s: string, p: string)
  {
    |p| <= |s| && s[|s| - |p|..] == p
  }

  /**
   * trimParens(): trim, then drop the first and the last character when
   * the text starts with `(`; substr('(', 1, -1) is the empty string.
   */
  function TrimParens(s: string): (r: string)
    ensures |r| <= |s|
  {
    var t := Trim(s);
    if BeginsWith(t, "(") then (if |t| >= 2 then t[1..|t| - 1] else "") else t
  }

  /**
   * getDataString(): the text from the first `(` on; without one, "EMPTY"
   * when the text holds it, and false otherwise, which every parser treats
   * like the empty string (trim(false) is "").
   */
  function GetDataString(s: string): (r: string)
  {
    match Find(s, "(")
    case Some(i) => s[i..]
    case None => if Find(s, "EMPTY").Some? then "EMPTY" else ""
  }

  /** A `(` or an `EMPTY` after a first character that is not `(`: the data is shorter than the text. */
  lemma DataStringShorter(s: string)
    requires |s| > 5 && s[0] != '('
    ensures |GetDataString(s)| < |s|
  {
    match Find(s, "(")
    case Some(i) =>
      assert i != 0 by {
        assert OccursAt(s, "(", i);
        assert s[i..i + 1][0] == s[i];
      }
    case None =>
  }

  /** The text of a float holding an integral value. */
  function NumberText(v: Coord): string
  {
    IntToString(v)
  }

  // ------------------------------------------------------------- the reader

  /**
   * The SRID split of read(): when `;` occurs at a position other than 0
   * (strpos() answering 0 is false), the WKT is the second `;` part and
   * the SRID is the second `=` part of the first, null when there is no `=`.
   */
  function SplitSrid(t: string): (r: (string, Option<string>))
    ensures |r.0| <= |t|
  {
    var f := Find(t, ";");
    if f.Some? && f.value > 0 then
      var parts := Explode(t, ";");
      assert |parts| >= 2;
      var eparts := Explode(parts[0], "=");
      (parts[1], if |eparts| >= 2 then Some(eparts[1]) else None)
    else (t, None)
  }

  /** A PHP string is false when it is empty or "0". */
  predicate TruthyText(s: Option<string>)
  {
    s.Some? && s.value != "" && s.value != "0"
  }

  /** The upper-case type keyword of a class, strtoupper() of its lower-case name. */
  function Keyword(k: Kind): (r: string)
    ensures |r| >= 5 && 'A' <= r[0] <= 'Z'
  {
    match k
    case PointKind => "POINT"
    case LineStringKind => "LINESTRING"
    case PolygonKind => "POLYGON"
    case MultiPointKind => "MULTIPOINT"
    case MultiLineStringKind => "MULTILINESTRING"
    case MultiPolygonKind => "MULTIPOLYGON"
    case GeometryCollectionKind => "GEOMETRYCOLLECTION"
  }

  /** The order of Factory::$geometries, in which read() tries the keywords. */
  const KeywordOrder: seq<Kind> := [PointKind, LineStringKind, PolygonKind, MultiPointKind,
                                    MultiLineStringKind, MultiPolygonKind, GeometryCollectionKind]

  /** strtoupper(substr($s, 0, strlen($keyword))) == $keyword */
  predicate HasKeyword(s: string, k: Kind)
  {
    var n := |Keyword(k)|;
    |s| >= n && Upper(s[..n]) == Keyword(k)
  }

  /** Text that starts with a keyword starts with a letter. */
  lemma KeywordStartsText(s: string, k: Kind)
    requires HasKeyword(s, k)
    ensures |s| >= |Keyword(k)| && s[0] != '('
  {
    var n := |Keyword(k)|;
    assert Upper(s[..n])[0] == UpperChar(s[0]);
  }

  /** The first kind of KeywordOrder, from position `from` on, whose keyword starts `s`. */
  function FirstKeyword(s: string, from: nat): (r: Option<Kind>)
    ensures r.Some? ==> HasKeyword(s, r.value)
    ensures r.None? ==> forall i :: from <= i < |KeywordOrder| ==> !HasKeyword(s, KeywordOrder[i])
    decreases |KeywordOrder| - from
  {
    if from >= |KeywordOrder| then None
    else if HasKeyword(s, KeywordOrder[from]) then Some(KeywordOrder[from])
    else FirstKeyword(s, from + 1)
  }

  /** parsePoint(): "EMPTY" is the empty point, anything else two floatval()s of the space-separated parts. */
  function ParsePoint(s: string): (r: Geometry)
    ensures r.Point? && r.srid == 0 && !r.coords.XYZ?
  {
    var d := TrimParens(s);
    if d == "EMPTY" then Point(EmptyCoords, 0)
    else
      var parts := Explode(d, " ");
      Point(XY(FloatVal(parts[0]), if |parts| >= 2 then FloatVal(parts[1]) else 0), 0)
  }

  function ParsePoints(parts: seq<string>): (r: seq<Option<Geometry>>)
    ensures |r| == |parts| && forall i :: 0 <= i < |parts| ==> r[i] == Some(ParsePoint(parts[i]))
  {
    seq(|parts|, i requires 0 <= i < |parts| => Some(ParsePoint(parts[i])))
  }

  /** parseLineString(): "EMPTY" is `new LineString`, which fails; otherwise the comma-separated points. */
  function ParseLineString(s: string): Result<Geometry>
  {
    var d := TrimParens(s);
    if d == "EMPTY" then NewCollection(LineStringKind, [])
    else NewCollection(LineStringKind, ParsePoints(Explode(d, ",")))
  }

  /** The paren repair of the Polygon and MultiLineString parsers: a missing opening or closing text is put back. */
  function Repair(part: string, open: string, close: string): string
  {
    var p := if BeginsWith(part, open) then part else open + part;
    if EndsWith(p, close) then p else p + close
  }

  function ParseRing(part: string): Result<Geometry>
  {
    ParseLineString(Repair(part, "(", ")"))
  }

  /** Polygon and MultiLineString: "EMPTY" is the empty constructor, otherwise the `),(`-separated lines. */
  function ParseLines(k: Kind, s: string): Result<Geometry>
    requires k == PolygonKind || k == MultiLineStringKind
  {
    var d := TrimParens(s);
    if d == "EMPTY" then NewCollection(k, [])
    else
      var lines :- MapAll(Explode(d, "),("), ParseRing);
      NewCollection(k, Somes(lines))
  }

  /** parseMultiPoint(): the comma-separated points, each with or without its own parentheses. */
  function ParseMultiPoint(s: string): Result<Geometry>
  {
    var d := TrimParens(s);
    if d == "EMPTY" then NewCollection(MultiPointKind, [])
    else NewCollection(MultiPointKind, ParsePoints(Explode(d, ",")))
  }

  function ParsePolygonPart(part: string): Result<Geometry>
  {
    ParseLines(PolygonKind, Repair(part, "((", "))"))
  }

  /** parseMultiPolygon(): the `)),((`-separated polygons. */
  function ParseMultiPolygon(s: string): Result<Geometry>
  {
    var d := TrimParens(s);
    if d == "EMPTY" then NewCollection(MultiPolygonKind, [])
    else
      var polys :- MapAll(Explode(d, ")),(("), ParsePolygonPart);
      NewCollection(MultiPolygonKind, Somes(polys))
  }

  /** The parser of every keyword except GEOMETRYCOLLECTION. */
  function ParseFlat(k: Kind, d: string): Result<Geometry>
    requires k != GeometryCollectionKind
  {
    match k
    case PointKind => Ok(ParsePoint(d))
    case LineStringKind => ParseLineString(d)
    case PolygonKind => ParseLines(PolygonKind, d)
    case MultiPointKind => ParseMultiPoint(d)
    case MultiLineStringKind => ParseLines(MultiLineStringKind, d)
    case MultiPolygonKind => ParseMultiPolygon(d)
  }

  /**
   * read($wkt): trim, split off the SRID, collapse ", " to ",", and parse
   * with the first keyword that starts the text; no keyword gives null.  A
   * true SRID text goes through setSRID(int), where text without a leading
   * number is a TypeError.
   */
  function Read(w: string): Result<Option<Geometry>>
    decreases |w|, 2, 0
  {
    var t := Trim(w);
    var (body, srid) := SplitSrid(t);
    var parsed :- ParseText(CollapseCommaSpace(body));
    match parsed
    case None => Ok(None)
    case Some(g) =>
      if TruthyText(srid) then
        var id :- IntParam(srid.value);
        Ok(Some(SetSrid(g, id)))
      else Ok(Some(g))
  }

  /** The keyword dispatch of read() on the normalised text: the parser of the first keyword that starts it. */
  function ParseText(c: string): Result<Option<Geometry>>
    decreases |c|, 1, 0
  {
    match FirstKeyword(c, 0)
    case None => Ok(None)
    case Some(k) =>
      var d := GetDataString(c);
      var g :-
        if k == GeometryCollectionKind then
          KeywordStartsText(c, k);
          DataStringShorter(c);
          ParseGeometryCollection(d)
        else ParseFlat(k, d);
      Ok(Some(g))
  }

  /**
   * parseGeometryCollection(): "EMPTY" is the empty collection; otherwise
   * every comma followed by optional space and a letter starts a new part,
   * each part is read on its own, and a part that reads as null is not a
   * geometry.
   */
  function ParseGeometryCollection(s: string): Result<Geometry>
    decreases |s|, 5, 0
  {
    var d := TrimParens(s);
    if d == "EMPTY" then NewCollection(GeometryCollectionKind, [])
    else CollectionOfParts(ComponentParts(d), |s|)
  }

  /** The parts of the collection data: `|` marks every component break, then trim and explode. */
  function ComponentParts(d: string): (parts: seq<string>)
    ensures forall i :: 0 <= i < |parts| ==> |parts[i]| <= |d|
  {
    Explode(Trim(MarkComponentBreaks(d)), "|")
  }

  /** Each part read on its own; the collection of what they read as. */
  function CollectionOfParts(parts: seq<string>, bound: nat): Result<Geometry>
    requires forall i :: 0 <= i < |parts| ==> |parts[i]| <= bound
    decreases bound, 4, 0
  {
    var items :- ReadEach(parts, bound);
    NewCollection(GeometryCollectionKind, items)
  }

  function ReadEach(parts: seq<string>, bound: nat): (r: Result<seq<Option<Geometry>>>)
    requires forall i :: 0 <= i < |parts| ==> |parts[i]| <= bound
    ensures r.Ok? ==> |r.value| == |parts|
    decreases bound, 3, |parts|
  {
    if parts == [] then Ok([])
    else
      var g :- Read(parts[0]);
      var rest :- ReadEach(parts[1..], bound);
      Ok([g] + rest)
  }

  // ------------------------------------------------------------- the writer

  /** How extractData() writes the components of a collection. */
  datatype Style = Plain | Parenthesised | Tagged

  /** The writer the adapter has, and the one the WKT grammar calls for. */
  datatype Writer = AsWritten | Corrected

  /**
   * As written, a single element (LineString, Polygon) joins its
   * components' data, a MultiGeometryElement (MultiLineString) puts each in
   * parentheses, and every other collection (MultiPoint, MultiPolygon,
   * GeometryCollection) tags each with its upper-case type.  The WKT
   * grammar wants each ring of a polygon and each member of a multi-point
   * and a multi-polygon in parentheses, and only the members of a
   * collection tagged.
   */
  function StyleOf(g: Geometry, w: Writer): Style
  {
    match w
    case AsWritten => if IsSingle(g) then Plain else if IsMultiElement(g) then Parenthesised else Tagged
    case Corrected => if g.LineString? then Plain else if g.GeometryCollection? then Tagged else Parenthesised
  }

  /** extractData(): "x y" for a point (getX() of an empty point is a TypeError), otherwise the joined parts. */
  function ExtractData(g: Geometry, w: Writer): Result<string>
    decreases g, 1
  {
    match g
    case Point(c, _) =>
      if c.EmptyCoords? then Err(TypeError) else Ok(NumberText(c.x) + " " + NumberText(c.y))
    case _ =>
      var parts :- ExtractParts(g.components, StyleOf(g, w), w);
      Ok(Join(", ", parts))
  }

  function ExtractParts(gs: seq<Geometry>, style: Style, w: Writer): (r: Result<seq<string>>)
    ensures r.Ok? ==> |r.value| == |gs|
    decreases gs, 0
  {
    if gs == [] then Ok([])
    else
      var d :- ExtractData(gs[0], w);
      var rest :- ExtractParts(gs[1..], style, w);
      Ok([Decorate(gs[0], d, style)] + rest)
  }

  function Decorate(c: Geometry, d: string, style: Style): string
  {
    match style
    case Plain => d
    case Parenthesised => "(" + d + ")"
    case Tagged => Keyword(KindOf(c)) + " (" + d + ")"
  }

  /**
   * write(): "TYPE EMPTY" for an empty geometry, "TYPE (data)" when the
   * data is a true string, and nothing otherwise.
   */
  function WriteWith(g: Geometry, w: Writer): Result<Option<string>>
  {
    if IsEmpty(g) then Ok(Some(Keyword(KindOf(g)) + " EMPTY"))
    else
      var data :- ExtractData(g, w);
      if TruthyText(Some(data)) then Ok(Some(Keyword(KindOf(g)) + " (" + data + ")")) else Ok(None)
  }

  /** The adapter's write() as it stands. */
  function WriteAsWritten(g: Geometry): Result<Option<string>>
  {
    WriteWith(g, AsWritten)
  }

  /** write() with rings, multi-point members and multi-polygon members in parentheses. */
  function Write(g: Geometry): Result<Option<string>>
  {
    WriteWith(g, Corrected)
  }
}
