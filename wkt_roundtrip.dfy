/**
 * Write, then read, with the WKT adapter: which geometries come back as
 * they were, and what comes back instead when the writer as it stands
 * meets a polygon with holes or a multi-point.
 *
 * The geometries covered are the ones the constructors can build, with
 * two-dimensional points and no SRID anywhere (the SRID travels in the
 * EWKT prefix, and the WKT writer drops z).  A geometry collection inside
 * a geometry collection is not covered: the reader splits a collection at
 * every comma before a letter, the nested keywords included.
 */
module WktRoundTrip {
  import opened Wrappers
  import opened Text
  import opened Types
  import opened Wkt
  import opened WktProofs

  // ------------------------------------------------------------ the class

  /** Every point has x and y, and no geometry carries an SRID. */
  predicate XYOnly(g: Geometry)
  {
    match g
    case Point(c, s) => c.XY? && s == 0
    case _ => g.srid == 0 && forall c :: c in g.components ==> XYOnly(c)
  }

  /** No empty part, two-dimensional points, no SRID. */
  predicate Bare(g: Geometry)
  {
    Solid(g) && XYOnly(g)
  }

  /**
   * A geometry the writer writes as a collection member: anything but a
   * geometry collection; for the writer as it stands, also no multi-point,
   * no multi-polygon and no polygon with holes.
   */
  predicate Member(g: Geometry, w: Writer)
  {
    !g.GeometryCollection?
    && (w == AsWritten ==> !g.MultiPoint? && !g.MultiPolygon? && (g.Polygon? ==> |g.components| == 1))
  }

  /** A constructible collection with no SRID is what its constructor builds from its components. */
  lemma NewCollectionOf(g: Geometry)
    requires Valid(g) && !g.Point? && g.srid == 0
    ensures NewCollection(KindOf(g), Somes(g.components)) == Ok(g)
  {
    var r := NewCollection(KindOf(g), Somes(g.components));
    assert r.Ok?;
    assert r.value.components == g.components;
  }

  /** The component of a constructible collection has the kind the class asks for. */
  lemma ComponentKindOf(g: Geometry, i: nat)
    requires Valid(g) && !g.Point? && !g.GeometryCollection? && i < |g.components|
    ensures KindOf(g.components[i]) == ComponentKind(KindOf(g)).value
    ensures g.components[i] in g.components && Valid(g.components[i])
  {
    assert Accepts(KindOf(g), Some(g.components[i]));
  }

  // ------------------------------------------------------------ line strings

  function PointTexts(ps: seq<Geometry>): (r: seq<string>)
    requires forall p :: p in ps ==> SolidXY(p)
    ensures |r| == |ps| && forall i :: 0 <= i < |ps| ==> SolidXY(ps[i]) && r[i] == PointText(ps[i])
  {
    seq(|ps|, i requires 0 <= i < |ps| => assert ps[i] in ps && SolidXY(ps[i]); PointText(ps[i]))
  }

  /** The text of a list of points: no parentheses, no component break, a number at each end. */
  lemma PointsTextShape(ps: seq<Geometry>)
    requires ps != [] && forall p :: p in ps ==> SolidXY(p)
    ensures var t := Join(",", PointTexts(ps));
      t != [] && (IsDigit(t[0]) || t[0] == '-') && IsDigit(t[|t| - 1])
      && '(' !in t && ')' !in t && NoComponentBreak(t)
  {
    var pts := PointTexts(ps);
    forall i | 0 <= i < |ps|
      ensures pts[i] != [] && (IsDigit(pts[i][0]) || pts[i][0] == '-') && IsDigit(pts[i][|pts[i]| - 1])
      ensures '(' !in pts[i] && ')' !in pts[i] && ',' !in pts[i] && NoComponentBreak(pts[i])
    {
      assert ps[i] in ps;
      PointTextShape(ps[i]);
    }
    JoinFirst(",", pts);
    JoinLast(",", pts);
    JoinNotIn(",", pts, '(');
    JoinNotIn(",", pts, ')');
    JoinNoBreak(pts);
  }

  /** Whichever the writer, a line string's compact text is its points' texts joined with commas. */
  lemma LineText(ls: Geometry, w: Writer)
    requires ls.LineString? && Valid(ls) && Bare(ls)
    ensures ls.components != []
    ensures (forall p :: p in ls.components ==> SolidXY(p))
      && CompactData(ls, w) == Join(",", PointTexts(ls.components))
  {
    var cs := ls.components;
    forall p | p in cs ensures SolidXY(p) {
      var i :| 0 <= i < |cs| && cs[i] == p;
      ComponentKindOf(ls, i);
      assert XYOnly(p);
    }
    var parts := CompactParts(cs, Plain, w);
    assert parts == PointTexts(cs);
  }

  /** The comma-joined texts of points split back into the points. */
  lemma ParsePointList(ps: seq<Geometry>)
    requires ps != [] && forall p :: p in ps ==> SolidXY(p)
    ensures ParsePoints(Explode(Join(",", PointTexts(ps)), ",")) == Somes(ps)
  {
    var pts := PointTexts(ps);
    forall i | 0 <= i < |ps| ensures ',' !in pts[i] {
      assert ps[i] in ps;
      PointTextShape(ps[i]);
    }
    ExplodeJoinChar(pts, ',');
    var r := ParsePoints(pts);
    forall i | 0 <= i < |ps| ensures r[i] == Some(ps[i]) {
      assert ps[i] in ps;
      ParsePointText(ps[i]);
    }
    assert r == Somes(ps);
  }

  /** parseLineString() of the parenthesised text of points builds the line string of those points. */
  lemma ParsePointsLine(ps: seq<Geometry>)
    requires ps != [] && forall p :: p in ps ==> SolidXY(p)
    ensures ParseLineString("(" + Join(",", PointTexts(ps)) + ")") == NewCollection(LineStringKind, Somes(ps))
  {
    var d := Join(",", PointTexts(ps));
    PointsTextShape(ps);
    TrimParensOfWrapped(d);
    assert d != "EMPTY" by {
      assert d[0] != 'E';
    }
    ParsePointList(ps);
  }

  /** parseLineString() of a line string's parenthesised compact text gives the line string back. */
  lemma LineStringBack(ls: Geometry, w: Writer)
    requires ls.LineString? && Valid(ls) && Bare(ls)
    ensures ParseLineString("(" + CompactData(ls, w) + ")") == Ok(ls)
  {
    LineText(ls, w);
    ParsePointsLine(ls.components);
    NewCollectionOf(ls);
  }

  /** A line string's compact text: a number at each end, no parentheses, no component break. */
  lemma RingShape(ls: Geometry, w: Writer)
    requires ls.LineString? && Valid(ls) && Bare(ls)
    ensures var t := CompactData(ls, w);
      t != [] && (IsDigit(t[0]) || t[0] == '-') && IsDigit(t[|t| - 1])
      && '(' !in t && ')' !in t && NoComponentBreak(t)
  {
    LineText(ls, w);
    PointsTextShape(ls.components);
  }

  // ---------------------------------------------------------- repaired parts

  lemma AvoidsChar(s: string, c: char)
    requires c !in s
    ensures Avoids(s, [c])
  {
    forall j ensures !OccursAt(s, [c], j) {
      if 0 <= j < |s| {
        assert s[j..j + 1][0] == s[j];
      }
    }
  }

  /** The paren repair puts back exactly the `open` and `close` explode() took away. */
  lemma RepairPart(x: string, open: string, close: string, first: bool, last: bool)
    requires x != [] && x[0] != '(' && x[|x| - 1] != ')'
    requires |open| >= 1 && open[0] == '(' && Closers(close)
    ensures Repair((if first then open else "") + x + (if last then close else ""), open, close) == open + x + close
  {
    var part := (if first then open else "") + x + (if last then close else "");
    if first {
      assert part[..|open|] == open;
    } else {
      assert part[0] == x[0];
    }
    var p := if first then part else open + part;
    assert p == open + x + (if last then close else "");
    if last {
      assert p[|p| - |close|..] == close;
    } else {
      assert p[|p| - 1] == x[|x| - 1];
      assert close[|close| - 1] == ')';
      assert !EndsWith(p, close) by {
        if |close| <= |p| {
          assert p[|p| - |close|..][|close| - 1] == p[|p| - 1];
        }
      }
    }
  }

  // ---------------------------------------------------- polygons, multi-lines

  /** The compact texts of a collection's components. */
  function ComponentTexts(g: Geometry, w: Writer): (r: seq<string>)
    requires Solid(g) && !g.Point?
    ensures |r| == |g.components|
    ensures forall i :: 0 <= i < |r| ==> g.components[i] in g.components && r[i] == CompactData(g.components[i], w)
  {
    seq(|g.components|, i requires 0 <= i < |g.components| =>
      assert g.components[i] in g.components; CompactData(g.components[i], w))
  }

  /** A polygon or multi-line string written with its lines in parentheses. */
  predicate ParenthesisedLines(g: Geometry, w: Writer)
  {
    (g.Polygon? || g.MultiLineString?) && Valid(g) && Bare(g) && StyleOf(g, w) == Parenthesised
  }

  lemma LinesText(g: Geometry, w: Writer)
    requires ParenthesisedLines(g, w)
    ensures forall i :: 0 <= i < |g.components| ==>
      var c := g.components[i];
      c.LineString? && Valid(c) && Bare(c)
    ensures forall i :: 0 <= i < |g.components| ==>
      var t := ComponentTexts(g, w)[i];
      t != [] && (IsDigit(t[0]) || t[0] == '-') && IsDigit(t[|t| - 1])
      && '(' !in t && ')' !in t && NoComponentBreak(t)
    ensures CompactData(g, w) == Join(",", Wrapped(ComponentTexts(g, w), "(", ")"))
  {
    LinesKinds(g, w);
    LinesShapes(g, w);
    LinesWrapped(g, w);
  }

  /** Every component of a parenthesised polygon or multi-line string is a bare line string. */
  lemma LinesKinds(g: Geometry, w: Writer)
    requires ParenthesisedLines(g, w)
    ensures forall i :: 0 <= i < |g.components| ==>
      var c := g.components[i];
      c.LineString? && Valid(c) && Bare(c)
  {
    var cs := g.components;
    forall i | 0 <= i < |cs| ensures cs[i].LineString? && Valid(cs[i]) && Bare(cs[i]) {
      ComponentKindOf(g, i);
      assert XYOnly(cs[i]) && Solid(cs[i]);
    }
  }

  /** Each component text is a run of numbers with no parenthesis and no break between components. */
  lemma LinesShapes(g: Geometry, w: Writer)
    requires ParenthesisedLines(g, w)
    ensures forall i :: 0 <= i < |g.components| ==>
      var t := ComponentTexts(g, w)[i];
      t != [] && (IsDigit(t[0]) || t[0] == '-') && IsDigit(t[|t| - 1])
      && '(' !in t && ')' !in t && NoComponentBreak(t)
  {
    var cs := g.components;
    LinesKinds(g, w);
    forall i | 0 <= i < |cs| ensures
      var t := ComponentTexts(g, w)[i];
      t != [] && (IsDigit(t[0]) || t[0] == '-') && IsDigit(t[|t| - 1])
      && '(' !in t && ')' !in t && NoComponentBreak(t)
    {
      RingShape(cs[i], w);
    }
  }

  /** The data of a parenthesised polygon or multi-line string joins its wrapped component texts. */
  lemma LinesWrapped(g: Geometry, w: Writer)
    requires ParenthesisedLines(g, w)
    ensures CompactData(g, w) == Join(",", Wrapped(ComponentTexts(g, w), "(", ")"))
  {
    assert CompactParts(g.components, Parenthesised, w) == Wrapped(ComponentTexts(g, w), "(", ")");
  }

  /** The opened ring texts explode() gives back each parse to their ring. */
  lemma ParseOpenedRings(g: Geometry, w: Writer)
    requires ParenthesisedLines(g, w)
    ensures MapAll(Opened(ComponentTexts(g, w), "(", ")"), ParseRing) == Ok(g.components)
  {
    LinesText(g, w);
    var rs := ComponentTexts(g, w);
    var o := Opened(rs, "(", ")");
    forall i | 0 <= i < |rs| ensures ParseRing(o[i]) == Ok(g.components[i]) {
      RingBack(g.components[i], w, i == 0, i == |rs| - 1);
    }
    MapAllOf(o, ParseRing, g.components);
  }

  /** One ring text, as explode() leaves it, parses to the ring. */
  lemma RingBack(ls: Geometry, w: Writer, first: bool, last: bool)
    requires ls.LineString? && Valid(ls) && Bare(ls)
    ensures ParseRing((if first then "(" else "") + CompactData(ls, w) + (if last then ")" else "")) == Ok(ls)
  {
    var part := (if first then "(" else "") + CompactData(ls, w) + (if last then ")" else "");
    RingShape(ls, w);
    RepairPart(CompactData(ls, w), "(", ")", first, last);
    LineStringBack(ls, w);
    RepairedRing(part, "(" + CompactData(ls, w) + ")", ls);
  }

  lemma RepairedRing(part: string, y: string, g: Geometry)
    requires Repair(part, "(", ")") == y && ParseLineString(y) == Ok(g)
    ensures ParseRing(part) == Ok(g)
  {
  }

  /** Rings written "(...)" and joined by commas split back at "),(" into the opened rings. */
  lemma ExplodeRings(rs: seq<string>)
    requires rs != []
    requires forall i :: 0 <= i < |rs| ==> ')' !in rs[i]
    ensures Explode(Join(",", Wrapped(rs, "(", ")")), "),(") == Opened(rs, "(", ")")
  {
    forall i | 0 <= i < |rs| ensures Avoids("(" + rs[i], ")") {
      assert ')' !in "(" + rs[i];
      AvoidsChar("(" + rs[i], ')');
    }
    assert ")" + "," + "(" == "),(";
    ExplodeWrapped(rs, "(", ")");
  }

  /** The data parseLines() sees, and how it splits. */
  lemma LinesData(g: Geometry, w: Writer)
    requires ParenthesisedLines(g, w)
    ensures var d := CompactData(g, w);
      TrimParens("(" + d + ")") == d && d != "EMPTY"
      && Explode(d, "),(") == Opened(ComponentTexts(g, w), "(", ")")
  {
    LinesText(g, w);
    var rs := ComponentTexts(g, w);
    var d := CompactData(g, w);
    assert d != "EMPTY" by {
      JoinFirst(",", Wrapped(rs, "(", ")"));
      assert d[0] == '(';
    }
    ExplodeRings(rs);
    TrimParensOfWrapped(d);
  }

  /** Polygon and multi-line string: the parenthesised compact text parses back. */
  lemma LinesBack(g: Geometry, w: Writer)
    requires ParenthesisedLines(g, w)
    ensures ParseLines(KindOf(g), "(" + CompactData(g, w) + ")") == Ok(g)
  {
    LinesData(g, w);
    ParseOpenedRings(g, w);
    NewCollectionOf(g);
  }

  /** The writer as it stands writes a one-ring polygon as its bare ring. */
  lemma OnePolygonText(g: Geometry)
    requires g.Polygon? && |g.components| == 1 && Valid(g) && Bare(g)
    ensures g.components[0].LineString? && Valid(g.components[0]) && Bare(g.components[0])
      && CompactData(g, AsWritten) == CompactData(g.components[0], AsWritten)
  {
    var ring := g.components[0];
    ComponentKindOf(g, 0);
    assert XYOnly(ring) && Solid(ring);
    assert CompactParts(g.components, Plain, AsWritten) == [CompactData(ring, AsWritten)];
  }

  /** The bare ring is left whole by explode(). */
  lemma OnePolygonData(g: Geometry)
    requires g.Polygon? && |g.components| == 1 && Valid(g) && Bare(g)
    ensures var l := CompactData(g, AsWritten);
      TrimParens("(" + l + ")") == l && l != "EMPTY" && Explode(l, "),(") == [l]
  {
    OnePolygonText(g);
    var l := CompactData(g, AsWritten);
    RingShape(g.components[0], AsWritten);
    assert l != "EMPTY" by {
      assert l[0] != 'E';
    }
    FindNoneOfFirst(l, "),(");
    TrimParensOfWrapped(l);
  }

  /** The one ring's text, left whole by explode(), parses to the ring. */
  lemma OnePolygonRing(g: Geometry)
    requires g.Polygon? && |g.components| == 1 && Valid(g) && Bare(g)
    ensures ParseRing(CompactData(g, AsWritten)) == Ok(g.components[0])
  {
    OnePolygonText(g);
    var l := CompactData(g, AsWritten);
    RingBack(g.components[0], AsWritten, false, false);
    NoneAround(l);
  }

  lemma NoneAround(l: string)
    ensures (if false then "(" else "") + l + (if false then ")" else "") == l
  {
    assert (if false then "(" else "") == [];
    assert (if false then ")" else "") == [];
  }

  /** The writer as it stands: a polygon with one ring parses back. */
  lemma OnePolygonBack(g: Geometry)
    requires g.Polygon? && |g.components| == 1 && Valid(g) && Bare(g)
    ensures ParseLines(PolygonKind, "(" + CompactData(g, AsWritten) + ")") == Ok(g)
  {
    var ring := g.components[0];
    var l := CompactData(g, AsWritten);
    OnePolygonData(g);
    OnePolygonRing(g);
    NewCollectionOf(g);
    OnePolygonFrom(l, ring, g);
  }

  /** parseLines() of one ring in parentheses. */
  lemma OnePolygonFrom(l: string, ring: Geometry, g: Geometry)
    requires TrimParens("(" + l + ")") == l && l != "EMPTY" && Explode(l, "),(") == [l]
    requires ParseRing(l) == Ok(ring)
    requires g.Polygon? && |g.components| == 1 && g.components[0] == ring
    requires NewCollection(PolygonKind, Somes(g.components)) == Ok(g)
    ensures ParseLines(PolygonKind, "(" + l + ")") == Ok(g)
  {
    OneRing(l, g.components);
    LinesFrom(PolygonKind, "(" + l + ")", l, [l], g.components, g);
  }

  lemma OneRing(l: string, rings: seq<Geometry>)
    requires |rings| == 1 && ParseRing(l) == Ok(rings[0])
    ensures MapAll([l], ParseRing) == Ok(rings)
  {
    var r := MapAll([l], ParseRing);
    assert r.Ok?;
    assert r.value == [rings[0]] == rings;
  }

  /** parseLines() in steps: the trimmed data, its pieces, their lines, the collection. */
  lemma LinesFrom(k: Kind, s: string, d: string, parts: seq<string>, lines: seq<Geometry>, g: Geometry)
    requires k == PolygonKind || k == MultiLineStringKind
    requires TrimParens(s) == d && d != "EMPTY" && Explode(d, "),(") == parts
    requires MapAll(parts, ParseRing) == Ok(lines) && NewCollection(k, Somes(lines)) == Ok(g)
    ensures ParseLines(k, s) == Ok(g)
  {
  }

  // -------------------------------------------------------------- multi-points

  /** The points of a multi-point, and their parenthesised texts. */
  lemma MultiPointText(g: Geometry)
    requires g.MultiPoint? && Valid(g) && Bare(g)
    ensures forall i :: 0 <= i < |g.components| ==> SolidXY(g.components[i])
    ensures var parts := CompactParts(g.components, Parenthesised, Corrected);
      CompactData(g, Corrected) == Join(",", parts)
      && forall i :: 0 <= i < |parts| ==>
        SolidXY(g.components[i]) && parts[i] == "(" + PointText(g.components[i]) + ")" && ',' !in parts[i]
  {
    var cs := g.components;
    forall i | 0 <= i < |cs| ensures SolidXY(cs[i]) {
      ComponentKindOf(g, i);
      assert XYOnly(cs[i]) && Solid(cs[i]);
    }
    var parts := CompactParts(cs, Parenthesised, Corrected);
    forall i | 0 <= i < |cs| ensures ',' !in parts[i] {
      PointTextShape(cs[i]);
    }
  }

  /** The corrected writer: a multi-point's members, each in parentheses, parse back. */
  lemma MultiPointBack(g: Geometry)
    requires g.MultiPoint? && Valid(g) && Bare(g)
    ensures ParseMultiPoint("(" + CompactData(g, Corrected) + ")") == Ok(g)
  {
    var cs := g.components;
    MultiPointText(g);
    var parts := CompactParts(cs, Parenthesised, Corrected);
    var d := CompactData(g, Corrected);
    TrimParensOfWrapped(d);
    assert d != "EMPTY" by {
      JoinFirst(",", parts);
      assert d[0] == '(';
    }
    ExplodeJoinChar(parts, ',');
    assert ParsePoints(parts) == Somes(cs) by {
      forall i | 0 <= i < |cs| ensures ParsePoint(parts[i]) == cs[i] {
        ParsePointParenthesised(cs[i]);
      }
    }
    NewCollectionOf(g);
    MultiPointFrom("(" + d + ")", d, parts, g);
  }

  // ------------------------------------------------------------ multi-polygons

  /** A polygon's rings joined with `),(`: its compact text without the outer parentheses. */
  function PolygonCore(p: Geometry): string
    requires Solid(p) && !p.Point?
  {
    Join("),(", ComponentTexts(p, Corrected))
  }

  /** The core of a polygon: a number at each end, never two `)` in a row. */
  lemma PolygonCoreShape(p: Geometry)
    requires p.Polygon? && Valid(p) && Bare(p)
    ensures var x := PolygonCore(p);
      CompactData(p, Corrected) == "(" + x + ")"
      && x != [] && (IsDigit(x[0]) || x[0] == '-') && IsDigit(x[|x| - 1]) && SingleCloses(x)
  {
    assert ParenthesisedLines(p, Corrected);
    LinesText(p, Corrected);
    CoreShape(ComponentTexts(p, Corrected));
  }

  /** Ring texts joined with "),(": the joined parenthesised rings without their outer parentheses. */
  lemma CoreShape(rs: seq<string>)
    requires rs != []
    requires forall i :: 0 <= i < |rs| ==>
      rs[i] != [] && (IsDigit(rs[i][0]) || rs[i][0] == '-') && IsDigit(rs[i][|rs[i]| - 1]) && ')' !in rs[i]
    ensures var x := Join("),(", rs);
      Join(",", Wrapped(rs, "(", ")")) == "(" + x + ")"
      && x != [] && (IsDigit(x[0]) || x[0] == '-') && IsDigit(x[|x| - 1]) && SingleCloses(x)
  {
    JoinWrapped(rs, "(", ")");
    assert ")" + "," + "(" == "),(";
    JoinFirst("),(", rs);
    JoinLast("),(", rs);
    JoinSingleCloses(rs);
  }

  /** One polygon, as explode() leaves it, parses back. */
  lemma PolygonPartBack(p: Geometry, first: bool, last: bool)
    requires p.Polygon? && Valid(p) && Bare(p)
    ensures ParsePolygonPart((if first then "((" else "") + PolygonCore(p) + (if last then "))" else "")) == Ok(p)
  {
    var part := (if first then "((" else "") + PolygonCore(p) + (if last then "))" else "");
    PolygonPartRepair(p, first, last);
    assert ParenthesisedLines(p, Corrected);
    LinesBack(p, Corrected);
    RepairedPolygon(part, "(" + CompactData(p, Corrected) + ")", p);
  }

  /** The repair of a polygon piece gives back the polygon's parenthesised compact text. */
  lemma PolygonPartRepair(p: Geometry, first: bool, last: bool)
    requires p.Polygon? && Valid(p) && Bare(p)
    ensures Repair((if first then "((" else "") + PolygonCore(p) + (if last then "))" else ""), "((", "))")
      == "(" + CompactData(p, Corrected) + ")"
  {
    var x := PolygonCore(p);
    PolygonCoreShape(p);
    RepairPart(x, "((", "))", first, last);
    ParenTwice(x);
  }

  lemma ParenTwice(x: string)
    ensures "((" + x + "))" == "(" + ("(" + x + ")") + ")"
  {
  }

  lemma RepairedPolygon(part: string, y: string, g: Geometry)
    requires Repair(part, "((", "))") == y && ParseLines(PolygonKind, y) == Ok(g)
    ensures ParsePolygonPart(part) == Ok(g)
  {
  }

  /** The cores of a multi-polygon's polygons. */
  function PolygonCores(g: Geometry): (r: seq<string>)
    requires g.MultiPolygon? && Valid(g) && Solid(g)
    ensures |r| == |g.components|
    ensures forall i :: 0 <= i < |r| ==>
      g.components[i] in g.components && Solid(g.components[i]) && g.components[i].Polygon?
      && r[i] == PolygonCore(g.components[i])
  {
    seq(|g.components|, i requires 0 <= i < |g.components| =>
      assert g.components[i] in g.components;
      ComponentKindOf(g, i);
      PolygonCore(g.components[i]))
  }

  lemma MultiPolygonText(g: Geometry)
    requires g.MultiPolygon? && Valid(g) && Bare(g)
    ensures forall i :: 0 <= i < |g.components| ==>
      var p := g.components[i];
      p.Polygon? && Valid(p) && Bare(p)
    ensures forall i :: 0 <= i < |g.components| ==> SingleCloses(PolygonCores(g)[i])
    ensures CompactData(g, Corrected) == Join(",", Wrapped(PolygonCores(g), "((", "))"))
  {
    var cs := g.components;
    var xs := PolygonCores(g);
    var parts := CompactParts(cs, Parenthesised, Corrected);
    var ws := Wrapped(xs, "((", "))");
    forall i | 0 <= i < |cs| ensures cs[i].Polygon? && Valid(cs[i]) && Bare(cs[i]) && SingleCloses(xs[i])
      && parts[i] == ws[i]
    {
      PolygonPartText(g, i);
    }
    assert parts == ws;
  }

  /** One polygon of a multi-polygon, written in parentheses: its core in double parentheses. */
  lemma PolygonPartText(g: Geometry, i: nat)
    requires g.MultiPolygon? && Valid(g) && Bare(g) && i < |g.components|
    ensures var p := g.components[i];
      p.Polygon? && Valid(p) && Bare(p) && SingleCloses(PolygonCore(p))
      && "(" + CompactData(p, Corrected) + ")" == "((" + PolygonCore(p) + "))"
  {
    var p := g.components[i];
    ComponentKindOf(g, i);
    assert XYOnly(p) && Solid(p);
    PolygonCoreShape(p);
    ParenTwice(PolygonCore(p));
  }

  /** Polygon cores written "((...))" and joined by commas split back at ")),((". */
  lemma ExplodePolygons(xs: seq<string>)
    requires xs != []
    requires forall i :: 0 <= i < |xs| ==> SingleCloses(xs[i])
    ensures Explode(Join(",", Wrapped(xs, "((", "))")), ")),((") == Opened(xs, "((", "))")
  {
    forall i | 0 <= i < |xs| ensures Avoids("((" + xs[i], "))") {
      assert SingleCloses("((");
      SingleClosesConcat("((", xs[i]);
      SingleClosesAvoids("((" + xs[i]);
    }
    assert Closers("))");
    assert "))" + "," + "((" == ")),((";
    ExplodeWrapped(xs, "((", "))");
  }

  /** The data parseMultiPolygon() sees, and how it splits. */
  lemma MultiPolygonData(g: Geometry)
    requires g.MultiPolygon? && Valid(g) && Bare(g)
    ensures var d := CompactData(g, Corrected);
      TrimParens("(" + d + ")") == d && d != "EMPTY"
      && Explode(d, ")),((") == Opened(PolygonCores(g), "((", "))")
  {
    MultiPolygonText(g);
    var xs := PolygonCores(g);
    var d := CompactData(g, Corrected);
    assert d != "EMPTY" by {
      JoinFirst(",", Wrapped(xs, "((", "))"));
      assert d[0] == '(';
    }
    ExplodePolygons(xs);
    TrimParensOfWrapped(d);
  }

  /** The opened polygon texts explode() gives back each parse to their polygon. */
  lemma ParseOpenedPolygons(g: Geometry)
    requires g.MultiPolygon? && Valid(g) && Bare(g)
    ensures MapAll(Opened(PolygonCores(g), "((", "))"), ParsePolygonPart) == Ok(g.components)
  {
    var cs := g.components;
    MultiPolygonText(g);
    var o := Opened(PolygonCores(g), "((", "))");
    forall i | 0 <= i < |cs| ensures ParsePolygonPart(o[i]) == Ok(cs[i]) {
      PolygonPartBack(cs[i], i == 0, i == |cs| - 1);
    }
    MapAllOf(o, ParsePolygonPart, cs);
  }

  /** The corrected writer: a multi-polygon's polygons, each in parentheses, parse back. */
  lemma MultiPolygonBack(g: Geometry)
    requires g.MultiPolygon? && Valid(g) && Bare(g)
    ensures ParseMultiPolygon("(" + CompactData(g, Corrected) + ")") == Ok(g)
  {
    MultiPolygonData(g);
    ParseOpenedPolygons(g);
    NewCollectionOf(g);
  }

  // ------------------------------------------------------- keyword dispatch

  /** read()'s dispatch hands the data of "TYPE (data)" to the parser of TYPE. */
  lemma ParseTextFlat(k: Kind, d: string, g: Geometry)
    requires k != GeometryCollectionKind && ParseFlat(k, "(" + d + ")") == Ok(g)
    ensures ParseText(Keyword(k) + " (" + d + ")") == Ok(Some(g))
  {
    TextParts(k, d);
    TextFrom(Keyword(k) + " (" + d + ")", k, "(" + d + ")", g);
  }

  /** The keyword read() finds in "TYPE (data)", and the data string it hands on. */
  lemma TextParts(k: Kind, d: string)
    ensures var t := Keyword(k) + " (" + d + ")";
      FirstKeyword(t, 0) == Some(k) && GetDataString(t) == "(" + d + ")"
  {
    var t := Keyword(k) + " (" + d + ")";
    assert t == Keyword(k) + (" (" + d + ")");
    KeywordDispatch(k, " (" + d + ")");
    DataOfText(k, d);
  }

  /** The keyword dispatch in steps: the keyword found, the data string, what its parser makes of it. */
  lemma TextFrom(c: string, k: Kind, x: string, g: Geometry)
    requires FirstKeyword(c, 0) == Some(k) && GetDataString(c) == x
    requires k == GeometryCollectionKind ==> ParseGeometryCollection(x) == Ok(g)
    requires k != GeometryCollectionKind ==> ParseFlat(k, x) == Ok(g)
    ensures ParseText(c) == Ok(Some(g))
  {
  }

  /** The parser of a member's keyword gives it back from its parenthesised compact text. */
  lemma FlatBack(c: Geometry, w: Writer)
    requires Member(c, w) && Valid(c) && Bare(c)
    ensures ParseFlat(KindOf(c), "(" + CompactData(c, w) + ")") == Ok(c)
  {
    var x := "(" + CompactData(c, w) + ")";
    if c.Point? {
      ParsePointParenthesised(c);
      FlatParser(PointKind, x, c);
    } else if c.LineString? {
      LineStringBack(c, w);
      FlatParser(LineStringKind, x, c);
    } else if c.Polygon? || c.MultiLineString? {
      FlatLinesBack(c, w);
      FlatParser(KindOf(c), x, c);
    } else if c.MultiPoint? {
      assert w == Corrected;
      MultiPointBack(c);
      FlatParser(MultiPointKind, x, c);
    } else {
      assert w == Corrected;
      MultiPolygonBack(c);
      FlatParser(MultiPolygonKind, x, c);
    }
  }

  /** The dispatch of ParseFlat, one kind at a time. */
  lemma FlatParser(k: Kind, x: string, g: Geometry)
    requires k != GeometryCollectionKind
    requires k == PointKind ==> ParsePoint(x) == g
    requires k == LineStringKind ==> ParseLineString(x) == Ok(g)
    requires k == PolygonKind || k == MultiLineStringKind ==> ParseLines(k, x) == Ok(g)
    requires k == MultiPointKind ==> ParseMultiPoint(x) == Ok(g)
    requires k == MultiPolygonKind ==> ParseMultiPolygon(x) == Ok(g)
    ensures ParseFlat(k, x) == Ok(g)
  {
  }

  lemma FlatLinesBack(c: Geometry, w: Writer)
    requires Member(c, w) && Valid(c) && Bare(c) && (c.Polygon? || c.MultiLineString?)
    ensures ParseLines(KindOf(c), "(" + CompactData(c, w) + ")") == Ok(c)
  {
    if c.Polygon? && w == AsWritten {
      OnePolygonBack(c);
    } else {
      assert ParenthesisedLines(c, w);
      LinesBack(c, w);
    }
  }

  /** Every geometry the writer writes as a collection member parses back from its compact text. */
  lemma ParsesBack(c: Geometry, w: Writer)
    requires Member(c, w) && Valid(c) && Bare(c)
    ensures ParseText(TextOf(c, w)) == Ok(Some(c))
  {
    FlatBack(c, w);
    ParseTextFlat(KindOf(c), CompactData(c, w), c);
  }

  // ------------------------------------------------------ collection members

  /** A geometry whose every level the writer puts in parentheses or leaves plain, never tagged. */
  predicate Untagged(g: Geometry, w: Writer)
  {
    !g.GeometryCollection? && (w == AsWritten ==> !g.MultiPoint? && !g.MultiPolygon?)
  }

  /** The compact text of an untagged geometry starts with a number or `(` and holds no component break. */
  lemma {:induction false} UntaggedShape(g: Geometry, w: Writer)
    requires Untagged(g, w) && Valid(g) && Bare(g)
    ensures Opening(CompactData(g, w)) && NoComponentBreak(CompactData(g, w))
    decreases g
  {
    if g.Point? {
      PointTextShape(g);
    } else {
      var cs := g.components;
      var style := StyleOf(g, w);
      assert style != Tagged;
      var parts := CompactParts(cs, style, w);
      forall i | 0 <= i < |cs|
        ensures Opening(parts[i]) && NoComponentBreak(parts[i])
      {
        ComponentKindOf(g, i);
        assert XYOnly(cs[i]) && Solid(cs[i]);
        UntaggedShape(cs[i], w);
        if style == Parenthesised {
          ParenShape(CompactData(cs[i], w));
        }
      }
      JoinedShape(parts);
    }
  }

  /** Text that starts with a number or `(`. */
  predicate Opening(d: string)
  {
    d != [] && (IsDigit(d[0]) || d[0] == '-' || d[0] == '(')
  }

  lemma ParenShape(d: string)
    requires Opening(d) && NoComponentBreak(d)
    ensures Opening("(" + d + ")") && NoComponentBreak("(" + d + ")")
  {
    NoBreakConcat("(", d);
    NoBreakConcat("(" + d, ")");
  }

  lemma JoinedShape(parts: seq<string>)
    requires parts != [] && forall i :: 0 <= i < |parts| ==> Opening(parts[i]) && NoComponentBreak(parts[i])
    ensures Opening(Join(",", parts)) && NoComponentBreak(Join(",", parts))
  {
    forall i | 0 <= i < |parts|
      ensures NoComponentBreak(parts[i]) && parts[i] != [] && !IsRegexSpace(parts[i][0]) && !IsLetter(parts[i][0])
    {
      assert Opening(parts[i]);
    }
    JoinNoBreak(parts);
    JoinFirst(",", parts);
  }

  /** The text of a member: a letter first, no component break, no `|`, no `;`, nothing to collapse. */
  lemma MemberTextShape(c: Geometry, w: Writer)
    requires Member(c, w) && Valid(c) && Bare(c)
    ensures var t := TextOf(c, w);
      t != [] && IsLetter(t[0]) && t[|t| - 1] == ')' && NoComponentBreak(t) && '|' !in t
    ensures var d := CompactData(c, w);
      ';' !in d && CollapseCommaSpace(d) == d
  {
    var kw := Keyword(KindOf(c));
    var d := CompactData(c, w);
    UntaggedShape(c, w);
    WrittenData(c, w);
    NoBreakNoCommaSpace(d);
    CollapseNoOp(d);
    KeywordLetters(KindOf(c));
    TaggedShape(kw, d);
  }

  /** "TYPE (data)": a letter first, `)` last, and no component break or `|` unless the data has one. */
  lemma TaggedShape(kw: string, d: string)
    requires kw != [] && forall i :: 0 <= i < |kw| ==> 'A' <= kw[i] <= 'Z'
    requires Opening(d) && NoComponentBreak(d) && '|' !in d
    ensures var t := kw + " (" + d + ")";
      t != [] && IsLetter(t[0]) && t[|t| - 1] == ')' && NoComponentBreak(t) && '|' !in t
  {
    assert ',' !in kw + " (";
    NoBreakConcat(kw + " (", d);
    NoBreakConcat(kw + " (" + d, ")");
    var t := kw + " (" + d + ")";
    assert t[0] == kw[0];
  }

  /** The text of a member is already trimmed, has no SRID part, and has nothing to collapse. */
  lemma MemberTextRaw(c: Geometry, w: Writer)
    requires Member(c, w) && Valid(c) && Bare(c)
    ensures var t := TextOf(c, w);
      Trim(t) == t && SplitSrid(t) == (t, None) && CollapseCommaSpace(t) == t
  {
    var kw := Keyword(KindOf(c));
    var d := CompactData(c, w);
    MemberTextShape(c, w);
    KeywordLetters(KindOf(c));
    TaggedNoSrid(kw, d);
    TaggedCollapse(kw, d);
    TaggedTrim(kw, d);
  }

  /** read() of a member's text, as the collection reader hands it over, gives the member. */
  lemma MemberRead(c: Geometry, w: Writer)
    requires Member(c, w) && Valid(c) && Bare(c)
    ensures Read(TextOf(c, w)) == Ok(Some(c))
  {
    MemberTextRaw(c, w);
    ReadWithoutSrid(TextOf(c, w));
    ParsesBack(c, w);
  }

  // ------------------------------------------------------ geometry collections

  /** The texts of a collection's members. */
  function MemberTexts(g: Geometry, w: Writer): (r: seq<string>)
    requires Solid(g) && !g.Point?
    ensures |r| == |g.components|
    ensures forall i :: 0 <= i < |r| ==> g.components[i] in g.components && r[i] == TextOf(g.components[i], w)
  {
    seq(|g.components|, i requires 0 <= i < |g.components| =>
      assert g.components[i] in g.components; TextOf(g.components[i], w))
  }

  /** A collection of members: the members as written, and its compact text their comma-joined texts. */
  lemma CollectionText(g: Geometry, w: Writer)
    requires g.GeometryCollection? && Valid(g) && Bare(g)
    requires forall c :: c in g.components ==> Member(c, w)
    ensures forall i :: 0 <= i < |g.components| ==>
      var c := g.components[i];
      Member(c, w) && Valid(c) && Bare(c)
    ensures CompactData(g, w) == Join(",", MemberTexts(g, w))
  {
    var cs := g.components;
    forall i | 0 <= i < |cs| ensures Member(cs[i], w) && Valid(cs[i]) && Bare(cs[i]) {
      assert cs[i] in cs;
      assert XYOnly(cs[i]) && Solid(cs[i]);
    }
    var parts := CompactParts(cs, Tagged, w);
    var ts := MemberTexts(g, w);
    forall i | 0 <= i < |cs| ensures parts[i] == ts[i] {
    }
    assert parts == ts;
  }

  /** Members' texts joined with commas: what the component splitter and explode() make of them. */
  lemma SplitMembers(ts: seq<string>)
    requires ts != []
    requires forall i :: 0 <= i < |ts| ==>
      ts[i] != [] && IsLetter(ts[i][0]) && ts[i][|ts[i]| - 1] == ')' && NoComponentBreak(ts[i]) && '|' !in ts[i]
    ensures ComponentParts(Join(",", ts)) == ts
  {
    MarkJoin(ts);
    ExplodeJoinChar(ts, '|');
    BarJoinTrimmed(ts);
  }

  lemma BarJoinTrimmed(ts: seq<string>)
    requires ts != []
    requires forall i :: 0 <= i < |ts| ==> ts[i] != [] && IsLetter(ts[i][0]) && ts[i][|ts[i]| - 1] == ')'
    ensures Trim(Join("|", ts)) == Join("|", ts)
  {
    var t := Join("|", ts);
    JoinFirst("|", ts);
    JoinLast("|", ts);
    TrimOfUntrimmable(t);
  }

  /** Reading each text that reads as its geometry gives the geometries. */
  lemma {:induction false} ReadEachBack(parts: seq<string>, gs: seq<Geometry>, bound: nat)
    requires |parts| == |gs|
    requires forall i :: 0 <= i < |parts| ==> |parts[i]| <= bound && Read(parts[i]) == Ok(Some(gs[i]))
    ensures ReadEach(parts, bound) == Ok(Somes(gs))
    decreases |parts|
  {
    if parts != [] {
      ReadEachBack(parts[1..], gs[1..], bound);
      assert Somes(gs) == [Some(gs[0])] + Somes(gs[1..]);
    }
  }

  /** parseGeometryCollection() in steps: the trimmed data, its parts, the collection they read as. */
  lemma CollectionFrom(s: string, d: string, parts: seq<string>, g: Geometry)
    requires TrimParens(s) == d && d != "EMPTY" && ComponentParts(d) == parts
    requires forall i :: 0 <= i < |parts| ==> |parts[i]| <= |s|
    requires CollectionOfParts(parts, |s|) == Ok(g)
    ensures ParseGeometryCollection(s) == Ok(g)
  {
  }

  lemma CollectionOfRead(parts: seq<string>, bound: nat, items: seq<Option<Geometry>>, g: Geometry)
    requires forall i :: 0 <= i < |parts| ==> |parts[i]| <= bound
    requires ReadEach(parts, bound) == Ok(items) && NewCollection(GeometryCollectionKind, items) == Ok(g)
    ensures CollectionOfParts(parts, bound) == Ok(g)
  {
  }

  /** The data of a collection of members: trimmed of its parentheses, not "EMPTY", split into the members' texts. */
  lemma CollectionData(g: Geometry, w: Writer)
    requires g.GeometryCollection? && Valid(g) && Bare(g)
    requires forall c :: c in g.components ==> Member(c, w)
    ensures var d := CompactData(g, w);
      TrimParens("(" + d + ")") == d && d != "EMPTY"
      && ComponentParts(d) == MemberTexts(g, w)
  {
    CollectionText(g, w);
    var ts := MemberTexts(g, w);
    var d := CompactData(g, w);
    forall i | 0 <= i < |ts| ensures
      ts[i] != [] && IsLetter(ts[i][0]) && ts[i][|ts[i]| - 1] == ')' && NoComponentBreak(ts[i]) && '|' !in ts[i]
    {
      MemberTextShape(g.components[i], w);
    }
    assert d != "EMPTY" by {
      JoinFirst(",", ts);
      assert d[0] == ts[0][0] == Keyword(KindOf(g.components[0]))[0];
    }
    SplitMembers(ts);
    TrimParensOfWrapped(d);
  }

  /** A collection of members parses back from its parenthesised compact text. */
  lemma CollectionBack(g: Geometry, w: Writer)
    requires g.GeometryCollection? && Valid(g) && Bare(g)
    requires forall c :: c in g.components ==> Member(c, w)
    ensures ParseGeometryCollection("(" + CompactData(g, w) + ")") == Ok(g)
  {
    var s := "(" + CompactData(g, w) + ")";
    var ts := MemberTexts(g, w);
    CollectionText(g, w);
    CollectionData(g, w);
    forall i | 0 <= i < |ts| ensures |ts[i]| <= |s| && Read(ts[i]) == Ok(Some(g.components[i])) {
      MemberRead(g.components[i], w);
      JoinPartLength(",", ts, i);
    }
    ReadEachBack(ts, g.components, |s|);
    NewCollectionOf(g);
    CollectionOfRead(ts, |s|, Somes(g.components), g);
    CollectionFrom(s, CompactData(g, w), ts, g);
  }

  /** read()'s dispatch hands the data of "GEOMETRYCOLLECTION (data)" to the collection parser. */
  lemma ParseTextCollection(d: string, g: Geometry)
    requires ParseGeometryCollection("(" + d + ")") == Ok(g)
    ensures ParseText(Keyword(GeometryCollectionKind) + " (" + d + ")") == Ok(Some(g))
  {
    var k := GeometryCollectionKind;
    TextParts(k, d);
    TextFrom(Keyword(k) + " (" + d + ")", k, "(" + d + ")", g);
  }

  // ------------------------------------------------------------- the theorem

  /**
   * Write, then read: a geometry without empty parts, with two-dimensional
   * points and no SRID, comes back as it was, when the writer writes it as
   * a member or it is a collection of such members.  The corrected writer
   * writes every geometry but a collection as a member; the writer as it
   * stands only points, line strings, one-ring polygons and multi-line
   * strings.
   */
  lemma RoundTrip(g: Geometry, w: Writer)
    requires Valid(g) && Bare(g)
    requires Member(g, w) || (g.GeometryCollection? && forall c :: c in g.components ==> Member(c, w))
    ensures WriteWith(g, w).Ok? && WriteWith(g, w).value.Some?
    ensures Read(WriteWith(g, w).value.value) == Ok(Some(g))
  {
    ReadOfWritten(g, w);
    if g.GeometryCollection? {
      CollectionBack(g, w);
      ParseTextCollection(CompactData(g, w), g);
    } else {
      ParsesBack(g, w);
    }
  }

  /** The corrected writer: everything but a collection inside a collection reads back. */
  lemma WriteRead(g: Geometry)
    requires Valid(g) && Bare(g)
    requires g.GeometryCollection? ==> forall c :: c in g.components ==> !c.GeometryCollection?
    ensures Write(g).Ok? && Write(g).value.Some?
    ensures Read(Write(g).value.value) == Ok(Some(g))
  {
    RoundTrip(g, Corrected);
  }

  // ------------------------------------------------------- empty geometries

  /** "TYPE EMPTY" has no SRID part, nothing to collapse, and "EMPTY" as its data string. */
  lemma EmptyTextShape(kw: string)
    requires |kw| >= 1 && forall i :: 0 <= i < |kw| ==> 'A' <= kw[i] <= 'Z'
    ensures var t := kw + " EMPTY";
      SplitSrid(t) == (t, None) && CollapseCommaSpace(t) == t && GetDataString(t) == "EMPTY"
  {
    var t := kw + " EMPTY";
    assert ';' !in t && ',' !in t && '(' !in t;
    NoSemicolon(t);
    CollapseNoComma(t);
    FindChar(t, '(');
    assert OccursAt(t, "EMPTY", |kw| + 1) by {
      assert t[|kw| + 1..|kw| + 6] == "EMPTY";
    }
  }

  lemma EmptyTextTrimmed(kw: string)
    requires |kw| >= 1 && 'A' <= kw[0] <= 'Z'
    ensures Trim(kw + " EMPTY") == kw + " EMPTY"
  {
    var t := kw + " EMPTY";
    assert t[0] == kw[0];
    TrimOfUntrimmable(t);
  }

  /** read() of "TYPE EMPTY" hands "EMPTY" to the parser of TYPE. */
  lemma EmptyTextRead(k: Kind, g: Geometry)
    requires k == GeometryCollectionKind ==> ParseGeometryCollection("EMPTY") == Ok(g)
    requires k != GeometryCollectionKind ==> ParseFlat(k, "EMPTY") == Ok(g)
    ensures Read(Keyword(k) + " EMPTY") == Ok(Some(g))
  {
    var t := Keyword(k) + " EMPTY";
    KeywordLetters(k);
    EmptyTextShape(Keyword(k));
    KeywordDispatch(k, " EMPTY");
    TextFrom(t, k, "EMPTY", g);
    EmptyTextTrimmed(Keyword(k));
    ReadWithoutSrid(t);
  }

  lemma TrimParensEmpty()
    ensures TrimParens("EMPTY") == "EMPTY"
  {
    TrimOfUntrimmable("EMPTY");
    assert !BeginsWith("EMPTY", "(");
  }

  /** The empty point and the empty collection are written as "TYPE EMPTY" and read back. */
  lemma EmptyRoundTrip(g: Geometry, w: Writer)
    requires g == Point(EmptyCoords, 0) || g == GeometryCollection([], 0)
    ensures WriteWith(g, w) == Ok(Some(Keyword(KindOf(g)) + " EMPTY"))
    ensures Read(Keyword(KindOf(g)) + " EMPTY") == Ok(Some(g))
  {
    TrimParensEmpty();
    if g.Point? {
      assert ParsePoint("EMPTY") == g;
      FlatParser(PointKind, "EMPTY", g);
      EmptyTextRead(PointKind, g);
    } else {
      assert ParseGeometryCollection("EMPTY") == Ok(g);
      EmptyTextRead(GeometryCollectionKind, g);
    }
  }

  // ---------------------------------------- what the writer as it stands loses

  lemma PointTextsAppend(a: seq<Geometry>, b: seq<Geometry>)
    requires (forall p :: p in a ==> SolidXY(p)) && (forall p :: p in b ==> SolidXY(p))
    ensures forall p :: p in a + b ==> SolidXY(p)
    ensures PointTexts(a + b) == PointTexts(a) + PointTexts(b)
  {
  }

  lemma {:induction false} PointsOfPoints(ps: seq<Geometry>)
    requires forall p :: p in ps ==> p.Point?
    ensures PointsOf(ps) == ps
    decreases |ps|
  {
    if ps != [] {
      assert ps[0] in ps;
      assert forall p :: p in ps[1..] ==> p in ps;
      PointsOfPoints(ps[1..]);
      assert ps == [ps[0]] + ps[1..];
    }
  }

  /** One ring's points, its compact text, and the at least two points it has. */
  lemma RingPoints(r: Geometry)
    requires r.LineString? && Valid(r) && Bare(r)
    ensures PointsFlatMap(r) == r.components && |r.components| >= 2
    ensures (forall p :: p in r.components ==> SolidXY(p))
      && CompactData(r, AsWritten) == Join(",", PointTexts(r.components))
  {
    LineText(r, AsWritten);
    PointsOfPoints(r.components);
  }

  /** Rings written bare and joined with commas are one run of points: the points of all the rings. */
  lemma {:induction false} MergedRings(rs: seq<Geometry>)
    requires rs != [] && forall r :: r in rs ==> r.LineString? && Valid(r) && Bare(r)
    ensures AllSolid(rs)
    ensures |PointsOf(rs)| >= 2 && forall p :: p in PointsOf(rs) ==> SolidXY(p)
    ensures Join(",", CompactParts(rs, Plain, AsWritten)) == Join(",", PointTexts(PointsOf(rs)))
    decreases |rs|
  {
    var r := rs[0];
    assert r in rs;
    RingPoints(r);
    var rest := rs[1..];
    assert forall x :: x in rest ==> x in rs;
    var parts := CompactParts(rs, Plain, AsWritten);
    if |rs| == 1 {
      PointsOfSingle(r);
      assert parts == [CompactData(r, AsWritten)];
      assert rs == [r];
    } else {
      MergedRings(rest);
      assert parts == [CompactData(r, AsWritten)] + CompactParts(rest, Plain, AsWritten);
      JoinCons(",", CompactData(r, AsWritten), CompactParts(rest, Plain, AsWritten));
      assert PointsOf(rs) == r.components + PointsOf(rest);
      PointTextsAppend(r.components, PointsOf(rest));
      JoinConcat(",", PointTexts(r.components), PointTexts(PointsOf(rest)));
    }
  }

  /** What a polygon with holes reads back as under the writer as it stands: one ring through all its points. */
  function MergedPolygon(g: Geometry): Geometry
  {
    Polygon([LineString(PointsFlatMap(g), 0)], 0)
  }

  /** The writer as it stands writes a polygon's rings as one run of points. */
  lemma MergedText(g: Geometry)
    requires g.Polygon? && Valid(g) && Bare(g)
    ensures Valid(MergedPolygon(g)) && Bare(MergedPolygon(g))
    ensures CompactData(MergedPolygon(g), AsWritten) == CompactData(g, AsWritten)
  {
    var rs := g.components;
    forall r | r in rs ensures r.LineString? && Valid(r) && Bare(r) {
      var i :| 0 <= i < |rs| && rs[i] == r;
      ComponentKindOf(g, i);
      assert XYOnly(r) && Solid(r);
    }
    MergedRings(rs);
    var pts := PointsOf(rs);
    var ls := LineString(pts, 0);
    assert Valid(ls) && Bare(ls) by {
      forall i | 0 <= i < |pts| ensures Accepts(LineStringKind, Some(pts[i])) {
        assert pts[i] in pts;
      }
    }
    var h := MergedPolygon(g);
    assert h.components == [ls];
    assert Valid(h) && Bare(h);
    LineText(ls, AsWritten);
    assert CompactParts([ls], Plain, AsWritten) == [CompactData(ls, AsWritten)];
  }

  /**
   * The writer as it stands: a polygon with holes reads back as a polygon
   * with one ring through all its points, which is not the polygon.
   */
  lemma HolesMerged(g: Geometry)
    requires g.Polygon? && |g.components| >= 2 && Valid(g) && Bare(g)
    ensures WriteAsWritten(g).Ok? && WriteAsWritten(g).value.Some?
    ensures Read(WriteAsWritten(g).value.value) == Ok(Some(MergedPolygon(g)))
    ensures MergedPolygon(g) != g
  {
    var h := MergedPolygon(g);
    MergedText(g);
    ReadOfWritten(g, AsWritten);
    ParsesBack(h, AsWritten);
    assert TextOf(h, AsWritten) == TextOf(g, AsWritten);
  }

  /**
   * "TYPE (data)" read as a point: the first two space-separated pieces,
   * the keyword and "(...", are not numbers.
   */
  lemma ParseTaggedPoint(kw: string, d: string)
    requires |kw| >= 1 && forall i :: 0 <= i < |kw| ==> 'A' <= kw[i] <= 'Z'
    ensures ParsePoint(kw + " (" + d + ")") == Point(XY(0, 0), 0)
  {
    var t := kw + " (" + d + ")";
    TaggedParts(kw, d);
    TaggedTrimParens(kw, d);
    TaggedNotEmpty(kw, d);
    var parts := Explode(t, " ");
    ExplodeHead("(" + d + ")", " ");
    FloatValNoDigits(kw);
    FloatValNoDigits(parts[1]);
    ParsePointOfParts(t, parts);
  }

  /** Splitting "TYPE (data)" on spaces gives the keyword, then the pieces of "(data)". */
  lemma TaggedParts(kw: string, d: string)
    requires |kw| >= 1 && forall i :: 0 <= i < |kw| ==> 'A' <= kw[i] <= 'Z'
    ensures Explode(kw + " (" + d + ")", " ") == [kw] + Explode("(" + d + ")", " ")
  {
    var rest := "(" + d + ")";
    assert kw + " (" + d + ")" == kw + [' '] + rest;
    assert ' ' !in kw by {
      forall i | 0 <= i < |kw| ensures kw[i] != ' ' {
      }
    }
    ExplodeAtFirst(kw, ' ', rest);
  }

  /** "TYPE (data)" is never the bare word EMPTY. */
  lemma TaggedNotEmpty(kw: string, d: string)
    requires |kw| >= 1 && forall i :: 0 <= i < |kw| ==> 'A' <= kw[i] <= 'Z'
    ensures kw + " (" + d + ")" != "EMPTY"
  {
    var t := kw + " (" + d + ")";
    if |t| == 5 {
      assert t[|kw|] == ' ';
    }
  }

  /** parsePoint() of a text with no parentheses to trim: the first two space-separated numbers. */
  lemma ParsePointOfParts(t: string, parts: seq<string>)
    requires TrimParens(t) == t && t != "EMPTY" && Explode(t, " ") == parts
    ensures ParsePoint(t) == Point(XY(FloatVal(parts[0]), if |parts| >= 2 then FloatVal(parts[1]) else 0), 0)
  {
  }

  /** trimParens() leaves "TYPE (data)" as it is: it does not start with `(`. */
  lemma TaggedTrimParens(kw: string, d: string)
    requires |kw| >= 1 && forall i :: 0 <= i < |kw| ==> 'A' <= kw[i] <= 'Z'
    ensures TrimParens(kw + " (" + d + ")") == kw + " (" + d + ")"
  {
    var t := kw + " (" + d + ")";
    assert t[0] == kw[0];
    assert !BeginsWith(t, "(");
    TaggedTrim(kw, d);
  }

  /** A multi-point of `n` points at the origin. */
  function Origins(n: nat): (r: seq<Geometry>)
    ensures |r| == n && forall i :: 0 <= i < n ==> r[i] == Point(XY(0, 0), 0)
  {
    seq(n, _ => Point(XY(0, 0), 0))
  }

  /** The writer as it stands tags every member of a multi-point. */
  lemma TaggedPointsText(g: Geometry)
    requires g.MultiPoint? && Valid(g) && Bare(g)
    ensures var parts := CompactParts(g.components, Tagged, AsWritten);
      CompactData(g, AsWritten) == Join(",", parts)
      && forall i :: 0 <= i < |parts| ==>
        SolidXY(g.components[i]) && parts[i] == Keyword(PointKind) + " (" + PointText(g.components[i]) + ")"
        && ',' !in parts[i]
  {
    var cs := g.components;
    var parts := CompactParts(cs, Tagged, AsWritten);
    forall i | 0 <= i < |cs| ensures SolidXY(cs[i]) && ',' !in parts[i] {
      ComponentKindOf(g, i);
      assert XYOnly(cs[i]) && Solid(cs[i]);
      PointTextShape(cs[i]);
    }
  }

  /** The data parseMultiPoint() sees of the tagged members, and how it splits. */
  lemma TaggedPointsData(g: Geometry)
    requires g.MultiPoint? && Valid(g) && Bare(g)
    ensures var d := CompactData(g, AsWritten);
      TrimParens("(" + d + ")") == d && d != "EMPTY"
      && Explode(d, ",") == CompactParts(g.components, Tagged, AsWritten)
  {
    TaggedPointsText(g);
    var parts := CompactParts(g.components, Tagged, AsWritten);
    var d := CompactData(g, AsWritten);
    assert d != "EMPTY" by {
      JoinFirst(",", parts);
      assert d[0] == 'P';
    }
    ExplodeJoinChar(parts, ',');
    TrimParensOfWrapped(d);
  }

  /** Each tagged member is read as the origin. */
  lemma TaggedPointsEach(g: Geometry)
    requires g.MultiPoint? && Valid(g) && Bare(g)
    ensures ParsePoints(CompactParts(g.components, Tagged, AsWritten)) == Somes(Origins(|g.components|))
  {
    var cs := g.components;
    TaggedPointsText(g);
    var parts := CompactParts(cs, Tagged, AsWritten);
    KeywordLetters(PointKind);
    forall i | 0 <= i < |cs| ensures ParsePoint(parts[i]) == Point(XY(0, 0), 0) {
      ParseTaggedPoint(Keyword(PointKind), PointText(cs[i]));
    }
  }

  /** parseMultiPoint() of the tagged members: every member is read as the origin. */
  lemma TaggedPointsParse(g: Geometry)
    requires g.MultiPoint? && Valid(g) && Bare(g)
    ensures ParseMultiPoint("(" + CompactData(g, AsWritten) + ")") == Ok(MultiPoint(Origins(|g.components|), 0))
  {
    var n := |g.components|;
    var h := MultiPoint(Origins(n), 0);
    var d := CompactData(g, AsWritten);
    TaggedPointsData(g);
    TaggedPointsEach(g);
    OriginsCollection(n);
    MultiPointFrom("(" + d + ")", d, CompactParts(g.components, Tagged, AsWritten), h);
  }

  lemma OriginsCollection(n: nat)
    requires n >= 1
    ensures NewCollection(MultiPointKind, Somes(Origins(n))) == Ok(MultiPoint(Origins(n), 0))
  {
    var h := MultiPoint(Origins(n), 0);
    assert Valid(h) by {
      assert forall i :: 0 <= i < n ==> Accepts(MultiPointKind, Some(h.components[i]));
    }
    NewCollectionOf(h);
  }

  /** parseMultiPoint() in steps: the trimmed data, its comma-separated pieces, the points they read as. */
  lemma MultiPointFrom(s: string, d: string, parts: seq<string>, g: Geometry)
    requires TrimParens(s) == d && d != "EMPTY" && Explode(d, ",") == parts
    requires NewCollection(MultiPointKind, ParsePoints(parts)) == Ok(g)
    ensures ParseMultiPoint(s) == Ok(g)
  {
  }

  /**
   * The writer as it stands: a multi-point reads back as as many points at
   * the origin, whatever its points were.
   */
  lemma PointsLost(g: Geometry)
    requires g.MultiPoint? && Valid(g) && Bare(g)
    ensures WriteAsWritten(g).Ok? && WriteAsWritten(g).value.Some?
    ensures Read(WriteAsWritten(g).value.value) == Ok(Some(MultiPoint(Origins(|g.components|), 0)))
  {
    var h := MultiPoint(Origins(|g.components|), 0);
    var d := CompactData(g, AsWritten);
    TaggedPointsParse(g);
    FlatParser(MultiPointKind, "(" + d + ")", h);
    ParseTextFlat(MultiPointKind, d, h);
    ReadOfWritten(g, AsWritten);
  }
}
