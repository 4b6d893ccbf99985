/**
 * What the WKT writer as it stands does to a multi-polygon: each member is
 * tagged "POLYGON (…)" with its rings run together, and the reader, which
 * splits members at `)),((`, sees one member whose one ring runs through
 * every point, the first point of each polygon read as the origin.
 */
module WktLost {
  import opened Wrappers
  import opened Text
  import opened Types
  import opened Wkt
  import opened WktProofs
  import opened WktRoundTrip

  /** A polygon's compact text as written: all its points in one comma-separated run. */
  lemma PolygonText(c: Geometry)
    requires c.Polygon? && Valid(c) && Bare(c)
    ensures |PointsFlatMap(c)| >= 2 && forall p :: p in PointsFlatMap(c) ==> SolidXY(p)
    ensures CompactData(c, AsWritten) == Join(",", PointTexts(PointsFlatMap(c)))
  {
    var rs := c.components;
    forall r | r in rs ensures r.LineString? && Valid(r) && Bare(r) {
      var i :| 0 <= i < |rs| && rs[i] == r;
      ComponentKindOf(c, i);
      assert XYOnly(r) && Solid(r);
    }
    MergedRings(rs);
  }

  /**
   * The pieces `open + t0`, t1, …, `tn + close`: what explode() on the
   * separator gives back from `open + join(ts) + close` when no text holds
   * the separator.
   */
  function Pieces(open: string, close: string, ts: seq<string>): (r: seq<string>)
    requires |ts| >= 2
    ensures |r| == |ts| && r[0] == open + ts[0] && r[|ts| - 1] == ts[|ts| - 1] + close
    ensures forall i :: 0 < i < |ts| - 1 ==> r[i] == ts[i]
  {
    [open + ts[0]] + ts[1..|ts| - 1] + [ts[|ts| - 1] + close]
  }

  lemma JoinPieces(sep: string, open: string, close: string, ts: seq<string>)
    requires |ts| >= 2
    ensures Join(sep, Pieces(open, close, ts)) == open + Join(sep, ts) + close
  {
    var n := |ts|;
    var a := ts[0];
    var mid := ts[1..n - 1];
    var z := ts[n - 1];
    assert ts == [a] + (mid + [z]);
    assert Pieces(open, close, ts) == [open + a] + (mid + [z + close]);
    JoinCons(sep, a, mid + [z]);
    JoinCons(sep, open + a, mid + [z + close]);
    if mid == [] {
      assert Join(sep, mid + [z]) == z;
      assert Join(sep, mid + [z + close]) == z + close;
    } else {
      JoinAppend(sep, mid, z);
      JoinAppend(sep, mid, z + close);
    }
  }

  /** The opening text of a tagged member: "TYPE (". */
  function TagOpen(k: Kind): string
  {
    Keyword(k) + " ("
  }

  /**
   * The points a multi-polygon written as it stands reads back as: for each
   * polygon in turn, the origin in place of its first point, then the rest
   * of its points, all rings run together.
   */
  ghost function LostPoints(cs: seq<Geometry>): (r: seq<Geometry>)
    requires forall c :: c in cs ==> PointsFlatMap(c) != []
    ensures forall q :: q in r ==> q.Point?
  {
    if cs == [] then []
    else
      assert forall c :: c in cs[1..] ==> c in cs;
      [Point(XY(0, 0), 0)] + PointsFlatMap(cs[0])[1..] + LostPoints(cs[1..])
  }

  /** The comma-separated pieces of the data of such a multi-polygon. */
  ghost function LostPieces(cs: seq<Geometry>): (r: seq<string>)
    requires forall c :: c in cs ==> c.Polygon? && Valid(c) && Bare(c)
  {
    if cs == [] then []
    else
      assert cs[0] in cs && forall c :: c in cs[1..] ==> c in cs;
      PolygonText(cs[0]);
      Pieces(TagOpen(KindOf(cs[0])), ")", PointTexts(PointsFlatMap(cs[0]))) + LostPieces(cs[1..])
  }

  /** The pieces of the data of a multi-polygon as written. */
  ghost function LostPiecesOf(g: Geometry): seq<string>
    requires g.MultiPolygon? && Valid(g) && Bare(g)
  {
    PolygonsOf(g);
    LostPieces(g.components)
  }

  /** The members of a constructible multi-polygon without empty parts. */
  lemma PolygonsOf(g: Geometry)
    requires g.MultiPolygon? && Valid(g) && Bare(g)
    ensures forall c :: c in g.components ==> c.Polygon? && Valid(c) && Bare(c)
    ensures forall c :: c in g.components ==> PointsFlatMap(c) != []
  {
    forall c | c in g.components
      ensures c.Polygon? && Valid(c) && Bare(c) && PointsFlatMap(c) != []
    {
      var i :| 0 <= i < |g.components| && g.components[i] == c;
      ComponentKindOf(g, i);
      assert XYOnly(c) && Solid(c);
      PolygonText(c);
    }
  }

  /** What such a multi-polygon reads back as: one polygon with one ring through the lost points. */
  ghost function LostPolygons(g: Geometry): Geometry
    requires g.MultiPolygon? && Valid(g) && Bare(g)
  {
    PolygonsOf(g);
    MultiPolygon([Polygon([LineString(LostPoints(g.components), 0)], 0)], 0)
  }

  // ------------------------------------------------ where parentheses stand

  /**
   * No `(` at the start, every other `(` right after a space, and every `)`
   * but a last one right before a comma.
   */
  predicate ParenShapeOk(s: string)
  {
    s != [] && s[0] != '('
    && (forall j :: 0 < j < |s| && s[j] == '(' ==> s[j - 1] == ' ')
    && (forall j :: 0 <= j < |s| - 1 && s[j] == ')' ==> s[j + 1] == ',')
  }

  lemma ParenShapeJoin(a: string, b: string)
    requires ParenShapeOk(a) && ParenShapeOk(b)
    ensures ParenShapeOk(a + "," + b)
  {
    var s := a + "," + b;
    assert s[|a|] == ',' && s[|a| + 1] == b[0];
    forall j | 0 < j < |s| && s[j] == '(' ensures s[j - 1] == ' ' {
      if j < |a| {
        assert s[j] == a[j] && s[j - 1] == a[j - 1];
      } else if j > |a| + 1 {
        assert s[j] == b[j - |a| - 1] && s[j - 1] == b[j - |a| - 2];
      }
    }
    forall j | 0 <= j < |s| - 1 && s[j] == ')' ensures s[j + 1] == ',' {
      if j < |a| - 1 {
        assert s[j] == a[j] && s[j + 1] == a[j + 1];
      } else if j > |a| {
        assert s[j] == b[j - |a| - 1] && s[j + 1] == b[j - |a|];
      }
    }
  }

  lemma {:induction false} ParenShapeJoinAll(parts: seq<string>)
    requires parts != [] && forall x :: x in parts ==> ParenShapeOk(x)
    ensures ParenShapeOk(Join(",", parts))
    decreases |parts|
  {
    assert parts[0] in parts;
    if |parts| > 1 {
      assert forall x :: x in parts[1..] ==> x in parts;
      ParenShapeJoinAll(parts[1..]);
      ParenShapeJoin(parts[0], Join(",", parts[1..]));
    }
  }

  /** Text with no parentheses and no comma. */
  predicate Unbracketed(t: string)
  {
    t != [] && '(' !in t && ')' !in t && ',' !in t
  }

  lemma PointTextUnbracketed(p: Geometry)
    requires SolidXY(p)
    ensures Unbracketed(PointText(p)) && PointText(p)[0] != 'E'
    ensures !IsTrimChar(PointText(p)[0]) && !IsTrimChar(PointText(p)[|PointText(p)| - 1])
  {
    PointTextShape(p);
  }

  /** The opening text "TYPE (" has its one `(` after the space, and no `)` or comma. */
  lemma TagOpenShape(k: Kind)
    ensures var o := TagOpen(k);
      |o| >= 3 && o[0] != '(' && !IsTrimChar(o[0]) && ')' !in o && ',' !in o
      && forall j :: 0 < j < |o| && o[j] == '(' ==> o[j - 1] == ' '
  {
    var kw := Keyword(k);
    KeywordLetters(k);
    var o := TagOpen(k);
    assert o[|o| - 1] == '(' && o[|o| - 2] == ' ';
    forall j | 0 <= j < |o| - 2 ensures o[j] == kw[j] {
    }
  }

  lemma OpenPieceShape(open: string, t: string)
    requires open != [] && open[0] != '(' && ')' !in open && ',' !in open
    requires forall j :: 0 < j < |open| && open[j] == '(' ==> open[j - 1] == ' '
    requires Unbracketed(t)
    ensures ParenShapeOk(open + t) && ',' !in open + t
  {
    var x := open + t;
    forall j | 0 <= j < |x| ensures x[j] != ')' && x[j] != ',' && (j >= |open| ==> x[j] != '(') {
      if j < |open| {
        assert x[j] == open[j];
      } else {
        assert x[j] == t[j - |open|];
      }
    }
    forall j | 0 < j < |x| && x[j] == '(' ensures x[j - 1] == ' ' {
      assert x[j] == open[j] && x[j - 1] == open[j - 1];
    }
  }

  lemma ClosePieceShape(t: string)
    requires Unbracketed(t)
    ensures ParenShapeOk(t + ")") && ',' !in t + ")"
  {
    var x := t + ")";
    forall j | 0 <= j < |t| ensures x[j] == t[j] {
    }
  }

  /** Each piece of a tagged member has no comma and its parentheses where ParenShapeOk allows. */
  lemma PiecesShape(k: Kind, ps: seq<Geometry>)
    requires |ps| >= 2 && forall p :: p in ps ==> SolidXY(p)
    ensures forall x :: x in Pieces(TagOpen(k), ")", PointTexts(ps)) ==> ParenShapeOk(x) && ',' !in x
  {
    var ts := PointTexts(ps);
    var pieces := Pieces(TagOpen(k), ")", ts);
    var n := |ps|;
    forall i | 0 <= i < n ensures ParenShapeOk(pieces[i]) && ',' !in pieces[i] {
      assert ps[i] in ps;
      PointTextUnbracketed(ps[i]);
      if i == 0 {
        TagOpenShape(k);
        OpenPieceShape(TagOpen(k), ts[0]);
      } else if i == n - 1 {
        ClosePieceShape(ts[i]);
      }
    }
    forall x | x in pieces ensures ParenShapeOk(x) && ',' !in x {
      var i :| 0 <= i < n && pieces[i] == x;
    }
  }

  lemma {:induction false} LostPiecesShape(cs: seq<Geometry>)
    requires forall c :: c in cs ==> c.Polygon? && Valid(c) && Bare(c)
    ensures forall x :: x in LostPieces(cs) ==> ParenShapeOk(x) && ',' !in x
    decreases |cs|
  {
    if cs != [] {
      assert cs[0] in cs && forall c :: c in cs[1..] ==> c in cs;
      PolygonText(cs[0]);
      PiecesShape(KindOf(cs[0]), PointsFlatMap(cs[0]));
      LostPiecesShape(cs[1..]);
    }
  }

  // ---------------------------------------------------------------- the text

  /** The data as written is the pieces joined with commas. */
  lemma {:induction false} LostPiecesJoin(cs: seq<Geometry>)
    requires cs != [] && forall c :: c in cs ==> c.Polygon? && Valid(c) && Bare(c)
    ensures LostPieces(cs) != []
    ensures Join(",", CompactParts(cs, Tagged, AsWritten)) == Join(",", LostPieces(cs))
    decreases |cs|
  {
    var c := cs[0];
    var rest := cs[1..];
    assert c in cs && forall x :: x in rest ==> x in cs;
    PolygonText(c);
    var ts := PointTexts(PointsFlatMap(c));
    var first := Pieces(TagOpen(KindOf(c)), ")", ts);
    JoinPieces(",", TagOpen(KindOf(c)), ")", ts);
    var parts := CompactParts(cs, Tagged, AsWritten);
    assert parts[0] == Join(",", first);
    assert LostPieces(cs) == first + LostPieces(rest);
    if rest != [] {
      LostPiecesJoin(rest);
      assert parts == [parts[0]] + CompactParts(rest, Tagged, AsWritten);
      JoinCons(",", parts[0], CompactParts(rest, Tagged, AsWritten));
      JoinConcat(",", first, LostPieces(rest));
    } else {
      assert parts == [parts[0]];
      assert LostPieces(cs) == first;
    }
  }

  // --------------------------------------------------------------- the points

  /** "TYPE (x y" is left as it is by trimParens() and is not "EMPTY". */
  lemma OpenTaggedBare(kw: string, d: string)
    requires |kw| >= 1 && forall i :: 0 <= i < |kw| ==> 'A' <= kw[i] <= 'Z'
    requires d != [] && !IsTrimChar(d[|d| - 1])
    ensures TrimParens(kw + " (" + d) == kw + " (" + d && kw + " (" + d != "EMPTY"
  {
    var t := kw + " (" + d;
    assert t[0] == kw[0] && t[|t| - 1] == d[|d| - 1];
    TrimParensOfBare(t);
    if |t| == 5 {
      assert t[|kw|] == ' ';
    }
  }

  /** Split at spaces, "TYPE (x y" starts with "TYPE" and then a part starting with `(`. */
  lemma OpenTaggedParts(kw: string, d: string)
    requires |kw| >= 1 && forall i :: 0 <= i < |kw| ==> 'A' <= kw[i] <= 'Z'
    ensures var parts := Explode(kw + " (" + d, " ");
      |parts| >= 2 && FloatVal(parts[0]) == 0 && FloatVal(parts[1]) == 0
  {
    assert ' ' !in kw by {
      forall i | 0 <= i < |kw| ensures kw[i] != ' ' {
      }
    }
    assert kw + " (" + d == kw + [' '] + ("(" + d);
    ExplodeAtFirst(kw, ' ', "(" + d);
    ExplodeHead("(" + d, " ");
    FloatValNoDigits(kw);
    FloatValNoDigits(Explode(kw + " (" + d, " ")[1]);
  }

  /** "TYPE (x y" reads as the origin: neither "TYPE" nor "(x" is a number. */
  lemma ParseOpenTagged(kw: string, d: string)
    requires |kw| >= 1 && forall i :: 0 <= i < |kw| ==> 'A' <= kw[i] <= 'Z'
    requires d != [] && !IsTrimChar(d[|d| - 1])
    ensures ParsePoint(kw + " (" + d) == Point(XY(0, 0), 0)
  {
    var t := kw + " (" + d;
    OpenTaggedBare(kw, d);
    OpenTaggedParts(kw, d);
    ParsePointOfParts(t, Explode(t, " "));
  }

  /** "x y)" reads as the point: floatval() stops at the `)`. */
  lemma ParseClosedPoint(p: Geometry)
    requires SolidXY(p)
    ensures ParsePoint(PointText(p) + ")") == p
  {
    var a := NumberText(p.coords.x);
    var b := NumberText(p.coords.y);
    var t := PointText(p) + ")";
    PointTextUnbracketed(p);
    assert t[0] == PointText(p)[0];
    TrimParensOfBare(t);
    assert t != "EMPTY" by {
      assert t[0] != 'E';
    }
    NumberTextShape(p.coords.x);
    NumberTextShape(p.coords.y);
    assert ' ' !in a;
    assert ' ' !in b + ")";
    assert t == a + [' '] + (b + ")");
    ExplodeAtFirst(a, ' ', b + ")");
    FindChar(b + ")", ' ');
    FloatValOfIntToString(p.coords.x);
    FloatValClosed(p.coords.y);
    ParsePointOfParts(t, [a, b + ")"]);
  }

  /** The first piece of a tagged member, "TYPE (x y", reads as the origin. */
  lemma ParseFirstPiece(k: Kind, ps: seq<Geometry>)
    requires |ps| >= 2 && forall p :: p in ps ==> SolidXY(p)
    ensures ParsePoints(Pieces(TagOpen(k), ")", PointTexts(ps)))[0] == Some(Point(XY(0, 0), 0))
  {
    assert ps[0] in ps;
    KeywordLetters(k);
    PointTextUnbracketed(ps[0]);
    ParseOpenTagged(Keyword(k), PointText(ps[0]));
  }

  /** The last piece, "x y)", reads as the last point. */
  lemma ParseLastPiece(open: string, ps: seq<Geometry>)
    requires |ps| >= 2 && forall p :: p in ps ==> SolidXY(p)
    ensures ParsePoints(Pieces(open, ")", PointTexts(ps)))[|ps| - 1] == Some(ps[|ps| - 1])
  {
    assert ps[|ps| - 1] in ps;
    ParseClosedPoint(ps[|ps| - 1]);
  }

  /** The pieces between the first and the last read as the points they were written from. */
  lemma ParseMiddlePieces(open: string, ps: seq<Geometry>)
    requires |ps| >= 2 && forall p :: p in ps ==> SolidXY(p)
    ensures forall i :: 1 <= i < |ps| - 1 ==> ParsePoints(Pieces(open, ")", PointTexts(ps)))[i] == Some(ps[i])
  {
    var pieces := Pieces(open, ")", PointTexts(ps));
    forall i | 1 <= i < |ps| - 1 ensures ParsePoint(pieces[i]) == ps[i] {
      assert ps[i] in ps;
      ParsePointText(ps[i]);
    }
  }

  /** A sequence that holds the origin, then the points of `ps` after the first. */
  lemma OriginThen(ps: seq<Geometry>, r: seq<Option<Geometry>>)
    requires |ps| >= 2 && |r| == |ps| && r[0] == Some(Point(XY(0, 0), 0))
    requires forall i :: 1 <= i < |ps| - 1 ==> r[i] == Some(ps[i])
    requires r[|ps| - 1] == Some(ps[|ps| - 1])
    ensures r == Somes([Point(XY(0, 0), 0)] + ps[1..])
  {
  }

  /** One member's pieces read as the origin, then its other points. */
  lemma ParsePieces(k: Kind, ps: seq<Geometry>)
    requires |ps| >= 2 && forall p :: p in ps ==> SolidXY(p)
    ensures ParsePoints(Pieces(TagOpen(k), ")", PointTexts(ps))) == Somes([Point(XY(0, 0), 0)] + ps[1..])
  {
    ParseFirstPiece(k, ps);
    ParseMiddlePieces(TagOpen(k), ps);
    ParseLastPiece(TagOpen(k), ps);
    OriginThen(ps, ParsePoints(Pieces(TagOpen(k), ")", PointTexts(ps))));
  }

  lemma ParsePointsConcat(a: seq<string>, b: seq<string>)
    ensures ParsePoints(a + b) == ParsePoints(a) + ParsePoints(b)
  {
  }

  lemma SomesConcat(x: seq<Geometry>, y: seq<Geometry>)
    ensures Somes(x + y) == Somes(x) + Somes(y)
  {
  }

  lemma {:induction false} ParseLostPieces(cs: seq<Geometry>)
    requires forall c :: c in cs ==> c.Polygon? && Valid(c) && Bare(c)
    requires forall c :: c in cs ==> PointsFlatMap(c) != []
    ensures ParsePoints(LostPieces(cs)) == Somes(LostPoints(cs))
    decreases |cs|
  {
    if cs != [] {
      assert cs[0] in cs && forall c :: c in cs[1..] ==> c in cs;
      var pts := PointsFlatMap(cs[0]);
      PolygonText(cs[0]);
      var a := Pieces(TagOpen(KindOf(cs[0])), ")", PointTexts(pts));
      var x := [Point(XY(0, 0), 0)] + pts[1..];
      assert LostPieces(cs) == a + LostPieces(cs[1..]);
      assert LostPoints(cs) == x + LostPoints(cs[1..]);
      ParsePieces(KindOf(cs[0]), pts);
      ParseLostPieces(cs[1..]);
      ParsePointsConcat(a, LostPieces(cs[1..]));
      SomesConcat(x, LostPoints(cs[1..]));
    }
  }

  // ------------------------------------------------------------ the parsers

  /** The compact data of a multi-polygon as written is its pieces joined with commas. */
  lemma LostDataJoin(g: Geometry)
    requires g.MultiPolygon? && Valid(g) && Bare(g)
    ensures forall c :: c in g.components ==> c.Polygon? && Valid(c) && Bare(c)
    ensures LostPiecesOf(g) != []
    ensures CompactData(g, AsWritten) == Join(",", LostPiecesOf(g))
  {
    PolygonsOf(g);
    assert CompactData(g, AsWritten) == Join(",", CompactParts(g.components, Tagged, AsWritten));
    LostPiecesJoin(g.components);
  }

  /** "TYPE (x)" starts with the keyword and ends with `)`. */
  lemma TaggedEnds(kw: string, x: string)
    requires kw != []
    ensures var t := kw + " (" + x + ")"; t[0] == kw[0] && t[|t| - 1] == ')'
  {
  }

  /** That data starts with the `P` of POLYGON and ends with `)`. */
  lemma LostDataEnds(g: Geometry)
    requires g.MultiPolygon? && Valid(g) && Bare(g)
    ensures var d := CompactData(g, AsWritten); d != [] && d[0] == 'P' && d[|d| - 1] == ')'
  {
    var cs := g.components;
    var n := |cs|;
    PolygonsOf(g);
    var parts := CompactParts(cs, Tagged, AsWritten);
    assert CompactData(g, AsWritten) == Join(",", parts);
    assert cs[0] in cs && cs[n - 1] in cs;
    var kw := Keyword(PolygonKind);
    assert kw[0] == 'P';
    assert parts[0] == kw + " (" + CompactData(cs[0], AsWritten) + ")";
    assert parts[n - 1] == kw + " (" + CompactData(cs[n - 1], AsWritten) + ")";
    TaggedEnds(kw, CompactData(cs[0], AsWritten));
    TaggedEnds(kw, CompactData(cs[n - 1], AsWritten));
    JoinFirst(",", parts);
    JoinLast(",", parts);
  }

  /** The pieces explode() cuts that data into, and where its parentheses stand. */
  lemma LostData(g: Geometry)
    requires g.MultiPolygon? && Valid(g) && Bare(g)
    ensures var d := CompactData(g, AsWritten);
      ParenShapeOk(d) && d[0] == 'P' && d[|d| - 1] == ')'
      && Explode(d, ",") == LostPiecesOf(g)
  {
    LostDataJoin(g);
    LostDataEnds(g);
    LostPiecesShape(g.components);
    var pieces := LostPiecesOf(g);
    var d := CompactData(g, AsWritten);
    assert d == Join(",", pieces);
    forall i | 0 <= i < |pieces| ensures ',' !in pieces[i] {
      assert pieces[i] in pieces;
    }
    ExplodeJoinChar(pieces, ',');
    ParenShapeJoinAll(pieces);
  }

  /** `)),((` does not occur where every `)` but a last one is followed by a comma. */
  lemma NoDoubleClose(d: string)
    requires ParenShapeOk(d)
    ensures Explode(d, ")),((") == [d]
  {
    forall j | 0 <= j && j + 5 <= |d| ensures !OccursAt(d, ")),((", j) {
      assert d[j..j + 5][0] == d[j] && d[j..j + 5][1] == d[j + 1];
    }
    assert Find(d, ")),((").None?;
  }

  /** `),(` does not occur in "(d)": each `(` of d follows a space. */
  lemma NoCloseOpen(d: string)
    requires ParenShapeOk(d)
    ensures Explode("(" + d + ")", "),(") == ["(" + d + ")"]
  {
    var s := "(" + d + ")";
    forall j | 0 <= j && j + 3 <= |s| ensures !OccursAt(s, "),(", j) {
      assert s[j..j + 3][1] == s[j + 1] && s[j..j + 3][2] == s[j + 2];
      if j + 3 < |s| {
        assert s[j + 2] == d[j + 1] && s[j + 1] == d[j];
      }
    }
    assert Find(s, "),(").None?;
  }

  /** A text that neither starts with `(` nor ends with `))` is wrapped in "((" and "))". */
  lemma RepairBare(d: string)
    requires ParenShapeOk(d) && d[|d| - 1] == ')'
    ensures Repair(d, "((", "))") == "(" + ("(" + d + ")") + ")"
  {
    assert "((" + d + "))" == "(" + ("(" + d + ")") + ")";
    assert !BeginsWith(d, "((") by {
      if |d| >= 2 {
        assert d[..2][0] == d[0];
      }
    }
    var p := "((" + d;
    assert !EndsWith(p, "))") by {
      if |d| >= 2 {
        assert p[|p| - 2..][0] == d[|d| - 2];
      } else {
        assert p[|p| - 2..][0] == '(';
      }
    }
  }

  /** A text already in parentheses is left as it is. */
  lemma RepairWrapped(d: string)
    ensures Repair("(" + d + ")", "(", ")") == "(" + d + ")"
  {
    var s := "(" + d + ")";
    assert s[..1] == "(";
    assert s[|s| - 1..] == ")";
  }

  /** parseLineString() of "(d)": the points of d's comma-separated pieces. */
  lemma LostLine(d: string, pieces: seq<string>, pts: seq<Geometry>, ls: Geometry)
    requires d != [] && d[0] == 'P' && Explode(d, ",") == pieces
    requires ParsePoints(pieces) == Somes(pts)
    requires NewCollection(LineStringKind, Somes(pts)) == Ok(ls)
    ensures ParseLineString("(" + d + ")") == Ok(ls)
  {
    TrimParensOfWrapped(d);
  }

  /** parsePolygon() of a text whose trimmed data is one ring. */
  lemma OneRingFrom(s: string, x: string, ls: Geometry, poly: Geometry)
    requires TrimParens(s) == x && x != "EMPTY" && Explode(x, "),(") == [x]
    requires ParseRing(x) == Ok(ls)
    requires NewCollection(PolygonKind, [Some(ls)]) == Ok(poly)
    ensures ParseLines(PolygonKind, s) == Ok(poly)
  {
    OneRing(x, [ls]);
    assert Somes([ls]) == [Some(ls)];
    LinesFrom(PolygonKind, s, x, [x], [ls], poly);
  }

  /** parseMultiPolygon() in steps: the trimmed data, its pieces, their polygons, the collection. */
  lemma PolygonsFrom(s: string, d: string, parts: seq<string>, polys: seq<Geometry>, h: Geometry)
    requires TrimParens(s) == d && d != "EMPTY" && Explode(d, ")),((") == parts
    requires MapAll(parts, ParsePolygonPart) == Ok(polys)
    requires NewCollection(MultiPolygonKind, Somes(polys)) == Ok(h)
    ensures ParseMultiPolygon(s) == Ok(h)
  {
  }

  /** parseMultiPolygon() of a text whose trimmed data is one member. */
  lemma OnePolygonFrom(s: string, d: string, poly: Geometry, h: Geometry)
    requires TrimParens(s) == d && d != "EMPTY" && Explode(d, ")),((") == [d]
    requires ParsePolygonPart(d) == Ok(poly)
    requires NewCollection(MultiPolygonKind, [Some(poly)]) == Ok(h)
    ensures ParseMultiPolygon(s) == Ok(h)
  {
    MapAllOf([d], ParsePolygonPart, [poly]);
    assert Somes([poly]) == [Some(poly)];
    PolygonsFrom(s, d, [d], [poly], h);
  }

  /** parsePolygon() of the repaired "((d))": one ring, the line string of "(d)". */
  lemma LostPolygon(d: string, ls: Geometry, poly: Geometry)
    requires ParenShapeOk(d) && d[0] == 'P' && d[|d| - 1] == ')'
    requires ParseLineString("(" + d + ")") == Ok(ls)
    requires NewCollection(PolygonKind, [Some(ls)]) == Ok(poly)
    ensures ParsePolygonPart(d) == Ok(poly)
  {
    var x := "(" + d + ")";
    RepairBare(d);
    TrimParensOfWrapped(x);
    NoCloseOpen(d);
    RepairWrapped(d);
    assert x[0] == '(';
    OneRingFrom("(" + x + ")", x, ls, poly);
  }

  /** parseMultiPolygon() of "(d)": d is one member. */
  lemma LostMultiPolygon(d: string, poly: Geometry, h: Geometry)
    requires ParenShapeOk(d) && d[0] == 'P'
    requires ParsePolygonPart(d) == Ok(poly)
    requires NewCollection(MultiPolygonKind, [Some(poly)]) == Ok(h)
    ensures ParseMultiPolygon("(" + d + ")") == Ok(h)
  {
    TrimParensOfWrapped(d);
    NoDoubleClose(d);
    OnePolygonFrom("(" + d + ")", d, poly, h);
  }

  /** The line string of two or more points, the polygon of that ring, and the multi-polygon of that polygon are constructible. */
  lemma OneRingGeometries(pts: seq<Geometry>)
    requires |pts| >= 2 && forall q :: q in pts ==> q.Point?
    ensures var ls := LineString(pts, 0);
      var poly := Polygon([ls], 0);
      NewCollection(LineStringKind, Somes(pts)) == Ok(ls)
      && NewCollection(PolygonKind, [Some(ls)]) == Ok(poly)
      && NewCollection(MultiPolygonKind, [Some(poly)]) == Ok(MultiPolygon([poly], 0))
  {
    var ls := LineString(pts, 0);
    var poly := Polygon([ls], 0);
    var h := MultiPolygon([poly], 0);
    assert Valid(ls) by {
      assert forall i :: 0 <= i < |pts| ==> pts[i] in pts;
    }
    assert Valid(poly) by {
      assert forall c :: c in poly.components ==> c == ls;
    }
    assert Valid(h) by {
      assert forall c :: c in h.components ==> c == poly;
    }
    NewCollectionOf(ls);
    NewCollectionOf(poly);
    assert Somes([ls]) == [Some(ls)];
    NewCollectionOf(h);
    assert Somes([poly]) == [Some(poly)];
  }

  /** Every polygon gives at least two points. */
  lemma {:induction false} LostPointsLength(cs: seq<Geometry>)
    requires cs != [] && forall c :: c in cs ==> c.Polygon? && Valid(c) && Bare(c)
    requires forall c :: c in cs ==> PointsFlatMap(c) != []
    ensures |LostPoints(cs)| >= 2
  {
    assert cs[0] in cs;
    PolygonText(cs[0]);
  }

  /**
   * The writer as it stands: a multi-polygon reads back as one polygon with
   * one ring that runs through the points of all its rings, the first point
   * of each of its polygons read as the origin.
   */
  lemma PolygonsLost(g: Geometry)
    requires g.MultiPolygon? && Valid(g) && Bare(g)
    ensures WriteAsWritten(g).Ok? && WriteAsWritten(g).value.Some?
    ensures Read(WriteAsWritten(g).value.value) == Ok(Some(LostPolygons(g)))
    ensures |LostPolygons(g).components| == 1
    ensures |g.components| >= 2 ==> LostPolygons(g) != g
  {
    var d := CompactData(g, AsWritten);
    var h := LostPolygons(g);
    var poly := h.components[0];
    var ls := poly.components[0];
    PolygonsOf(g);
    LostData(g);
    ParseLostPieces(g.components);
    LostPointsLength(g.components);
    OneRingGeometries(LostPoints(g.components));
    LostLine(d, LostPiecesOf(g), LostPoints(g.components), ls);
    LostPolygon(d, ls, poly);
    LostMultiPolygon(d, poly, h);
    FlatParser(MultiPolygonKind, "(" + d + ")", h);
    ParseTextFlat(MultiPolygonKind, d, h);
    ReadOfWritten(g, AsWritten);
  }
}
