/**
 * The EWKT adapter: the WKT writer with PostGIS's "SRID=n;" prefix in front
 * when the geometry has an SRID, and the WKT reader, which already takes
 * such a prefix apart.
 */
module Ewkt {
  import opened Wrappers
  import opened Text
  import opened Types
  import Wkt
  import opened WktProofs
  import WktRoundTrip

  /** "SRID=" . $srid . ";" with the id written in decimal. */
  function SridPrefix(srid: int): (r: string)
    ensures |r| >= 7 && r[..5] == "SRID=" && r[|r| - 1] == ';'
  {
    "SRID=" + IntToString(srid) + ";"
  }

  /**
   * write(): with a non-zero SRID, the prefix followed by the WKT text (a
   * WKT writer that writes nothing leaves the prefix alone); with none,
   * the WKT text itself.
   */
  function WriteWith(g: Geometry, w: Wkt.Writer): (r: Result<Option<string>>)
    ensures Srid(g) == 0 ==> r == Wkt.WriteWith(g, w)
    ensures Srid(g) != 0 ==> (r.Ok? <==> Wkt.WriteWith(g, w).Ok?)
    ensures Srid(g) != 0 && r.Ok? ==>
      r.value.Some? && r.value.value == SridPrefix(Srid(g)) + Wkt.WriteWith(g, w).value.GetOr("")
  {
    if Srid(g) != 0 then
      var wkt :- Wkt.WriteWith(g, w);
      Ok(Some(SridPrefix(Srid(g)) + wkt.GetOr("")))
    else Wkt.WriteWith(g, w)
  }

  /** The adapter's write() over the WKT writer as it stands. */
  function WriteAsWritten(g: Geometry): Result<Option<string>>
  {
    WriteWith(g, Wkt.AsWritten)
  }

  /** write() over the corrected WKT writer. */
  function Write(g: Geometry): Result<Option<string>>
  {
    WriteWith(g, Wkt.Corrected)
  }

  /** read() is the WKT adapter's. */
  function Read(text: string): Result<Option<Geometry>>
  {
    Wkt.Read(text)
  }

  // ------------------------------------------------------------- properties

  /** The WKT writer does not look at the SRID of the geometry it writes. */
  lemma WktIgnoresSrid(g: Geometry, w: Wkt.Writer, srid: int)
    ensures Wkt.WriteWith(SetSrid(g, srid), w) == Wkt.WriteWith(g, w)
  {
    var h := SetSrid(g, srid);
    assert IsEmpty(h) == IsEmpty(g);
    if !g.Point? {
      assert Wkt.StyleOf(h, w) == Wkt.StyleOf(g, w);
    }
    assert Wkt.ExtractData(h, w) == Wkt.ExtractData(g, w);
  }

  /** The text of a non-zero number is neither empty nor "0". */
  lemma NonZeroText(n: int)
    requires n != 0
    ensures Wkt.TruthyText(Some(IntToString(n)))
  {
    FloatValOfIntToString(n);
    assert FloatVal("0") == 0;
  }

  /** "SRID=n" has no `;`. */
  lemma HeadWithoutSemicolon(n: int)
    ensures ';' !in "SRID" + ['='] + IntToString(n)
  {
    var d := IntToString(n);
    var head := "SRID" + ['='] + d;
    forall j | 0 <= j < |head| ensures head[j] != ';' {
      if j >= 5 {
        assert head[j] == d[j - 5];
      }
    }
  }

  /** The prefix is the text before the first `;`, and the id the text after its `=`. */
  lemma SplitPrefixed(n: int, t: string)
    requires ';' !in t
    ensures Wkt.SplitSrid(SridPrefix(n) + t) == (t, Some(IntToString(n)))
  {
    var d := IntToString(n);
    var head := "SRID" + ['='] + d;
    assert SridPrefix(n) + t == head + [';'] + t;
    HeadWithoutSemicolon(n);
    ExplodeAtFirst(head, ';', t);
    FindChar(t, ';');
    ExplodeAtFirst("SRID", '=', d);
    FindChar(d, '=');
  }

  /** read() of a trimmed text with an SRID part: the body is parsed and the id attached. */
  lemma ReadWithSrid(s: string, body: string, id: string, g: Geometry, n: int)
    requires Trim(s) == s && Wkt.SplitSrid(s) == (body, Some(id))
    requires Wkt.ParseText(CollapseCommaSpace(body)) == Ok(Some(g))
    requires Wkt.TruthyText(Some(id)) && IntParam(id) == Ok(n)
    ensures Wkt.Read(s) == Ok(Some(SetSrid(g, n)))
  {
  }

  /** A prefixed text that ends in a non-space is trimmed. */
  lemma PrefixedTrim(n: int, t: string)
    requires t != [] && !IsTrimChar(t[|t| - 1])
    ensures Trim(SridPrefix(n) + t) == SridPrefix(n) + t
  {
    var s := SridPrefix(n) + t;
    assert s[0] == 'S' && s[|s| - 1] == t[|t| - 1];
    TrimOfUntrimmable(s);
  }

  /**
   * Reading "SRID=n;" followed by a WKT text: the text is read as WKT and
   * the geometry gets SRID n.
   */
  lemma PrefixedRead(n: int, t: string, g: Geometry)
    requires n != 0
    requires t != [] && !IsTrimChar(t[|t| - 1]) && ';' !in t
    requires Wkt.ParseText(CollapseCommaSpace(t)) == Ok(Some(g))
    ensures Wkt.Read(SridPrefix(n) + t) == Ok(Some(SetSrid(g, n)))
  {
    PrefixedTrim(n, t);
    SplitPrefixed(n, t);
    NonZeroText(n);
    FloatValOfIntToString(n);
    ReadWithSrid(SridPrefix(n) + t, t, IntToString(n), g, n);
  }

  /** What the WKT round trip needs of a written text: no spaces around it, and no `;`. */
  predicate PlainText(t: string)
  {
    t != [] && !IsTrimChar(t[0]) && !IsTrimChar(t[|t| - 1]) && ';' !in t
  }

  /**
   * If the WKT writer writes a plain text that reads back as the geometry
   * without its SRID, then the EWKT text reads back as the geometry.
   */
  lemma SridRoundTrip(g: Geometry, w: Wkt.Writer)
    requires Srid(g) != 0
    requires Wkt.WriteWith(SetSrid(g, 0), w).Ok? && Wkt.WriteWith(SetSrid(g, 0), w).value.Some?
    requires PlainText(Wkt.WriteWith(SetSrid(g, 0), w).value.value)
    requires Wkt.Read(Wkt.WriteWith(SetSrid(g, 0), w).value.value) == Ok(Some(SetSrid(g, 0)))
    ensures WriteWith(g, w).Ok? && WriteWith(g, w).value.Some?
    ensures Read(WriteWith(g, w).value.value) == Ok(Some(g))
  {
    var g0 := SetSrid(g, 0);
    var t := Wkt.WriteWith(g0, w).value.value;
    WktIgnoresSrid(g, w, 0);
    TrimOfUntrimmable(t);
    NoSemicolon(t);
    ReadWithoutSrid(t);
    PrefixedRead(Srid(g), t, g0);
    assert SetSrid(g0, Srid(g)) == g;
  }

  /** The written text of a geometry without empty parts is plain. */
  lemma WrittenPlain(g: Geometry, w: Wkt.Writer)
    requires Solid(g)
    ensures Wkt.WriteWith(g, w).Ok? && Wkt.WriteWith(g, w).value.Some?
    ensures PlainText(Wkt.WriteWith(g, w).value.value)
  {
    WriteSolid(g, w);
    WrittenData(g, w);
    var kw, d := Wkt.Keyword(KindOf(g)), Wkt.ExtractData(g, w).value;
    KeywordLetters(KindOf(g));
    var t := kw + " (" + d + ")";
    assert t[0] == kw[0];
    assert ';' !in kw + " (";
  }

  /**
   * Write, then read: a geometry the WKT round trip covers comes back
   * with its SRID, whether or not it has one.
   */
  lemma RoundTrip(g: Geometry, w: Wkt.Writer)
    requires var g0 := SetSrid(g, 0);
      Valid(g0) && WktRoundTrip.Bare(g0)
      && (WktRoundTrip.Member(g0, w) || (g0.GeometryCollection? && forall c :: c in g0.components ==> WktRoundTrip.Member(c, w)))
    ensures WriteWith(g, w).Ok? && WriteWith(g, w).value.Some?
    ensures Read(WriteWith(g, w).value.value) == Ok(Some(g))
  {
    var g0 := SetSrid(g, 0);
    WktRoundTrip.RoundTrip(g0, w);
    if Srid(g) == 0 {
      assert g0 == g;
    } else {
      WrittenPlain(g0, w);
      SridRoundTrip(g, w);
    }
  }

  /** "TYPE EMPTY" is plain. */
  lemma EmptyPlain(kw: string)
    requires |kw| >= 1 && forall i :: 0 <= i < |kw| ==> 'A' <= kw[i] <= 'Z'
    ensures PlainText(kw + " EMPTY")
  {
    var t := kw + " EMPTY";
    assert t[0] == kw[0];
    assert ';' !in kw;
  }

  /** The empty point and the empty collection come back with their SRID as well. */
  lemma EmptyRoundTrip(g: Geometry, w: Wkt.Writer)
    requires SetSrid(g, 0) == Point(EmptyCoords, 0) || SetSrid(g, 0) == GeometryCollection([], 0)
    ensures WriteWith(g, w).Ok? && WriteWith(g, w).value.Some?
    ensures Read(WriteWith(g, w).value.value) == Ok(Some(g))
  {
    var g0 := SetSrid(g, 0);
    WktRoundTrip.EmptyRoundTrip(g0, w);
    if Srid(g) == 0 {
      assert g0 == g;
    } else {
      KeywordLetters(KindOf(g0));
      EmptyPlain(Wkt.Keyword(KindOf(g0)));
      SridRoundTrip(g, w);
    }
  }
}
