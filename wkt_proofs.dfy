/**
 * What the WKT writer and reader promise about each other: the text of a
 * point, a line string, a one-ring polygon, a multi-line string and a
 * collection of those reads back as the same geometry; and what they do
 * instead for a polygon with holes and for a multi-point.
 */
module WktProofs {
  import opened Wrappers
  import opened Text
  import opened Types
  import opened Reduction
  import opened Wkt

  // ------------------------------------------------------------ point text

  /** A point with both coordinates and no SRID. */
  predicate SolidXY(p: Geometry)
  {
    p.Point? && p.coords.XY? && p.srid == 0
  }

  predicate NumberChars(s: string)
  {
    forall i :: 0 <= i < |s| ==> IsDigit(s[i]) || s[i] == '-'
  }

  /** What extractData() writes for a point: "x y". */
  function PointText(p: Geometry): string
    requires p.Point? && !p.coords.EmptyCoords?
  {
    NumberText(p.coords.x) + " " + NumberText(p.coords.y)
  }

  lemma NumberTextShape(v: Coord)
    ensures var n := NumberText(v);
      n != [] && NumberChars(n) && (IsDigit(n[0]) || n[0] == '-') && IsDigit(n[|n| - 1])
  {
  }

  /** The characters of a point's text: digits, minus signs and the one space. */
  lemma PointTextShape(p: Geometry)
    requires p.Point? && !p.coords.EmptyCoords?
    ensures var t := PointText(p);
      |t| >= 3 && (IsDigit(t[0]) || t[0] == '-') && IsDigit(t[|t| - 1])
      && (forall i :: 0 <= i < |t| ==> IsDigit(t[i]) || t[i] == '-' || t[i] == ' ')
  {
    NumberTextShape(p.coords.x);
    NumberTextShape(p.coords.y);
  }

  /** A point's text reads back as the point. */
  lemma ParsePointText(p: Geometry)
    requires SolidXY(p)
    ensures ParsePoint(PointText(p)) == p
  {
    var a := NumberText(p.coords.x);
    var b := NumberText(p.coords.y);
    var t := PointText(p);
    PointTextShape(p);
    NumberTextShape(p.coords.x);
    NumberTextShape(p.coords.y);
    TrimParensOfBare(t);
    assert t != "EMPTY" by {
      assert t[0] != 'E';
    }
    assert Join(" ", [a, b]) == t;
    ExplodeJoinChar([a, b], ' ');
    FloatValOfIntToString(p.coords.x);
    FloatValOfIntToString(p.coords.y);
  }

  /** trimParens() takes off exactly the one pair of parentheses around a text. */
  lemma TrimParensOfWrapped(t: string)
    ensures TrimParens("(" + t + ")") == t
  {
    var s := "(" + t + ")";
    assert s[1..|s| - 1] == t && s[..1] == "(";
    TrimOfUntrimmable(s);
  }

  /** A point's text inside its own parentheses reads back the same: parsePoint() accepts both. */
  lemma ParsePointParenthesised(p: Geometry)
    requires SolidXY(p)
    ensures ParsePoint("(" + PointText(p) + ")") == p
  {
    var t := PointText(p);
    PointTextShape(p);
    TrimParensOfWrapped(t);
    TrimParensOfBare(t);
    ParsePointOfData("(" + t + ")", t);
    ParsePointText(p);
  }

  /** A text with nothing to trim and no opening parenthesis is its own data. */
  lemma TrimParensOfBare(t: string)
    requires t != [] && !IsTrimChar(t[0]) && !IsTrimChar(t[|t| - 1]) && t[0] != '('
    ensures TrimParens(t) == t
  {
    TrimOfUntrimmable(t);
    assert !BeginsWith(t, "(");
  }

  /** parsePoint() looks only at the text trimParens() leaves. */
  lemma ParsePointOfData(a: string, b: string)
    requires TrimParens(a) == TrimParens(b)
    ensures ParsePoint(a) == ParsePoint(b)
  {
  }

  // ---------------------------------------------- the text after ", " -> ","

  /** What read() sees of extractData()'s text once ", " has become ",". */
  function CompactData(g: Geometry, w: Writer): string
    requires Solid(g)
    decreases g, 1
  {
    match g
    case Point(_, _) => PointText(g)
    case _ => Join(",", CompactParts(g.components, StyleOf(g, w), w))
  }

  function CompactParts(gs: seq<Geometry>, style: Style, w: Writer): (r: seq<string>)
    requires AllSolid(gs)
    ensures |r| == |gs|
    ensures forall i :: 0 <= i < |gs| ==> Solid(gs[i]) && r[i] == Decorate(gs[i], CompactData(gs[i], w), style)
    decreases gs, 0
  {
    if gs == [] then []
    else
      assert gs[0] in gs;
      var rest := CompactParts(gs[1..], style, w);
      assert forall i :: 1 <= i < |gs| ==> gs[i] == gs[1..][i - 1];
      [Decorate(gs[0], CompactData(gs[0], w), style)] + rest
  }

  /** Written text ends in a digit or `)` and has at least two characters. */
  predicate Clean(s: string)
  {
    |s| >= 2 && (IsDigit(s[|s| - 1]) || s[|s| - 1] == ')')
  }

  /** Keywords are upper-case letters. */
  lemma KeywordLetters(k: Kind)
    ensures forall i :: 0 <= i < |Keyword(k)| ==> 'A' <= Keyword(k)[i] <= 'Z'
  {
  }

  lemma DecorateCollapse(c: Geometry, d: string, style: Style)
    requires Clean(d)
    ensures Clean(Decorate(c, d, style))
    ensures CollapseCommaSpace(Decorate(c, d, style)) == Decorate(c, CollapseCommaSpace(d), style)
    ensures ';' !in d && '|' !in d ==> ';' !in Decorate(c, d, style) && '|' !in Decorate(c, d, style)
  {
    match style
    case Plain =>
    case Parenthesised =>
      CollapseAround("(", d, ")");
    case Tagged =>
      KeywordLetters(KindOf(c));
      CollapseAround(Keyword(KindOf(c)) + " (", d, ")");
  }

  /**
   * extractData() of a geometry without empty parts succeeds, and its text
   * collapses to the compact text; neither holds `;` or `|`.
   */
  lemma {:induction false} WrittenData(g: Geometry, w: Writer)
    requires Solid(g)
    ensures ExtractData(g, w).Ok?
    ensures var d := ExtractData(g, w).value;
      Clean(d) && CollapseCommaSpace(d) == CompactData(g, w) && Clean(CompactData(g, w))
      && ';' !in d && '|' !in d && ';' !in CompactData(g, w) && '|' !in CompactData(g, w)
    decreases g, 2
  {
    if g.Point? {
      PointTextShape(g);
      CollapseNoComma(PointText(g));
    } else {
      WrittenCollection(g, w);
    }
  }

  lemma {:induction false} WrittenCollection(g: Geometry, w: Writer)
    requires Solid(g) && !g.Point?
    ensures ExtractData(g, w).Ok?
    ensures var d := ExtractData(g, w).value;
      Clean(d) && CollapseCommaSpace(d) == CompactData(g, w) && Clean(CompactData(g, w))
      && ';' !in d && '|' !in d && ';' !in CompactData(g, w) && '|' !in CompactData(g, w)
    decreases g, 1
  {
    var style := StyleOf(g, w);
    WrittenParts(g.components, style, w);
    var parts := ExtractParts(g.components, style, w).value;
    var cparts := CompactParts(g.components, style, w);
    AgreedJoin(parts, cparts);
    assert ExtractData(g, w) == Ok(Join(", ", parts));
    assert CompactData(g, w) == Join(",", cparts);
  }

  /** Parts that agree one by one join, with ", " and with ",", into texts that agree. */
  lemma AgreedJoin(parts: seq<string>, cparts: seq<string>)
    requires |parts| == |cparts| && parts != []
    requires forall i :: 0 <= i < |parts| ==> Agree(parts[i], cparts[i])
    ensures Agree(Join(", ", parts), Join(",", cparts))
  {
    forall i | 0 <= i < |parts|
      ensures parts[i] != [] && parts[i][|parts[i]| - 1] != ',' && CollapseCommaSpace(parts[i]) == cparts[i]
      ensures Clean(parts[i]) && ';' !in parts[i] && '|' !in parts[i]
      ensures Clean(cparts[i]) && ';' !in cparts[i] && '|' !in cparts[i]
    {
      assert Agree(parts[i], cparts[i]);
    }
    CollapseJoin(parts, cparts);
    JoinClean(", ", parts);
    JoinClean(",", cparts);
  }

  lemma JoinClean(sep: string, parts: seq<string>)
    requires parts != []
    requires forall i :: 0 <= i < |parts| ==> Clean(parts[i]) && ';' !in parts[i] && '|' !in parts[i]
    requires ';' !in sep && '|' !in sep
    ensures Clean(Join(sep, parts)) && ';' !in Join(sep, parts) && '|' !in Join(sep, parts)
  {
    JoinLast(sep, parts);
    JoinNotIn(sep, parts, ';');
    JoinNotIn(sep, parts, '|');
  }

  /** A written part and its compact form: both clean, the one collapsing to the other, neither holding `;` or `|`. */
  predicate Agree(p: string, c: string)
  {
    Clean(p) && Clean(c) && CollapseCommaSpace(p) == c
    && ';' !in p && '|' !in p && ';' !in c && '|' !in c
  }

  lemma {:induction false} WrittenParts(gs: seq<Geometry>, style: Style, w: Writer)
    requires AllSolid(gs) && gs != []
    ensures ExtractParts(gs, style, w).Ok?
    ensures var ps := ExtractParts(gs, style, w).value;
      var cs := CompactParts(gs, style, w);
      |ps| == |gs| && forall i :: 0 <= i < |gs| ==> Agree(ps[i], cs[i])
    decreases gs, 0
  {
    var g := gs[0];
    assert g in gs;
    WrittenData(g, w);
    var d := ExtractData(g, w).value;
    var p := Decorate(g, d, style);
    var c := Decorate(g, CompactData(g, w), style);
    assert Agree(p, c) by {
      DecorateCollapse(g, d, style);
      DecorateCollapse(g, CompactData(g, w), style);
    }
    if |gs| > 1 {
      WrittenParts(gs[1..], style, w);
    } else {
      assert ExtractParts(gs[1..], style, w) == Ok([]);
    }
    assert ExtractParts(gs, style, w).value == [p] + ExtractParts(gs[1..], style, w).value;
    assert CompactParts(gs, style, w) == [c] + CompactParts(gs[1..], style, w);
  }

  // ------------------------------------------------------ write, then read

  lemma {:induction false} SolidNotEmpty(g: Geometry)
    requires Solid(g)
    ensures !IsEmpty(g)
    decreases g
  {
    if !g.Point? {
      var c := g.components[0];
      assert c in g.components;
      SolidNotEmpty(c);
    }
  }

  /** The compact text of a whole geometry: its keyword and its data in parentheses. */
  function TextOf(g: Geometry, w: Writer): string
    requires Solid(g)
  {
    Keyword(KindOf(g)) + " (" + CompactData(g, w) + ")"
  }

  /** write() of a geometry without empty parts is "TYPE (data)". */
  lemma WriteSolid(g: Geometry, w: Writer)
    requires Solid(g)
    ensures ExtractData(g, w).Ok?
    ensures WriteWith(g, w) == Ok(Some(Keyword(KindOf(g)) + " (" + ExtractData(g, w).value + ")"))
  {
    SolidNotEmpty(g);
    WrittenData(g, w);
  }

  /**
   * The written text of a geometry without empty parts is trimmed, has no
   * SRID part, and collapses to its compact text.
   */
  lemma WrittenTextShape(g: Geometry, w: Writer)
    requires Solid(g)
    ensures WriteWith(g, w).Ok? && WriteWith(g, w).value.Some?
    ensures var t := WriteWith(g, w).value.value;
      Trim(t) == t && SplitSrid(t) == (t, None) && CollapseCommaSpace(t) == TextOf(g, w)
  {
    WriteSolid(g, w);
    WrittenData(g, w);
    var kw, d := Keyword(KindOf(g)), ExtractData(g, w).value;
    KeywordLetters(KindOf(g));
    TaggedNoSrid(kw, d);
    TaggedCollapse(kw, d);
    TaggedTrim(kw, d);
  }

  /** Reading the written text of a geometry without empty parts parses its compact text. */
  lemma ReadOfWritten(g: Geometry, w: Writer)
    requires Solid(g)
    ensures WriteWith(g, w).Ok? && WriteWith(g, w).value.Some?
    ensures Read(WriteWith(g, w).value.value) == ParseText(TextOf(g, w))
  {
    WrittenTextShape(g, w);
    ReadWithoutSrid(WriteWith(g, w).value.value);
  }

  /** "TYPE (data)" is already trimmed. */
  lemma TaggedTrim(kw: string, d: string)
    requires |kw| >= 1 && forall i :: 0 <= i < |kw| ==> 'A' <= kw[i] <= 'Z'
    ensures Trim(kw + " (" + d + ")") == kw + " (" + d + ")"
  {
    var t := kw + " (" + d + ")";
    assert t[0] == kw[0];
    TrimOfUntrimmable(t);
  }

  /** "TYPE (data)" for data without `;` has no SRID part. */
  lemma TaggedNoSrid(kw: string, d: string)
    requires forall i :: 0 <= i < |kw| ==> 'A' <= kw[i] <= 'Z'
    requires ';' !in d
    ensures SplitSrid(kw + " (" + d + ")") == (kw + " (" + d + ")", None)
  {
    assert ';' !in kw + " (";
    NoSemicolon(kw + " (" + d + ")");
  }

  /** Comma-space collapsing of "TYPE (data)" only touches the data. */
  lemma TaggedCollapse(kw: string, d: string)
    requires forall i :: 0 <= i < |kw| ==> 'A' <= kw[i] <= 'Z'
    ensures CollapseCommaSpace(kw + " (" + d + ")") == kw + " (" + CollapseCommaSpace(d) + ")"
  {
    assert ',' !in kw + " (";
    CollapseAround(kw + " (", d, ")");
  }

  /** Trimmed text without an SRID part is read by the keyword dispatch alone. */
  lemma ReadWithoutSrid(t: string)
    requires Trim(t) == t && SplitSrid(t) == (t, None)
    ensures Read(t) == ParseText(CollapseCommaSpace(t))
  {
    var p := ParseText(CollapseCommaSpace(t));
    if p.Ok? && p.value.Some? {
      assert !TruthyText(None);
    }
  }

  /** Text without `;` has no SRID part. */
  lemma NoSemicolon(t: string)
    requires ';' !in t
    ensures SplitSrid(t) == (t, None)
  {
    FindChar(t, ';');
  }

  /** A keyword that differs from the text at position `j` does not start it. */
  lemma NotKeyword(s: string, k: Kind, j: nat)
    requires j < |s| && j < |Keyword(k)| && UpperChar(s[j]) != Keyword(k)[j]
    ensures !HasKeyword(s, k)
  {
    if |s| >= |Keyword(k)| {
      assert Upper(s[..|Keyword(k)|])[j] == UpperChar(s[j]);
    }
  }

  /** The search answers the first position whose keyword starts the text. */
  lemma {:induction false} FirstKeywordAt(s: string, from: nat, i: nat)
    requires from <= i < |KeywordOrder| && HasKeyword(s, KeywordOrder[i])
    requires forall j :: from <= j < i ==> !HasKeyword(s, KeywordOrder[j])
    ensures FirstKeyword(s, from) == Some(KeywordOrder[i])
    decreases i - from
  {
    if from < i {
      FirstKeywordAt(s, from + 1, i);
    }
  }

  function OrderIndex(k: Kind): (i: nat)
    ensures i < |KeywordOrder| && KeywordOrder[i] == k
  {
    match k
    case PointKind => 0
    case LineStringKind => 1
    case PolygonKind => 2
    case MultiPointKind => 3
    case MultiLineStringKind => 4
    case MultiPolygonKind => 5
    case GeometryCollectionKind => 6
  }

  /** Every keyword before `k` in the order differs from `k`'s at a position both have. */
  lemma EarlierKeywordsDiffer(k: Kind, j: nat)
    requires j < OrderIndex(k)
    ensures exists p :: 0 <= p < |Keyword(k)| && p < |Keyword(KeywordOrder[j])| && Keyword(k)[p] != Keyword(KeywordOrder[j])[p]
  {
    var e := KeywordOrder[j];
    var p := if k == PolygonKind && e == PointKind then 2
      else if k == MultiLineStringKind && e == MultiPointKind then 5
      else if k == MultiPolygonKind && e == MultiPointKind then 7
      else if k == MultiPolygonKind && e == MultiLineStringKind then 5
      else 0;
    assert Keyword(k)[p] != Keyword(e)[p];
  }

  /** read() picks the parser of the keyword the text starts with. */
  lemma KeywordDispatch(k: Kind, rest: string)
    ensures FirstKeyword(Keyword(k) + rest, 0) == Some(k)
  {
    var s := Keyword(k) + rest;
    var kw := Keyword(k);
    KeywordLetters(k);
    assert s[..|kw|] == kw;
    UpperOfUpper(kw);
    assert HasKeyword(s, k);
    forall j | 0 <= j < OrderIndex(k) ensures !HasKeyword(s, KeywordOrder[j]) {
      EarlierKeywordsDiffer(k, j);
      var p :| 0 <= p < |kw| && p < |Keyword(KeywordOrder[j])| && kw[p] != Keyword(KeywordOrder[j])[p];
      assert UpperChar(s[p]) == kw[p];
      NotKeyword(s, KeywordOrder[j], p);
    }
    FirstKeywordAt(s, 0, OrderIndex(k));
  }

  /** The data string of "TYPE (data)" is "(data)". */
  lemma DataOfText(k: Kind, d: string)
    ensures GetDataString(Keyword(k) + " (" + d + ")") == "(" + d + ")"
  {
    var kw := Keyword(k);
    var s := kw + " (" + d + ")";
    KeywordLetters(k);
    FindFirstChar(s, '(', |kw| + 1);
    assert s[|kw| + 1..] == "(" + d + ")";
  }
}
