/**
 * The Factory's pure parts apart from wrap() and reduce(): detectFormat(),
 * which guesses the format of a text from its first bytes, and the
 * geometry class lists geometryList() and lcGeometryList().
 */
module Formats {
  import opened Wrappers
  import opened Types
  import opened Text
  import opened Reduction
  import opened Bytes
  import Wkt
  import Ewkt

  // ------------------------------------------------------------ detectFormat

  /** The first `n` characters, or all of them. */
  function Prefix(s: string, n: nat): (r: string)
    ensures |r| == if |s| < n then |s| else n
    ensures r == s[..|r|]
  {
    if |s| < n then s else s[..n]
  }

  /** The leading bytes detectFormat() tells a whitespace from: tab, line feed and space. */
  predicate IsLeadingSpace(c: char)
  {
    c == '\t' || c == '\n' || c == ' '
  }

  /** The XML formats, by the first tag found in the first 256 characters. */
  function XmlFormat(s: string): (r: Option<string>)
  {
    var head := Prefix(s, 256);
    if Find(head, "<kml").Some? then Some("kml")
    else if Find(head, "<coordinate").Some? then Some("kml")
    else if Find(head, "<gpx").Some? then Some("gpx")
    else if Find(head, "<georss").Some? then Some("geo_rss")
    else if Find(head, "<rss").Some? then Some("geo_rss")
    else if Find(head, "<feed").Some? then Some("geo_rss")
    else None
  }

  /** The characters of the pattern `[a-z0-9]`. */
  predicate IsHashChar(c: char)
  {
    'a' <= c <= 'z' || '0' <= c <= '9'
  }

  /** The longest run of pattern characters `s` starts with. */
  function Run(s: string): (r: string)
    ensures |r| <= |s| && r == s[..|r|]
    ensures forall i :: 0 <= i < |r| ==> IsHashChar(r[i])
    ensures |r| < |s| ==> !IsHashChar(s[|r|])
  {
    if s != [] && IsHashChar(s[0]) then [s[0]] + Run(s[1..]) else []
  }

  /** $matches[0] of preg_match('/[a-z0-9]+/', $s): the leftmost longest run, none when there is no pattern character. */
  function HashMatch(s: string): (r: Option<string>)
  {
    if s == [] then None
    else if IsHashChar(s[0]) then Some(Run(s))
    else HashMatch(s[1..])
  }

  /**
   * detectFormat($input): by the first of the first eleven bytes, with
   * leading tabs, line feeds and spaces trimmed off; hexadecimal WKB only
   * from 18 characters on; the XML formats by their tags; a geohash when
   * the trimmed first eight bytes are one run of `[a-z0-9]`.  Empty input
   * gives no format (the source's `false`, which parse() treats as null).
   */
  function DetectFormat(input: string): (r: Option<string>)
    decreases |input|
  {
    var bytes := Prefix(input, 11);
    if bytes == [] then None
    else if IsLeadingSpace(bytes[0]) then
      DetectFormat(LTrim(input))
    else if bytes[0] == 1 as char || bytes[0] == 0 as char then
      if |bytes| >= 5 && bytes[4] != 0 as char then Some("ewkb") else Some("wkb")
    else if bytes[0] == '0' && |bytes| >= 2 && bytes[1] == '1' && |input| >= 18 then Some("ewkb:1")
    else if bytes[0] == '{' then Some("geo_json")
    else if bytes[0] == 'S' then Some("ewkt")
    else if bytes[0] in "PLMG" then Some("wkt")
    else if bytes[0] == '<' && XmlFormat(input).Some? then XmlFormat(input)
    else
      var s := Trim(Prefix(input, 8));
      if HashMatch(s) == Some(s) then Some("geo_hash") else None
  }

  /** The characters of a byte string, as a PHP string holds them. */
  function Chars(bs: seq<Byte>): (r: string)
    ensures |r| == |bs| && forall i :: 0 <= i < |bs| ==> r[i] == bs[i] as char
  {
    if bs == [] then [] else [bs[0] as char] + Chars(bs[1..])
  }

  // ----------------------------------------------------------- the class lists

  /** Factory::$geometries, in order. */
  const GeometryClasses: seq<Kind> := [PointKind, LineStringKind, PolygonKind, MultiPointKind,
    MultiLineStringKind, MultiPolygonKind, GeometryCollectionKind]

  function TypeNames(ks: seq<Kind>): (r: seq<string>)
    ensures |r| == |ks| && forall i :: 0 <= i < |ks| ==> r[i] == TypeName(ks[i])
  {
    if ks == [] then [] else [TypeName(ks[0])] + TypeNames(ks[1..])
  }

  function LowerAll(names: seq<string>): (r: seq<string>)
    ensures |r| == |names| && forall i :: 0 <= i < |names| ==> r[i] == Lower(names[i])
  {
    if names == [] then [] else [Lower(names[0])] + LowerAll(names[1..])
  }

  /** array_combine($keys, $values): each key to the value at its place, a later key overwriting an earlier one. */
  function Combine<V>(keys: seq<string>, values: seq<V>): map<string, V>
    requires |keys| == |values|
  {
    if keys == [] then map[]
    else Combine(keys[..|keys| - 1], values[..|values| - 1])[keys[|keys| - 1] := values[|values| - 1]]
  }

  predicate Distinct(keys: seq<string>)
  {
    forall i, j :: 0 <= i < j < |keys| ==> keys[i] != keys[j]
  }

  /** With distinct keys array_combine() loses nothing: every key maps to the value at its place, and nothing else is a key. */
  lemma {:induction false} CombineDistinct<V>(keys: seq<string>, values: seq<V>)
    requires |keys| == |values| && Distinct(keys)
    ensures forall i :: 0 <= i < |keys| ==> keys[i] in Combine(keys, values) && Combine(keys, values)[keys[i]] == values[i]
    ensures forall key :: key in Combine(keys, values) ==> key in keys
  {
    if keys != [] {
      var n := |keys| - 1;
      CombineDistinct(keys[..n], values[..n]);
      forall key | key in Combine(keys, values) ensures key in keys {
        if key != keys[n] {
          assert key in keys[..n];
        }
      }
    }
  }

  /** geometryList(): each class's type name to the class. */
  function GeometryList(): map<string, Kind>
  {
    Combine(TypeNames(GeometryClasses), GeometryClasses)
  }

  /** lcGeometryList(): each type name in lower case to the type name. */
  function LcGeometryList(): map<string, string>
  {
    var types := TypeNames(GeometryClasses);
    Combine(LowerAll(types), types)
  }

  lemma EveryClassListed(k: Kind)
    ensures exists i :: 0 <= i < |GeometryClasses| && GeometryClasses[i] == k
  {
    match k
    case PointKind => assert GeometryClasses[0] == k;
    case LineStringKind => assert GeometryClasses[1] == k;
    case PolygonKind => assert GeometryClasses[2] == k;
    case MultiPointKind => assert GeometryClasses[3] == k;
    case MultiLineStringKind => assert GeometryClasses[4] == k;
    case MultiPolygonKind => assert GeometryClasses[5] == k;
    case GeometryCollectionKind => assert GeometryClasses[6] == k;
  }

  /** geometryList() maps the type name of every class to that class, and has no other key. */
  lemma GeometryListOf(k: Kind)
    ensures TypeName(k) in GeometryList() && GeometryList()[TypeName(k)] == k
    ensures forall name :: name in GeometryList() ==> TypeName(GeometryList()[name]) == name
  {
    var names := TypeNames(GeometryClasses);
    forall i, j | 0 <= i < j < |names| ensures names[i] != names[j] {
      TypeNameInjective(GeometryClasses[i], GeometryClasses[j]);
    }
    CombineDistinct(names, GeometryClasses);
    EveryClassListed(k);
    forall name | name in GeometryList() ensures TypeName(GeometryList()[name]) == name {
      var i :| 0 <= i < |names| && names[i] == name;
    }
  }

  /** The class of "Multi" . type, which wrap() instantiates: exactly the Multi class of Point, LineString and Polygon. */
  lemma MultiClassOf(k: Kind)
    ensures ("Multi" + TypeName(k) in GeometryList()) <==> MultiKind(k).Some?
    ensures MultiKind(k).Some? ==> GeometryList()["Multi" + TypeName(k)] == MultiKind(k).value
  {
    GeometryListOf(k);
    var name := "Multi" + TypeName(k);
    if MultiKind(k).Some? {
      assert name == TypeName(MultiKind(k).value);
      GeometryListOf(MultiKind(k).value);
    } else if name in GeometryList() {
      var m := GeometryList()[name];
      NoMultiOfMulti(k, m);
    }
  }

  /** "Multi" before the name of a class that has no Multi class names no class. */
  lemma NoMultiOfMulti(k: Kind, m: Kind)
    requires MultiKind(k).None?
    ensures TypeName(m) != "Multi" + TypeName(k)
  {
    var name := "Multi" + TypeName(k);
    assert name[5] == TypeName(k)[0];
    assert name[5] == 'M' || name[5] == 'G';
    assert |TypeName(m)| <= 5 || (TypeName(m)[5] != 'M' && TypeName(m)[5] != 'G');
  }

  lemma LowerIs(s: string, t: string)
    requires |s| == |t| && forall i :: 0 <= i < |s| ==> LowerChar(s[i]) == t[i]
    ensures Lower(s) == t
  {
  }

  /** The lower-case name of each class. */
  lemma LowerNameOf(k: Kind)
    ensures Lower(TypeName(k)) == match k
      case PointKind => "point"
      case LineStringKind => "linestring"
      case PolygonKind => "polygon"
      case MultiPointKind => "multipoint"
      case MultiLineStringKind => "multilinestring"
      case MultiPolygonKind => "multipolygon"
      case GeometryCollectionKind => "geometrycollection"
  {
    match k
    case PointKind => LowerIs("Point", "point");
    case LineStringKind => LowerIs("LineString", "linestring");
    case PolygonKind => LowerIs("Polygon", "polygon");
    case MultiPointKind => LowerIs("MultiPoint", "multipoint");
    case MultiLineStringKind => LowerIs("MultiLineString", "multilinestring");
    case MultiPolygonKind => LowerIs("MultiPolygon", "multipolygon");
    case GeometryCollectionKind => LowerIs("GeometryCollection", "geometrycollection");
  }

  /** No two classes share a lower-case name. */
  lemma LowerNameInjective(a: Kind, b: Kind)
    requires a != b
    ensures Lower(TypeName(a)) != Lower(TypeName(b))
  {
    LowerNameOf(a);
    LowerNameOf(b);
  }

  /** lcGeometryList() maps the lower-case name of every class to its type name, and has no other key. */
  lemma LcGeometryListOf(k: Kind)
    ensures Lower(TypeName(k)) in LcGeometryList() && LcGeometryList()[Lower(TypeName(k))] == TypeName(k)
    ensures forall key :: key in LcGeometryList() ==> Lower(LcGeometryList()[key]) == key
  {
    var names := TypeNames(GeometryClasses);
    var lower := LowerAll(names);
    forall i, j | 0 <= i < j < |lower| ensures lower[i] != lower[j] {
      LowerNameInjective(GeometryClasses[i], GeometryClasses[j]);
    }
    CombineDistinct(lower, names);
    EveryClassListed(k);
    forall key | key in LcGeometryList() ensures Lower(LcGeometryList()[key]) == key {
      var i :| 0 <= i < |lower| && lower[i] == key;
    }
  }
}
