/**
 * Properties of the adapter registry and of parse(): a built-in adapter
 * cannot be replaced by an extension, extend() changes the adapter of the
 * one name it registers, a later registration replaces an earlier one,
 * every format detectFormat() reports has a built-in adapter, and
 * parse() reads back what the WKT and EWKT writers write.
 */
module RegistryProofs {
  import opened Wrappers
  import opened Types
  import opened Text
  import opened Reduction
  import opened Formats
  import opened Registry
  import opened FormatProofs
  import Wkt
  import Ewkt
  import WktRoundTrip

  // ------------------------------------------------------------- studly names

  /** The set of answers detectFormat() can give. */
  const DetectedFormats: set<string> :=
    {"wkt", "ewkt", "wkb", "ewkb", "ewkb:1", "geo_json", "kml", "gpx", "geo_rss", "geo_hash"}

  /** detectFormat() answers nothing or one of ten format names. */
  lemma {:induction false} DetectFormatRange(s: string)
    ensures DetectFormat(s).Some? ==> DetectFormat(s).value in DetectedFormats
    decreases |s|
  {
    var bytes := Prefix(s, 11);
    if bytes != [] && IsLeadingSpace(bytes[0]) {
      DetectFormatRange(LTrim(s));
    }
  }

  /** The type part of a detected format and the built-in adapter it resolves to. */
  lemma DetectedAdapter(f: string, args: seq<string>)
    requires f in DetectedFormats
    ensures Studly(SplitFormat(f, args).0) in AdapterNames
    ensures SplitFormat(f, args).1 == if f == "ewkb:1" then ["1"] + args else args
  {
    if f == "ewkb:1" {
      SplitHexFormat(f, args);
      var ty := SplitFormat(f, args).0;
      StudlyOfName(ty, "ewkb", 3);
    } else {
      SplitPlain(f, args);
      if f == "wkt" {
        StudlyOfName(f, "wkt", 0);
      } else if f == "ewkt" {
        StudlyOfName(f, "ewkt", 1);
      } else if f == "wkb" {
        StudlyOfName(f, "wkb", 2);
      } else if f == "ewkb" {
        StudlyOfName(f, "ewkb", 3);
      } else if f == "geo_json" {
        StudlyOfGeoJson(f);
      } else if f == "kml" {
        StudlyOfName(f, "kml", 5);
      } else if f == "gpx" {
        StudlyOfName(f, "gpx", 6);
      } else if f == "geo_rss" {
        StudlyOfGeoRss(f);
      } else {
        StudlyOfGeoHash(f);
      }
    }
  }

  /** The studly form of a one-word format name is the basename of the adapter at index k. */
  lemma StudlyOfName(f: string, word: string, k: nat)
    requires f == word
    requires (word, k) == ("wkt", 0) || (word, k) == ("ewkt", 1) || (word, k) == ("wkb", 2)
      || (word, k) == ("ewkb", 3) || (word, k) == ("kml", 5) || (word, k) == ("gpx", 6)
    ensures k < |AdapterNames| && Studly(f) == AdapterNames[k]
  {
    StudlyOfWord(f);
  }

  /** A word of lower-case letters, none of them a word break, is written with its first letter in upper case. */
  lemma StudlyOfWord(w: string)
    requires w != [] && forall i :: 0 <= i < |w| ==> 'a' <= w[i] <= 'z'
    ensures Studly(w) == [UpperChar(w[0])] + w[1..]
  {
    StudlyRest(w[1..]);
  }

  lemma {:induction false} StudlyRest(w: string)
    requires forall i :: 0 <= i < |w| ==> 'a' <= w[i] <= 'z'
    ensures StudlyFrom(w, false) == w
  {
    if w != [] {
      StudlyRest(w[1..]);
      assert w == [w[0]] + w[1..];
    }
  }

  lemma StudlyOfGeoJson(f: string)
    requires f == "geo_json"
    ensures Studly(f) == AdapterNames[4]
  {
    assert Studly("geo_json") == "GeoJson";
  }

  lemma StudlyOfGeoRss(f: string)
    requires f == "geo_rss"
    ensures Studly(f) == AdapterNames[7]
  {
    assert Studly("geo_rss") == "GeoRss";
  }

  lemma StudlyOfGeoHash(f: string)
    requires f == "geo_hash"
    ensures Studly(f) == AdapterNames[9]
  {
    assert Studly("geo_hash") == "GeoHash";
  }

  /** A format without a colon is all type. */
  lemma SplitPlain(f: string, args: seq<string>)
    requires ':' !in f
    ensures SplitFormat(f, args) == (f, args)
  {
    FindNoneOfFirst(f, ":");
    assert Explode(f, ":") == [f];
    assert [f][1..] + args == args;
  }

  lemma SplitHexFormat(f: string, args: seq<string>)
    requires f == "ewkb" + [':'] + "1"
    ensures SplitFormat(f, args) == ("ewkb", ["1"] + args)
  {
    ExplodeAtFirst("ewkb", ':', "1");
    FindNoneOfFirst("1", ":");
  }

  /**
   * Every format detectFormat() reports resolves to a built-in adapter,
   * whatever extensions are registered; "ewkb:1" passes "1" (the hex flag)
   * before the caller's arguments.
   */
  lemma DetectedIsBuiltIn(reg: Registry, s: string, args: seq<string>)
    requires DetectFormat(s).Some?
    ensures var (ty, extra) := SplitFormat(DetectFormat(s).value, args);
      AdapterFor(reg, ty).Ok? && AdapterFor(reg, ty).value.BuiltIn?
      && extra == if DetectFormat(s).value == "ewkb:1" then ["1"] + args else args
  {
    DetectFormatRange(s);
    DetectedAdapter(DetectFormat(s).value, args);
  }

  // ---------------------------------------------------------------- registry

  /** A new factory knows the built-in adapters and nothing else. */
  lemma FreshFactory(t: string)
    ensures AdapterFor(Registry(map[], map[]), t).Ok? <==> Studly(t) in AdapterNames
  {
  }

  /** extend() succeeds exactly for a pair of closures, or for a defined class that descends from GeoAdapter. */
  lemma ExtendAccepts(reg: Registry, name: string, ext: Extension, write: Option<ClosureId>, parents: map<string, set<string>>)
    ensures Extended(reg, name, ext, write, parents).Ok? <==>
      (write.Some? && ext.ClosureValue?)
      || (write.None? && ext.ClassValue? && ext.name in parents && GeoAdapterClass in parents[ext.name])
  {
  }

  /** No registration replaces a built-in adapter. */
  lemma BuiltInKept(reg: Registry, name: string, ext: Extension, write: Option<ClosureId>,
                    parents: map<string, set<string>>, t: string)
    requires Studly(t) in AdapterNames && Extended(reg, name, ext, write, parents).Ok?
    ensures AdapterFor(Extended(reg, name, ext, write, parents).value, t) == AdapterFor(reg, t) == Ok(BuiltIn(Studly(t)))
  {
  }

  /**
   * After extend() the registered name makes the registered adapter,
   * except that a class registered earlier under the name wins over a
   * closure pair.
   */
  lemma ExtendedAdapter(reg: Registry, name: string, ext: Extension, write: Option<ClosureId>,
                        parents: map<string, set<string>>)
    requires Studly(name) !in AdapterNames && Extended(reg, name, ext, write, parents).Ok?
    ensures AdapterFor(Extended(reg, name, ext, write, parents).value, name) ==
      if write.None? then Ok(ExtensionAdapter(ext.name))
      else if name in reg.classes then Ok(ExtensionAdapter(reg.classes[name]))
      else Ok(Anonymous(ext.id, write.value))
  {
  }

  /** extend() leaves the adapter of every other name as it was. */
  lemma ExtendLeavesOthers(reg: Registry, name: string, ext: Extension, write: Option<ClosureId>,
                           parents: map<string, set<string>>, t: string)
    requires t != name && Extended(reg, name, ext, write, parents).Ok?
    ensures AdapterFor(Extended(reg, name, ext, write, parents).value, t) == AdapterFor(reg, t)
  {
  }

  /** Registering a name a second time, the same way, replaces the first registration. */
  lemma ExtendTwice(reg: Registry, name: string, e1: Extension, w1: Option<ClosureId>,
                    e2: Extension, w2: Option<ClosureId>, parents: map<string, set<string>>)
    requires Extended(reg, name, e1, w1, parents).Ok? && w1.Some? == w2.Some?
    ensures Extended(Extended(reg, name, e1, w1, parents).value, name, e2, w2, parents) ==
      Extended(reg, name, e2, w2, parents)
  {
    var r1 := Extended(reg, name, e1, w1, parents).value;
    if w2.Some? && e2.ClosureValue? {
      assert r1.closures[name := (e2.id, w2.value)] == reg.closures[name := (e2.id, w2.value)];
    } else if w2.None? && e2.ClassValue? && e2.name in parents && GeoAdapterClass in parents[e2.name] {
      assert r1.classes[name := e2.name] == reg.classes[name := e2.name];
    }
  }

  // ------------------------------------------------------------------ parse

  /** parse() with a type whose studly form is "Wkt" ("wkt", "WKT" is not) reads with the WKT reader whatever is registered. */
  lemma WktTypeReads(reg: Registry, x: string, t: string, args: seq<string>, others: Reader)
    requires Studly(t) == "Wkt"
    ensures Parsed(reg, TextData(x), Some(t), args, others) == Wkt.Read(x)
  {
    assert Studly(t) == AdapterNames[0];
    BuiltInFirst(reg, t);
    WktAdaptersRead(BuiltIn(Studly(t)), x, args, others);
  }

  /** Text detected as WKT or EWKT is read by the WKT reader, whatever is registered. */
  lemma ParseDetected(reg: Registry, text: string, f: string, args: seq<string>, others: Reader)
    requires DetectFormat(text) == Some(f) && ':' !in f
    requires Studly(f) == AdapterNames[0] || Studly(f) == AdapterNames[1]
    ensures Parsed(reg, TextData(text), None, args, others) == Wkt.Read(text)
  {
    SplitPlain(f, args);
    BuiltInFirst(reg, f);
    ParsedByAdapter(reg, text, f, BuiltIn(Studly(f)), args, others);
    WktAdaptersRead(BuiltIn(Studly(f)), text, args, others);
  }

  /** Text of a detected type without arguments is read by the adapter made for that type. */
  lemma ParsedByAdapter(reg: Registry, text: string, f: string, a: Adapter, args: seq<string>, others: Reader)
    requires DetectFormat(text) == Some(f) && SplitFormat(f, args) == (f, args)
    requires AdapterFor(reg, f) == Ok(a)
    ensures Parsed(reg, TextData(text), None, args, others) == ReadWith(a, text, args, others)
  {
  }

  /** A type whose studly form names a built-in adapter makes that adapter. */
  lemma BuiltInFirst(reg: Registry, t: string)
    requires Studly(t) in AdapterNames
    ensures AdapterFor(reg, t) == Ok(BuiltIn(Studly(t)))
  {
  }

  /** The WKT and EWKT adapters read with the WKT reader, ignoring the extra arguments. */
  lemma WktAdaptersRead(a: Adapter, text: string, args: seq<string>, others: Reader)
    requires a == BuiltIn(AdapterNames[0]) || a == BuiltIn(AdapterNames[1])
    ensures ReadWith(a, text, args, others) == Wkt.Read(text)
  {
    assert AdapterNames[0] == "Wkt" && AdapterNames[1] == "Ewkt";
  }

  /** Without a type, parse() reads WKT text back into the geometry the WKT writer wrote it from. */
  lemma ParseWktText(reg: Registry, g: Geometry, w: Wkt.Writer, args: seq<string>, others: Reader)
    requires Valid(g) && WktRoundTrip.Bare(g)
    requires WktRoundTrip.Member(g, w) || (g.GeometryCollection? && forall c :: c in g.components ==> WktRoundTrip.Member(c, w))
    ensures Wkt.WriteWith(g, w).Ok? && Wkt.WriteWith(g, w).value.Some?
    ensures Parsed(reg, TextData(Wkt.WriteWith(g, w).value.value), None, args, others) == Ok(Some(g))
  {
    WktRoundTrip.RoundTrip(g, w);
    var t := Wkt.WriteWith(g, w).value.value;
    WktDetected(g, w, t);
    DetectedReads(reg, t, "wkt", 0, args, others);
  }

  /** Without a type, parse() reads EWKT text back into the geometry, SRID included. */
  lemma ParseEwktText(reg: Registry, g: Geometry, w: Wkt.Writer, args: seq<string>, others: Reader)
    requires Srid(g) != 0
    requires var g0 := SetSrid(g, 0);
      Valid(g0) && WktRoundTrip.Bare(g0)
      && (WktRoundTrip.Member(g0, w) || (g0.GeometryCollection? && forall c :: c in g0.components ==> WktRoundTrip.Member(c, w)))
    ensures Ewkt.WriteWith(g, w).Ok? && Ewkt.WriteWith(g, w).value.Some?
    ensures Parsed(reg, TextData(Ewkt.WriteWith(g, w).value.value), None, args, others) == Ok(Some(g))
  {
    Ewkt.RoundTrip(g, w);
    var t := Ewkt.WriteWith(g, w).value.value;
    EwktDetected(g, w, t);
    DetectedReads(reg, t, "ewkt", 1, args, others);
  }

  /** Text detected as "wkt" or "ewkt" is parsed by reading it with the WKT reader. */
  lemma DetectedReads(reg: Registry, t: string, f: string, k: nat, args: seq<string>, others: Reader)
    requires (f, k) == ("wkt", 0) || (f, k) == ("ewkt", 1)
    requires DetectFormat(t) == Some(f)
    ensures Parsed(reg, TextData(t), None, args, others) == Wkt.Read(t)
  {
    StudlyOfName(f, f, k);
    ParseDetected(reg, t, f, args, others);
  }

  /**
   * An array is read item by item with one adapter, and the geometries
   * are reduced: when every item parses on its own, the array parses to
   * reduce() of their geometries.
   */
  lemma ParseList(reg: Registry, items: seq<string>, t: string, args: seq<string>, others: Reader, gs: seq<Option<Geometry>>)
    requires |gs| == |items|
    requires forall i :: 0 <= i < |items| ==> Parsed(reg, TextData(items[i]), Some(t), args, others) == Ok(gs[i])
    requires AdapterFor(reg, t).Ok?
    ensures Parsed(reg, ListData(items), Some(t), args, others) == ReduceList(gs)
  {
    var a := AdapterFor(reg, t).value;
    MapAllOf(items, Reading(a, args, others), gs);
  }

  /** An array of one text parses to reduce() of that text's geometry; a text that reads to nothing makes it a TypeError. */
  lemma ParseListOfOne(reg: Registry, item: string, t: string, args: seq<string>, others: Reader)
    ensures Parsed(reg, ListData([item]), Some(t), args, others) ==
      match Parsed(reg, TextData(item), Some(t), args, others)
      case Err(e) => Err(e)
      case Ok(None) => Err(TypeError)
      case Ok(Some(g)) => Reduce(g)
  {
    if AdapterFor(reg, t).Ok? {
      var a := AdapterFor(reg, t).value;
      var read := Reading(a, args, others);
      if read(item).Err? {
        MapAllStops([item], read, 0);
      } else {
        MapAllOf([item], read, [read(item).value]);
      }
    }
  }
}
