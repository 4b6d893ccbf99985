/**
 * The Factory's adapter registry and parse(): makeAdapter() looks a type
 * up among the built-in adapters by its studly name, then among the class
 * extensions, then among the closure extensions; extend() registers an
 * extension; parse() detects the format when none is given, makes the
 * adapter and reads the data, reducing what it reads from a list.
 */
module Registry {
  import opened Wrappers
  import opened Types
  import opened Text
  import opened Reduction
  import opened Formats
  import Wkt

  /** A closure, known by its identity only: what it computes is not part of the model. */
  type ClosureId = nat

  /** The second argument of extend(): the read closure, or an adapter class name. */
  datatype Extension = ClosureValue(id: ClosureId) | ClassValue(name: string)

  /** The adapter makeAdapter() builds. */
  datatype Adapter =
    | BuiltIn(name: string)                              // one of Factory::$adapters, by class basename
    | ExtensionAdapter(cls: string)                      // new $class($this) of a class extension
    | Anonymous(read: ClosureId, write: ClosureId)       // AnonymousGeoAdapter over a closure pair

  /** The factory's $extensions and $closureExtensions. */
  datatype Registry = Registry(classes: map<string, string>, closures: map<string, (ClosureId, ClosureId)>)

  /** The basenames of Factory::$adapters, in order. */
  const AdapterNames: seq<string> :=
    ["Wkt", "Ewkt", "Wkb", "Ewkb", "GeoJson", "Kml", "Gpx", "GeoRss", "GoogleGeocode", "GeoHash"]

  /** GeoAdapter::class, the parent every extension class must have. */
  const GeoAdapterClass: string := "Lyhty\\Geometry\\Adapters\\GeoAdapter"

  /**
   * makeAdapter($type): the built-in adapter whose basename is the studly
   * type, else the class extension registered under the type, else the
   * closure extension, else a RuntimeException.
   */
  function AdapterFor(reg: Registry, t: string): (r: Result<Adapter>)
    ensures r.Err? ==> r.error == UnknownAdapter
  {
    if Studly(t) in AdapterNames then Ok(BuiltIn(Studly(t)))
    else if t in reg.classes then Ok(ExtensionAdapter(reg.classes[t]))
    else if t in reg.closures then Ok(Anonymous(reg.closures[t].0, reg.closures[t].1))
    else Err(UnknownAdapter)
  }

  /**
   * extend($adapter, $extension, $write): with a write closure the read
   * argument must be a closure too, and the pair is registered; without
   * one, the extension must be a defined class (`parents` maps each
   * defined class to its ancestors, as class_parents() reports them)
   * that descends from GeoAdapter, and the class is registered.  A name
   * registered again replaces its earlier entry.
   */
  function Extended(reg: Registry, name: string, ext: Extension, write: Option<ClosureId>,
                    parents: map<string, set<string>>): (r: Result<Registry>)
  {
    if write.Some? then
      if !ext.ClosureValue? then Err(ClosuresExpected)
      else Ok(reg.(closures := reg.closures[name := (ext.id, write.value)]))
    else if ext.ClosureValue? then Err(InvalidExtension)   // a closure object has no parent class
    else if ext.name !in parents then Err(TypeError)        // class_parents() is false, in_array() rejects it
    else if GeoAdapterClass !in parents[ext.name] then Err(InvalidExtension)
    else Ok(reg.(classes := reg.classes[name := ext.name]))
  }

  // ------------------------------------------------------------------ parse

  /** What parse() is given: a geometry, a text, or an array of texts. */
  datatype Data = GeometryData(g: Geometry) | TextData(text: string) | ListData(items: seq<string>)

  /** The read() of the adapters this model does not hold: their text, and the extra arguments, to a geometry. */
  type Reader = (Adapter, string, seq<string>) -> Result<Option<Geometry>>

  /**
   * $processor->read($data, ...$otherArgs): the WKT and EWKT adapters read
   * with the WKT reader (the extra arguments are ignored); every other
   * adapter with `others`.
   */
  function ReadWith(a: Adapter, text: string, args: seq<string>, others: Reader): Result<Option<Geometry>>
  {
    if a == BuiltIn("Wkt") || a == BuiltIn("Ewkt") then Wkt.Read(text) else others(a, text, args)
  }

  /** The reader of one item, with the adapter and arguments fixed. */
  function Reading(a: Adapter, args: seq<string>, others: Reader): string -> Result<Option<Geometry>>
  {
    item => ReadWith(a, item, args, others)
  }

  /** explode(':', $detected): the type before the first colon, the rest put before the caller's arguments. */
  function SplitFormat(detected: string, args: seq<string>): (string, seq<string>)
  {
    var format := Explode(detected, ":");
    (format[0], format[1..] + args)
  }

  /**
   * parse($data, $type, ...$otherArgs): a geometry is given back as it is.
   * Without a type the format is detected (an array cannot be, fwrite()
   * rejects it), and undetectable data gives null.  A text is read by the
   * adapter; every item of an array is read by it in turn and the results
   * are reduced.
   */
  function Parsed(reg: Registry, data: Data, t: Option<string>, args: seq<string>, others: Reader): Result<Option<Geometry>>
  {
    match data
    case GeometryData(g) => Ok(Some(g))
    case TextData(text) =>
      if t.None? then
        match DetectFormat(text)
        case None => Ok(None)
        case Some(detected) =>
          var (ty, extra) := SplitFormat(detected, args);
          var a :- AdapterFor(reg, ty);
          ReadWith(a, text, extra, others)
      else
        var a :- AdapterFor(reg, t.value);
        ReadWith(a, text, args, others)
    case ListData(items) =>
      if t.None? then Err(TypeError)
      else
        var a :- AdapterFor(reg, t.value);
        var geoms :- MapAll(items, Reading(a, args, others));
        ReduceList(geoms)
  }

  /** The foreach of parse() over an array: each item read in turn, the first exception ending it. */
  method ReadAll(a: Adapter, items: seq<string>, args: seq<string>, others: Reader)
    returns (r: Result<seq<Option<Geometry>>>)
    ensures r == MapAll(items, Reading(a, args, others))
  {
    var read := Reading(a, args, others);
    var geoms: seq<Option<Geometry>> := [];
    var i := 0;
    while i < |items|
      invariant i <= |items| && |geoms| == i
      invariant forall j :: 0 <= j < i ==> read(items[j]) == Ok(geoms[j])
    {
      var item := read(items[i]);
      if item.Err? {
        MapAllStops(items, read, i);
        return Err(item.error);
      }
      geoms := geoms + [item.value];
      i := i + 1;
    }
    MapAllOf(items, read, geoms);
    return Ok(geoms);
  }

  // -------------------------------------------------------------- the class

  /** The Factory object: its extension maps are what extend() changes. */
  class Factory {
    var extensions: map<string, string>
    var closureExtensions: map<string, (ClosureId, ClosureId)>

    function Registered(): Registry
      reads this
    {
      Registry(extensions, closureExtensions)
    }

    constructor()
      ensures Registered() == Registry(map[], map[])
    {
      extensions := map[];
      closureExtensions := map[];
    }

    method MakeAdapter(t: string) returns (r: Result<Adapter>)
      ensures r == AdapterFor(Registered(), t)
    {
      var studType := Studly(t);
      if studType in AdapterNames {
        return Ok(BuiltIn(studType));
      }
      if t in extensions {
        return Ok(ExtensionAdapter(extensions[t]));
      }
      if t in closureExtensions {
        var pair := closureExtensions[t];
        return Ok(Anonymous(pair.0, pair.1));
      }
      return Err(UnknownAdapter);
    }

    method Extend(name: string, ext: Extension, write: Option<ClosureId>, parents: map<string, set<string>>)
      returns (r: Result<()>)
      modifies this
      ensures Extended(old(Registered()), name, ext, write, parents).Ok? ==>
        r.Ok? && Registered() == Extended(old(Registered()), name, ext, write, parents).value
      ensures Extended(old(Registered()), name, ext, write, parents).Err? ==>
        r == Err(Extended(old(Registered()), name, ext, write, parents).error) && Registered() == old(Registered())
    {
      if write.Some? {
        if !ext.ClosureValue? {
          return Err(ClosuresExpected);
        }
        closureExtensions := closureExtensions[name := (ext.id, write.value)];
        return Ok(());
      }
      if ext.ClosureValue? {
        return Err(InvalidExtension);
      }
      if ext.name !in parents {
        return Err(TypeError);
      }
      if GeoAdapterClass !in parents[ext.name] {
        return Err(InvalidExtension);
      }
      extensions := extensions[name := ext.name];
      return Ok(());
    }

    method Parse(data: Data, t: Option<string>, args: seq<string>, others: Reader) returns (r: Result<Option<Geometry>>)
      ensures r == Parsed(Registered(), data, t, args, others)
    {
      if data.GeometryData? {
        return Ok(Some(data.g));
      }
      var ty := "";
      var extra := args;
      if t.None? {
        if data.ListData? {
          return Err(TypeError);
        }
        var detected := DetectFormat(data.text);
        if detected.None? {
          return Ok(None);
        }
        ty, extra := SplitFormat(detected.value, args).0, SplitFormat(detected.value, args).1;
      } else {
        ty := t.value;
      }
      var processor := MakeAdapter(ty);
      if processor.Err? {
        return Err(processor.error);
      }
      if data.TextData? {
        return ReadWith(processor.value, data.text, extra, others);
      }
      var geoms := ReadAll(processor.value, data.items, extra, others);
      if geoms.Err? {
        return Err(geoms.error);
      }
      return ReduceList(geoms.value);
    }
  }
}
