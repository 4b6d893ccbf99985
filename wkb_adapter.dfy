/**
 * The _WKB adapter as the object it is: a reader whose dimension, z and m
 * fields change while it reads from a memory stream, and a writer that
 * appends to a byte buffer. Each method is proved to compute what the
 * matching function of module Wkb says.
 */
module WkbAdapter {
  import opened Wrappers
  import opened Types
  import opened Bytes
  import opened Wkb
  import opened Reduction

  /** php://memory holding a byte string, read from a cursor on. */
  class Stream {
    const bytes: seq<Byte>
    var pos: nat

    predicate Valid()
      reads this
    {
      pos <= |bytes|
    }

    /** fopen, fwrite, fseek to 0. */
    constructor(data: seq<Byte>)
      ensures Valid() && bytes == data && pos == 0
    {
      bytes := data;
      pos := 0;
    }

    /** fread($mem, n): up to `n` bytes from the cursor, which moves past them. */
    method Read(n: nat) returns (chunk: seq<Byte>)
      requires Valid()
      modifies this
      ensures Valid()
      ensures chunk == Take(bytes, old(pos), n) && pos == old(pos) + |chunk|
    {
      var end := if pos + n < |bytes| then pos + n else |bytes|;
      chunk := bytes[pos..end];
      pos := end;
    }
  }

  /** Prepends `prefix` to a successful result and leaves an error alone. */
  function Prefixed<T>(prefix: seq<T>, r: Result<seq<T>>): (p: Result<seq<T>>)
    ensures p.Ok? <==> r.Ok?
    ensures p.Ok? ==> p.value == prefix + r.value
  {
    if r.Ok? then Ok(prefix + r.value) else r
  }

  lemma PrefixedTwice<T>(a: seq<T>, b: seq<T>, r: Result<seq<T>>)
    ensures Prefixed(a, Prefixed(b, r)) == Prefixed(a + b, r)
  {
    if r.Ok? {
      assert a + (b + r.value) == a + b + r.value;
    }
  }

  lemma PrefixedNothing<T>(r: Result<seq<T>>)
    ensures Prefixed([], r) == r
  {
    if r.Ok? {
      assert [] + r.value == r.value;
    }
  }

  /** The loop of getLineString(): a point from each two values in turn. */
  method Pairs(coords: seq<int>) returns (r: Result<seq<Geometry>>)
    ensures r == PairsFrom(coords, 0)
  {
    var components: seq<Geometry> := [];
    var i := 0;
    PrefixedNothing(PairsFrom(coords, 0));
    while i < |coords|
      invariant i <= |coords| + 1
      invariant Prefixed(components, PairsFrom(coords, i)) == PairsFrom(coords, 0)
      decreases |coords| - i
    {
      var p := NewPoint(Some(coords[i]), if i + 1 < |coords| then Some(coords[i + 1]) else None, None);
      if p.Err? {
        return Err(p.error);
      }
      PrefixedTwice(components, [p.value], PairsFrom(coords, i + 2));
      components := components + [p.value];
      i := i + 2;
    }
    assert components + [] == components;
    return Ok(components);
  }

  /** An instance of _WKB. */
  class Adapter {
    var dimension: nat
    var z: bool
    var m: bool

    /** The adapter's fields with the cursor of `mem`, as the reading functions take them. */
    function StateOf(mem: Stream): State
      reads this, mem
    {
      State(mem.pos, dimension, z, m)
    }

    constructor()
      ensures dimension == Fresh.dimension && z == Fresh.z && m == Fresh.m
    {
      dimension := 2;
      z := false;
      m := false;
    }

    // ------------------------------------------------------------- reading

    /** read($wkb, $isHexString). */
    method Read(wkb: seq<Byte>, isHex: bool) returns (r: Result<Option<Geometry>>)
      modifies this
      ensures var spec := Wkb.Read(wkb, isHex, old(State(0, dimension, z, m)));
        r == spec.outcome && dimension == spec.after.dimension && z == spec.after.z && m == spec.after.m
    {
      var data := if isHex then HexDecode(wkb) else wkb;
      if EmptyText(data) {
        return Err(ReadFailure);
      }
      var mem := new Stream(data);
      r := GetGeometry(mem);
    }

    /** getGeometry(): the header, then the reader of its type. */
    method GetGeometry(mem: Stream) returns (r: Result<Option<Geometry>>)
      requires mem.Valid()
      modifies this, mem
      ensures mem.Valid()
      ensures Reading(r, StateOf(mem)) == GeometryAt(mem.bytes, old(StateOf(mem)))
      decreases |mem.bytes| - mem.pos, 3
    {
      ghost var s := StateOf(mem);
      var kind := ReadHeader(mem);
      if kind.Err? {
        return Err(kind.error);
      }
      if kind.value.None? {
        return Ok(None);
      }
      var body := GetBody(mem, kind.value.value);
      GeometryBody(mem.bytes, s, kind.value.value, Reading(body, StateOf(mem)));
      r := if body.Ok? then Ok(Some(body.value)) else Err(body.error);
    }

    /**
     * The header of getGeometry(): order, type, z, m and s, one byte each;
     * z and m raise the dimension, s skips the four bytes of the SRID.
     */
    method ReadHeader(mem: Stream) returns (r: Result<Option<Kind>>)
      requires mem.Valid()
      modifies this, mem
      ensures mem.Valid()
      ensures Reading(r, StateOf(mem)) == HeaderAt(mem.bytes, old(StateOf(mem)))
    {
      var h := mem.Read(5);
      if |h| < 5 || h[0] != 1 {
        return Err(ReadFailure);
      }
      if h[2] != 0 {
        dimension := dimension + 1;
        z := true;
      }
      if h[3] != 0 {
        dimension := dimension + 1;
        m := true;
      }
      if h[4] != 0 {
        var srid := mem.Read(4);
      }
      r := Ok(KindOfCode(h[1]));
    }

    /** The switch of getGeometry(). */
    method GetBody(mem: Stream, k: Kind) returns (r: Result<Geometry>)
      requires mem.Valid()
      modifies this, mem
      ensures mem.Valid()
      ensures Reading(r, StateOf(mem)) == BodyAt(mem.bytes, old(StateOf(mem)), k)
      decreases |mem.bytes| - mem.pos, 2
    {
      if k == PointKind {
        r := GetPoint(mem);
      } else if k == LineStringKind {
        r := GetLineString(mem);
      } else if k == PolygonKind {
        r := GetPolygon(mem);
      } else {
        r := GetMulti(mem, k);
      }
    }

    /** getPoint(): dimension·8 bytes, a point from the first two values or the empty point. */
    method GetPoint(mem: Stream) returns (r: Result<Geometry>)
      requires mem.Valid()
      modifies mem
      ensures mem.Valid()
      ensures Reading(r, StateOf(mem)) == PointAt(mem.bytes, old(StateOf(mem)))
    {
      var chunk := mem.Read(dimension * 8);
      var coords := Doubles(chunk);
      if coords != [] {
        r := NewPoint(Some(coords[0]), if |coords| > 1 then Some(coords[1]) else None, None);
      } else {
        r := Ok(Point(EmptyCoords, 0));
      }
    }

    /** getLineString(): the count, the values, then points made two values at a time. */
    method GetLineString(mem: Stream) returns (r: Result<Geometry>)
      requires mem.Valid()
      modifies mem
      ensures mem.Valid()
      ensures Reading(r, StateOf(mem)) == LineStringAt(mem.bytes, old(StateOf(mem)))
    {
      ghost var s := StateOf(mem);
      var count := mem.Read(4);
      if |count| < 4 || UnpackU32(count) == 0 {
        LineStringEmpty(mem.bytes, s);
        return Err(TooFewComponents(LineStringKind));
      }
      var chunk := mem.Read(UnpackU32(count) * dimension * 8);
      var coords := Doubles(chunk);
      LineStringPairs(mem.bytes, s, chunk, PairsFrom(coords, 0));
      ghost var after := StateOf(mem);
      var components := Pairs(coords);
      if components.Err? {
        return Err(components.error);
      }
      r := NewCollection(LineStringKind, Somes(components.value));
    }

    /** getPolygon(): the ring count, then that many line strings. */
    method GetPolygon(mem: Stream) returns (r: Result<Geometry>)
      requires mem.Valid()
      modifies mem
      ensures mem.Valid()
      ensures Reading(r, StateOf(mem)) == PolygonAt(mem.bytes, old(StateOf(mem)))
    {
      ghost var s := StateOf(mem);
      var count := mem.Read(4);
      var n := if |count| < 4 then 0 else UnpackU32(count);
      ghost var start := StateOf(mem);
      PolygonRings(mem.bytes, s, RingsFrom(mem.bytes, start, n, []));
      var components: seq<Geometry> := [];
      var i := 0;
      while i < n
        invariant mem.Valid() && i <= n
        invariant RingsFrom(mem.bytes, start, n, []) == RingsFrom(mem.bytes, StateOf(mem), n - i, components)
        decreases n - i
      {
        ghost var before := StateOf(mem);
        var ring := GetLineString(mem);
        if ring.Err? {
          return Err(ring.error);
        }
        RingStep(mem.bytes, before, n - i, components, ring.value, StateOf(mem));
        components := components + [ring.value];
        i := i + 1;
      }
      r := NewCollection(PolygonKind, Somes(components));
    }

    /** getMulti(): the member count, then that many full records, then the collection of `k`. */
    method GetMulti(mem: Stream, k: Kind) returns (r: Result<Geometry>)
      requires mem.Valid() && k != PointKind
      modifies this, mem
      ensures mem.Valid()
      ensures Reading(r, StateOf(mem)) == MultiAt(mem.bytes, old(StateOf(mem)), k)
      decreases |mem.bytes| - mem.pos, 1
    {
      ghost var s := StateOf(mem);
      var count := mem.Read(4);
      var n := if |count| < 4 then 0 else UnpackU32(count);
      MultiMembers(mem.bytes, s, k, MembersFrom(mem.bytes, StateOf(mem), n, []));
      if n == 0 {
        return NewCollection(k, []);
      }
      var members := GetMembers(mem, n);
      r := if members.Ok? then NewCollection(k, members.value) else Err(members.error);
    }

    /** The loop of getMulti(): `n` records, stopping at the first that throws. */
    method GetMembers(mem: Stream, n: nat) returns (r: Result<seq<Option<Geometry>>>)
      requires mem.Valid()
      modifies this, mem
      ensures mem.Valid()
      ensures Reading(r, StateOf(mem)) == MembersFrom(mem.bytes, old(StateOf(mem)), n, [])
      decreases |mem.bytes| - mem.pos + 1, 0
    {
      ghost var start := StateOf(mem);
      ghost var at := start;
      var components: seq<Option<Geometry>> := [];
      var i := 0;
      while i < n
        invariant mem.Valid() && i <= n && start.pos <= mem.pos
        invariant at == StateOf(mem)
        invariant MembersFrom(mem.bytes, start, n, []) == MembersFrom(mem.bytes, at, n - i, components)
        decreases n - i
      {
        var member := GetGeometry(mem);
        if member.Err? {
          MemberFails(mem.bytes, at, n - i, components, member.error, StateOf(mem));
          return Err(member.error);
        }
        MemberStep(mem.bytes, at, n - i, components, member.value, StateOf(mem));
        at := StateOf(mem);
        components := components + [member.value];
        i := i + 1;
      }
      r := Ok(components);
    }

    // ------------------------------------------------------------- writing

    /** write($geometry, $writeAsHex): the order byte, the type code, the payload, hexadecimal if asked. */
    method Write(g: Geometry, asHex: bool, w: Writer) returns (r: Result<seq<Byte>>)
      requires Writable(g)
      ensures r == Wkb.Write(g, asHex, w)
      decreases g, 2
    {
      var wkb := [1] + PackU32(TypeCode(KindOf(g)));
      var payload: Result<seq<Byte>>;
      if g.Point? {
        payload := Ok(PointPayload(g));
      } else if g.LineString? {
        payload := WriteLineString(g);
      } else if g.Polygon? {
        payload := WritePolygon(g);
      } else {
        payload := WriteMulti(g, w);
      }
      if payload.Err? {
        return Err(payload.error);
      }
      wkb := wkb + payload.value;
      r := Ok(if asHex then HexEncode(wkb) else wkb);
    }

    /** writeLineString(): the point count, then x and y of each point. */
    method WriteLineString(line: Geometry) returns (r: Result<seq<Byte>>)
      requires line.LineString? && PointsOnly(line.components)
      ensures r == LineStringPayload(line)
    {
      var ps := line.components;
      var wkb := PackU32(|ps|);
      for i := 0 to |ps|
        invariant Prefixed(wkb, PointsPayload(ps[i..])) == LineStringPayload(line)
      {
        var c := ps[i].coords;
        if c.EmptyCoords? {
          return Err(TypeError);
        }
        assert ps[i..][1..] == ps[i + 1..];
        assert PointsPayload(ps[i..]) == Prefixed(PackDouble(c.x) + PackDouble(c.y), PointsPayload(ps[i + 1..]));
        PrefixedTwice(wkb, PackDouble(c.x) + PackDouble(c.y), PointsPayload(ps[i + 1..]));
        assert wkb + PackDouble(c.x) + PackDouble(c.y) == wkb + (PackDouble(c.x) + PackDouble(c.y));
        wkb := wkb + PackDouble(c.x) + PackDouble(c.y);
      }
      assert wkb + [] == wkb;
      return Ok(wkb);
    }

    /** writePolygon(): the ring count, then each ring as writeLineString() writes it. */
    method WritePolygon(poly: Geometry) returns (r: Result<seq<Byte>>)
      requires poly.Polygon? && RingsOnly(poly.components)
      ensures r == PolygonPayload(poly)
    {
      var rs := poly.components;
      var wkb := PackU32(|rs|);
      for i := 0 to |rs|
        invariant Prefixed(wkb, RingsPayload(rs[i..])) == PolygonPayload(poly)
      {
        var ring := WriteLineString(rs[i]);
        if ring.Err? {
          return Err(ring.error);
        }
        assert rs[i..][1..] == rs[i + 1..];
        assert RingsPayload(rs[i..]) == Prefixed(ring.value, RingsPayload(rs[i + 1..]));
        PrefixedTwice(wkb, ring.value, RingsPayload(rs[i + 1..]));
        wkb := wkb + ring.value;
      }
      assert wkb + [] == wkb;
      return Ok(wkb);
    }

    /**
     * writeMulti(): with the MultiGeometryElement parameter type only a
     * multi-line-string gets in; then the member count and a full record
     * per member.
     */
    method WriteMulti(g: Geometry, w: Writer) returns (r: Result<seq<Byte>>)
      requires Writable(g) && !g.Point? && !g.LineString? && !g.Polygon?
      ensures r == MultiPayload(g, w)
      decreases g, 1
    {
      if w == AsWritten && !IsMultiElement(g) {
        return Err(TypeError);
      }
      var gs := g.components;
      var wkb := PackU32(|gs|);
      for i := 0 to |gs|
        invariant Prefixed(wkb, Records(gs[i..], w)) == MultiPayload(g, w)
      {
        assert gs[i] in gs;
        var record := Write(gs[i], false, w);
        if record.Err? {
          return Err(record.error);
        }
        assert gs[i..][1..] == gs[i + 1..];
        assert Records(gs[i..], w) == Prefixed(record.value, Records(gs[i + 1..], w));
        PrefixedTwice(wkb, record.value, Records(gs[i + 1..], w));
        wkb := wkb + record.value;
      }
      assert wkb + [] == wkb;
      return Ok(wkb);
    }
  }
}
