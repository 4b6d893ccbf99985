/**
 * The legacy WKB adapter (_WKB) as functions: the bytes write() produces
 * and what read() makes of a byte string, together with the reader state
 * it leaves behind.  The adapter's methods, which build the same bytes in
 * loops and read through a memory stream, are in module WkbAdapter and are
 * proved equal to these functions.
 *
 * Bytes are numbers 0..255.  The header bytes are unpacked with the signed
 * 'c' format; a byte compares equal to a small positive code, or tests as
 * non-zero, exactly when its unsigned value does, so the sign is not
 * modelled.  Doubles are the 8-byte stand-in of module Bytes.
 */
module Wkb {
  import opened Wrappers
  import opened Types
  import opened Bytes
  import opened Reduction

  /**
   * The writer the adapter has, whose writeMulti() only takes a
   * MultiGeometryElement (a MultiLineString), and one that takes every
   * collection class.
   */
  datatype Writer = AsWritten | Corrected

  /** The WKB type code of each class. */
  function TypeCode(k: Kind): (c: nat)
    ensures 1 <= c <= 7
  {
    match k
    case PointKind => 1
    case LineStringKind => 2
    case PolygonKind => 3
    case MultiPointKind => 4
    case MultiLineStringKind => 5
    case MultiPolygonKind => 6
    case GeometryCollectionKind => 7
  }

  /** The class a type code stands for; other codes stand for none. */
  function KindOfCode(c: int): (k: Option<Kind>)
    ensures k.Some? <==> 1 <= c <= 7
    ensures k.Some? ==> TypeCode(k.value) == c
  {
    if c == 1 then Some(PointKind)
    else if c == 2 then Some(LineStringKind)
    else if c == 3 then Some(PolygonKind)
    else if c == 4 then Some(MultiPointKind)
    else if c == 5 then Some(MultiLineStringKind)
    else if c == 6 then Some(MultiPolygonKind)
    else if c == 7 then Some(GeometryCollectionKind)
    else None
  }

  lemma CodeOfKind(k: Kind)
    ensures KindOfCode(TypeCode(k)) == Some(k)
  {
  }

  // ------------------------------------------------------------- the writer

  /** The components of a valid line string are points, and the rings of a valid polygon line strings. */
  predicate PointsOnly(ps: seq<Geometry>)
  {
    forall i :: 0 <= i < |ps| ==> ps[i].Point?
  }

  predicate RingsOnly(rs: seq<Geometry>)
  {
    forall i :: 0 <= i < |rs| ==> rs[i].LineString? && PointsOnly(rs[i].components)
  }

  /** writePoint(): x and y of a point, nothing for the empty point. */
  function PointPayload(p: Geometry): (r: seq<Byte>)
    requires p.Point?
    ensures |r| == (if p.coords.EmptyCoords? then 0 else 16)
  {
    if p.coords.EmptyCoords? then [] else PackDouble(p.coords.x) + PackDouble(p.coords.y)
  }

  /** pack('dd', getX(), getY()) for each point in turn; getX() of an empty point is a TypeError (a null through a float return type). */
  function PointsPayload(ps: seq<Geometry>): (r: Result<seq<Byte>>)
    requires PointsOnly(ps)
    ensures r.Ok? ==> |r.value| == 16 * |ps|
  {
    if ps == [] then Ok([])
    else
      var c := ps[0].coords;
      if c.EmptyCoords? then Err(TypeError)
      else
        var rest :- PointsPayload(ps[1..]);
        Ok(PackDouble(c.x) + PackDouble(c.y) + rest)
  }

  /** writeLineString(): the point count, then the points. */
  function LineStringPayload(line: Geometry): (r: Result<seq<Byte>>)
    requires line.LineString? && PointsOnly(line.components)
  {
    var points :- PointsPayload(line.components);
    Ok(PackU32(|line.components|) + points)
  }

  function RingsPayload(rs: seq<Geometry>): (r: Result<seq<Byte>>)
    requires RingsOnly(rs)
  {
    if rs == [] then Ok([])
    else
      var ring :- LineStringPayload(rs[0]);
      var rest :- RingsPayload(rs[1..]);
      Ok(ring + rest)
  }

  /** writePolygon(): the ring count, then each ring as a line string. */
  function PolygonPayload(poly: Geometry): (r: Result<seq<Byte>>)
    requires poly.Polygon? && RingsOnly(poly.components)
  {
    var rings :- RingsPayload(poly.components);
    Ok(PackU32(|poly.components|) + rings)
  }

  /** What write() needs of a geometry: points in line strings, line strings in polygons, at every level. */
  predicate Writable(g: Geometry)
  {
    match g
    case Point(_, _) => true
    case LineString(ps, _) => PointsOnly(ps)
    case Polygon(rs, _) => RingsOnly(rs)
    case _ => forall c :: c in g.components ==> Writable(c)
  }

  /** Every geometry the constructors build is writable. */
  lemma {:induction false} ValidWritable(g: Geometry)
    requires Valid(g)
    ensures Writable(g)
  {
    match g
    case Point(_, _) =>
    case LineString(ps, _) =>
      forall i | 0 <= i < |ps| ensures ps[i].Point? {
        assert Accepts(LineStringKind, Some(ps[i]));
      }
    case Polygon(rs, _) =>
      forall i | 0 <= i < |rs| ensures rs[i].LineString? && PointsOnly(rs[i].components) {
        assert Accepts(PolygonKind, Some(rs[i]));
        assert rs[i] in rs;
        ValidWritable(rs[i]);
      }
    case _ =>
      forall c | c in g.components ensures Writable(c) {
        ValidWritable(c);
      }
  }

  /** write() without the hexadecimal option: order byte 1, the type code, the payload. */
  function Record(g: Geometry, w: Writer): (r: Result<seq<Byte>>)
    requires Writable(g)
    ensures r.Ok? ==> |r.value| >= 5 && r.value[..5] == [1] + PackU32(TypeCode(KindOf(g)))
    decreases g, 1
  {
    var payload :-
      match g
      case Point(_, _) => Ok(PointPayload(g))
      case LineString(_, _) => LineStringPayload(g)
      case Polygon(_, _) => PolygonPayload(g)
      case _ => MultiPayload(g, w);
    Ok([1] + PackU32(TypeCode(KindOf(g))) + payload)
  }

  /** writeMulti(): the component count, then a full record per component. */
  function MultiPayload(g: Geometry, w: Writer): (r: Result<seq<Byte>>)
    requires Writable(g) && !g.Point? && !g.LineString? && !g.Polygon?
    decreases g, 0
  {
    if w == AsWritten && !IsMultiElement(g) then Err(TypeError)
    else
      var records :- Records(g.components, w);
      Ok(PackU32(|g.components|) + records)
  }

  function Records(gs: seq<Geometry>, w: Writer): (r: Result<seq<Byte>>)
    requires forall c :: c in gs ==> Writable(c)
    decreases gs
  {
    if gs == [] then Ok([])
    else
      assert gs[0] in gs;
      var first :- Record(gs[0], w);
      var rest :- Records(gs[1..], w);
      Ok(first + rest)
  }

  /** write($geometry, $writeAsHex). */
  function Write(g: Geometry, asHex: bool, w: Writer): (r: Result<seq<Byte>>)
    requires Writable(g)
  {
    var bytes :- Record(g, w);
    Ok(if asHex then HexEncode(bytes) else bytes)
  }

  // ------------------------------------------------------------- the reader

  /** The memory stream's position and the adapter's dimension, z and m fields. */
  datatype State = State(pos: nat, dimension: nat, z: bool, m: bool)

  /** What a read step yields, and the state it leaves, also when it throws. */
  datatype Reading<T> = Reading(outcome: Result<T>, after: State)

  function Min(a: nat, b: nat): nat
  {
    if a < b then a else b
  }

  /** fread($mem, n): up to `n` bytes from the position on. */
  function Take(bs: seq<Byte>, pos: nat, n: nat): (r: seq<Byte>)
    requires pos <= |bs|
    ensures |r| <= n && pos + |r| <= |bs| && (|r| < n ==> pos + |r| == |bs|)
  {
    bs[pos..Min(pos + n, |bs|)]
  }

  /** unpack('d*', $bytes): one value per whole eight bytes. */
  function Doubles(bs: seq<Byte>): (r: seq<int>)
    ensures |r| == |bs| / 8
  {
    if |bs| < 8 then [] else [UnpackDouble(bs[..8])] + Doubles(bs[8..])
  }

  /**
   * The loop of getLineString(): a point from each pair of values, from
   * index `i` on; an odd value out makes a point with a null y, which the
   * constructor rejects.
   */
  function PairsFrom(cs: seq<int>, i: nat): (r: Result<seq<Geometry>>)
    ensures r.Ok? ==> (|cs| - i) % 2 == 0 || i >= |cs|
    decreases |cs| - i
  {
    if i >= |cs| then Ok([])
    else
      var p :- NewPoint(Some(cs[i]), if i + 1 < |cs| then Some(cs[i + 1]) else None, None);
      var rest :- PairsFrom(cs, i + 2);
      Ok([p] + rest)
  }

  /** getPoint(): dimension·8 bytes; a point from the first two values, the empty point from none. */
  function PointAt(bs: seq<Byte>, s: State): (r: Reading<Geometry>)
    requires s.pos <= |bs|
    ensures s.pos <= r.after.pos <= |bs|
  {
    var chunk := Take(bs, s.pos, s.dimension * 8);
    var cs := Doubles(chunk);
    var after := s.(pos := s.pos + |chunk|);
    if cs != [] then Reading(NewPoint(Some(cs[0]), if |cs| > 1 then Some(cs[1]) else None, None), after)
    else Reading(Ok(Point(EmptyCoords, 0)), after)
  }

  /**
   * getLineString(): a 4-byte count (a missing or zero count means
   * `new LineString`, which has too few points), then count·dimension·8
   * bytes of values read in pairs.
   */
  function LineStringAt(bs: seq<Byte>, s: State): (r: Reading<Geometry>)
    requires s.pos <= |bs|
    ensures s.pos <= r.after.pos <= |bs|
    ensures r.outcome.Ok? ==> r.after.pos >= s.pos + 4
  {
    var count := Take(bs, s.pos, 4);
    var s1 := s.(pos := s.pos + |count|);
    if |count| < 4 || UnpackU32(count) == 0 then Reading(Err(TooFewComponents(LineStringKind)), s1)
    else
      var chunk := Take(bs, s1.pos, UnpackU32(count) * s.dimension * 8);
      var s2 := s1.(pos := s1.pos + |chunk|);
      match PairsFrom(Doubles(chunk), 0)
      case Err(e) => Reading(Err(e), s2)
      case Ok(points) => Reading(NewCollection(LineStringKind, Somes(points)), s2)
  }

  /** The loop of getPolygon(): `n` more line strings, stopping at the first that throws. */
  function RingsFrom(bs: seq<Byte>, s: State, n: nat, acc: seq<Geometry>): (r: Reading<seq<Geometry>>)
    requires s.pos <= |bs|
    ensures s.pos <= r.after.pos <= |bs|
    decreases |bs| - s.pos
  {
    if n == 0 then Reading(Ok(acc), s)
    else
      var ring := LineStringAt(bs, s);
      if ring.outcome.Err? then Reading(Err(ring.outcome.error), ring.after)
      else RingsFrom(bs, ring.after, n - 1, acc + [ring.outcome.value])
  }

  /** getPolygon(): a ring count (a missing count reads no ring), then the rings. */
  function PolygonAt(bs: seq<Byte>, s: State): (r: Reading<Geometry>)
    requires s.pos <= |bs|
    ensures s.pos <= r.after.pos <= |bs|
  {
    var count := Take(bs, s.pos, 4);
    var s1 := s.(pos := s.pos + |count|);
    var n := if |count| < 4 then 0 else UnpackU32(count);
    var rings := RingsFrom(bs, s1, n, []);
    if rings.outcome.Err? then Reading(Err(rings.outcome.error), rings.after)
    else Reading(NewCollection(PolygonKind, Somes(rings.outcome.value)), rings.after)
  }

  /**
   * The header getGeometry() reads: five bytes (order, type, z, m, s);
   * anything but order 1 throws; a z or an m flag adds one to the
   * dimension for good; an s flag skips four bytes; an unknown type is no
   * kind.
   */
  function HeaderAt(bs: seq<Byte>, s: State): (r: Reading<Option<Kind>>)
    requires s.pos <= |bs|
    ensures s.pos <= r.after.pos <= |bs|
    ensures r.outcome.Ok? ==> r.after.pos >= s.pos + 5
    ensures r.outcome.Err? <==> |Take(bs, s.pos, 5)| < 5 || bs[s.pos] != 1
  {
    var h := Take(bs, s.pos, 5);
    if |h| < 5 || h[0] != 1 then Reading(Err(ReadFailure), s.(pos := s.pos + |h|))
    else
      var s1 := s.(pos := s.pos + 5,
                   dimension := s.dimension + (if h[2] != 0 then 1 else 0) + (if h[3] != 0 then 1 else 0),
                   z := s.z || h[2] != 0,
                   m := s.m || h[3] != 0);
      var s2 := if h[4] != 0 then s1.(pos := s1.pos + |Take(bs, s1.pos, 4)|) else s1;
      Reading(Ok(KindOfCode(h[1])), s2)
  }

  /** getGeometry(): the header, then the body of its kind; an unknown kind yields nothing. */
  function GeometryAt(bs: seq<Byte>, s: State): (r: Reading<Option<Geometry>>)
    requires s.pos <= |bs|
    ensures s.pos <= r.after.pos <= |bs|
    ensures r.outcome.Ok? ==> r.after.pos >= s.pos + 5
    decreases |bs| - s.pos, 3
  {
    var h := HeaderAt(bs, s);
    if h.outcome.Err? then Reading(Err(h.outcome.error), h.after)
    else if h.outcome.value.None? then Reading(Ok(None), h.after)
    else Found(BodyAt(bs, h.after, h.outcome.value.value))
  }

  /** A read geometry as getGeometry() returns it. */
  function Found(r: Reading<Geometry>): Reading<Option<Geometry>>
  {
    Reading(if r.outcome.Ok? then Ok(Some(r.outcome.value)) else Err(r.outcome.error), r.after)
  }

  /** The switch of getGeometry(): the reader of the type's class. */
  function BodyAt(bs: seq<Byte>, s: State, k: Kind): (r: Reading<Geometry>)
    requires s.pos <= |bs|
    ensures s.pos <= r.after.pos <= |bs|
    decreases |bs| - s.pos, 2
  {
    if k == PointKind then PointAt(bs, s)
    else if k == LineStringKind then LineStringAt(bs, s)
    else if k == PolygonKind then PolygonAt(bs, s)
    else MultiAt(bs, s, k)
  }

  /** getMulti(): a member count (a missing count reads none), then a full record per member. */
  function MultiAt(bs: seq<Byte>, s: State, k: Kind): (r: Reading<Geometry>)
    requires s.pos <= |bs|
    requires k != PointKind
    ensures s.pos <= r.after.pos <= |bs|
    decreases |bs| - s.pos, 1
  {
    var count := Take(bs, s.pos, 4);
    var s1 := s.(pos := s.pos + |count|);
    var n := if |count| < 4 then 0 else UnpackU32(count);
    if n == 0 then Reading(NewCollection(k, []), s1)
    else
      var members := MembersFrom(bs, s1, n, []);
      if members.outcome.Err? then Reading(Err(members.outcome.error), members.after)
      else Reading(NewCollection(k, members.outcome.value), members.after)
  }

  /** The loop of getMulti(): `n` more records, stopping at the first that throws. */
  function MembersFrom(bs: seq<Byte>, s: State, n: nat, acc: seq<Option<Geometry>>): (r: Reading<seq<Option<Geometry>>>)
    requires s.pos <= |bs|
    ensures s.pos <= r.after.pos <= |bs|
    decreases |bs| - s.pos, 4
  {
    if n == 0 then Reading(Ok(acc), s)
    else
      var member := GeometryAt(bs, s);
      if member.outcome.Err? then Reading(Err(member.outcome.error), member.after)
      else MembersFrom(bs, member.after, n - 1, acc + [member.outcome.value])
  }

  // ------------------------------------------ the reader, step by step

  /** One round of the ring loop of getPolygon(). */
  lemma RingStep(bs: seq<Byte>, s: State, n: nat, acc: seq<Geometry>, ring: Geometry, next: State)
    requires s.pos <= |bs| && 0 < n && LineStringAt(bs, s) == Reading(Ok(ring), next)
    ensures RingsFrom(bs, s, n, acc) == RingsFrom(bs, next, n - 1, acc + [ring])
  {
  }

  /** One round of the member loop of getMulti(). */
  lemma MemberStep(bs: seq<Byte>, s: State, n: nat, acc: seq<Option<Geometry>>, member: Option<Geometry>, next: State)
    requires s.pos <= |bs| && 0 < n && GeometryAt(bs, s) == Reading(Ok(member), next)
    ensures MembersFrom(bs, s, n, acc) == MembersFrom(bs, next, n - 1, acc + [member])
  {
  }

  /** The member loop of getMulti() stops at a record that throws. */
  lemma MemberFails(bs: seq<Byte>, s: State, n: nat, acc: seq<Option<Geometry>>, e: Error, next: State)
    requires s.pos <= |bs| && 0 < n && GeometryAt(bs, s) == Reading(Err(e), next)
    ensures MembersFrom(bs, s, n, acc) == Reading(Err(e), next)
  {
  }

  /** getLineString() when the count is missing or zero. */
  lemma LineStringEmpty(bs: seq<Byte>, s: State)
    requires s.pos <= |bs|
    requires var count := Take(bs, s.pos, 4); |count| < 4 || UnpackU32(count) == 0
    ensures LineStringAt(bs, s) == Reading(Err(TooFewComponents(LineStringKind)), s.(pos := s.pos + |Take(bs, s.pos, 4)|))
  {
  }

  /** getLineString() from the pairs of its values. */
  lemma LineStringPairs(bs: seq<Byte>, s: State, chunk: seq<Byte>, pairs: Result<seq<Geometry>>)
    requires s.pos + 4 <= |bs| && UnpackU32(Take(bs, s.pos, 4)) != 0
    requires chunk == Take(bs, s.pos + 4, UnpackU32(Take(bs, s.pos, 4)) * s.dimension * 8)
    requires pairs == PairsFrom(Doubles(chunk), 0)
    ensures LineStringAt(bs, s).after == s.(pos := s.pos + 4 + |chunk|)
    ensures pairs.Err? ==> LineStringAt(bs, s).outcome == Err(pairs.error)
    ensures pairs.Ok? ==> LineStringAt(bs, s).outcome == NewCollection(LineStringKind, Somes(pairs.value))
  {
  }

  /** The ring count getPolygon() reads. */
  function RingCount(bs: seq<Byte>, s: State): nat
    requires s.pos <= |bs|
  {
    var count := Take(bs, s.pos, 4);
    if |count| < 4 then 0 else UnpackU32(count)
  }

  /** getPolygon() from the outcome of its ring loop. */
  lemma PolygonRings(bs: seq<Byte>, s: State, rings: Reading<seq<Geometry>>)
    requires s.pos <= |bs|
    requires rings == RingsFrom(bs, s.(pos := s.pos + |Take(bs, s.pos, 4)|), RingCount(bs, s), [])
    ensures PolygonAt(bs, s).after == rings.after
    ensures rings.outcome.Err? ==> PolygonAt(bs, s).outcome == Err(rings.outcome.error)
    ensures rings.outcome.Ok? ==> PolygonAt(bs, s).outcome == NewCollection(PolygonKind, Somes(rings.outcome.value))
  {
  }

  /** getMulti() from the outcome of its member loop. */
  lemma MultiMembers(bs: seq<Byte>, s: State, k: Kind, members: Reading<seq<Option<Geometry>>>)
    requires s.pos <= |bs| && k != PointKind
    requires members == MembersFrom(bs, s.(pos := s.pos + |Take(bs, s.pos, 4)|), RingCount(bs, s), [])
    ensures MultiAt(bs, s, k).after == members.after
    ensures members.outcome.Err? ==> MultiAt(bs, s, k).outcome == Err(members.outcome.error)
    ensures members.outcome.Ok? ==> MultiAt(bs, s, k).outcome == NewCollection(k, members.outcome.value)
  {
  }

  /** getGeometry() from its header and the body read after it. */
  lemma GeometryBody(bs: seq<Byte>, s: State, k: Kind, body: Reading<Geometry>)
    requires s.pos <= |bs| && HeaderAt(bs, s).outcome == Ok(Some(k))
    requires body == BodyAt(bs, HeaderAt(bs, s).after, k)
    ensures GeometryAt(bs, s) == Found(body)
  {
  }

  /** PHP's empty() of a string: "" and "0". */
  predicate EmptyText(bs: seq<Byte>)
  {
    bs == [] || bs == [48]
  }

  /**
   * read($wkb, $isHexString) on an adapter whose fields are `s`: the hex
   * text is packed first, empty input throws, and the rest is one record
   * read from position 0.
   */
  function Read(wkb: seq<Byte>, isHex: bool, s: State): (r: Reading<Option<Geometry>>)
  {
    var data := if isHex then HexDecode(wkb) else wkb;
    if EmptyText(data) then Reading(Err(ReadFailure), s)
    else GeometryAt(data, s.(pos := 0))
  }

  /** The fields of a newly made adapter. */
  const Fresh: State := State(0, 2, false, false)
}
