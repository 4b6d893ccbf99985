/**
 * Write, then read, with the legacy WKB adapter: every geometry the
 * constructors build comes back as it was when its points are
 * two-dimensional, its numbers fit the 8-byte and 4-byte fields, it has no
 * SRID, and the reader has not yet seen a z or m flag.  The writer as it
 * stands rejects multi-points, multi-polygons and geometry collections.
 */
module WkbProofs {
  import opened Wrappers
  import opened Types
  import opened Bytes
  import opened Reduction
  import opened Wkb

  // ------------------------------------------------------------ the inputs

  /** A two-dimensional point without SRID whose coordinates fit eight bytes. */
  predicate PlainPoint(p: Geometry)
  {
    p.Point? && p.coords.XY? && p.srid == 0 && DoubleRange(p.coords.x) && DoubleRange(p.coords.y)
  }

  /** Plain points, no SRID, and component counts that fit four bytes, at every level. */
  predicate Encodable(g: Geometry)
  {
    match g
    case Point(_, _) => PlainPoint(g)
    case _ => g.srid == 0 && |g.components| < Two32 && forall c :: c in g.components ==> Encodable(c)
  }

  /** The classes writeMulti()'s MultiGeometryElement type hint lets through, and the single classes. */
  predicate HintSafe(g: Geometry)
  {
    !g.MultiPoint? && !g.MultiPolygon? && !g.GeometryCollection?
  }

  predicate PlainPoints(ps: seq<Geometry>)
  {
    forall i :: 0 <= i < |ps| ==> PlainPoint(ps[i])
  }

  /** A line string the reader can give back: at least two plain points, no SRID. */
  predicate PlainLine(line: Geometry)
  {
    line.LineString? && line.srid == 0 && 2 <= |line.components| < Two32 && PlainPoints(line.components)
  }

  predicate PlainLines(rs: seq<Geometry>)
  {
    forall i :: 0 <= i < |rs| ==> PlainLine(rs[i])
  }

  // ---------------------------------------------------- the bytes written

  /** The eight-byte values one after the other. */
  function PackDoubles(cs: seq<int>): (r: seq<Byte>)
    ensures |r| == 8 * |cs|
  {
    if cs == [] then [] else PackDouble(cs[0]) + PackDoubles(cs[1..])
  }

  /** x and y of each point in turn. */
  function Coordinates(ps: seq<Geometry>): (r: seq<int>)
    requires PlainPoints(ps)
    ensures |r| == 2 * |ps|
    ensures forall i :: 0 <= i < |ps| ==> r[2 * i] == ps[i].coords.x && r[2 * i + 1] == ps[i].coords.y
    ensures forall i :: 0 <= i < |r| ==> DoubleRange(r[i])
  {
    if ps == [] then []
    else
      var rest := Coordinates(ps[1..]);
      assert forall i :: 1 <= i < |ps| ==> ps[1..][i - 1] == ps[i];
      [ps[0].coords.x, ps[0].coords.y] + rest
  }

  function LineBytes(line: Geometry): (r: seq<Byte>)
    requires PlainLine(line)
  {
    PackU32(|line.components|) + PackDoubles(Coordinates(line.components))
  }

  function RingsBytes(rs: seq<Geometry>): (r: seq<Byte>)
    requires PlainLines(rs)
  {
    if rs == [] then [] else LineBytes(rs[0]) + RingsBytes(rs[1..])
  }

  /** The geometries this part of the model writes and reads back. */
  predicate Plain(g: Geometry)
  {
    Valid(g) && Encodable(g)
  }

  lemma PlainParts(g: Geometry)
    requires Plain(g)
    ensures g.LineString? ==> PlainLine(g)
    ensures g.Polygon? ==> PlainLines(g.components)
    ensures !g.Point? ==> forall c :: c in g.components ==> Plain(c)
  {
    if !g.Point? {
      forall i | 0 <= i < |g.components| ensures Plain(g.components[i]) && Accepts(KindOf(g), Some(g.components[i])) {
        assert g.components[i] in g.components;
      }
      if g.Polygon? {
        forall i | 0 <= i < |g.components| ensures PlainLine(g.components[i]) {
          var ring := g.components[i];
          assert Plain(ring) && ring.LineString?;
          forall j | 0 <= j < |ring.components| ensures PlainPoint(ring.components[j]) {
            assert ring.components[j] in ring.components;
            assert Accepts(LineStringKind, Some(ring.components[j]));
            assert Encodable(ring.components[j]);
          }
        }
      }
      if g.LineString? {
        forall j | 0 <= j < |g.components| ensures PlainPoint(g.components[j]) {
          assert g.components[j] in g.components;
        }
      }
    }
  }

  /** The record write() produces for a plain geometry: order byte, type code, payload. */
  function RecordBytes(g: Geometry): (r: seq<Byte>)
    requires Plain(g)
    ensures |r| >= 5
    decreases g, 2
  {
    [1] + PackU32(TypeCode(KindOf(g))) + PayloadBytes(g)
  }

  function PayloadBytes(g: Geometry): (r: seq<Byte>)
    requires Plain(g)
    decreases g, 1
  {
    PlainParts(g);
    match g
    case Point(c, _) => PackDouble(c.x) + PackDouble(c.y)
    case LineString(_, _) => LineBytes(g)
    case Polygon(rs, _) => PackU32(|rs|) + RingsBytes(rs)
    case _ => PackU32(|g.components|) + MembersBytes(g.components)
  }

  function MembersBytes(gs: seq<Geometry>): (r: seq<Byte>)
    requires forall c :: c in gs ==> Plain(c)
    decreases gs, 0
  {
    if gs == [] then [] else
      assert gs[0] in gs;
      RecordBytes(gs[0]) + MembersBytes(gs[1..])
  }

  // ------------------------------------------------- writing them, as written

  lemma {:induction false} PointsPayloadOf(ps: seq<Geometry>)
    requires PlainPoints(ps)
    ensures PointsOnly(ps) && PointsPayload(ps) == Ok(PackDoubles(Coordinates(ps)))
  {
    if ps != [] {
      var c := ps[0].coords;
      PointsPayloadOf(ps[1..]);
      var rest := Coordinates(ps[1..]);
      var cs := Coordinates(ps);
      assert cs == [c.x, c.y] + rest;
      assert cs[1..] == [c.y] + rest && ([c.y] + rest)[1..] == rest;
      assert PackDoubles(cs) == PackDouble(c.x) + (PackDouble(c.y) + PackDoubles(rest));
      assert PointsPayload(ps[1..]) == Ok(PackDoubles(rest));
      assert PointsPayload(ps) == Ok(PackDouble(c.x) + PackDouble(c.y) + PackDoubles(rest));
      assert PackDouble(c.x) + PackDouble(c.y) + PackDoubles(rest) == PackDouble(c.x) + (PackDouble(c.y) + PackDoubles(rest));
    }
  }

  lemma LinePayloadOf(line: Geometry)
    requires PlainLine(line)
    ensures PointsOnly(line.components) && LineStringPayload(line) == Ok(LineBytes(line))
  {
    PointsPayloadOf(line.components);
  }

  lemma {:induction false} RingsPayloadOf(rs: seq<Geometry>)
    requires PlainLines(rs)
    ensures RingsOnly(rs) && RingsPayload(rs) == Ok(RingsBytes(rs))
  {
    if rs != [] {
      LinePayloadOf(rs[0]);
      RingsPayloadOf(rs[1..]);
      forall i | 0 <= i < |rs| ensures rs[i].LineString? && PointsOnly(rs[i].components) {
        LinePayloadOf(rs[i]);
      }
    }
  }

  /** write() of a plain geometry produces its record; as written, only when writeMulti() takes it. */
  lemma {:induction false} RecordOf(g: Geometry, w: Writer)
    requires Plain(g) && (w == Corrected || HintSafe(g))
    ensures Writable(g) && Record(g, w) == Ok(RecordBytes(g))
    decreases g, 1
  {
    ValidWritable(g);
    PlainParts(g);
    match g
    case Point(_, _) =>
    case LineString(_, _) =>
      LinePayloadOf(g);
    case Polygon(rs, _) =>
      RingsPayloadOf(rs);
    case _ =>
      RecordsOf(g.components, w);
  }

  lemma {:induction false} RecordsOf(gs: seq<Geometry>, w: Writer)
    requires forall c :: c in gs ==> Plain(c)
    requires w == Corrected || forall c :: c in gs ==> c.LineString?
    ensures (forall c :: c in gs ==> Writable(c)) && Records(gs, w) == Ok(MembersBytes(gs))
    decreases gs, 0
  {
    forall c | c in gs ensures Writable(c) {
      ValidWritable(c);
    }
    if gs != [] {
      assert gs[0] in gs;
      RecordOf(gs[0], w);
      RecordsOf(gs[1..], w);
    }
  }

  // ------------------------------------------------------- reading them back

  /** `chunk` sits in `bs` at `pos`. */
  predicate At(bs: seq<Byte>, pos: nat, chunk: seq<Byte>)
  {
    pos + |chunk| <= |bs| && bs[pos..pos + |chunk|] == chunk
  }

  lemma AtSplit(bs: seq<Byte>, pos: nat, a: seq<Byte>, b: seq<Byte>)
    requires At(bs, pos, a + b)
    ensures At(bs, pos, a) && At(bs, pos + |a|, b)
  {
    assert bs[pos..pos + |a|] == (a + b)[..|a|];
    assert bs[pos + |a|..pos + |a| + |b|] == (a + b)[|a|..];
  }

  lemma TakeAt(bs: seq<Byte>, pos: nat, a: seq<Byte>)
    requires At(bs, pos, a)
    ensures Take(bs, pos, |a|) == a
  {
  }

  /** A count below 2^32 reads back as itself. */
  lemma CountBack(n: nat)
    requires n < Two32
    ensures UnpackU32(PackU32(n)) == n
  {
    UnpackPackU32(n);
  }

  /** A type code takes one byte; the other three are zero. */
  lemma SmallU32(c: nat)
    requires c < 256
    ensures PackU32(c) == [c, 0, 0, 0]
  {
    assert c % Two32 == c;
    assert LittleEndian(c, 4) == [c] + LittleEndian(0, 3);
    assert LittleEndian(0, 3) == [0] + LittleEndian(0, 2);
    assert LittleEndian(0, 2) == [0] + LittleEndian(0, 1);
    assert LittleEndian(0, 1) == [0] + LittleEndian(0, 0);
  }

  lemma {:induction false} DoublesOfPacked(cs: seq<int>)
    requires forall i :: 0 <= i < |cs| ==> DoubleRange(cs[i])
    ensures Doubles(PackDoubles(cs)) == cs
  {
    if cs != [] {
      var bs := PackDoubles(cs);
      assert bs[..8] == PackDouble(cs[0]);
      assert bs[8..] == PackDoubles(cs[1..]);
      UnpackPackDouble(cs[0]);
      DoublesOfPacked(cs[1..]);
    }
  }

  /** The loop of getLineString() pairs the values back into the points. */
  lemma {:induction false} PairsOf(ps: seq<Geometry>, i: nat)
    requires PlainPoints(ps) && i <= |ps|
    ensures PairsFrom(Coordinates(ps), 2 * i) == Ok(ps[i..])
    decreases |ps| - i
  {
    var cs := Coordinates(ps);
    if i < |ps| {
      var p := ps[i];
      assert cs[2 * i] == p.coords.x && cs[2 * i + 1] == p.coords.y && 2 * i + 1 < |cs|;
      assert p == Point(XY(p.coords.x, p.coords.y), 0);
      assert NewPoint(Some(cs[2 * i]), Some(cs[2 * i + 1]), None) == Ok(p);
      PairsOf(ps, i + 1);
      assert 2 * i + 2 == 2 * (i + 1);
      assert PairsFrom(cs, 2 * i + 2) == Ok(ps[i + 1..]);
      assert PairsFrom(cs, 2 * i) == Ok([p] + ps[i + 1..]);
      assert ps[i..] == [p] + ps[i + 1..];
    } else {
      assert ps[i..] == [];
    }
  }

  /** A constructed collection without SRID is what its constructor makes of its components. */
  lemma Rebuilt(g: Geometry)
    requires Valid(g) && !g.Point? && g.srid == 0
    ensures NewCollection(KindOf(g), Somes(g.components)) == Ok(g)
  {
    var r := NewCollection(KindOf(g), Somes(g.components));
    assert r.Ok?;
    assert r.value.components == g.components;
    match g
    case LineString(_, _) =>
    case Polygon(_, _) =>
    case MultiPoint(_, _) =>
    case MultiLineString(_, _) =>
    case MultiPolygon(_, _) =>
    case GeometryCollection(_, _) =>
  }

  lemma PointBack(bs: seq<Byte>, s: State, p: Geometry)
    requires PlainPoint(p) && s.dimension == 2 && s.pos <= |bs|
    requires At(bs, s.pos, PackDouble(p.coords.x) + PackDouble(p.coords.y))
    ensures PointAt(bs, s) == Reading(Ok(p), s.(pos := s.pos + 16))
  {
    var x, y := p.coords.x, p.coords.y;
    assert PackDoubles([x, y]) == PackDouble(x) + PackDouble(y) by {
      assert [x, y][1..] == [y];
      assert PackDoubles([y]) == PackDouble(y) + PackDoubles([]);
    }
    TakeAt(bs, s.pos, PackDouble(x) + PackDouble(y));
    DoublesOfPacked([x, y]);
  }

  /** getLineString() from the count, the bytes of the values, their pairs and the constructed line. */
  lemma LineStringFrom(bs: seq<Byte>, s: State, n: nat, chunk: seq<Byte>, points: seq<Geometry>, line: Geometry)
    requires s.pos + 4 <= |bs| && 0 < n
    requires Take(bs, s.pos, 4) == PackU32(n) && UnpackU32(PackU32(n)) == n
    requires Take(bs, s.pos + 4, n * s.dimension * 8) == chunk
    requires PairsFrom(Doubles(chunk), 0) == Ok(points)
    requires NewCollection(LineStringKind, Somes(points)) == Ok(line)
    ensures LineStringAt(bs, s) == Reading(Ok(line), s.(pos := s.pos + 4 + |chunk|))
  {
  }

  lemma PlainLineValid(line: Geometry)
    requires PlainLine(line)
    ensures Valid(line)
  {
    forall c | c in line.components ensures Valid(c) && c.Point? {
    }
  }

  lemma LineStringBack(bs: seq<Byte>, s: State, line: Geometry)
    requires PlainLine(line) && s.dimension == 2 && s.pos <= |bs|
    requires At(bs, s.pos, LineBytes(line))
    ensures LineStringAt(bs, s) == Reading(Ok(line), s.(pos := s.pos + |LineBytes(line)|))
  {
    var ps := line.components;
    var n := |ps|;
    var cs := Coordinates(ps);
    AtSplit(bs, s.pos, PackU32(n), PackDoubles(cs));
    TakeAt(bs, s.pos, PackU32(n));
    CountBack(n);
    assert n * s.dimension * 8 == |PackDoubles(cs)|;
    TakeAt(bs, s.pos + 4, PackDoubles(cs));
    DoublesOfPacked(cs);
    PairsOf(ps, 0);
    assert ps[0..] == ps;
    PlainLineValid(line);
    Rebuilt(line);
    LineStringFrom(bs, s, n, PackDoubles(cs), ps, line);
  }

  lemma Prepended<T>(acc: seq<T>, xs: seq<T>)
    requires xs != []
    ensures acc + [xs[0]] + xs[1..] == acc + xs
  {
    assert xs == [xs[0]] + xs[1..];
  }

  lemma {:induction false} RingsBack(bs: seq<Byte>, s: State, rs: seq<Geometry>, acc: seq<Geometry>)
    requires PlainLines(rs) && s.dimension == 2 && s.pos <= |bs|
    requires At(bs, s.pos, RingsBytes(rs))
    ensures RingsFrom(bs, s, |rs|, acc) == Reading(Ok(acc + rs), s.(pos := s.pos + |RingsBytes(rs)|))
    decreases rs
  {
    if rs != [] {
      AtSplit(bs, s.pos, LineBytes(rs[0]), RingsBytes(rs[1..]));
      LineStringBack(bs, s, rs[0]);
      var next := s.(pos := s.pos + |LineBytes(rs[0])|);
      RingStep(bs, s, |rs|, acc, rs[0], next);
      RingsBack(bs, next, rs[1..], acc + [rs[0]]);
      assert |rs[1..]| == |rs| - 1;
      Prepended(acc, rs);
      assert RingsBytes(rs) == LineBytes(rs[0]) + RingsBytes(rs[1..]);
    } else {
      assert acc + rs == acc;
    }
  }

  /** getPolygon() from the count, the rings read and the constructed polygon. */
  lemma PolygonFrom(bs: seq<Byte>, s: State, n: nat, rings: seq<Geometry>, after: State, g: Geometry)
    requires s.pos + 4 <= |bs| && Take(bs, s.pos, 4) == PackU32(n) && UnpackU32(PackU32(n)) == n
    requires RingsFrom(bs, s.(pos := s.pos + 4), n, []) == Reading(Ok(rings), after)
    requires NewCollection(PolygonKind, Somes(rings)) == Ok(g)
    ensures PolygonAt(bs, s) == Reading(Ok(g), after)
  {
  }

  lemma PolygonBack(bs: seq<Byte>, s: State, g: Geometry)
    requires g.Polygon? && Plain(g) && PlainLines(g.components) && s.dimension == 2 && s.pos <= |bs|
    requires At(bs, s.pos, PackU32(|g.components|) + RingsBytes(g.components))
    ensures PolygonAt(bs, s) == Reading(Ok(g), s.(pos := s.pos + 4 + |RingsBytes(g.components)|))
  {
    var rs := g.components;
    AtSplit(bs, s.pos, PackU32(|rs|), RingsBytes(rs));
    TakeAt(bs, s.pos, PackU32(|rs|));
    CountBack(|rs|);
    var s4 := s.(pos := s.pos + 4);
    var after := s.(pos := s.pos + 4 + |RingsBytes(rs)|);
    RingsBack(bs, s4, rs, []);
    assert [] + rs == rs;
    assert s4.(pos := s4.pos + |RingsBytes(rs)|) == after;
    assert RingsFrom(bs, s4, |rs|, []) == Reading(Ok(rs), after);
    Rebuilt(g);
    assert KindOf(g) == PolygonKind;
    assert NewCollection(PolygonKind, Somes(rs)) == Ok(g);
    assert Take(bs, s.pos, 4) == PackU32(|rs|);
    PolygonFrom(bs, s, |rs|, rs, after, g);
  }

  /** A header of order 1, the code of `k` and no flags. */
  lemma HeaderOf(bs: seq<Byte>, s: State, k: Kind)
    requires s.pos <= |bs| && Take(bs, s.pos, 5) == [1, TypeCode(k), 0, 0, 0]
    ensures HeaderAt(bs, s) == Reading(Ok(Some(k)), s.(pos := s.pos + 5))
  {
    CodeOfKind(k);
  }

  lemma {:induction false} RecordBack(bs: seq<Byte>, s: State, g: Geometry)
    requires Plain(g) && s.dimension == 2 && s.pos <= |bs|
    requires At(bs, s.pos, RecordBytes(g))
    ensures GeometryAt(bs, s) == Reading(Ok(Some(g)), s.(pos := s.pos + |RecordBytes(g)|))
    decreases g, 3
  {
    var k := KindOf(g);
    var header: seq<Byte> := [1, TypeCode(k), 0, 0, 0];
    RecordHeader(g);
    AtSplit(bs, s.pos, header, PayloadBytes(g));
    TakeAt(bs, s.pos, header);
    HeaderOf(bs, s, k);
    var s5 := s.(pos := s.pos + 5);
    BodyBack(bs, s5, g);
    GeometryFrom(bs, s, k, s5, g, s.(pos := s.pos + |RecordBytes(g)|));
  }

  /** A record starts with order 1, the type code and three zero bytes. */
  lemma RecordHeader(g: Geometry)
    requires Plain(g)
    ensures RecordBytes(g) == [1, TypeCode(KindOf(g)), 0, 0, 0] + PayloadBytes(g)
  {
    SmallU32(TypeCode(KindOf(g)));
  }

  /** getGeometry() from its header and its body. */
  lemma GeometryFrom(bs: seq<Byte>, s: State, k: Kind, s2: State, g: Geometry, after: State)
    requires s.pos <= |bs| && HeaderAt(bs, s) == Reading(Ok(Some(k)), s2)
    requires BodyAt(bs, s2, k) == Reading(Ok(g), after)
    ensures GeometryAt(bs, s) == Reading(Ok(Some(g)), after)
  {
  }

  /** The body after the header reads back as the geometry. */
  lemma {:induction false} BodyBack(bs: seq<Byte>, s: State, g: Geometry)
    requires Plain(g) && s.dimension == 2 && s.pos <= |bs|
    requires At(bs, s.pos, PayloadBytes(g))
    ensures BodyAt(bs, s, KindOf(g)) == Reading(Ok(g), s.(pos := s.pos + |PayloadBytes(g)|))
    decreases g, 2
  {
    PlainParts(g);
    if g.Point? {
      PointBack(bs, s, g);
    } else if g.LineString? {
      LineStringBack(bs, s, g);
    } else if g.Polygon? {
      assert PayloadBytes(g) == PackU32(|g.components|) + RingsBytes(g.components);
      PolygonBack(bs, s, g);
    } else {
      assert PayloadBytes(g) == PackU32(|g.components|) + MembersBytes(g.components);
      MultiBack(bs, s, g);
    }
  }

  lemma {:induction false} MultiBack(bs: seq<Byte>, s: State, g: Geometry)
    requires Plain(g) && !g.Point? && !g.LineString? && !g.Polygon?
    requires (forall c :: c in g.components ==> Plain(c)) && s.dimension == 2 && s.pos <= |bs|
    requires At(bs, s.pos, PackU32(|g.components|) + MembersBytes(g.components))
    ensures MultiAt(bs, s, KindOf(g)) == Reading(Ok(g), s.(pos := s.pos + 4 + |MembersBytes(g.components)|))
    decreases g, 1
  {
    var gs := g.components;
    CountAt(bs, s.pos, |gs|, MembersBytes(gs));
    Rebuilt(g);
    var s4 := s.(pos := s.pos + 4);
    var after := s.(pos := s.pos + 4 + |MembersBytes(gs)|);
    if gs != [] {
      MembersOfMulti(bs, s4, g);
      assert s4.(pos := s4.pos + |MembersBytes(gs)|) == after;
    }
    MultiFrom(bs, s, KindOf(g), |gs|, Somes(gs), after, g);
  }

  /** The member loop over a collection's records reads back its components. */
  lemma {:induction false} MembersOfMulti(bs: seq<Byte>, s: State, g: Geometry)
    requires !g.Point? && g.components != [] && (forall c :: c in g.components ==> Plain(c))
    requires s.dimension == 2 && s.pos <= |bs| && At(bs, s.pos, MembersBytes(g.components))
    ensures MembersFrom(bs, s, |g.components|, []) == Reading(Ok(Somes(g.components)), s.(pos := s.pos + |MembersBytes(g.components)|))
    decreases g, 0
  {
    MembersBack(bs, s, g.components, []);
    assert [] + Somes(g.components) == Somes(g.components);
  }

  /** getMulti() from the count, the members read and the constructed collection. */
  lemma MultiFrom(bs: seq<Byte>, s: State, k: Kind, n: nat, members: seq<Option<Geometry>>, after: State, g: Geometry)
    requires k != PointKind && s.pos + 4 <= |bs|
    requires Take(bs, s.pos, 4) == PackU32(n) && UnpackU32(PackU32(n)) == n
    requires n == 0 ==> NewCollection(k, []) == Ok(g) && after == s.(pos := s.pos + 4)
    requires n > 0 ==> MembersFrom(bs, s.(pos := s.pos + 4), n, []) == Reading(Ok(members), after)
    requires n > 0 ==> NewCollection(k, members) == Ok(g)
    ensures MultiAt(bs, s, k) == Reading(Ok(g), after)
  {
  }

  lemma SomesStep(acc: seq<Option<Geometry>>, head: Geometry, rest: seq<Geometry>)
    ensures acc + [Some(head)] + Somes(rest) == acc + Somes([head] + rest)
  {
    var gs := [head] + rest;
    assert gs[0] == head && gs[1..] == rest;
    assert Somes(gs) == [Some(head)] + Somes(rest);
  }

  /** A four-byte count `n` followed by `rest`: the count reads back, and `rest` follows it. */
  lemma CountAt(bs: seq<Byte>, pos: nat, n: nat, rest: seq<Byte>)
    requires n < Two32 && At(bs, pos, PackU32(n) + rest)
    ensures pos + 4 <= |bs| && Take(bs, pos, 4) == PackU32(n) && UnpackU32(PackU32(n)) == n
    ensures At(bs, pos + 4, rest)
  {
    AtSplit(bs, pos, PackU32(n), rest);
    TakeAt(bs, pos, PackU32(n));
    CountBack(n);
  }

  /** The member loop of getMulti() from its first record and the rest of the loop. */
  lemma MembersJoin(bs: seq<Byte>, s: State, head: Geometry, rest: seq<Geometry>, acc: seq<Option<Geometry>>, next: State, after: State)
    requires s.pos <= |bs| && next.pos <= |bs|
    requires GeometryAt(bs, s) == Reading(Ok(Some(head)), next)
    requires MembersFrom(bs, next, |rest|, acc + [Some(head)]) == Reading(Ok(acc + [Some(head)] + Somes(rest)), after)
    ensures MembersFrom(bs, s, 1 + |rest|, acc) == Reading(Ok(acc + Somes([head] + rest)), after)
  {
    MemberStep(bs, s, 1 + |rest|, acc, Some(head), next);
    assert MembersFrom(bs, s, 1 + |rest|, acc) == MembersFrom(bs, next, |rest|, acc + [Some(head)]);
    SomesStep(acc, head, rest);
  }

  lemma {:induction false} MembersBack(bs: seq<Byte>, s: State, gs: seq<Geometry>, acc: seq<Option<Geometry>>)
    requires (forall c :: c in gs ==> Plain(c)) && s.dimension == 2 && s.pos <= |bs|
    requires At(bs, s.pos, MembersBytes(gs))
    ensures MembersFrom(bs, s, |gs|, acc) == Reading(Ok(acc + Somes(gs)), s.(pos := s.pos + |MembersBytes(gs)|))
    decreases gs, 3
  {
    if gs != [] {
      MembersBytesCons(gs);
      MembersCons(bs, s, gs[0], gs[1..], acc);
    } else {
      assert acc + Somes(gs) == acc;
    }
  }

  /** The members' bytes are the first record followed by the rest. */
  lemma MembersBytesCons(gs: seq<Geometry>)
    requires gs != [] && forall c :: c in gs ==> Plain(c)
    ensures Plain(gs[0]) && (forall c :: c in gs[1..] ==> Plain(c))
    ensures MembersBytes(gs) == RecordBytes(gs[0]) + MembersBytes(gs[1..])
    ensures [gs[0]] + gs[1..] == gs
  {
    assert gs[0] in gs;
    assert forall c :: c in gs[1..] ==> c in gs;
  }

  /** The member loop over a first record and the records after it. */
  lemma {:induction false} MembersCons(bs: seq<Byte>, s: State, head: Geometry, rest: seq<Geometry>, acc: seq<Option<Geometry>>)
    requires Plain(head) && (forall c :: c in rest ==> Plain(c)) && s.dimension == 2 && s.pos <= |bs|
    requires At(bs, s.pos, RecordBytes(head) + MembersBytes(rest))
    ensures MembersFrom(bs, s, 1 + |rest|, acc)
      == Reading(Ok(acc + Somes([head] + rest)), s.(pos := s.pos + |RecordBytes(head)| + |MembersBytes(rest)|))
    decreases [head] + rest, 2
  {
    var gs := [head] + rest;
    assert gs[0] == head && gs[1..] == rest;
    assert head in gs;
    var hb, rb := RecordBytes(head), MembersBytes(rest);
    AtSplit(bs, s.pos, hb, rb);
    RecordBack(bs, s, head);
    var next := s.(pos := s.pos + |hb|);
    assert next.pos == s.pos + |hb| && next.dimension == 2 && At(bs, next.pos, rb);
    MembersBack(bs, next, rest, acc + [Some(head)]);
    var after := s.(pos := s.pos + |hb| + |rb|);
    assert next.(pos := next.pos + |rb|) == after;
    MembersJoin(bs, s, head, rest, acc, next, after);
  }

  /**
   * Write, then read on an adapter that has seen no z or m flag: the
   * geometry comes back, from the bytes or from their hexadecimal text,
   * and the adapter's fields are as they were.
   */
  lemma RoundTrip(g: Geometry, asHex: bool, w: Writer, s: State)
    requires Plain(g) && (w == Corrected || HintSafe(g)) && s.dimension == 2
    ensures Writable(g) && Write(g, asHex, w).Ok?
    ensures Read(Write(g, asHex, w).value, asHex, s) == Reading(Ok(Some(g)), s.(pos := |RecordBytes(g)|))
  {
    RecordOf(g, w);
    var bytes := RecordBytes(g);
    if asHex {
      HexDecodeEncode(bytes);
    }
    assert !EmptyText(bytes);
    assert At(bytes, 0, bytes);
    RecordBack(bytes, s.(pos := 0), g);
  }

  // ------------------------------------------------- writeMulti()'s type hint

  /**
   * writeMulti() takes a MultiGeometryElement, and of the collections only
   * MultiLineString is one: writing a multi-point, a multi-polygon or a
   * geometry collection throws.
   */
  lemma WriterRejects(g: Geometry)
    requires Writable(g) && !HintSafe(g)
    ensures Record(g, AsWritten) == Err(TypeError)
    ensures Write(g, false, AsWritten) == Err(TypeError) && Write(g, true, AsWritten) == Err(TypeError)
  {
    assert MultiPayload(g, AsWritten) == Err(TypeError);
  }

  /** Everything else is written the same by both writers. */
  lemma WriterAgrees(g: Geometry)
    requires Valid(g) && HintSafe(g)
    ensures Writable(g) && Record(g, AsWritten) == Record(g, Corrected)
  {
    ValidWritable(g);
    if g.MultiLineString? {
      forall c | c in g.components ensures c.LineString? && Writable(c) {
        assert Accepts(MultiLineStringKind, Some(c));
      }
      LinesAgree(g.components);
    }
  }

  lemma {:induction false} LinesAgree(gs: seq<Geometry>)
    requires forall c :: c in gs ==> c.LineString? && Writable(c)
    ensures Records(gs, AsWritten) == Records(gs, Corrected)
  {
    if gs != [] {
      assert gs[0] in gs;
      assert Record(gs[0], AsWritten) == Record(gs[0], Corrected);
      assert forall c :: c in gs[1..] ==> c in gs;
      LinesAgree(gs[1..]);
    }
  }

  /** A multi-point of one point: the writer as it stands throws, the corrected one gives it back. */
  lemma MultiPointLost()
    ensures var g := MultiPoint([Point(XY(0, 0), 0)], 0);
      Writable(g) && Write(g, false, AsWritten) == Err(TypeError)
      && Write(g, false, Corrected).Ok?
      && Read(Write(g, false, Corrected).value, false, Fresh).outcome == Ok(Some(g))
  {
    var g := MultiPoint([Point(XY(0, 0), 0)], 0);
    assert Plain(g) by {
      assert Valid(g) by {
        assert forall c :: c in g.components ==> c == Point(XY(0, 0), 0);
      }
      assert Encodable(g) by {
        assert forall c :: c in g.components ==> c == Point(XY(0, 0), 0);
        assert DoubleRange(0);
      }
    }
    WriterRejects(g);
    RoundTrip(g, false, Corrected, Fresh);
  }
}
