/**
 * The legacy _EWKB adapter's behaviour as functions: read() peeks at the
 * header for an SRID, reads the record with a fresh _WKB reader and
 * attaches the SRID; write() is _WKB's write(), so no SRID is written.
 * The corrected writer puts PostGIS's SRID flag and the SRID in front of
 * the payload, and what it writes reads back with its SRID.
 */
module Ewkb {
  import opened Wrappers
  import opened Types
  import opened Bytes
  import opened Wkb
  import opened WkbProofs

  /** The SRID read() finds: header byte 4 (s) set means the next four bytes are one; 0 stands for none. */
  function SridOf(data: seq<Byte>): (r: Result<nat>)
  {
    var h := Take(data, 0, 5);
    if |h| < 5 || h[4] == 0 then Ok(0)
    else
      var id := Take(data, 5, 4);
      if |id| < 4 then Err(TypeError) else Ok(UnpackU32(id))
  }

  /**
   * read($wkb, $isHexString): the hex text is packed first; a short SRID
   * field is a TypeError; the record is read by a new _WKB reader from the
   * start; a non-zero SRID is set on the geometry, which throws when there
   * is none.
   */
  function Read(wkb: seq<Byte>, isHex: bool): Result<Option<Geometry>>
  {
    var data := if isHex then HexDecode(wkb) else wkb;
    var srid :- SridOf(data);
    var geom :- Wkb.Read(data, false, Fresh).outcome;
    if srid == 0 then Ok(geom)
    else if geom.None? then Err(CallOnNull)
    else Ok(Some(SetSrid(geom.value, srid)))
  }

  /** The bit of the type code that PostGIS's extended format uses to say an SRID follows. */
  const SridFlag: nat := 0x2000_0000

  /**
   * write() as extended WKB defines it: for a geometry with an SRID, the
   * type code carries the SRID flag and the SRID follows it; otherwise the
   * record _WKB writes.
   */
  function WriteWithSrid(g: Geometry, asHex: bool, w: Writer): (r: Result<seq<Byte>>)
    requires Writable(g)
  {
    var bytes :- Record(g, w);
    var ewkb := if Srid(g) == 0 then bytes
      else [1] + PackU32(TypeCode(KindOf(g)) + SridFlag) + PackU32(Srid(g)) + bytes[5..];
    Ok(if asHex then HexEncode(ewkb) else ewkb)
  }

  // ------------------------------------------------------------- properties

  /** Without the s flag read() is _WKB's read(). */
  lemma ReadWithoutSrid(wkb: seq<Byte>, isHex: bool)
    requires var data := if isHex then HexDecode(wkb) else wkb;
      |data| < 5 || data[4] == 0
    ensures Read(wkb, isHex) == Wkb.Read(wkb, isHex, Fresh).outcome
  {
  }

  /** With the s flag and fewer than four bytes after the header, read() throws before it reads the record. */
  lemma ShortSrid(wkb: seq<Byte>, isHex: bool)
    requires var data := if isHex then HexDecode(wkb) else wkb;
      5 <= |data| < 9 && data[4] != 0
    ensures Read(wkb, isHex) == Err(TypeError)
  {
  }

  /** _WKB's writer does not look at the SRID. */
  lemma RecordIgnoresSrid(g: Geometry, srid: int, w: Writer)
    ensures Writable(SetSrid(g, srid)) == Writable(g)
    ensures Writable(g) ==> Record(SetSrid(g, srid), w) == Record(g, w)
  {
    var h := SetSrid(g, srid);
    if Writable(g) && !g.Point? && !g.LineString? && !g.Polygon? {
      assert MultiPayload(h, w) == MultiPayload(g, w);
    }
  }

  /** The type code with the SRID flag: the code, two zero bytes, then 0x20. */
  lemma FlaggedCode(c: nat)
    requires c < 256
    ensures PackU32(c + SridFlag) == [c, 0, 0, 32]
  {
    var v := c + SridFlag;
    assert v % Two32 == v;
    assert LittleEndian(v, 4) == [c] + LittleEndian(0x20_0000, 3);
    assert LittleEndian(0x20_0000, 3) == [0] + LittleEndian(0x2000, 2);
    assert LittleEndian(0x2000, 2) == [0] + LittleEndian(0x20, 1);
    assert LittleEndian(0x20, 1) == [32] + LittleEndian(0, 0);
  }

  /** A header with the SRID flag: the reader skips the four SRID bytes. */
  lemma FlaggedHeader(bs: seq<Byte>, s: State, k: Kind)
    requires s.pos + 9 <= |bs| && Take(bs, s.pos, 5) == [1, TypeCode(k), 0, 0, 32]
    ensures HeaderAt(bs, s) == Reading(Ok(Some(k)), s.(pos := s.pos + 9))
  {
    CodeOfKind(k);
  }

  /** What _WKB's writer makes of a geometry that is plain but for its SRID. */
  lemma RecordOfSrid(g: Geometry, w: Writer)
    requires Plain(SetSrid(g, 0)) && (w == Corrected || HintSafe(g))
    ensures Writable(g)
    ensures Record(g, w) == Ok(RecordBytes(SetSrid(g, 0)))
    ensures RecordBytes(SetSrid(g, 0)) == [1, TypeCode(KindOf(g)), 0, 0, 0] + PayloadBytes(SetSrid(g, 0))
  {
    var g0 := SetSrid(g, 0);
    RecordOf(g0, w);
    RecordIgnoresSrid(g0, Srid(g), w);
    assert SetSrid(g0, Srid(g)) == g;
    RecordHeader(g0);
  }

  /** The corrected writer on a geometry with an SRID, from the record _WKB writes. */
  lemma SridWritten(g: Geometry, w: Writer, bytes: seq<Byte>)
    requires Writable(g) && Record(g, w) == Ok(bytes) && Srid(g) != 0
    ensures WriteWithSrid(g, false, w) == Ok([1] + PackU32(TypeCode(KindOf(g)) + SridFlag) + PackU32(Srid(g)) + bytes[5..])
  {
  }

  lemma Regrouped(c: Byte, id: seq<Byte>, payload: seq<Byte>)
    ensures [1] + [c, 0, 0, 32] + id + ([1, c, 0, 0, 0] + payload)[5..] == [1, c, 0, 0, 32] + id + payload
  {
    assert ([1, c, 0, 0, 0] + payload)[5..] == payload;
    assert [1] + [c, 0, 0, 32] == [1, c, 0, 0, 32];
  }

  /** The record the corrected writer makes of a geometry with an SRID. */
  lemma FlaggedRecord(g: Geometry, w: Writer)
    requires Plain(SetSrid(g, 0)) && (w == Corrected || HintSafe(g)) && Srid(g) != 0
    ensures Writable(g) && WriteWithSrid(g, false, w).Ok?
    ensures WriteWithSrid(g, false, w).value
      == [1, TypeCode(KindOf(g)), 0, 0, 32] + PackU32(Srid(g)) + PayloadBytes(SetSrid(g, 0))
  {
    RecordOfSrid(g, w);
    var c := TypeCode(KindOf(g));
    var payload := PayloadBytes(SetSrid(g, 0));
    var bytes: seq<Byte> := [1, c, 0, 0, 0] + payload;
    SridWritten(g, w, bytes);
    FlaggedCode(c);
    Regrouped(c, PackU32(Srid(g)), payload);
  }

  /** The SRID field of a record with the SRID flag. */
  lemma FlaggedSrid(bs: seq<Byte>, header: seq<Byte>, id: seq<Byte>, payload: seq<Byte>)
    requires |header| == 5 && header[4] != 0 && |id| == 4 && bs == header + id + payload
    ensures Take(bs, 0, 5) == header && SridOf(bs) == Ok(UnpackU32(id))
  {
    assert bs == header + (id + payload);
    AtSplit(bs, 0, header, id + payload);
    AtSplit(bs, 5, id, payload);
    TakeAt(bs, 0, header);
    TakeAt(bs, 5, id);
  }

  /** _WKB's read() of a record with the SRID flag whose body reads as `g0`. */
  lemma FlaggedGeometry(bs: seq<Byte>, k: Kind, g0: Geometry, after: State)
    requires 9 <= |bs| && Take(bs, 0, 5) == [1, TypeCode(k), 0, 0, 32]
    requires BodyAt(bs, Fresh.(pos := 9), k) == Reading(Ok(g0), after)
    ensures Wkb.Read(bs, false, Fresh).outcome == Ok(Some(g0))
  {
    FlaggedHeader(bs, Fresh, k);
    GeometryFrom(bs, Fresh, k, Fresh.(pos := 9), g0, after);
    assert !EmptyText(bs);
  }

  /** read() when the SRID field holds `n` and _WKB's reader gives `g0`. */
  lemma SridSet(bs: seq<Byte>, n: nat, g0: Geometry)
    requires SridOf(bs) == Ok(n) && n != 0 && Wkb.Read(bs, false, Fresh).outcome == Ok(Some(g0))
    ensures Read(bs, false) == Ok(Some(SetSrid(g0, n)))
  {
  }

  /** Reading a record with the SRID flag whose body reads as `g0`. */
  lemma FlaggedRead(bs: seq<Byte>, k: Kind, n: nat, payload: seq<Byte>, g0: Geometry, after: State)
    requires bs == [1, TypeCode(k), 0, 0, 32] + PackU32(n) + payload && 0 < n < Two32
    requires BodyAt(bs, Fresh.(pos := 9), k) == Reading(Ok(g0), after)
    ensures Read(bs, false) == Ok(Some(SetSrid(g0, n)))
  {
    FlaggedSrid(bs, [1, TypeCode(k), 0, 0, 32], PackU32(n), payload);
    CountBack(n);
    FlaggedGeometry(bs, k, g0, after);
    SridSet(bs, n, g0);
  }

  /** `b` sits in `a + b` right after `a`. */
  lemma AtEnd(a: seq<Byte>, b: seq<Byte>)
    ensures At(a + b, |a|, b)
  {
    assert (a + b)[|a|..|a| + |b|] == b;
  }

  /** Reading the corrected writer's record of a geometry with an SRID. */
  lemma FlaggedBack(g: Geometry, w: Writer)
    requires Plain(SetSrid(g, 0)) && (w == Corrected || HintSafe(g)) && 0 < Srid(g) < Two32
    ensures Writable(g) && WriteWithSrid(g, false, w).Ok?
    ensures Read(WriteWithSrid(g, false, w).value, false) == Ok(Some(g))
  {
    var g0 := SetSrid(g, 0);
    FlaggedRecord(g, w);
    FlaggedBytesBack(g0, Srid(g));
    assert SetSrid(g0, Srid(g)) == g;
  }

  /** The record with the SRID flag, SRID `n` and a plain geometry's payload reads as that geometry with SRID `n`. */
  lemma FlaggedBytesBack(g0: Geometry, n: nat)
    requires Plain(g0) && 0 < n < Two32
    ensures Read([1, TypeCode(KindOf(g0)), 0, 0, 32] + PackU32(n) + PayloadBytes(g0), false) == Ok(Some(SetSrid(g0, n)))
  {
    var k := KindOf(g0);
    var payload := PayloadBytes(g0);
    var header: seq<Byte> := [1, TypeCode(k), 0, 0, 32];
    var prefix := header + PackU32(n);
    FlaggedBodyBack(prefix, g0);
    FlaggedRead(prefix + payload, k, n, payload, g0, Fresh.(pos := 9 + |payload|));
  }

  /** The payload after a nine-byte header and SRID reads back as the geometry. */
  lemma FlaggedBodyBack(prefix: seq<Byte>, g0: Geometry)
    requires Plain(g0) && |prefix| == 9
    ensures BodyAt(prefix + PayloadBytes(g0), Fresh.(pos := 9), KindOf(g0))
      == Reading(Ok(g0), Fresh.(pos := 9 + |PayloadBytes(g0)|))
  {
    AtEnd(prefix, PayloadBytes(g0));
    BodyBack(prefix + PayloadBytes(g0), Fresh.(pos := 9), g0);
  }

  /** A plain geometry: what _WKB writes has no s flag, and read() gives the geometry back. */
  lemma Unflagged(g: Geometry, w: Writer)
    requires Plain(g) && (w == Corrected || HintSafe(g))
    ensures Writable(g) && Record(g, w) == Ok(RecordBytes(g))
    ensures Read(RecordBytes(g), false) == Ok(Some(g))
  {
    WkbProofs.RoundTrip(g, false, w, Fresh);
    RecordOf(g, w);
    RecordHeader(g);
    assert RecordBytes(g)[4] == 0;
    ReadWithoutSrid(RecordBytes(g), false);
  }

  /** read() of the hexadecimal text is read() of the bytes. */
  lemma HexRead(bytes: seq<Byte>)
    ensures Read(HexEncode(bytes), true) == Read(bytes, false)
  {
    HexDecodeEncode(bytes);
  }

  /**
   * Write with the corrected writer, then read: the geometry comes back
   * with its SRID, from the bytes or from their hexadecimal text.
   */
  lemma RoundTrip(g: Geometry, asHex: bool, w: Writer)
    requires Plain(SetSrid(g, 0)) && (w == Corrected || HintSafe(g)) && 0 <= Srid(g) < Two32
    ensures Writable(g) && WriteWithSrid(g, asHex, w).Ok?
    ensures Read(WriteWithSrid(g, asHex, w).value, asHex) == Ok(Some(g))
  {
    if Srid(g) == 0 {
      assert SetSrid(g, 0) == g;
      Unflagged(g, w);
    } else {
      FlaggedBack(g, w);
    }
    if asHex {
      HexRead(WriteWithSrid(g, false, w).value);
    }
  }

  /**
   * write() as it stands: a geometry with an SRID is written as _WKB writes
   * it, and reads back without its SRID.
   */
  lemma SridDropped(g: Geometry, asHex: bool, w: Writer)
    requires Plain(SetSrid(g, 0)) && (w == Corrected || HintSafe(g)) && Srid(g) != 0
    ensures Writable(g) && Write(g, asHex, w).Ok?
    ensures Read(Write(g, asHex, w).value, asHex) == Ok(Some(SetSrid(g, 0)))
    ensures Read(Write(g, asHex, w).value, asHex) != Ok(Some(g))
  {
    var g0 := SetSrid(g, 0);
    RecordOfSrid(g, w);
    Unflagged(g0, w);
    if asHex {
      HexRead(RecordBytes(g0));
    }
    assert Srid(g0) != Srid(g);
  }
}
