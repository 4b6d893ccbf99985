/**
 * What detectFormat() makes of the texts and byte strings the codecs
 * write: WKT text is "wkt", EWKT text with an SRID is "ewkt", a WKB
 * record is "wkb", an EWKB record with the SRID flag is "ewkb", and hex
 * WKB from nine bytes on is "ewkb:1"; a short hex record is taken for a
 * geohash.
 */
module FormatProofs {
  import opened Wrappers
  import opened Types
  import opened Text
  import opened Bytes
  import opened Formats
  import Wkt
  import Ewkt
  import Wkb
  import WkbProofs
  import Ewkb

  // ------------------------------------------------------------- geohash

  lemma {:induction false} RunOfHashText(s: string)
    requires forall i :: 0 <= i < |s| ==> IsHashChar(s[i])
    ensures Run(s) == s
  {
    if s != [] {
      RunOfHashText(s[1..]);
      assert s == [s[0]] + s[1..];
    }
  }

  lemma {:induction false} HashMatchShorter(s: string)
    ensures HashMatch(s).Some? ==> |HashMatch(s).value| <= |s|
  {
    if s != [] && !IsHashChar(s[0]) {
      HashMatchShorter(s[1..]);
    }
  }

  /** The first match of `[a-z0-9]+` is the whole text exactly when the text is a non-empty run of those characters. */
  lemma HashMatchWhole(s: string)
    ensures HashMatch(s) == Some(s) <==> s != [] && forall i :: 0 <= i < |s| ==> IsHashChar(s[i])
  {
    if s != [] {
      if IsHashChar(s[0]) {
        if forall i :: 0 <= i < |s| ==> IsHashChar(s[i]) {
          RunOfHashText(s);
        }
      } else {
        HashMatchShorter(s[1..]);
      }
    }
  }

  /**
   * A text of lower-case letters and digits is a geohash to
   * detectFormat(), unless it is hex WKB: "01" and 18 characters or more.
   */
  lemma GeoHashDetected(s: string)
    requires s != [] && forall i :: 0 <= i < |s| ==> IsHashChar(s[i])
    requires !(|s| >= 18 && s[0] == '0' && s[1] == '1')
    ensures DetectFormat(s) == Some("geo_hash")
  {
    var head := Prefix(s, 8);
    HashHead(s, head);
    assert IsHashChar(s[0]);
    FallThrough(s);
  }

  /** The first eight characters of a run of `[a-z0-9]` are one such run with nothing to trim. */
  lemma HashHead(s: string, head: string)
    requires s != [] && forall i :: 0 <= i < |s| ==> IsHashChar(s[i])
    requires head == Prefix(s, 8)
    ensures Trim(head) == head && HashMatch(head) == Some(head)
  {
    HashPart(s, |head|);
    assert head == s[..|head|];
    NoTrimInHash(head);
    HashMatchWhole(head);
  }

  lemma HashPart(s: string, n: nat)
    requires n <= |s| && forall i :: 0 <= i < |s| ==> IsHashChar(s[i])
    ensures forall i :: 0 <= i < n ==> IsHashChar(s[..n][i])
  {
  }

  lemma NoTrimInHash(h: string)
    requires h != [] && forall i :: 0 <= i < |h| ==> IsHashChar(h[i])
    ensures Trim(h) == h
  {
    assert IsHashChar(h[0]) && IsHashChar(h[|h| - 1]);
    TrimOfUntrimmable(h);
  }

  /** A text whose first character starts none of the other formats is a geohash or nothing, by its first eight bytes. */
  lemma FallThrough(s: string)
    requires s != [] && !IsLeadingSpace(s[0]) && s[0] != 1 as char && s[0] != 0 as char
    requires !(s[0] == '0' && |s| >= 18 && s[1] == '1')
    requires s[0] != '{' && s[0] != 'S' && s[0] != 'P' && s[0] != 'L' && s[0] != 'M' && s[0] != 'G' && s[0] != '<'
    ensures DetectFormat(s) == if HashMatch(Trim(Prefix(s, 8))) == Some(Trim(Prefix(s, 8))) then Some("geo_hash") else None
  {
    var bytes := Prefix(s, 11);
    assert bytes != [] && bytes[0] == s[0];
    assert |bytes| >= 2 ==> bytes[1] == s[1];
    assert bytes[0] !in "PLMG";
  }

  // ----------------------------------------------------- leading whitespace

  /** Tabs, line feeds and spaces in front of a text do not change its format. */
  lemma {:induction false} LeadingSpaceIgnored(ws: string, t: string)
    requires forall i :: 0 <= i < |ws| ==> IsLeadingSpace(ws[i])
    requires t == [] || !IsTrimChar(t[0])
    ensures DetectFormat(ws + t) == DetectFormat(t)
  {
    if ws != [] {
      var s := ws + t;
      assert s[0] == ws[0];
      LTrimAfter(ws, t);
    } else {
      assert ws + t == t;
    }
  }

  lemma {:induction false} LTrimAfter(ws: string, t: string)
    requires forall i :: 0 <= i < |ws| ==> IsLeadingSpace(ws[i])
    requires t == [] || !IsTrimChar(t[0])
    ensures LTrim(ws + t) == t
  {
    if ws == [] {
      assert ws + t == t;
    } else {
      assert (ws + t)[1..] == ws[1..] + t;
      LTrimAfter(ws[1..], t);
    }
  }

  // ------------------------------------------------------------------ text

  lemma KeywordInitial(k: Kind)
    ensures Wkt.Keyword(k)[0] in "PLMG"
  {
  }

  /** A text that starts with P, L, M or G is detected as WKT. */
  lemma InitialDetected(t: string)
    requires t != [] && t[0] in "PLMG"
    ensures DetectFormat(t) == Some("wkt")
  {
    assert Prefix(t, 11)[0] == t[0];
  }

  /** Whatever the WKT writer writes is detected as WKT. */
  lemma WktDetected(g: Geometry, w: Wkt.Writer, t: string)
    requires Wkt.WriteWith(g, w) == Ok(Some(t))
    ensures DetectFormat(t) == Some("wkt")
  {
    var kw := Wkt.Keyword(KindOf(g));
    KeywordInitial(KindOf(g));
    if IsEmpty(g) {
      assert t == kw + " EMPTY";
    } else {
      var data := Wkt.ExtractData(g, w).value;
      assert t == kw + " (" + data + ")";
    }
    assert t[0] == kw[0];
    InitialDetected(t);
  }

  /** Whatever the EWKT writer writes for a geometry with an SRID is detected as EWKT. */
  lemma EwktDetected(g: Geometry, w: Wkt.Writer, t: string)
    requires Srid(g) != 0 && Ewkt.WriteWith(g, w) == Ok(Some(t))
    ensures DetectFormat(t) == Some("ewkt")
  {
    assert t[..5] == "SRID=";
    assert t[0] == 'S';
  }

  // ---------------------------------------------------------------- binary

  /** Every record the WKB writer writes is detected as WKB: its s flag byte is 0. */
  lemma WkbDetected(g: Geometry, w: Wkb.Writer, bs: seq<Byte>)
    requires Wkb.Writable(g) && Wkb.Record(g, w) == Ok(bs)
    ensures DetectFormat(Chars(bs)) == Some("wkb")
  {
    WkbProofs.SmallU32(Wkb.TypeCode(KindOf(g)));
    assert bs[..5] == [1, Wkb.TypeCode(KindOf(g)), 0, 0, 0];
    assert bs[0] == 1 && bs[4] == 0;
  }

  /** The EWKB writer that writes the SRID sets the s flag byte, so what it writes for a geometry with an SRID is EWKB. */
  lemma EwkbDetected(g: Geometry, w: Wkb.Writer, bs: seq<Byte>)
    requires Wkb.Writable(g) && Srid(g) != 0 && Ewkb.WriteWithSrid(g, false, w) == Ok(bs)
    ensures DetectFormat(Chars(bs)) == Some("ewkb")
  {
    Ewkb.FlaggedCode(Wkb.TypeCode(KindOf(g)));
    assert bs[..5] == [1, Wkb.TypeCode(KindOf(g)), 0, 0, 32];
    assert bs[0] == 1 && bs[4] == 32;
  }

  lemma HexOfOne(bs: seq<Byte>)
    requires bs != [] && bs[0] == 1
    ensures HexEncode(bs)[0] == Zero && HexEncode(bs)[1] == Zero + 1
  {
  }

  /** Hexadecimal WKB of nine bytes or more is detected as hex EWKB ("ewkb:1", the hex flag as the extra argument). */
  lemma HexWkbDetected(bs: seq<Byte>)
    requires |bs| >= 9 && bs[0] == 1
    ensures DetectFormat(Chars(HexEncode(bs))) == Some("ewkb:1")
  {
    HexOfOne(bs);
  }

  /** Hex digits are lower-case letters and digits. */
  lemma {:induction false} HexDigitsAreHashChars(bs: seq<Byte>)
    ensures forall i :: 0 <= i < |HexEncode(bs)| ==> IsHashChar(HexEncode(bs)[i] as char)
  {
    if bs != [] {
      HexDigitsAreHashChars(bs[1..]);
      var h := HexEncode(bs);
      assert h == [HexDigit(bs[0] / 16), HexDigit(bs[0] % 16)] + HexEncode(bs[1..]);
      forall i | 0 <= i < |h| ensures IsHashChar(h[i] as char) {
        if i >= 2 {
          assert h[i] == HexEncode(bs[1..])[i - 2];
        }
      }
    }
  }

  /** Hexadecimal WKB shorter than nine bytes is detected as a geohash. */
  lemma ShortHexIsGeoHash(bs: seq<Byte>)
    requires 0 < |bs| < 9
    ensures DetectFormat(Chars(HexEncode(bs))) == Some("geo_hash")
  {
    HexDigitsAreHashChars(bs);
    GeoHashDetected(Chars(HexEncode(bs)));
  }

  /** The empty point's record holds no coordinates: five bytes. */
  lemma EmptyPointRecord(w: Wkb.Writer)
    ensures Wkb.Writable(Point(EmptyCoords, 0))
    ensures Wkb.Record(Point(EmptyCoords, 0), w) == Ok([1, 1, 0, 0, 0])
  {
    var p := Point(EmptyCoords, 0);
    WkbProofs.SmallU32(1);
    assert Wkb.PointPayload(p) == [];
    assert Wkb.TypeCode(KindOf(p)) == 1;
    assert [1] + Bytes.PackU32(1) + [] == [1, 1, 0, 0, 0];
  }

  /**
   * The hex record of the empty point, "0101000000", is shorter than 18
   * characters and is detected as a geohash, not as WKB.
   */
  lemma EmptyPointHexIsGeoHash(w: Wkb.Writer)
    ensures Wkb.Writable(Point(EmptyCoords, 0))
    ensures Wkb.Write(Point(EmptyCoords, 0), true, w) == Ok(HexEncode([1, 1, 0, 0, 0]))
    ensures DetectFormat(Chars(HexEncode([1, 1, 0, 0, 0]))) == Some("geo_hash")
  {
    EmptyPointRecord(w);
    ShortHexIsGeoHash([1, 1, 0, 0, 0]);
  }
}
