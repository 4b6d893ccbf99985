/**
 * The _EWKB adapter as its code runs: read() opens a memory stream, reads
 * the five header bytes and, when the s flag is set, the four SRID bytes,
 * then hands the whole string to a new _WKB reader; write() is _WKB's
 * writer. Each method is proved to compute what module Ewkb says.
 */
module EwkbAdapter {
  import opened Wrappers
  import opened Types
  import opened Bytes
  import opened Wkb
  import Ewkb
  import WkbAdapter

  /** read($wkb, $isHexString). */
  method Read(wkb: seq<Byte>, isHex: bool) returns (r: Result<Option<Geometry>>)
    ensures r == Ewkb.Read(wkb, isHex)
  {
    var data := if isHex then HexDecode(wkb) else wkb;
    var mem := new WkbAdapter.Stream(data);
    var info := mem.Read(5);
    var srid := 0;
    if |info| == 5 && info[4] != 0 {
      var id := mem.Read(4);
      if |id| < 4 {
        return Err(TypeError);
      }
      srid := UnpackU32(id);
    }
    var reader := new WkbAdapter.Adapter();
    var geom := reader.Read(data, false);
    if geom.Err? {
      return Err(geom.error);
    }
    if srid == 0 {
      return geom;
    }
    if geom.value.None? {
      return Err(CallOnNull);
    }
    r := Ok(Some(SetSrid(geom.value.value, srid)));
  }

  /** write($geometry, $writeAsHex): the same bytes as _WKB's write(), with no SRID. */
  method Write(g: Geometry, asHex: bool, w: Writer) returns (r: Result<seq<Byte>>)
    requires Writable(g)
    ensures r == Wkb.Write(g, asHex, w)
  {
    var writer := new WkbAdapter.Adapter();
    r := writer.Write(g, asHex, w);
  }
}
