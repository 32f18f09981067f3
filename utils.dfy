/** The generic `serialize(t)` of Utils.h: allocate a vector of exactly
    `t.size()` bytes and let `t.serialize(buffer)` fill it. The inner call
    never reports a short buffer. */
module Utils {
  import opened Wire
  import Records

  /** `serialize(t)` for a Record. */
  method SerializeRecord(rec: Records.Record) returns (bytes: seq<byte>)
    ensures |bytes| == Records.Size(rec)
    ensures bytes == Records.Encode(rec)
  {
    var buffer := new byte[Records.Size(rec)];
    var written := Records.Serialize(rec, buffer, 0);
    assert written == Ok(Records.Size(rec));
    bytes := buffer[..];
    assert bytes == bytes[0..Records.Size(rec)];
  }

  /** `serialize(t)` for a payload on its own. */
  method SerializePayload(p: Records.Payload) returns (bytes: seq<byte>)
    ensures |bytes| == Records.PayloadSize(p)
    ensures bytes == Records.EncodePayload(p)
  {
    var buffer := new byte[Records.PayloadSize(p)];
    var written := Records.SerializePayload(p, buffer, 0);
    assert written == Ok(Records.PayloadSize(p));
    bytes := buffer[..];
    assert bytes == bytes[0..Records.PayloadSize(p)];
  }
}
