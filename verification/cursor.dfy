/** The opaque page cursor: 8 timestamp bytes followed by the 16 bytes of
    the record id, base64-encoded. Both backends use the same codec
    (`cursor_encode` / `cursor_decode`). */
module Cursor {
  import opened Results
  import opened Bytes
  import opened Senses
  import Base64

  /** Why a token could not be read back. */
  datatype CursorError =
    | MalformedBase64        // `binascii.Error` from `b64decode`
    | TimestampUnpackError   // `struct.error`: fewer than 8 payload bytes
    | InvalidUuidBytes       // `ValueError` from `UUID(bytes=...)`: not 16 bytes after the timestamp

  const TimestampSize: nat := 8
  const UuidSize: nat := 16
  const PayloadSize: nat := TimestampSize + UuidSize

  const TwoTo63: int := 0x8000_0000_0000_0000
  const TwoTo64: int := 0x1_0000_0000_0000_0000

  lemma Pow256Values()
    ensures Pow256(8) == TwoTo64
    ensures Pow256(16) == 0x1_0000_0000_0000_0000_0000_0000_0000_0000
  {
  }

  /** The 8-byte timestamp field: two's complement, least significant byte first. */
  function TimestampBytes(t: Timestamp): (bs: seq<Byte>)
    ensures |bs| == TimestampSize
  {
    ToLittleEndian(if t < 0 then t + TwoTo64 else t, TimestampSize)
  }

  function TimestampFromBytes(bs: seq<Byte>): Timestamp
    requires |bs| == TimestampSize
  {
    Pow256Values();
    var u := FromLittleEndian(bs);
    if u >= TwoTo63 then u - TwoTo64 else u
  }

  /** `UUID.bytes`: the 128-bit value, most significant byte first. */
  function UuidBytes(id: Uuid): (bs: seq<Byte>)
    ensures |bs| == UuidSize
  {
    ToBigEndian(id, UuidSize)
  }

  function UuidFromBytes(bs: seq<Byte>): Uuid
    requires |bs| == UuidSize
  {
    Pow256Values();
    FromBigEndian(bs)
  }

  lemma TimestampRoundTrip(t: Timestamp)
    ensures TimestampFromBytes(TimestampBytes(t)) == t
  {
    Pow256Values();
    LittleEndianRoundTrip(if t < 0 then t + TwoTo64 else t, TimestampSize);
  }

  lemma UuidRoundTrip(id: Uuid)
    ensures UuidFromBytes(UuidBytes(id)) == id
  {
    Pow256Values();
    BigEndianRoundTrip(id, UuidSize);
  }

  /** The raw cursor payload, before base64. */
  function EncodePayload(c: CursorData): (bs: seq<Byte>)
    ensures |bs| == PayloadSize
  {
    TimestampBytes(c.createdAt) + UuidBytes(c.senseId)
  }

  /** Reads a payload back. The timestamp needs exactly the first 8 bytes and
      the id exactly the 16 that follow, so any other length is an error. */
  function DecodePayload(bs: seq<Byte>): (r: Result<CursorData, CursorError>)
    ensures r.Success? <==> |bs| == PayloadSize
    ensures |bs| < TimestampSize ==> r == Failure(TimestampUnpackError)
    ensures TimestampSize <= |bs| && |bs| != PayloadSize ==> r == Failure(InvalidUuidBytes)
  {
    if |bs| < TimestampSize then Failure(TimestampUnpackError)
    else if |bs| - TimestampSize != UuidSize then Failure(InvalidUuidBytes)
    else Success(CursorData(TimestampFromBytes(bs[..TimestampSize]), UuidFromBytes(bs[TimestampSize..])))
  }

  /** `cursor_encode` */
  function Encode(c: CursorData): (token: string)
    ensures |token| == 32
    ensures forall i :: 0 <= i < |token| ==> Base64.IsAlphabet(token[i])
  {
    Base64.Encode(EncodePayload(c))
  }

  /** `cursor_decode` */
  function Decode(token: string): (r: Result<CursorData, CursorError>)
    ensures |token| % 4 != 0 ==> r == Failure(MalformedBase64)
  {
    match Base64.Decode(token)
    case None => Failure(MalformedBase64)
    case Some(bs) => DecodePayload(bs)
  }

  /** Every payload of the right length is the encoding of exactly one pivot. */
  lemma PayloadRoundTrip(c: CursorData)
    ensures DecodePayload(EncodePayload(c)) == Success(c)
  {
    var bs := EncodePayload(c);
    assert bs[..TimestampSize] == TimestampBytes(c.createdAt);
    assert bs[TimestampSize..] == UuidBytes(c.senseId);
    TimestampRoundTrip(c.createdAt);
    UuidRoundTrip(c.senseId);
  }

  lemma PayloadOnto(bs: seq<Byte>)
    requires |bs| == PayloadSize
    ensures EncodePayload(DecodePayload(bs).value) == bs
  {
    Pow256Values();
    var ts, ids := bs[..TimestampSize], bs[TimestampSize..];
    LittleEndianOnto(ts);
    BigEndianOnto(ids);
    var c := DecodePayload(bs).value;
    var u := FromLittleEndian(ts);
    assert (if c.createdAt < 0 then c.createdAt + TwoTo64 else c.createdAt) == u;
    assert bs == ts + ids;
  }

  /** Decoding an encoded cursor gives back the same timestamp and id. */
  lemma {:induction false} RoundTrip(c: CursorData)
    ensures Decode(Encode(c)) == Success(c)
  {
    Base64.DecodeEncode(EncodePayload(c));
    PayloadRoundTrip(c);
  }

  /** Distinct pivots never share a token. */
  lemma EncodeInjective(c1: CursorData, c2: CursorData)
    requires Encode(c1) == Encode(c2)
    ensures c1 == c2
  {
    RoundTrip(c1);
    RoundTrip(c2);
  }
}
