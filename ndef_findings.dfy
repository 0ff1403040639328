/**
 * Two places where the record decoder as written departs from section 3.2 of
 * the NFC Forum NDEF Technical Specification 1.0, each shown on a concrete
 * record, next to the corrected reading.
 */
module NdefFindings {
  import opened Wrappers
  import opened JavaBytes
  import opened NdefParse
  import opened NdefEncoding

  /** A short well-known record: header MB | ME | SR | TNF_WELL_KNOWN, type "T", payload "ag!". */
  const ShortWellKnownRecord: seq<byte> := [0xD1, 0x01, 0x03, 0x54, 0x61, 0x67, 0x21]

  /**
   * The TNF as written: for the header 0xD1 of a well-known short record the
   * decoder reports TNF_EMPTY, while the header's low three bits say
   * TNF_WELL_KNOWN. Type, id, payload and length agree.
   */
  lemma TnfOfWellKnownRecord()
    ensures Parse(ShortWellKnownRecord) == Ok(Record(TNF_EMPTY, [0x54], [], [0x61, 0x67, 0x21], 7))
    ensures TnfName(Parse(ShortWellKnownRecord).value.tnf) == Some("TNF_EMPTY")
    ensures ParseCorrected(ShortWellKnownRecord) == Ok(Record(TNF_WELL_KNOWN, [0x54], [], [0x61, 0x67, 0x21], 7))
  {
    var data := ShortWellKnownRecord;
    assert Encode(0xD1, [0x54], [], [0x61, 0x67, 0x21]) == data;
    ParseRoundTrip(0xD1, [0x54], [], [0x61, 0x67, 0x21], []);
    ParseCorrectedRoundTrip(0xD1, [0x54], [], [0x61, 0x67, 0x21], []);
    assert data + [] == data;
  }

  /** Masking recovers every TNF code from a header whatever its flag bits. */
  lemma StandardTnfRecoversCode(flags: byte, code: byte)
    requires Bits(flags) & 0x07 == 0 && code < 8
    ensures StandardTnf(FromBits(Bits(flags) | Bits(code))) == code
  {
  }

  /** The header of a long record with no id and TNF_EMPTY. */
  const LongHeader: byte := 0x00

  /** A payload of 128 zero bytes. */
  const Payload128: seq<byte> := seq(128, _ => 0)

  /**
   * The long-record payload length as written sign-extends each byte: a
   * payload of 128 bytes, length field 00 00 00 80, is read as -128 and the
   * decoder fails on the payload slice, while the unsigned reading decodes the
   * record.
   */
  lemma LongRecordOf128Bytes()
    ensures Encodable(LongHeader, [], [], Payload128)
    ensures LongPayloadLength(0x00, 0x00, 0x00, 0x80) == -128
    ensures Parse(Encode(LongHeader, [], [], Payload128)) == Err(SliceOutOfRange(6, -128))
    ensures ParseCorrected(Encode(LongHeader, [], [], Payload128)) == Ok(Record(TNF_EMPTY, [], [], Payload128, 134))
  {
    var data := Encode(LongHeader, [], [], Payload128);
    EncodingOf128Bytes();
    assert data[2..6] == [0x00, 0x00, 0x00, 0x80];
    assert Parse(data) == ParseFields(data, LongHeader, Tnf(LongHeader), 0, -128, 6);
    ParseCorrectedRoundTrip(LongHeader, [], [], Payload128, []);
    assert data + [] == data;
  }

  lemma EncodingOf128Bytes()
    ensures Encodable(LongHeader, [], [], Payload128)
    ensures Encode(LongHeader, [], [], Payload128) == [0x00, 0x00, 0x00, 0x00, 0x00, 0x80] + Payload128
  {
    assert BigEndian(0, 1) == [0x00];
    assert BigEndian(0, 2) == [0x00, 0x00];
    assert BigEndian(0, 3) == [0x00, 0x00, 0x00];
    assert BigEndian(128, 4) == [0x00, 0x00, 0x00, 0x80];
  }

  /** A payload of 384 zero bytes. */
  const Payload384: seq<byte> := seq(384, _ => 0)

  /**
   * Sign extension can also make the decoder succeed with the wrong record: a
   * long record with a 384-byte payload, length field 00 00 01 80, is read as
   * 128 bytes long, so the decoder returns the first 128 payload bytes and a
   * length of 134 instead of 390, while the unsigned reading decodes the whole
   * record.
   */
  lemma LongRecordOf384Bytes()
    ensures Encodable(LongHeader, [], [], Payload384)
    ensures LongPayloadLength(0x00, 0x00, 0x01, 0x80) == 128
    ensures Parse(Encode(LongHeader, [], [], Payload384)) == Ok(Record(TNF_EMPTY, [], [], Payload384[..128], 134))
    ensures ParseCorrected(Encode(LongHeader, [], [], Payload384)) == Ok(Record(TNF_EMPTY, [], [], Payload384, 390))
  {
    var data := Encode(LongHeader, [], [], Payload384);
    EncodingOf384Bytes();
    assert data[2..6] == [0x00, 0x00, 0x01, 0x80];
    assert data[6..134] == Payload384[..128];
    assert Parse(data) == ParseFields(data, LongHeader, Tnf(LongHeader), 0, 128, 6);
    ParseCorrectedRoundTrip(LongHeader, [], [], Payload384, []);
    assert data + [] == data;
  }

  lemma EncodingOf384Bytes()
    ensures Encodable(LongHeader, [], [], Payload384)
    ensures Encode(LongHeader, [], [], Payload384) == [0x00, 0x00, 0x00, 0x00, 0x01, 0x80] + Payload384
  {
    assert BigEndian(0, 1) == [0x00];
    assert BigEndian(0, 2) == [0x00, 0x00];
    assert BigEndian(1, 3) == [0x00, 0x00, 0x01];
    assert BigEndian(384, 4) == [0x00, 0x00, 0x01, 0x80];
  }
}
