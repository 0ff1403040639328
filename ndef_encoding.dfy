/**
 * Writing a record in the layout of section 3.2 of the NFC Forum NDEF
 * Technical Specification 1.0, and decoding it back: the partner that shows
 * what the record decoder gets right and where it departs from the layout.
 *
 * `ParseCorrected` is the decoder as the layout intends it: the TNF is the
 * header's low three bits and a four-byte payload length is unsigned.
 */
module NdefEncoding {
  import opened Wrappers
  import opened JavaBytes
  import opened NdefParse

  function Pow256(width: nat): (p: nat)
    ensures p > 0
  {
    if width == 0 then 1 else 0x100 * Pow256(width - 1)
  }

  /** `n` written as `width` bytes, most significant first. */
  function BigEndian(n: nat, width: nat): (bs: seq<byte>)
    requires n < Pow256(width)
    ensures |bs| == width
  {
    if width == 0 then []
    else
      assert n / 0x100 < Pow256(width - 1);
      BigEndian(n / 0x100, width - 1) + [ByteOf(n % 0x100)]
  }

  /** Reading back what `BigEndian` wrote gives the number again. */
  lemma {:induction false} BigEndianRoundTrip(n: nat, width: nat)
    requires n < Pow256(width)
    ensures UnsignedBigEndian(BigEndian(n, width)) == n
  {
    if width > 0 {
      assert n / 0x100 < Pow256(width - 1);
      BigEndianRoundTrip(n / 0x100, width - 1);
      UnsignedBigEndianSnoc(BigEndian(n / 0x100, width - 1), ByteOf(n % 0x100));
    }
  }

  /**
   * The fields can be written under this header: each declared length fits its
   * field (one byte for the type and id lengths, one or four bytes for the
   * payload length as SR says), and an id is only written when IL is set.
   */
  predicate Encodable(header: byte, recordType: seq<byte>, id: seq<byte>, payload: seq<byte>) {
    && |recordType| < 0x100
    && |id| < 0x100
    && (HasFlag(header, IL) || id == [])
    && |payload| < (if HasFlag(header, SR) then 0x100 else 0x1_0000_0000)
  }

  /** The bytes of one record: header block, then type, id and payload. */
  function Encode(header: byte, recordType: seq<byte>, id: seq<byte>, payload: seq<byte>): (bytes: seq<byte>)
    requires Encodable(header, recordType, id, payload)
    ensures |bytes| == HeaderSize(header) + |recordType| + |id| + |payload|
  {
    assert Pow256(1) == 0x100 && Pow256(4) == 0x1_0000_0000;
    [header, ByteOf(|recordType|)]
    + BigEndian(|payload|, if HasFlag(header, SR) then 1 else 4)
    + (if HasFlag(header, IL) then [ByteOf(|id|)] else [])
    + recordType + id + payload
  }

  /** The TNF as section 3.2 defines it: the low three bits of the header. */
  function StandardTnf(header: byte): (tnf: byte)
    ensures Signed(tnf) == Unsigned(tnf) < 8
  {
    FromBits(Bits(header) & 0x07)
  }

  /** The record decoder with the TNF masked and the four-byte payload length read unsigned. */
  function ParseCorrected(data: seq<byte>): Result<Record, ParseError> {
    if |data| < 2 then Err(IndexOutOfBounds(|data|))
    else
      var header := data[0];
      var typeLength := Unsigned(data[1]);
      if HasFlag(header, SR) then
        if |data| < 3 then Err(IndexOutOfBounds(2))
        else ParseFields(data, header, StandardTnf(header), typeLength, Unsigned(data[2]), 3)
      else
        if |data| < 6 then Err(IndexOutOfBounds(5))
        else ParseFields(data, header, StandardTnf(header), typeLength, UnsignedBigEndian(data[2..6]), 6)
  }

  /** The payload-length bytes the encoder writes for a payload of `n` bytes under `header`. */
  function LengthBytes(header: byte, n: nat): seq<byte>
    requires n < (if HasFlag(header, SR) then 0x100 else 0x1_0000_0000)
  {
    assert Pow256(1) == 0x100 && Pow256(4) == 0x1_0000_0000;
    BigEndian(n, if HasFlag(header, SR) then 1 else 4)
  }

  /** Where the encoder puts each byte of the header block. */
  lemma EncodeHeaderBlock(header: byte, recordType: seq<byte>, id: seq<byte>, payload: seq<byte>, rest: seq<byte>)
    requires Encodable(header, recordType, id, payload)
    ensures var data := Encode(header, recordType, id, payload) + rest;
      var lengthEnd := if HasFlag(header, SR) then 3 else 6;
      var s := HeaderSize(header);
      && data[0] == header
      && Unsigned(data[1]) == |recordType|
      && data[2..lengthEnd] == LengthBytes(header, |payload|)
      && (HasFlag(header, IL) ==> Unsigned(data[lengthEnd]) == |id|)
      && data[s..] == recordType + (id + (payload + rest))
  {
    var data := Encode(header, recordType, id, payload) + rest;
    var lengthEnd := if HasFlag(header, SR) then 3 else 6;
    var idByte: seq<byte> := if HasFlag(header, IL) then [ByteOf(|id|)] else [];
    var block := [header, ByteOf(|recordType|)] + LengthBytes(header, |payload|) + idByte;
    assert |block| == HeaderSize(header);
    assert data == block + (recordType + (id + (payload + rest)));
    assert data[2..lengthEnd] == block[2..lengthEnd];
  }

  /**
   * The corrected decoder reads back every encodable record: its TNF is the
   * header's low three bits, its fields are the ones written, and its length is
   * the number of bytes written, so decoding continues right after it.
   */
  lemma ParseCorrectedRoundTrip(header: byte, recordType: seq<byte>, id: seq<byte>, payload: seq<byte>, rest: seq<byte>)
    requires Encodable(header, recordType, id, payload)
    ensures var bytes := Encode(header, recordType, id, payload);
      ParseCorrected(bytes + rest) == Ok(Record(StandardTnf(header), recordType, id, payload, |bytes|))
  {
    var data := Encode(header, recordType, id, payload) + rest;
    var start := if HasFlag(header, SR) then 3 else 6;
    EncodeHeaderBlock(header, recordType, id, payload, rest);
    var pl := if HasFlag(header, SR) then Unsigned(data[2]) else UnsignedBigEndian(data[2..6]);
    LengthReadsBack(data, header, |payload|);
    assert ParseCorrected(data) == ParseFields(data, header, StandardTnf(header), |recordType|, pl, start);
    FieldsAfterHeader(data, header, StandardTnf(header), recordType, id, payload, rest, start);
  }

  /**
   * The decoder as written reads back an encodable record whenever the four
   * payload-length bytes of a long record are all below 0x80; the TNF it
   * reports is the one computed from the header as written.
   */
  lemma ParseRoundTrip(header: byte, recordType: seq<byte>, id: seq<byte>, payload: seq<byte>, rest: seq<byte>)
    requires Encodable(header, recordType, id, payload)
    requires !HasFlag(header, SR) ==> forall b | b in LengthBytes(header, |payload|) :: b < 0x80
    ensures var bytes := Encode(header, recordType, id, payload);
      Parse(bytes + rest) == Ok(Record(Tnf(header), recordType, id, payload, |bytes|))
  {
    var data := Encode(header, recordType, id, payload) + rest;
    var start := if HasFlag(header, SR) then 3 else 6;
    EncodeHeaderBlock(header, recordType, id, payload, rest);
    var pl := if HasFlag(header, SR) then Unsigned(data[2]) else LongPayloadLength(data[2], data[3], data[4], data[5]);
    LengthReadsBack(data, header, |payload|);
    assert Parse(data) == ParseFields(data, header, Tnf(header), |recordType|, pl, start);
    FieldsAfterHeader(data, header, Tnf(header), recordType, id, payload, rest, start);
  }

  /**
   * Reading the payload-length field the encoder wrote: one byte read unsigned,
   * or four bytes read big-endian, give the length back; the signed-byte sum of
   * the decoder as written gives it back when the four bytes are below 0x80.
   */
  lemma LengthReadsBack(data: seq<byte>, header: byte, n: nat)
    requires n < (if HasFlag(header, SR) then 0x100 else 0x1_0000_0000)
    requires |data| >= (if HasFlag(header, SR) then 3 else 6)
    requires data[2..if HasFlag(header, SR) then 3 else 6] == LengthBytes(header, n)
    ensures HasFlag(header, SR) ==> Unsigned(data[2]) == n
    ensures !HasFlag(header, SR) ==> UnsignedBigEndian(data[2..6]) == n
    ensures !HasFlag(header, SR) && (forall b | b in LengthBytes(header, n) :: b < 0x80) ==>
      LongPayloadLength(data[2], data[3], data[4], data[5]) == n
  {
    assert Pow256(1) == 0x100 && Pow256(4) == 0x1_0000_0000;
    BigEndianRoundTrip(n, if HasFlag(header, SR) then 1 else 4);
    if HasFlag(header, SR) {
      assert data[2..3] == [data[2]];
    } else {
      var bs := data[2..6];
      assert bs == [data[2], data[3], data[4], data[5]];
      assert data[2] == bs[0] && data[3] == bs[1] && data[4] == bs[2] && data[5] == bs[3];
      assert bs[0] in bs && bs[1] in bs && bs[2] in bs && bs[3] in bs;
      LongPayloadLengthIsBigEndian(data[2], data[3], data[4], data[5]);
    }
  }

  /**
   * Once the payload length has been read correctly, the field stage recovers
   * three fields that lie back to back after the header block.
   */
  lemma FieldsAfterHeader(data: seq<byte>, header: byte, tnf: byte,
                          recordType: seq<byte>, id: seq<byte>, payload: seq<byte>, rest: seq<byte>, start: nat)
    requires 0 < start <= |data|
    requires HeaderSize(header) == if HasFlag(header, IL) then start + 1 else start
    requires HeaderSize(header) <= |data|
    requires HasFlag(header, IL) ==> Unsigned(data[start]) == |id|
    requires !HasFlag(header, IL) ==> id == []
    requires data[HeaderSize(header)..] == recordType + (id + (payload + rest))
    ensures ParseFields(data, header, tnf, |recordType|, |payload|, start) ==
      Ok(Record(tnf, recordType, id, payload, HeaderSize(header) + |recordType| + |id| + |payload|))
  {
    var s, tl, il, pl := HeaderSize(header), |recordType|, |id|, |payload|;
    assert |data| == s + tl + il + pl + |rest|;
    ParseFieldsFit(data, header, tnf, tl, pl, start);
    FieldsOfTail(data, s, recordType, id, payload, rest);
  }

  /** The three fields sit back to back in the buffer from offset `s` on. */
  lemma FieldsOfTail(data: seq<byte>, s: nat, recordType: seq<byte>, id: seq<byte>, payload: seq<byte>, rest: seq<byte>)
    requires s <= |data| && data[s..] == recordType + (id + (payload + rest))
    ensures var tl, il, pl := |recordType|, |id|, |payload|;
      && data[s..s + tl] == recordType
      && data[s + tl..s + tl + il] == id
      && data[s + tl + il..s + tl + il + pl] == payload
  {
    var tail := data[s..];
    var tl, il, pl := |recordType|, |id|, |payload|;
    assert tail[..tl] == recordType;
    assert tail[tl..] == id + (payload + rest);
    assert tail[tl..][..il] == id;
    assert tail[tl + il..] == payload + rest;
    assert tail[tl + il..][..pl] == payload;
    assert data[s..s + tl] == tail[..tl];
    assert data[s + tl..s + tl + il] == tail[tl..][..il];
    assert data[s + tl + il..s + tl + il + pl] == tail[tl + il..][..pl];
  }
}
