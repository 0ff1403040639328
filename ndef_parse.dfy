/**
 * The NDEF record decoder of `NdefRecord.parseNdefRecord`, as written.
 *
 * One record is laid out as in section 3.2 of the NFC Forum NDEF Technical
 * Specification 1.0: a header byte (flags MB, ME, CF, SR, IL and a 3-bit TNF),
 * a type-length byte, a payload length of one byte (SR set) or four bytes
 * (SR clear), an id-length byte when IL is set, then the type, id and payload
 * fields back to back.
 *
 * The decoder performs no validation. A read past the end of the buffer is
 * reported as `IndexOutOfBounds` (Java's own index exception) and a range that
 * the sub-array helper cannot serve as `SliceOutOfRange`.
 */
module NdefParse {
  import opened Wrappers
  import opened JavaBytes

  /** `NdefRecord.SR`: the payload length is one byte instead of four. */
  const SR: bv8 := 0x10
  /** `NdefRecord.IL`: an id-length byte and an id field are present. */
  const IL: bv8 := 0x08

  /** The eight type name format codes, `NdefRecord.TNF_EMPTY` to `NdefRecord.TNF_RESERVED`. */
  const TNF_EMPTY: byte := 0x00
  const TNF_WELL_KNOWN: byte := 0x01
  const TNF_MIME_MEDIA: byte := 0x02
  const TNF_ABSOLUTE_URI: byte := 0x03
  const TNF_EXTERNAL_TYPE: byte := 0x04
  const TNF_UNKNOWN: byte := 0x05
  const TNF_UNCHANGED: byte := 0x06
  const TNF_RESERVED: byte := 0x07

  /** One decoded record: the fields `parseNdefRecord` assigns. */
  datatype Record = Record(tnf: byte, recordType: seq<byte>, id: seq<byte>, payload: seq<byte>, length: int)

  datatype ParseError =
    | IndexOutOfBounds(index: nat)            // `data[index]` read past the end of the buffer
    | SliceOutOfRange(from: int, count: int)  // sub-array `count` bytes long at `from` does not fit

  /**
   * The parser's test of a header flag, `(header & mask) > 0`. The masks are
   * single bits below the sign bit, so the `int` result is either 0 or the mask.
   */
  predicate HasFlag(header: byte, mask: bv8) {
    Bits(header) & mask != 0
  }

  /** The two flag tests read single header bits: SR is bit 4 and IL is bit 3. */
  lemma FlagBits(header: byte)
    ensures HasFlag(header, SR) <==> Bit(header, 4)
    ensures HasFlag(header, IL) <==> Bit(header, 3)
  {
  }

  /** Bit `k` of `x`, counting from the least significant bit. */
  predicate Bit(x: byte, k: nat)
    requires k < 8
  {
    (Bits(x) >> k) & 1 == 1
  }

  /**
   * The type name format as the parser computes it,
   * `(byte) (header & header << 1 & header << 2)`. The cast keeps the low eight
   * bits of the `int` expression, and those are the bits of the same
   * expression over eight bits. The two lowest bits are always clear.
   */
  function Tnf(header: byte): (tnf: byte)
    ensures Bits(tnf) & 0x03 == 0
  {
    var h := Bits(header);
    FromBits(h & (h << 1) & (h << 2))
  }

  /** `getTnfAsString`: the symbolic name of each of the eight codes, `None` (Java's `null`) otherwise. */
  function TnfName(tnf: byte): (name: Option<string>)
    ensures name.Some? <==> 0 <= Signed(tnf) <= 7
  {
    if tnf == TNF_EMPTY then Some("TNF_EMPTY")
    else if tnf == TNF_WELL_KNOWN then Some("TNF_WELL_KNOWN")
    else if tnf == TNF_MIME_MEDIA then Some("TNF_MIME_MEDIA")
    else if tnf == TNF_ABSOLUTE_URI then Some("TNF_ABSOLUTE_URI")
    else if tnf == TNF_EXTERNAL_TYPE then Some("TNF_EXTERNAL_TYPE")
    else if tnf == TNF_UNKNOWN then Some("TNF_UNKNOWN")
    else if tnf == TNF_UNCHANGED then Some("TNF_UNCHANGED")
    else if tnf == TNF_RESERVED then Some("TNF_RESERVED")
    else None
  }

  /**
   * The long-record payload length as written,
   * `data[5] + (data[4] << 8) + (data[3] << 16) + (data[2] << 24)`, where each
   * `byte` is sign-extended before it is shifted.
   */
  function LongPayloadLength(b2: byte, b3: byte, b4: byte, b5: byte): int {
    Signed(b5) + Signed(b4) * 0x100 + Signed(b3) * 0x1_0000 + Signed(b2) * 0x100_0000
  }

  /**
   * The sum lies between -0x8080_8080 and 0x7F7F_7F7F. It never exceeds Java's
   * `int` maximum, and it falls below the `int` minimum exactly when offset 2
   * holds 0x80 and the three lower bytes add up to a negative value.
   */
  lemma LongPayloadLengthRange(b2: byte, b3: byte, b4: byte, b5: byte)
    ensures -0x8080_8080 <= LongPayloadLength(b2, b3, b4, b5) <= 0x7F7F_7F7F
    ensures LongPayloadLength(b2, b3, b4, b5) < -0x8000_0000 <==>
      b2 == 0x80 && Signed(b5) + Signed(b4) * 0x100 + Signed(b3) * 0x1_0000 < 0
  {
  }

  /** The unsigned big-endian number that the bytes `bs` spell, most significant byte first. */
  function UnsignedBigEndian(bs: seq<byte>): nat {
    if bs == [] then 0 else UnsignedBigEndian(bs[..|bs| - 1]) * 0x100 + Unsigned(bs[|bs| - 1])
  }

  /** `NFCHelper.subByteArray(data, from, count)`, modelled as a slice of `data`. */
  function Slice(data: seq<byte>, from: int, count: int): (r: Result<seq<byte>, ParseError>)
    ensures r.Ok? <==> 0 <= from && 0 <= count && from + count <= |data|
    ensures r.Ok? ==> r.value == data[from..from + count]
    ensures r.Err? ==> r.error == SliceOutOfRange(from, count)
  {
    if 0 <= from && 0 <= count && from + count <= |data| then Ok(data[from..from + count])
    else Err(SliceOutOfRange(from, count))
  }

  /**
   * `parseNdefRecord(data)`. Reads happen in the order of the Java code, so the
   * error names the first access that fails (the long branch reads `data[5]`
   * before `data[2]`).
   */
  function Parse(data: seq<byte>): Result<Record, ParseError> {
    if |data| < 2 then Err(IndexOutOfBounds(|data|))
    else
      var header := data[0];
      var typeLength := Unsigned(data[1]);
      if HasFlag(header, SR) then
        if |data| < 3 then Err(IndexOutOfBounds(2))
        else ParseFields(data, header, Tnf(header), typeLength, Unsigned(data[2]), 3)
      else
        if |data| < 6 then Err(IndexOutOfBounds(5))
        else ParseFields(data, header, Tnf(header), typeLength, LongPayloadLength(data[2], data[3], data[4], data[5]), 6)
  }

  /** The rest of `parseNdefRecord` once the TNF and the payload length are known and `start` is 3 or 6. */
  function ParseFields(data: seq<byte>, header: byte, tnf: byte, typeLength: nat, payloadLength: int, start: nat)
    : (r: Result<Record, ParseError>)
    requires 0 < start <= |data|
    ensures var idStart := if HasFlag(header, IL) then start + 1 else start;
      r.Err? ==> (r.error.IndexOutOfBounds? <==> |data| < idStart)
  {
    if HasFlag(header, IL) && |data| <= start then Err(IndexOutOfBounds(start))
    else
      var idLength := if HasFlag(header, IL) then Unsigned(data[start]) else 0;
      var fieldsStart := if HasFlag(header, IL) then start + 1 else start;
      var recordType :- Slice(data, fieldsStart, typeLength);
      var id :- Slice(data, typeLength + fieldsStart, idLength);
      var payload :- Slice(data, typeLength + idLength + fieldsStart, payloadLength);
      Ok(Record(tnf, recordType, id, payload, typeLength + idLength + fieldsStart + payloadLength))
  }

  // ---------------------------------------------------------------------------
  // The layout of a record, stated field by field rather than step by step.

  /**
   * Number of bytes before the type field: the header byte, the type-length
   * byte, a one- or four-byte payload length and, with IL, the id-length byte.
   */
  function HeaderSize(header: byte): (n: nat)
    ensures n in {3, 4, 6, 7}
  {
    2 + (if HasFlag(header, SR) then 1 else 4) + (if HasFlag(header, IL) then 1 else 0)
  }

  /** The buffer holds the whole header block that its first byte announces. */
  predicate HeaderPresent(data: seq<byte>) {
    |data| > 0 && |data| >= HeaderSize(data[0])
  }

  /** The type length the header block declares (second byte, unsigned). */
  function DeclaredTypeLength(data: seq<byte>): nat
    requires HeaderPresent(data)
  {
    Unsigned(data[1])
  }

  /** The payload length the header block declares, as the parser reads it. */
  function DeclaredPayloadLength(data: seq<byte>): int
    requires HeaderPresent(data)
  {
    if HasFlag(data[0], SR) then Unsigned(data[2])
    else LongPayloadLength(data[2], data[3], data[4], data[5])
  }

  /** The id length the header block declares: its last byte when IL is set, else 0. */
  function DeclaredIdLength(data: seq<byte>): nat
    requires HeaderPresent(data)
  {
    if HasFlag(data[0], IL) then Unsigned(data[HeaderSize(data[0]) - 1]) else 0
  }

  /** Offset one past the last payload byte, by the declared lengths. */
  function RecordEnd(data: seq<byte>): int
    requires HeaderPresent(data)
  {
    HeaderSize(data[0]) + DeclaredTypeLength(data) + DeclaredIdLength(data) + DeclaredPayloadLength(data)
  }

  /** Every field the header block declares lies inside the buffer. */
  predicate WithinBounds(data: seq<byte>) {
    HeaderPresent(data) && 0 <= DeclaredPayloadLength(data) && RecordEnd(data) <= |data|
  }

  /** The decoder succeeds exactly when every declared field fits in the buffer. */
  lemma ParseSucceedsIff(data: seq<byte>)
    ensures Parse(data).Ok? <==> WithinBounds(data)
    ensures Parse(data).Err? ==> (Parse(data).error.IndexOutOfBounds? <==> !HeaderPresent(data))
  {
  }

  /** The record the layout describes. */
  function Layout(data: seq<byte>): Record
    requires WithinBounds(data)
  {
    Cut(data, Tnf(data[0]), HeaderSize(data[0]), DeclaredTypeLength(data), DeclaredIdLength(data), DeclaredPayloadLength(data))
  }

  /** The record whose fields follow one another from `s` on, with the given lengths. */
  function Cut(data: seq<byte>, tnf: byte, s: nat, tl: nat, il: nat, pl: nat): (r: Record)
    requires s + tl + il + pl <= |data|
    ensures r.tnf == tnf && r.length == s + tl + il + pl
  {
    Record(tnf, data[s..s + tl], data[tl + s..tl + s + il], data[tl + il + s..tl + il + s + pl], tl + il + s + pl)
  }

  /**
   * A successful decode is the record the layout describes: the TNF computed
   * from the header byte, and type, id and payload taken one after another from
   * the end of the header block, each exactly as long as declared.
   */
  lemma ParseIsLayout(data: seq<byte>)
    requires WithinBounds(data)
    ensures Parse(data) == Ok(Layout(data))
  {
    var start := if HasFlag(data[0], SR) then 3 else 6;
    var s, tl, il, pl := HeaderSize(data[0]), DeclaredTypeLength(data), DeclaredIdLength(data), DeclaredPayloadLength(data);
    assert s == if HasFlag(data[0], IL) then start + 1 else start;
    assert il == if HasFlag(data[0], IL) then Unsigned(data[start]) else 0;
    assert Parse(data) == ParseFields(data, data[0], Tnf(data[0]), tl, pl, start);
    ParseFieldsFit(data, data[0], Tnf(data[0]), tl, pl, start);
  }

  /** When every field fits, the field stage returns the three consecutive slices. */
  lemma ParseFieldsFit(data: seq<byte>, header: byte, tnf: byte, typeLength: nat, payloadLength: int, start: nat)
    requires 0 < start <= |data|
    requires HasFlag(header, IL) ==> start < |data|
    requires var fs := if HasFlag(header, IL) then start + 1 else start;
      var il := if HasFlag(header, IL) then Unsigned(data[start]) else 0;
      0 <= payloadLength && fs + typeLength + il + payloadLength <= |data|
    ensures var fs := if HasFlag(header, IL) then start + 1 else start;
      var il := if HasFlag(header, IL) then Unsigned(data[start]) else 0;
      ParseFields(data, header, tnf, typeLength, payloadLength, start) == Ok(Cut(data, tnf, fs, typeLength, il, payloadLength))
  {
  }

  /** With SR set the payload length is the third byte read unsigned, and the fields start at offset 3 (4 with IL). */
  lemma ShortRecordLayout(data: seq<byte>)
    requires Parse(data).Ok? && HasFlag(data[0], SR)
    ensures |Parse(data).value.payload| == Unsigned(data[2])
    ensures |Parse(data).value.recordType| == Unsigned(data[1])
    ensures HeaderSize(data[0]) == if HasFlag(data[0], IL) then 4 else 3
  {
    ParseSucceedsIff(data);
    ParseIsLayout(data);
  }

  /**
   * With SR clear the payload length is the signed-byte sum over offsets 2 to 5,
   * and the fields start at offset 6 (7 with IL).
   */
  lemma LongRecordLayout(data: seq<byte>)
    requires Parse(data).Ok? && !HasFlag(data[0], SR)
    ensures |Parse(data).value.payload| == LongPayloadLength(data[2], data[3], data[4], data[5])
    ensures |Parse(data).value.recordType| == Unsigned(data[1])
    ensures HeaderSize(data[0]) == if HasFlag(data[0], IL) then 7 else 6
  {
    ParseSucceedsIff(data);
    ParseIsLayout(data);
  }

  /**
   * With IL set the id is as long as the byte right after the payload length,
   * read unsigned, and that byte moves the fields by exactly one; with IL clear
   * the id is empty.
   */
  lemma IdLayout(data: seq<byte>)
    requires Parse(data).Ok?
    ensures var lengthEnd := if HasFlag(data[0], SR) then 3 else 6;
      if HasFlag(data[0], IL) then
        |Parse(data).value.id| == Unsigned(data[lengthEnd]) && HeaderSize(data[0]) == lengthEnd + 1
      else
        Parse(data).value.id == [] && HeaderSize(data[0]) == lengthEnd
  {
    ParseSucceedsIff(data);
    ParseIsLayout(data);
  }

  /**
   * Type, id and payload are consecutive and together fill the buffer from the
   * end of the header block up to `length`, so `length` is the offset at which
   * the next record starts.
   */
  lemma FieldsContiguous(data: seq<byte>)
    requires Parse(data).Ok?
    ensures var r := Parse(data).value;
      HeaderPresent(data) &&
      r.length == HeaderSize(data[0]) + |r.recordType| + |r.id| + |r.payload| &&
      r.length <= |data| &&
      data[HeaderSize(data[0])..r.length] == r.recordType + r.id + r.payload
  {
    ParseSucceedsIff(data);
    ParseIsLayout(data);
    CutContiguous(data, Tnf(data[0]), HeaderSize(data[0]), DeclaredTypeLength(data), DeclaredIdLength(data), DeclaredPayloadLength(data));
  }

  /** The three fields `Cut` takes are back to back and end at its `length`. */
  lemma CutContiguous(data: seq<byte>, tnf: byte, s: nat, tl: nat, il: nat, pl: nat)
    requires s + tl + il + pl <= |data|
    ensures var r := Cut(data, tnf, s, tl, il, pl);
      r.length == s + |r.recordType| + |r.id| + |r.payload| &&
      data[s..r.length] == r.recordType + r.id + r.payload
  {
    SliceSplits(data, s, tl + s, tl + il + s, tl + il + s + pl);
  }

  /**
   * Bit `k` of the computed TNF is set exactly when header bits `k`, `k - 1`
   * and `k - 2` all are; below bit 2 one of them is missing and counts as clear.
   */
  lemma TnfBits(header: byte, k: nat)
    requires k < 8
    ensures Bit(Tnf(header), k) <==>
      k >= 2 && Bit(header, k) && Bit(header, k - 1) && Bit(header, k - 2)
  {
    if k == 0 {
    } else if k == 1 {
    } else if k == 2 {
    } else if k == 3 {
    } else if k == 4 {
    } else if k == 5 {
    } else if k == 6 {
    } else {
    }
  }

  /** A parsed record's TNF is 0 or 4 whenever it is one of the eight codes, so only two names can ever be reported. */
  lemma ParsedTnfName(header: byte)
    ensures 0 <= Signed(Tnf(header)) <= 7 ==> Tnf(header) in {TNF_EMPTY, TNF_EXTERNAL_TYPE}
    ensures TnfName(Tnf(header)) in {Some("TNF_EMPTY"), Some("TNF_EXTERNAL_TYPE"), None}
  {
  }

  /** The eight codes have eight different names. */
  lemma TnfNamesDistinct(a: byte, b: byte)
    requires TnfName(a).Some? && a != b
    ensures TnfName(a) != TnfName(b)
  {
  }

  lemma SliceSplits(data: seq<byte>, a: nat, b: nat, c: nat, e: nat)
    requires a <= b <= c <= e <= |data|
    ensures data[a..e] == data[a..b] + data[b..c] + data[c..e]
  {
    assert data[a..e] == data[a..b] + data[b..e];
    assert data[b..e] == data[b..c] + data[c..e];
  }

  // ---------------------------------------------------------------------------
  // The long-record payload length against the unsigned big-endian reading.

  lemma UnsignedBigEndianSnoc(bs: seq<byte>, b: byte)
    ensures UnsignedBigEndian(bs + [b]) == UnsignedBigEndian(bs) * 0x100 + Unsigned(b)
  {
    assert (bs + [b])[..|bs|] == bs;
  }

  /**
   * The signed-byte sum falls short of the unsigned big-endian value of the same
   * four bytes by 2^8, 2^16, 2^24 and 2^32 for each of the bytes at offsets 5, 4,
   * 3 and 2 whose top bit is set.
   */
  lemma LongPayloadLengthDeficit(b2: byte, b3: byte, b4: byte, b5: byte)
    ensures LongPayloadLength(b2, b3, b4, b5) ==
      UnsignedBigEndian([b2, b3, b4, b5])
      - (if b5 >= 0x80 then 0x100 else 0)
      - (if b4 >= 0x80 then 0x1_0000 else 0)
      - (if b3 >= 0x80 then 0x100_0000 else 0)
      - (if b2 >= 0x80 then 0x1_0000_0000 else 0)
  {
    UnsignedBigEndianSnoc([], b2);
    assert [b2] + [b3] == [b2, b3];
    UnsignedBigEndianSnoc([b2], b3);
    assert [b2, b3] + [b4] == [b2, b3, b4];
    UnsignedBigEndianSnoc([b2, b3], b4);
    assert [b2, b3, b4] + [b5] == [b2, b3, b4, b5];
    UnsignedBigEndianSnoc([b2, b3, b4], b5);
  }

  /** The long-record payload length is the big-endian unsigned value exactly when no length byte has its top bit set. */
  lemma LongPayloadLengthIsBigEndian(b2: byte, b3: byte, b4: byte, b5: byte)
    ensures LongPayloadLength(b2, b3, b4, b5) == UnsignedBigEndian([b2, b3, b4, b5]) <==>
      b2 < 0x80 && b3 < 0x80 && b4 < 0x80 && b5 < 0x80
  {
    LongPayloadLengthDeficit(b2, b3, b4, b5);
  }
}
