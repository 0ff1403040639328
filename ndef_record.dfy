/**
 * The `NdefRecord` object: a constructor that runs the decoder over a byte
 * array and stores its results in fields, getters that hand out copies of
 * the stored arrays, and setters for subclasses.
 */
module NdefRecordObject {
  import opened Wrappers
  import opened JavaBytes
  import opened NdefParse

  /** `NFCHelper.subByteArray`: an array holding `count` bytes of `data` from `from` on. */
  method SubByteArray(data: array<byte>, from: int, count: int) returns (r: array<byte>)
    requires 0 <= from && 0 <= count && from + count <= data.Length
    ensures r[..] == data[..][from..from + count]
  {
    r := new byte[count](i requires 0 <= i < count reads data => data[from + i]);
  }

  /**
   * The header block of `parseNdefRecord`: the TNF from the first byte, the
   * type length from the second, the payload length from one byte (SR set) or
   * four, the id length from the byte after it when IL is set, and `start`,
   * the offset just past the block.
   */
  method ReadHeaderBlock(data: array<byte>) returns (tnf: byte, typeLength: nat, payloadLength: int, idLength: nat, start: nat)
    requires HeaderPresent(data[..])
    ensures tnf == Tnf(data[0]) && start == HeaderSize(data[0])
    ensures typeLength == DeclaredTypeLength(data[..]) && idLength == DeclaredIdLength(data[..])
    ensures payloadLength == DeclaredPayloadLength(data[..])
  {
    var header := data[0];
    tnf := Tnf(header);
    typeLength := Unsigned(data[1]);
    if HasFlag(header, SR) {
      payloadLength := Unsigned(data[2]);
      start := 3;
    } else {
      payloadLength := LongPayloadLength(data[2], data[3], data[4], data[5]);
      start := 6;
    }
    if HasFlag(header, IL) {
      idLength := Unsigned(data[start]);
      start := start + 1;
    } else {
      idLength := 0;
    }
  }

  /** Java's `clone()` of a byte array: a new array with the same contents. */
  method Clone(a: array<byte>) returns (r: array<byte>)
    ensures fresh(r) && r[..] == a[..]
  {
    r := new byte[a.Length](i requires 0 <= i < a.Length reads a => a[i]);
  }

  class NdefRecord {
    var tnf: byte
    var recordType: array?<byte>
    var id: array?<byte>
    var payload: array?<byte>
    var length: int

    /** The fields hold the decoded record `rec`. */
    ghost predicate Holds(rec: Record)
      reads this, recordType, id, payload
    {
      && recordType != null && id != null && payload != null
      && tnf == rec.tnf
      && recordType[..] == rec.recordType
      && id[..] == rec.id
      && payload[..] == rec.payload
      && length == rec.length
    }

    /** `new NdefRecord(data)`: decodes `data`, which must hold a whole record. */
    constructor (data: array<byte>)
      requires Parse(data[..]).Ok?
      ensures Holds(Parse(data[..]).value)
    {
      new;
      ParseSucceedsIff(data[..]);
      ParseIsLayout(data[..]);
      ParseNdefRecord(data);
    }

    /** `getTnf`: the stored TNF byte widened to a Java `short`. */
    function GetTnf(): (t: int)
      reads this
      ensures -0x80 <= t < 0x80 && (t - Unsigned(tnf)) % 0x100 == 0
    {
      Signed(tnf)
    }

    /** `getTnfAsString` over the stored TNF. */
    function GetTnfAsString(): (name: Option<string>)
      reads this
      ensures name.Some? <==> 0 <= GetTnf() <= 7
    {
      TnfName(tnf)
    }

    /**
     * `parseNdefRecord`: the header block gives the TNF, the lengths and the
     * offset `start`; the three fields are then cut out from `start` on, and
     * `length` is the offset past the payload.
     */
    method ParseNdefRecord(data: array<byte>)
      requires WithinBounds(data[..])
      modifies this
      ensures Holds(Layout(data[..]))
    {
      ghost var d := data[..];
      var typeLength, payloadLength, idLength, start;
      tnf, typeLength, payloadLength, idLength, start := ReadHeaderBlock(data);
      StoreFields(data, start, typeLength, idLength, payloadLength);
      length := typeLength + idLength + start + payloadLength;
      assert Holds(Cut(d, tnf, start, typeLength, idLength, payloadLength));
    }

    /** The three `subByteArray` calls of `parseNdefRecord`, in its order and with its offsets. */
    method StoreFields(data: array<byte>, start: nat, typeLength: nat, idLength: nat, payloadLength: nat)
      requires start + typeLength + idLength + payloadLength <= data.Length
      modifies this
      ensures tnf == old(tnf) && length == old(length) && data[..] == old(data[..])
      ensures recordType != null && id != null && payload != null
      ensures recordType[..] == data[..][start..start + typeLength]
      ensures id[..] == data[..][typeLength + start..typeLength + start + idLength]
      ensures payload[..] == data[..][typeLength + idLength + start..typeLength + idLength + start + payloadLength]
    {
      recordType := SubByteArray(data, start, typeLength);
      id := SubByteArray(data, typeLength + start, idLength);
      payload := SubByteArray(data, typeLength + idLength + start, payloadLength);
    }

    /** `getType`: a fresh copy of the stored type. */
    method GetType() returns (r: array<byte>)
      requires recordType != null
      ensures fresh(r) && r[..] == recordType[..]
    {
      r := Clone(recordType);
    }

    /** `getId`: a fresh copy of the stored id. */
    method GetId() returns (r: array<byte>)
      requires id != null
      ensures fresh(r) && r[..] == id[..]
    {
      r := Clone(id);
    }

    /** `getPayload`: a fresh copy of the stored payload. */
    method GetPayload() returns (r: array<byte>)
      requires payload != null
      ensures fresh(r) && r[..] == payload[..]
    {
      r := Clone(payload);
    }

    /** `getLength`: the stored total length. */
    function GetLength(): (n: int)
      reads this
      ensures n == length
    {
      length
    }

    /** `setTnf`: overwrites the TNF and nothing else. */
    method SetTnf(t: byte)
      modifies this`tnf
      ensures tnf == t
    {
      tnf := t;
    }

    /** `setType`: stores the caller's array itself, not a copy. */
    method SetType(t: array?<byte>)
      modifies this`recordType
      ensures recordType == t
    {
      recordType := t;
    }

    /** `setId`: stores the caller's array itself, not a copy. */
    method SetId(i: array?<byte>)
      modifies this`id
      ensures id == i
    {
      id := i;
    }

    /** `setPayload`: stores the caller's array itself, not a copy. */
    method SetPayload(p: array?<byte>)
      modifies this`payload
      ensures payload == p
    {
      payload := p;
    }

    /** `setLength`: overwrites the total length and nothing else. */
    method SetLength(n: int)
      modifies this`length
      ensures length == n
    {
      length := n;
    }
  }

  /**
   * What the copying getters buy a caller: writing into the array `GetType`
   * returned changes neither the stored type nor what the next `GetType`
   * returns.
   */
  method WriteIntoReturnedType(rec: NdefRecord, i: nat, v: byte) returns (copy: array<byte>, again: array<byte>)
    requires rec.recordType != null && i < rec.recordType.Length
    ensures copy.Length == rec.recordType.Length && copy[i] == v
    ensures rec.recordType[..] == old(rec.recordType[..])
    ensures again[..] == old(rec.recordType[..])
  {
    copy := rec.GetType();
    copy[i] := v;
    again := rec.GetType();
  }
}
