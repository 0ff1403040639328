# NDEF record decoder — a Dafny model

This project models `NdefRecord` from the java-android-beam-api access-control
reader (`nfc/src/main/java/de/estudent/accesscontrol/nfc/ndef/NdefRecord.java`).
An `NdefRecord` is built from a byte buffer that holds one NDEF record. The
layout follows section 3.2 of the NFC Forum NDEF Technical Specification 1.0:
- a header byte with the flags MB, ME, CF, SR and IL and a type name format (TNF);
- a type-length byte;
- a payload length of one byte (SR set) or four bytes (SR clear);
- an id-length byte when IL is set;
- then the type, id and payload fields.

`parseNdefRecord` reads those fields without any validation and stores them in
the object. Getters hand out copies of the stored arrays, and protected setters
overwrite the fields.

The project has six modules:

- `JavaBytes` (`java_bytes.dfy`) models a Java `byte` as its eight bits, held
  as the unsigned value 0..255. It provides the two readings the decoder uses:
  `b & 0xFF` (`Unsigned`) and sign extension (`Signed`). It also converts to
  `bv8` for Java's bitwise operators.
- `NdefParse` (`ndef_parse.dfy`) holds the decoder as a pure function, `Parse`.
  It makes the same reads in the same order as the Java code. A read past the
  end of the buffer becomes `Err(IndexOutOfBounds(i))`, where `i` is the first
  index Java would read out of range. A sub-array request that does not fit
  becomes `Err(SliceOutOfRange(from, count))`. Next to it, a declarative
  description of the layout: `HeaderSize`, the declared lengths, `WithinBounds`
  and `Layout`. The lemmas connect the decoder to that layout, and state the
  TNF and payload-length computations bit by bit.
- `NdefEncoding` (`ndef_encoding.dfy`) is the partner of the decoder: `Encode`
  writes a record in the standard layout. `ParseCorrected` is the decoder with
  its two defects fixed (see Findings). The round-trip lemmas show which
  encoded records each decoder reads back.
- `NdefFindings` (`ndef_findings.dfy`) shows each defect on a concrete record.
- `NdefRecordObject` (`ndef_record.dfy`) models the Java object itself. The
  class `NdefRecord` has the fields `tnf`, `recordType` (Java's `type`, which
  is a Dafny keyword), `id`, `payload` and `length`. `ParseNdefRecord` is the
  imperative method that assigns them step by step. It runs the header block
  (`ReadHeaderBlock`: the TNF, the lengths and the `start` offset) and then the
  three sub-array calls (`StoreFields`). It is proved to leave the object
  holding exactly `Layout(data[..])`, the record that `Parse` returns. The
  getters return fresh copies and the setters change one field each.
- `Wrappers` (`wrappers.dfy`) holds `Option` and `Result`.

The model follows the code as written, including two behaviours that disagree
with the NDEF record layout. The class declares the eight type name formats
`TNF_EMPTY` to `TNF_RESERVED` as the codes 0 to 7 (lines 58-65), and
`getTnfAsString` names exactly those eight codes (lines 81-102). That is the
3-bit TNF field of the record layout, the header's low three bits. The code
computes the TNF as `header & header << 1 & header << 2` instead (line 108).
For a well-known short record with header `0xD1`, this gives `TNF_EMPTY`
where the low three bits give `TNF_WELL_KNOWN`. The model computes what the
code computes, and `NdefFindings.TnfOfWellKnownRecord` states the difference.

## Model

| member | source | states |
|---|---|---|
| JavaBytes.Signed | nfc/src/main/java/de/estudent/accesscontrol/nfc/ndef/NdefRecord.java:121-122 | a byte used in `int` arithmetic is sign-extended: a value in -128..127, congruent to the byte's unsigned value modulo 256, equal to it exactly when the byte is below 0x80 |
| JavaBytes.Unsigned | nfc/src/main/java/de/estudent/accesscontrol/nfc/ndef/NdefRecord.java:110 | `b & 0xFF` reads a byte as a value in 0..255 (also at lines 117 and 126) |
| NdefParse.HasFlag | nfc/src/main/java/de/estudent/accesscontrol/nfc/ndef/NdefRecord.java:115 | `(header & mask) > 0` as a test on the header's eight bits; `FlagBits` states which bit each flag is |
| NdefParse.FlagBits | nfc/src/main/java/de/estudent/accesscontrol/nfc/ndef/NdefRecord.java:115-130 | the SR test reads header bit 4 and the IL test reads header bit 3 |
| NdefParse.LongPayloadLength | nfc/src/main/java/de/estudent/accesscontrol/nfc/ndef/NdefRecord.java:121-122 | the sign-extended sum `data[5] + (data[4] << 8) + (data[3] << 16) + (data[2] << 24)`; `LongPayloadLengthRange`, `LongPayloadLengthDeficit` and `LongPayloadLengthIsBigEndian` state its value |
| NdefParse.LongPayloadLengthRange | nfc/src/main/java/de/estudent/accesscontrol/nfc/ndef/NdefRecord.java:121-122 | the sum lies in -0x8080_8080..0x7F7F_7F7F: it never exceeds Java's `int` maximum, and it falls below the `int` minimum exactly when offset 2 holds 0x80 and the lower three bytes sum to a negative value |
| NdefParse.Parse | nfc/src/main/java/de/estudent/accesscontrol/nfc/ndef/NdefRecord.java:104-139 | `parseNdefRecord` as a function from the buffer to the decoded record or the first failing access; `ParseSucceedsIff` states when it succeeds and `ParseIsLayout` what it returns |
| NdefParse.Tnf | nfc/src/main/java/de/estudent/accesscontrol/nfc/ndef/NdefRecord.java:108 | the TNF computed as `header & header << 1 & header << 2`, cast to `byte`, always has its two lowest bits clear |
| NdefParse.TnfBits | nfc/src/main/java/de/estudent/accesscontrol/nfc/ndef/NdefRecord.java:108 | bit k of the computed TNF is set exactly when header bits k, k-1 and k-2 are all set, so bits 0 and 1 are never set |
| NdefParse.TnfName | nfc/src/main/java/de/estudent/accesscontrol/nfc/ndef/NdefRecord.java:81-102 | `getTnfAsString` names a code exactly when the TNF, read as a signed byte, is 0..7, and returns null otherwise |
| NdefParse.TnfNamesDistinct | nfc/src/main/java/de/estudent/accesscontrol/nfc/ndef/NdefRecord.java:81-102 | two TNFs with a name have the same name only if they are the same code |
| NdefParse.ParsedTnfName | nfc/src/main/java/de/estudent/accesscontrol/nfc/ndef/NdefRecord.java:81-108 | for a TNF the parser computed, the name is TNF_EMPTY, TNF_EXTERNAL_TYPE or null; a computed TNF in 0..7 is 0 or 4 |
| NdefParse.Slice | nfc/src/main/java/de/estudent/accesscontrol/nfc/ndef/NdefRecord.java:132-137 | the sub-array call succeeds exactly when `from` and `count` are non-negative and the range fits, and then yields those bytes; otherwise it reports the range |
| NdefParse.ParseFields | nfc/src/main/java/de/estudent/accesscontrol/nfc/ndef/NdefRecord.java:125-139 | after the payload length, a failure is an index error exactly when the id-length byte (IL set) lies past the end of the buffer; every other failure is a sub-array range |
| NdefParse.HeaderSize | nfc/src/main/java/de/estudent/accesscontrol/nfc/ndef/NdefRecord.java:114-130 | the type field starts at 3, 4, 6 or 7 and nowhere else |
| NdefParse.ParseSucceedsIff | nfc/src/main/java/de/estudent/accesscontrol/nfc/ndef/NdefRecord.java:104-139 | decoding succeeds if and only if the header block is present, the declared payload length is non-negative and every declared field fits in the buffer; a failure is an index error exactly when the header block itself is cut short |
| NdefParse.ParseIsLayout | nfc/src/main/java/de/estudent/accesscontrol/nfc/ndef/NdefRecord.java:104-139 | a successful decode is the computed TNF plus type, id and payload taken back to back from the end of the header block with their declared lengths, and `length` is the end of the payload |
| NdefParse.ParseFieldsFit | nfc/src/main/java/de/estudent/accesscontrol/nfc/ndef/NdefRecord.java:125-139 | when every field fits, the three sub-array calls return consecutive slices starting after the id-length byte |
| NdefParse.ShortRecordLayout | nfc/src/main/java/de/estudent/accesscontrol/nfc/ndef/NdefRecord.java:115-118 | with SR set, the payload is as long as the third byte read unsigned, the type as long as the second byte, and the fields start at 3 (4 with IL) |
| NdefParse.LongRecordLayout | nfc/src/main/java/de/estudent/accesscontrol/nfc/ndef/NdefRecord.java:119-123 | with SR clear, the payload is as long as the signed-byte sum over offsets 2..5, and the fields start at 6 (7 with IL) |
| NdefParse.IdLayout | nfc/src/main/java/de/estudent/accesscontrol/nfc/ndef/NdefRecord.java:125-130 | with IL set, the id is as long as the byte after the payload length and moves the fields by one; with IL clear, the id is empty |
| NdefParse.FieldsContiguous | nfc/src/main/java/de/estudent/accesscontrol/nfc/ndef/NdefRecord.java:132-139 | type, id and payload fill the buffer back to back from the end of the header block, and `length` = header size + type + id + payload lengths, at most the buffer length |
| NdefParse.CutContiguous | nfc/src/main/java/de/estudent/accesscontrol/nfc/ndef/NdefRecord.java:132-139 | slices taken at `start`, `typeLength + start` and `typeLength + idLength + start` concatenate to the bytes from `start` to `length` |
| NdefParse.SliceSplits | nfc/src/main/java/de/estudent/accesscontrol/nfc/ndef/NdefRecord.java:132-137 | three adjacent sub-ranges concatenate to the whole range |
| NdefParse.LongPayloadLengthDeficit | nfc/src/main/java/de/estudent/accesscontrol/nfc/ndef/NdefRecord.java:121-122 | the signed-byte sum is the unsigned big-endian length minus 0x100, 0x1_0000, 0x100_0000 and 0x1_0000_0000 for each of offsets 5, 4, 3 and 2 whose top bit is set |
| NdefParse.LongPayloadLengthIsBigEndian | nfc/src/main/java/de/estudent/accesscontrol/nfc/ndef/NdefRecord.java:121-122 | the signed-byte sum equals the unsigned big-endian reading if and only if all four length bytes are below 0x80 |
| NdefEncoding.BigEndian | nfc/src/main/java/de/estudent/accesscontrol/nfc/ndef/NdefRecord.java:117-122 | a length written most significant byte first takes exactly the field width (1 or 4 bytes) |
| NdefEncoding.BigEndianRoundTrip | nfc/src/main/java/de/estudent/accesscontrol/nfc/ndef/NdefRecord.java:117-122 | reading back a big-endian length gives the number written |
| NdefEncoding.Encode | nfc/src/main/java/de/estudent/accesscontrol/nfc/ndef/NdefRecord.java:104-139 | an encoded record is exactly as long as its header block plus its three fields |
| NdefEncoding.StandardTnf | nfc/src/main/java/de/estudent/accesscontrol/nfc/ndef/NdefRecord.java:108 | the corrected TNF is one of the eight codes 0..7, with the same value signed and unsigned |
| NdefEncoding.ParseCorrected | nfc/src/main/java/de/estudent/accesscontrol/nfc/ndef/NdefRecord.java:104-139 | the decoder with the TNF masked to the low three bits and the four-byte length read unsigned; `ParseCorrectedRoundTrip` states that it reads back every encodable record |
| NdefEncoding.LengthReadsBack | nfc/src/main/java/de/estudent/accesscontrol/nfc/ndef/NdefRecord.java:115-123 | the payload-length field of an encoded record reads back unsigned and big-endian; the signed sum reads it back when its four bytes are below 0x80 |
| NdefEncoding.EncodeHeaderBlock | nfc/src/main/java/de/estudent/accesscontrol/nfc/ndef/NdefRecord.java:106-130 | in an encoded record, the header, type-length, payload-length and id-length bytes sit at the offsets the decoder reads, followed by the fields |
| NdefEncoding.FieldsAfterHeader | nfc/src/main/java/de/estudent/accesscontrol/nfc/ndef/NdefRecord.java:125-139 | once the lengths are read correctly, the field stage returns the fields written and their total length |
| NdefEncoding.FieldsOfTail | nfc/src/main/java/de/estudent/accesscontrol/nfc/ndef/NdefRecord.java:132-137 | fields written back to back are recovered by slicing at the cumulative offsets |
| NdefEncoding.ParseRoundTrip | nfc/src/main/java/de/estudent/accesscontrol/nfc/ndef/NdefRecord.java:104-139 | the decoder as written reads back every encodable record, trailing bytes included, whose long payload-length bytes are below 0x80; it returns the fields, the bytes consumed and the computed TNF |
| NdefEncoding.ParseCorrectedRoundTrip | nfc/src/main/java/de/estudent/accesscontrol/nfc/ndef/NdefRecord.java:104-139 | the corrected decoder reads back every encodable record with its standard TNF, its fields and the bytes consumed |
| NdefFindings.TnfOfWellKnownRecord | nfc/src/main/java/de/estudent/accesscontrol/nfc/ndef/NdefRecord.java:108 | the short well-known record with header 0xD1 decodes with TNF_EMPTY (named "TNF_EMPTY"), while the corrected decoder gives TNF_WELL_KNOWN |
| NdefFindings.StandardTnfRecoversCode | nfc/src/main/java/de/estudent/accesscontrol/nfc/ndef/NdefRecord.java:108 | masking with 0x07 recovers each TNF code whatever the flag bits |
| NdefFindings.LongRecordOf128Bytes | nfc/src/main/java/de/estudent/accesscontrol/nfc/ndef/NdefRecord.java:121-122 | a long record with a 128-byte payload has length 00 00 00 80, which reads as -128, so decoding fails on the payload sub-array; the corrected decoder reads the record |
| NdefFindings.LongRecordOf384Bytes | nfc/src/main/java/de/estudent/accesscontrol/nfc/ndef/NdefRecord.java:121-122 | a long record with a 384-byte payload has length 00 00 01 80, which reads as 128, so the decoder succeeds with the first 128 payload bytes and length 134; the corrected decoder returns the whole payload and length 390 |
| NdefRecordObject.SubByteArray | nfc/src/main/java/de/estudent/accesscontrol/nfc/ndef/NdefRecord.java:132-137 | the sub-array call yields the `count` bytes from `from` on |
| NdefRecordObject.ReadHeaderBlock | nfc/src/main/java/de/estudent/accesscontrol/nfc/ndef/NdefRecord.java:106-130 | the header block's branches yield the computed TNF, the declared type, payload and id lengths, and the header size as `start` |
| NdefRecordObject.Clone | nfc/src/main/java/de/estudent/accesscontrol/nfc/ndef/NdefRecord.java:150-160 | `clone()` returns a new array with the same contents |
| NdefRecordObject.NdefRecord.constructor | nfc/src/main/java/de/estudent/accesscontrol/nfc/ndef/NdefRecord.java:73-75 | a record built from a decodable buffer holds exactly what `Parse` returns for it |
| NdefRecordObject.NdefRecord.ParseNdefRecord | nfc/src/main/java/de/estudent/accesscontrol/nfc/ndef/NdefRecord.java:104-148 | when every declared field fits, the fields end up holding the computed TNF, the three consecutive slices and the end offset, as `Layout` describes |
| NdefRecordObject.NdefRecord.StoreFields | nfc/src/main/java/de/estudent/accesscontrol/nfc/ndef/NdefRecord.java:132-137 | the three sub-array calls store the slices at `start`, `typeLength + start` and `typeLength + idLength + start`; TNF, length and the buffer stay unchanged |
| NdefRecordObject.NdefRecord.GetTnf | nfc/src/main/java/de/estudent/accesscontrol/nfc/ndef/NdefRecord.java:77-79 | the TNF widened to `short` is sign-extended: in -128..127 and congruent to the stored byte modulo 256 |
| NdefRecordObject.NdefRecord.GetTnfAsString | nfc/src/main/java/de/estudent/accesscontrol/nfc/ndef/NdefRecord.java:81-102 | there is a name exactly when `getTnf()` is 0..7 |
| NdefRecordObject.NdefRecord.GetType | nfc/src/main/java/de/estudent/accesscontrol/nfc/ndef/NdefRecord.java:150-152 | returns a freshly allocated array with the stored type's contents |
| NdefRecordObject.NdefRecord.GetId | nfc/src/main/java/de/estudent/accesscontrol/nfc/ndef/NdefRecord.java:154-156 | returns a freshly allocated array with the stored id's contents |
| NdefRecordObject.NdefRecord.GetPayload | nfc/src/main/java/de/estudent/accesscontrol/nfc/ndef/NdefRecord.java:158-160 | returns a freshly allocated array with the stored payload's contents |
| NdefRecordObject.NdefRecord.GetLength | nfc/src/main/java/de/estudent/accesscontrol/nfc/ndef/NdefRecord.java:162-164 | returns the stored total length |
| NdefRecordObject.NdefRecord.SetTnf | nfc/src/main/java/de/estudent/accesscontrol/nfc/ndef/NdefRecord.java:166-168 | overwrites the TNF and no other field |
| NdefRecordObject.NdefRecord.SetType | nfc/src/main/java/de/estudent/accesscontrol/nfc/ndef/NdefRecord.java:170-172 | stores the caller's array itself (no copy) and no other field |
| NdefRecordObject.NdefRecord.SetId | nfc/src/main/java/de/estudent/accesscontrol/nfc/ndef/NdefRecord.java:174-176 | stores the caller's array itself (no copy) and no other field |
| NdefRecordObject.NdefRecord.SetPayload | nfc/src/main/java/de/estudent/accesscontrol/nfc/ndef/NdefRecord.java:178-180 | stores the caller's array itself (no copy) and no other field |
| NdefRecordObject.NdefRecord.SetLength | nfc/src/main/java/de/estudent/accesscontrol/nfc/ndef/NdefRecord.java:182-184 | overwrites the total length and no other field |
| NdefRecordObject.WriteIntoReturnedType | nfc/src/main/java/de/estudent/accesscontrol/nfc/ndef/NdefRecord.java:150-152 | writing into the array `getType` returned changes neither the stored type nor what the next `getType` returns |

## Left out

- Logging (`LOG.debug`, lines 116, 120 and 141-147) is left out: it does not affect the fields.
- `parserThread` and `getParserThread` are left out: this class never assigns the thread.
- The flag constants `FLAG_MB`, `FLAG_ME` and `FLAG_CF` are left out: the decoder never reads them.
- `NFCHelper.subByteArray` is not part of this model. It is modelled as taking `count` bytes from `from`, with the range in bounds. Whether it copies and how it fails out of range are not modelled, so `SubByteArray` does not promise a fresh array.
- NdefRecordObject.NdefRecord.constructor: Java's exception path is not modelled. The constructor requires a buffer that `Parse` decodes, and `ParseNdefRecord` requires `WithinBounds`. The failing cases, and which read fails first, are modelled on values by `Parse` and `ParseSucceedsIff`. The fields a failing constructor has already assigned before the exception are not modelled.
- A `null` buffer (a `NullPointerException` in Java) is left out: Dafny's `array<byte>` is never null.
- NdefParse.LongPayloadLength does not model Java's 32-bit wrap-around. As `LongPayloadLengthRange` states, the sum never exceeds the `int` maximum. It falls below -2^31 exactly when offset 2 holds 0x80 and `Signed(b5) + Signed(b4) * 2^8 + Signed(b3) * 2^16` is negative. Java then wraps to a large positive count, where the model keeps a negative one. Either way the payload sub-array fails unless the buffer is over 2 GB, so only the count in the reported error differs. The `length` sum is likewise unbounded here, and it can only overflow for a buffer over 2 GB.
- NdefRecordObject.NdefRecord.GetType, GetId and GetPayload require the field to be non-null. Java throws a `NullPointerException` after a setter stored `null`, and the model does not include that exception.
- The class keeps the TNF and payload-length computations as written. The corrected decoder `ParseCorrected` is used only by the encoding lemmas and the findings.

## Findings

| source | as written | input that shows it | evidently intended | confidence | as-written member | corrected member |
|---|---|---|---|---|---|---|
| nfc/src/main/java/de/estudent/accesscontrol/nfc/ndef/NdefRecord.java:108 | the TNF is `header & header << 1 & header << 2` | the short well-known record `D1 01 03 54 61 67 21` decodes with TNF 0 (TNF_EMPTY) | the TNF is `header & 0x07`, which is 1 (TNF_WELL_KNOWN) here | not executed | NdefFindings.TnfOfWellKnownRecord | NdefEncoding.StandardTnf |
| nfc/src/main/java/de/estudent/accesscontrol/nfc/ndef/NdefRecord.java:121-122 | the four payload-length bytes are sign-extended before shifting and adding | a long record with a 128-byte payload, length bytes `00 00 00 80`, reads its length as -128, so the payload sub-array fails; with a 384-byte payload (`00 00 01 80`, `NdefFindings.LongRecordOf384Bytes`) the length reads as 128 and the decoder succeeds with a truncated payload | the bytes are read unsigned, big-endian, giving 128 | not executed | NdefFindings.LongRecordOf128Bytes | NdefEncoding.ParseCorrectedRoundTrip |

`NdefFindings.StandardTnfRecoversCode` and `NdefEncoding.ParseCorrectedRoundTrip` prove the intended behaviour of the corrected decoder: every TNF code comes back whatever the flag bits, and every encodable record reads back. `NdefParse.LongPayloadLengthIsBigEndian` states which length fields the code as written still reads correctly.
