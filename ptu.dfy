/** The PTU header writer (th260/ptu_format.py, tab_string, write_tag and write_ptu),
    with the tag table and type codes of th260/th260definitions.py. The writer is a
    pure function to bytes; a reader of the same layout is its partner, and the
    round-trip lemmas say that reading a written header gives back every tag. */
module Ptu {
  import opened Bits
  import opened Wrappers

  // ---------------------------------------------------------------------
  // Constants of the container format
  // ---------------------------------------------------------------------

  const MagicLength: nat := 8        // BITSLEN_MAGIC
  const VersionLength: nat := 8      // BITSLEN_VERSION
  const TagIdLength: nat := 32       // BITSLEN_TAG_ID
  const TagIndexLength: nat := 4     // BITSLEN_TAG_IDX
  const TagTypeCodeLength: nat := 4  // BITSLEN_TAG_TYPECODE
  const TagValueLength: nat := 8     // BITSLEN_TAG_VALUE

  /** The 48 bytes every tag starts with: id, index, type code and value field. */
  const TagFixedLength: nat := 48

  const TttrMagic: string := "PQTTTR"
  const FileVersion: string := "1.1.00"
  const HeaderEnd: string := "Header_End"

  /** The tag value types of type_code. */
  datatype TagType =
    | Empty8 | Bool8 | Int8 | BitSet64 | Color8 | Float8 | TDateTime
    | Float8Array | AsciiString | WideString | BinaryBlob

  /** type_code: the 32-bit code written for each value type. */
  function TypeCode(t: TagType): (code: nat)
    ensures code < 0x1_0000_0000
  {
    match t
    case Empty8 => 0xFFFF_0008
    case Bool8 => 0x0000_0008
    case Int8 => 0x1000_0008
    case BitSet64 => 0x1100_0008
    case Color8 => 0x1200_0008
    case Float8 => 0x2000_0008
    case TDateTime => 0x2100_0008
    case Float8Array => 0x2001_FFFF
    case AsciiString => 0x4001_FFFF
    case WideString => 0x4002_FFFF
    case BinaryBlob => 0xFFFF_FFFF
  }

  /** The value type a type code stands for; None for a code of no type. */
  function TypeOfCode(code: nat): (t: Option<TagType>)
    ensures t.Some? ==> TypeCode(t.value) == code
  {
    if code == 0xFFFF_0008 then Some(Empty8)
    else if code == 0x0000_0008 then Some(Bool8)
    else if code == 0x1000_0008 then Some(Int8)
    else if code == 0x1100_0008 then Some(BitSet64)
    else if code == 0x1200_0008 then Some(Color8)
    else if code == 0x2000_0008 then Some(Float8)
    else if code == 0x2100_0008 then Some(TDateTime)
    else if code == 0x2001_FFFF then Some(Float8Array)
    else if code == 0x4001_FFFF then Some(AsciiString)
    else if code == 0x4002_FFFF then Some(WideString)
    else if code == 0xFFFF_FFFF then Some(BinaryBlob)
    else None
  }

  /** Distinct types have distinct codes, so a reader recovers the type. */
  lemma TypeCodeRoundTrip(t: TagType)
    ensures TypeOfCode(TypeCode(t)) == Some(t)
  {
  }

  /** The types whose value field is a length followed by a padded payload. */
  predicate IsArray(t: TagType)
  {
    t.Float8Array? || t.AsciiString? || t.WideString? || t.BinaryBlob?
  }

  /** The array types whose payload is NUL-terminated text. */
  predicate IsString(t: TagType)
  {
    t.AsciiString? || t.WideString?
  }

  /** tag_types: the value type of every tag id the writer knows. */
  const TagTypes: map<string, TagType> := map[
    "File_GUID" := AsciiString,
    "Measurement_Mode" := Int8,
    "Measurement_SubMode" := Int8,
    "MeasDesc_GlobalResolution" := Float8,
    "MeasDesc_Resolution" := Float8,
    "TTResult_SyncRate" := Int8,
    "TTResult_NumberOfRecords" := Int8,
    "TTResultFormat_TTTRRecType" := Int8,
    "TTResultFormat_BitsPerRecord" := Int8,
    "CreatorSW_Name" := AsciiString,
    "CreatorSW_Version" := AsciiString,
    "CreatorSW_ContentVersion" := AsciiString,
    "MeasDesc_AcquisitionTime" := Int8,
    "File_AssuredContent" := AsciiString,
    "MeasDesc_StopAt" := Int8,
    "MeasDesc_StopOnOvfl" := Bool8,
    "MeasDesc_Restart" := Bool8,
    "TTResult_StopReason" := Int8,
    "TTResult_InputRate" := Int8,
    "File_Comment" := AsciiString,
    "MeasDesc_BinningFactor" := Int8,
    "MeasDesc_Offset" := Int8,
    "HWSync_Divider" := Int8,
    "HWSync_Offset" := Int8,
    "HWInputChan_Offset" := Int8,
    "HWSync_CFDZeroCross" := Int8,
    "HWSync_CFDLevel" := Int8,
    "HWInputChan_CFDZeroCross" := Int8,
    "HWInputChan_CFDLevel" := Int8,
    "HWSync_TrgEdge" := Int8,
    "HWSync_TrgLevel" := Int8,
    "HWInpChan_TrgEdge" := Int8,
    "HWInpChan_TrgLevel" := Int8,
    "Header_End" := Empty8
  ]

  // ---------------------------------------------------------------------
  // Text as bytes
  // ---------------------------------------------------------------------

  /** The UTF-8 encoding of one character. */
  function Utf8Char(c: char): (b: seq<byte>)
    ensures 1 <= |b| <= 4
    ensures (|b| == 1) <==> (c as int < 0x80)
    ensures |b| == 1 ==> b[0] == c as int
  {
    var n := c as int;
    if n < 0x80 then [n]
    else if n < 0x800 then [0xC0 + n / 0x40, 0x80 + n % 0x40]
    else if n < 0x1_0000 then [0xE0 + n / 0x1000, 0x80 + (n / 0x40) % 0x40, 0x80 + n % 0x40]
    else [0xF0 + n / 0x4_0000, 0x80 + (n / 0x1000) % 0x40, 0x80 + (n / 0x40) % 0x40, 0x80 + n % 0x40]
  }

  /** str.encode(): the UTF-8 encoding of a string. */
  function Utf8(s: string): (b: seq<byte>)
    ensures |s| <= |b| <= 4 * |s|
  {
    if s == [] then [] else Utf8Char(s[0]) + Utf8(s[1..])
  }

  /** Every character is ASCII. */
  predicate IsAscii(s: string)
  {
    forall i :: 0 <= i < |s| ==> s[i] as int < 0x80
  }

  /** An ASCII string encodes to one byte per character, its code. */
  lemma {:induction false} Utf8Ascii(s: string)
    requires IsAscii(s)
    ensures |Utf8(s)| == |s|
    ensures forall i :: 0 <= i < |s| ==> Utf8(s)[i] == s[i] as int
  {
    if s != [] {
      Utf8Ascii(s[1..]);
    }
  }

  /** tab_string: the bytes followed by zeros up to the given length. */
  function TabString(b: seq<byte>, length: nat): (r: seq<byte>)
    requires |b| <= length
    ensures |r| == length
    ensures r[..|b|] == b
    ensures forall k :: |b| <= k < length ==> r[k] == 0
  {
    b + Zeros(length - |b|)
  }

  // ---------------------------------------------------------------------
  // One tag
  // ---------------------------------------------------------------------

  /** A tags-dict key: a tag id alone, or (tag id, index) for per-channel tags. */
  datatype TagKey = TagKey(id: string, index: Option<int>)

  /** The 8 bytes struct.pack("<d", x) produces for a float x. */
  type FloatImage = s: seq<byte> | |s| == 8 witness [0, 0, 0, 0, 0, 0, 0, 0]

  /** The Python values the writer accepts. Floats are given by their 8-byte image
      and strings by their encoded bytes. */
  datatype TagValue =
    | NoValue                        // None
    | Integer(i: int)                // int or bool
    | Float(image: FloatImage)       // float
    | Bytes(b: seq<byte>)            // bytes
    | Text(text: seq<byte>)          // str, as value.encode('UTF8')
    | FloatList(images: seq<FloatImage>)   // a list of floats

  /** KeyError on an unknown id; the ValueError of tab_string for an id longer than
      its field; OverflowError from to_bytes for an index or value that
      does not fit its field; the TypeError or AttributeError of a value of the wrong
      Python type. */
  datatype TagError = UnknownTag | IdTooLong | IndexOutOfRange | ValueOutOfRange | WrongValue

  /** The 4-byte index field: little-endian, or four 0xFF bytes when there is none. */
  function IndexField(index: Option<int>): (r: Result<seq<byte>, TagError>)
    ensures r.Ok? <==> index.None? || 0 <= index.value < 0x1_0000_0000
    ensures r.Ok? ==> |r.value| == TagIndexLength
    ensures r.Ok? ==> FromLittleEndian(r.value) == if index.None? then 0xFFFF_FFFF else index.value
  {
    match index
    case None =>
      AllOnesIndex();
      Ok([0xFF, 0xFF, 0xFF, 0xFF])
    case Some(i) =>
      if 0 <= i < 0x1_0000_0000 then
        assert Pow256(4) == 0x1_0000_0000;
        LittleEndianRoundTrip(i, TagIndexLength);
        Ok(LittleEndian(i, TagIndexLength))
      else Err(IndexOutOfRange)
  }

  /** length += (8 - length % 8) % 8: the least multiple of 8 that is at least n. */
  function PaddedLength(n: nat): (r: nat)
    ensures r % 8 == 0 && n <= r < n + 8
  {
    n + (8 - n % 8) % 8
  }

  /** The length field of an array type: the payload, plus a NUL for a string,
      rounded up to a multiple of 8. */
  function ArrayLength(t: TagType, payload: seq<byte>): (length: nat)
    ensures length % 8 == 0 && |payload| <= length
    ensures IsString(t) ==> |payload| < length
  {
    PaddedLength(|payload| + if IsString(t) then 1 else 0)
  }

  /** The payload of an array type, before it is NUL-terminated and padded. */
  function ArrayPayload(t: TagType, value: TagValue): (r: Result<seq<byte>, TagError>)
    requires IsArray(t)
  {
    match t
    case Float8Array => if value.FloatList? then Ok(Flatten(value.images)) else Err(WrongValue)
    case BinaryBlob => if value.Bytes? then Ok(value.b) else Err(WrongValue)
    case _ => if value.Text? then Ok(value.text) else Err(WrongValue)
  }

  /** The float images one after another, as the Float8Array loop builds them. */
  function Flatten(images: seq<FloatImage>): (r: seq<byte>)
    ensures |r| == 8 * |images|
  {
    if images == [] then [] else Flatten(images[..|images| - 1]) + images[|images| - 1]
  }

  /** The value part of a tag: the 8-byte value field, followed for array types by the
      padded payload whose length that field holds. */
  function ValuePart(t: TagType, value: TagValue): (r: Result<seq<byte>, TagError>)
  {
    match t
    case Empty8 => Ok(Zeros(TagValueLength))
    case Bool8 => IntegerField(value)
    case Int8 => IntegerField(value)
    case Float8 => if value.Float? then Ok(value.image) else Err(WrongValue)
    case BitSet64 => if value.Bytes? then Ok(value.b) else Err(WrongValue)
    case Color8 => if value.Bytes? then Ok(value.b) else Err(WrongValue)
    case TDateTime => if value.Bytes? then Ok(value.b) else Err(WrongValue)
    case _ =>
      match ArrayPayload(t, value)
      case Err(e) => Err(e)
      case Ok(payload) =>
        var length := ArrayLength(t, payload);
        if length < Pow256(TagValueLength) then
          Ok(LittleEndian(length, TagValueLength) + TabString(payload, length))
        else Err(ValueOutOfRange)
  }

  /** value.to_bytes(8, byteorder='little', signed=True). */
  function IntegerField(value: TagValue): (r: Result<seq<byte>, TagError>)
    ensures r.Ok? <==> value.Integer? && FitsSigned(value.i, TagValueLength)
    ensures r.Ok? ==> |r.value| == TagValueLength && FromSignedLittleEndian(r.value) == value.i
  {
    if !value.Integer? then Err(WrongValue)
    else if !FitsSigned(value.i, TagValueLength) then Err(ValueOutOfRange)
    else
      SignedLittleEndianRoundTrip(value.i, TagValueLength);
      Ok(SignedLittleEndian(value.i, TagValueLength))
  }

  /** write_tag once the type of the id is known: id field, index field, type code,
      then the value part. */
  function WriteTypedTag(t: TagType, id: string, index: Option<int>, value: TagValue): (r: Result<seq<byte>, TagError>)
    ensures r.Ok? <==> |Utf8(id)| <= TagIdLength && IndexField(index).Ok? && ValuePart(t, value).Ok?
    ensures r.Ok? ==> |r.value| == TagFixedLength - TagValueLength + |ValuePart(t, value).value|
  {
    if |Utf8(id)| > TagIdLength then Err(IdTooLong)
    else
      var idField := TabString(Utf8(id), TagIdLength);
      match IndexField(index)
      case Err(e) => Err(e)
      case Ok(indexField) =>
        assert Pow256(4) == 0x1_0000_0000;
        var code := LittleEndian(TypeCode(t), TagTypeCodeLength);
        match ValuePart(t, value)
        case Err(e) => Err(e)
        case Ok(v) => Ok(idField + indexField + code + v)
  }

  /** write_tag: the type comes from tag_types, and an unknown id is a KeyError. */
  function WriteTag(key: TagKey, value: TagValue): (r: Result<seq<byte>, TagError>)
    ensures key.id !in TagTypes ==> r == Err(UnknownTag)
    ensures key.id in TagTypes ==> r == WriteTypedTag(TagTypes[key.id], key.id, key.index, value)
  {
    if key.id !in TagTypes then Err(UnknownTag)
    else WriteTypedTag(TagTypes[key.id], key.id, key.index, value)
  }

  /** Where write_tag puts each field once the type is known: the padded id, the
      index field (which reads back as the index unless that is 0xFFFFFFFF), the
      type code, and the value part. */
  lemma TypedTagLayout(t: TagType, id: string, index: Option<int>, value: TagValue)
    requires WriteTypedTag(t, id, index, value).Ok?
    ensures var b := WriteTypedTag(t, id, index, value).value;
      && |b| >= TagFixedLength - TagValueLength
      && b[..TagIdLength] == TabString(Utf8(id), TagIdLength)
      && b[TagIdLength..36] == IndexField(index).value
      && (index != Some(0xFFFF_FFFF) ==> IndexOfField(b[TagIdLength..36]) == index)
      && TypeOfCode(FromLittleEndian(b[36..40])) == Some(t)
      && b[40..] == ValuePart(t, value).value
  {
    var idField, indexField := TabString(Utf8(id), TagIdLength), IndexField(index).value;
    var code, v := LittleEndian(TypeCode(t), TagTypeCodeLength), ValuePart(t, value).value;
    var b := WriteTypedTag(t, id, index, value).value;
    var front := idField + indexField + code;
    assert b == front + v;
    assert front[..32] == idField && front[32..36] == indexField && front[36..] == code;
    assert b[..40] == front && b[40..] == v;
    assert b[32..36] == front[32..36] == indexField;
    assert Pow256(4) == 0x1_0000_0000;
    if index.None? {
      AllOnesIndex();
    } else {
      LittleEndianRoundTrip(index.value, TagIndexLength);
    }
    LittleEndianRoundTrip(TypeCode(t), TagTypeCodeLength);
    TypeCodeRoundTrip(t);
  }

  /** write_tag: a written tag is a known id, laid out as its type from tag_types
      says. */
  lemma TagLayout(key: TagKey, value: TagValue)
    requires WriteTag(key, value).Ok?
    ensures key.id in TagTypes
    ensures var b, t := WriteTag(key, value).value, TagTypes[key.id];
      && |b| >= TagFixedLength - TagValueLength
      && b[..TagIdLength] == TabString(Utf8(key.id), TagIdLength)
      && b[TagIdLength..36] == IndexField(key.index).value
      && (key.index != Some(0xFFFF_FFFF) ==> IndexOfField(b[TagIdLength..36]) == key.index)
      && TypeOfCode(FromLittleEndian(b[36..40])) == Some(t)
      && b[40..] == ValuePart(t, value).value
  {
    TypedTagLayout(TagTypes[key.id], key.id, key.index, value);
  }

  // ---------------------------------------------------------------------
  // The whole header
  // ---------------------------------------------------------------------

  /** The tags one after another, in the dict's order; the first failing tag aborts. */
  function WriteTags(tags: seq<(TagKey, TagValue)>): (r: Result<seq<byte>, TagError>)
    ensures r.Ok? <==> forall i :: 0 <= i < |tags| ==> WriteTag(tags[i].0, tags[i].1).Ok?
  {
    if tags == [] then Ok([])
    else
      assert forall i :: 1 <= i < |tags| ==> tags[i] == tags[1..][i - 1];
      match WriteTag(tags[0].0, tags[0].1)
      case Err(e) => Err(e)
      case Ok(first) =>
        match WriteTags(tags[1..])
        case Err(e) => Err(e)
        case Ok(rest) => Ok(first + rest)
  }

  /** The sentinel tag can always be written. */
  lemma EndTagWritten()
    ensures |Utf8(HeaderEnd)| == 10
    ensures WriteTag(TagKey(HeaderEnd, None), NoValue).Ok?
  {
    HeaderEndIsEmpty8();
    assert |Utf8(HeaderEnd)| == 10 by {
      assert IsAscii(HeaderEnd);
      Utf8Ascii(HeaderEnd);
    }
    assert ValuePart(Empty8, NoValue).Ok?;
  }

  /** tag_types declares Header_End with the Empty8 type. */
  lemma HeaderEndIsEmpty8()
    ensures HeaderEnd in TagTypes && TagTypes[HeaderEnd] == Empty8
  {
  }

  /** write_ptu, without the file: magic, version, tags, Header_End, then the data. */
  function WritePtu(data: seq<byte>, tags: seq<(TagKey, TagValue)>): (r: Result<seq<byte>, TagError>)
    ensures r.Ok? <==> forall i :: 0 <= i < |tags| ==> WriteTag(tags[i].0, tags[i].1).Ok?
    ensures r.Ok? ==> |r.value| >= |data| && r.value[|r.value| - |data|..] == data
  {
    match WriteTags(tags)
    case Err(e) => Err(e)
    case Ok(body) =>
      var header := MagicField() + VersionField() + body + EndTag();
      SuffixOf(header, data);
      Ok(header + data)
  }

  /** tab_string(magic, BITSLEN_MAGIC): the first field of a PTU file. */
  function MagicField(): (r: seq<byte>)
    ensures |r| == MagicLength
  {
    TabString(Utf8(TttrMagic), MagicLength)
  }

  /** tab_string(version, BITSLEN_VERSION): the second field of a PTU file. */
  function VersionField(): (r: seq<byte>)
    ensures |r| == VersionLength
  {
    TabString(Utf8(FileVersion), VersionLength)
  }

  lemma SuffixOf(header: seq<byte>, data: seq<byte>)
    ensures (header + data)[|header + data| - |data|..] == data
  {
  }

  // ---------------------------------------------------------------------
  // Reading a header back
  // ---------------------------------------------------------------------

  /** A tag as a reader of the format sees it: the 32-byte id field, the index (None
      for four 0xFF bytes), the type code, the raw 8-byte value field and, for an
      array type, the payload whose length the value field holds. */
  datatype ParsedTag = ParsedTag(id: seq<byte>, index: Option<int>, typeCode: nat, value: seq<byte>, payload: seq<byte>)

  /** Reads one tag from the front of the bytes, and returns the bytes after it. */
  function ReadTag(bytes: seq<byte>): (r: Option<(ParsedTag, seq<byte>)>)
    ensures r.Some? ==> |r.value.1| + TagFixedLength <= |bytes|
  {
    if |bytes| < TagFixedLength then None
    else
      var rawIndex := FromLittleEndian(bytes[32..36]);
      var index := if rawIndex == 0xFFFF_FFFF then None else Some(rawIndex);
      var code := FromLittleEndian(bytes[36..40]);
      var value := bytes[40..48];
      var rest := bytes[48..];
      match TypeOfCode(code)
      case None => None
      case Some(t) =>
        if !IsArray(t) then Some((ParsedTag(bytes[..32], index, code, value, []), rest))
        else
          var length := FromLittleEndian(value);
          if length <= |rest| then Some((ParsedTag(bytes[..32], index, code, value, rest[..length]), rest[length..]))
          else None
  }

  /** What a parsed tag must say about a tag of type t written from id, index and
      value: the same id field, index and type code, and a value field and payload
      that hold the value. */
  predicate Describes(p: ParsedTag, t: TagType, id: string, index: Option<int>, value: TagValue)
    requires |Utf8(id)| <= TagIdLength
  {
    && p.id == TabString(Utf8(id), TagIdLength)
    && p.index == index
    && p.typeCode == TypeCode(t)
    && |p.value| == TagValueLength
    && if IsArray(t) then PayloadHolds(p.value, p.payload, t, value)
       else p.payload == [] && FieldHolds(p.value, t, value)
  }

  /** The 8-byte value field of a non-array type holds the value: zeros for Empty8,
      the signed integer for Bool8 and Int8, the float image for Float8, the blob for
      the others. */
  predicate FieldHolds(field: seq<byte>, t: TagType, value: TagValue)
    requires |field| == TagValueLength && !IsArray(t)
  {
    match t
    case Empty8 => field == Zeros(TagValueLength)
    case Bool8 => value.Integer? && FromSignedLittleEndian(field) == value.i
    case Int8 => value.Integer? && FromSignedLittleEndian(field) == value.i
    case Float8 => value.Float? && field == value.image
    case _ => value.Bytes? && field == value.b
  }

  /** The payload of an array type holds the value: its length, a multiple of 8, is in
      the value field, and it is the value's bytes followed by zeros, with at least one
      NUL after a string. */
  predicate PayloadHolds(field: seq<byte>, payload: seq<byte>, t: TagType, value: TagValue)
    requires IsArray(t)
  {
    var data := ArrayPayload(t, value);
    && data.Ok?
    && FromLittleEndian(field) == |payload|
    && |payload| % 8 == 0
    && |data.value| <= |payload| && payload[..|data.value|] == data.value
    && (forall k :: |data.value| <= k < |payload| ==> payload[k] == 0)
    && (IsString(t) ==> |data.value| < |payload|)
  }

  /** The id field of the Header_End sentinel. */
  function EndIdField(): seq<byte>
  {
    TabString(Utf8(HeaderEnd), TagIdLength)
  }

  /** The tags a header holds before Header_End, and the bytes after it. */
  function ReadTags(bytes: seq<byte>): (r: Option<(seq<ParsedTag>, seq<byte>)>)
    decreases |bytes|
  {
    match ReadTag(bytes)
    case None => None
    case Some((tag, rest)) =>
      if tag.id == EndIdField() then Some(([], rest))
      else
        match ReadTags(rest)
        case None => None
        case Some((tags, data)) => Some(([tag] + tags, data))
  }

  /** Reads a PTU file: magic, version, the tags up to Header_End, then the data. */
  function ReadPtu(bytes: seq<byte>): Option<(seq<ParsedTag>, seq<byte>)>
  {
    if |bytes| < MagicLength + VersionLength then None
    else if bytes[..8] != MagicField() || bytes[8..16] != VersionField() then None
    else ReadTags(bytes[16..])
  }

  // ---------------------------------------------------------------------
  // Round trips
  // ---------------------------------------------------------------------

  /** A tag a reader can tell apart: not the sentinel, not index 0xFFFFFFFF (which is
      written like a missing index), and for the 8-byte blob types a blob of 8 bytes
      (the writer copies such a value verbatim, whatever its length). */
  predicate Readable(t: TagType, id: string, index: Option<int>, value: TagValue)
    requires |Utf8(id)| <= TagIdLength
  {
    && TabString(Utf8(id), TagIdLength) != EndIdField()
    && index != Some(0xFFFF_FFFF)
    && BlobSized(t, value)
  }

  /** The 8-byte blob types carry a blob of exactly 8 bytes. */
  predicate BlobSized(t: TagType, value: TagValue)
  {
    t in {BitSet64, Color8, TDateTime} ==> value.Bytes? && |value.b| == TagValueLength
  }

  lemma AllOnesIndex()
    ensures FromLittleEndian([0xFF, 0xFF, 0xFF, 0xFF]) == 0xFFFF_FFFF
  {
    var s: seq<byte> := [0xFF, 0xFF, 0xFF, 0xFF];
    assert s[1..][1..][1..][1..] == [];
  }

  /** The index a reader takes from a 4-byte index field. */
  function IndexOfField(field: seq<byte>): Option<int>
  {
    var raw := FromLittleEndian(field);
    if raw == 0xFFFF_FFFF then None else Some(raw)
  }

  /** The reader on a tag of a type without payload. */
  lemma ReadFixedTag(bytes: seq<byte>)
    requires |bytes| >= TagFixedLength
    requires TypeOfCode(FromLittleEndian(bytes[36..40])).Some?
    requires !IsArray(TypeOfCode(FromLittleEndian(bytes[36..40])).value)
    ensures ReadTag(bytes)
         == Some((ParsedTag(bytes[..32], IndexOfField(bytes[32..36]), FromLittleEndian(bytes[36..40]), bytes[40..48], []),
                  bytes[48..]))
  {
  }

  /** The reader on a tag of an array type whose payload is present. */
  lemma ReadArrayTag(bytes: seq<byte>)
    requires |bytes| >= TagFixedLength
    requires TypeOfCode(FromLittleEndian(bytes[36..40])).Some?
    requires IsArray(TypeOfCode(FromLittleEndian(bytes[36..40])).value)
    requires FromLittleEndian(bytes[40..48]) <= |bytes| - TagFixedLength
    ensures var n := FromLittleEndian(bytes[40..48]);
      ReadTag(bytes)
      == Some((ParsedTag(bytes[..32], IndexOfField(bytes[32..36]), FromLittleEndian(bytes[36..40]), bytes[40..48], bytes[48..48 + n]),
               bytes[48 + n..]))
  {
    var n := FromLittleEndian(bytes[40..48]);
    assert bytes[48..][..n] == bytes[48..48 + n];
    assert bytes[48..][n..] == bytes[48 + n..];
  }

  /** Where the fields of a tag lie in the bytes that start with it. */
  lemma TagSlices(id: seq<byte>, index: seq<byte>, code: seq<byte>, v: seq<byte>, rest: seq<byte>)
    requires |id| == TagIdLength && |index| == TagIndexLength && |code| == TagTypeCodeLength
    requires |v| >= TagValueLength
    ensures var bytes := id + index + code + v + rest;
      && |bytes| >= TagFixedLength
      && bytes[..32] == id && bytes[32..36] == index && bytes[36..40] == code
      && bytes[40..48] == v[..8] && bytes[48..] == v[8..] + rest
  {
    var b1 := id + index;
    var b2 := b1 + code;
    var bytes := b2 + v + rest;
    assert b1[..32] == id && b1[32..] == index;
    assert b2[..36] == b1 && b2[36..] == code;
    assert bytes == b2 + (v + rest);
    assert bytes[..40] == b2 && bytes[40..] == v + rest;
    assert bytes[..32] == b2[..32] == id;
    assert bytes[32..36] == b2[32..36] == index;
    assert bytes[36..40] == code;
    assert bytes[40..48] == (v + rest)[..8] == v[..8];
    assert bytes[48..] == (v + rest)[8..] == v[8..] + rest;
  }

  /** The reader on a tag laid out as id, index, type code and value part: a value
      part of 8 bytes for a non-array type, and for an array type the value field
      followed by as many bytes as it says. */
  lemma ReadLayout(id: seq<byte>, index: seq<byte>, code: seq<byte>, v: seq<byte>, rest: seq<byte>)
    requires |id| == TagIdLength && |index| == TagIndexLength && |code| == TagTypeCodeLength
    requires |v| >= TagValueLength
    requires TypeOfCode(FromLittleEndian(code)).Some?
    requires !IsArray(TypeOfCode(FromLittleEndian(code)).value) ==> |v| == TagValueLength
    requires IsArray(TypeOfCode(FromLittleEndian(code)).value) ==> FromLittleEndian(v[..8]) == |v| - TagValueLength
    ensures ReadTag(id + index + code + v + rest)
         == Some((ParsedTag(id, IndexOfField(index), FromLittleEndian(code), v[..8], v[8..]), rest))
  {
    TagSlices(id, index, code, v, rest);
    var bytes := id + index + code + v + rest;
    if IsArray(TypeOfCode(FromLittleEndian(code)).value) {
      assert bytes[48..][..|v| - 8] == v[8..] && bytes[48..][|v| - 8..] == rest;
      ReadArrayTag(bytes);
    } else {
      ReadFixedTag(bytes);
    }
  }

  /** The fields write_tag puts one after another, and what a reader decodes from the
      index and type code fields. */
  lemma TagFields(t: TagType, id: string, index: Option<int>, value: TagValue)
    requires WriteTypedTag(t, id, index, value).Ok?
    requires index != Some(0xFFFF_FFFF)
    ensures Pow256(TagTypeCodeLength) == 0x1_0000_0000
    ensures var code := LittleEndian(TypeCode(t), TagTypeCodeLength);
      && WriteTypedTag(t, id, index, value).value
         == TabString(Utf8(id), TagIdLength) + IndexField(index).value + code + ValuePart(t, value).value
      && IndexOfField(IndexField(index).value) == index
      && FromLittleEndian(code) == TypeCode(t)
      && TypeOfCode(FromLittleEndian(code)) == Some(t)
  {
    assert Pow256(4) == 0x1_0000_0000;
    if index.None? {
      AllOnesIndex();
    } else {
      LittleEndianRoundTrip(index.value, TagIndexLength);
    }
    LittleEndianRoundTrip(TypeCode(t), TagTypeCodeLength);
    TypeCodeRoundTrip(t);
  }

  /** The value part of an array type: the length field, then the payload padded with
      zeros to that length, a multiple of 8 with room for a NUL after a string. */
  lemma ArrayValuePart(t: TagType, value: TagValue)
    requires IsArray(t) && ValuePart(t, value).Ok?
    ensures ArrayPayload(t, value).Ok?
    ensures var payload := ArrayPayload(t, value).value;
      var length := ArrayLength(t, payload);
      && |payload| <= length < Pow256(TagValueLength)
      && ValuePart(t, value).value == LittleEndian(length, TagValueLength) + TabString(payload, length)
      && FromLittleEndian(LittleEndian(length, TagValueLength)) == length
      && length % 8 == 0
      && (IsString(t) ==> |payload| < length)
  {
    var payload := ArrayPayload(t, value).value;
    var length := ArrayLength(t, payload);
    LittleEndianRoundTrip(length, TagValueLength);
  }

  /** The value part starts with the 8-byte value field; for an array type that field
      holds the length of the bytes after it, and otherwise nothing follows it. */
  lemma ValuePartLayout(t: TagType, value: TagValue)
    requires ValuePart(t, value).Ok?
    requires BlobSized(t, value)
    ensures var v := ValuePart(t, value).value;
      && |v| >= TagValueLength
      && (!IsArray(t) ==> |v| == TagValueLength)
      && (IsArray(t) ==> FromLittleEndian(v[..8]) == |v| - TagValueLength)
  {
    if IsArray(t) {
      ArrayPayloadHolds(t, value);
    }
  }

  /** How a reader sees a written tag: its id field, its index, its type code, the
      8-byte value field and the bytes after it. */
  function TagView(t: TagType, id: string, index: Option<int>, value: TagValue): ParsedTag
    requires WriteTypedTag(t, id, index, value).Ok? && BlobSized(t, value)
  {
    ValuePartLayout(t, value);
    var v := ValuePart(t, value).value;
    ParsedTag(TabString(Utf8(id), TagIdLength), index, TypeCode(t), v[..8], v[8..])
  }

  /** Reading a tag written with a known type gives back the view of it, and leaves
      the bytes that followed it. */
  lemma TypedTagRoundTrip(t: TagType, id: string, index: Option<int>, value: TagValue, rest: seq<byte>)
    requires WriteTypedTag(t, id, index, value).Ok?
    requires Readable(t, id, index, value)
    ensures ReadTag(WriteTypedTag(t, id, index, value).value + rest) == Some((TagView(t, id, index, value), rest))
  {
    TagFields(t, id, index, value);
    ValuePartLayout(t, value);
    ReadLayout(TabString(Utf8(id), TagIdLength), IndexField(index).value, LittleEndian(TypeCode(t), TagTypeCodeLength),
               ValuePart(t, value).value, rest);
  }

  /** The view of a non-array tag describes it. */
  lemma FixedViewDescribes(t: TagType, id: string, index: Option<int>, value: TagValue)
    requires WriteTypedTag(t, id, index, value).Ok? && BlobSized(t, value)
    requires !IsArray(t)
    ensures Describes(TagView(t, id, index, value), t, id, index, value)
  {
    FixedFieldHolds(t, value);
    ValuePartLayout(t, value);
    var v := ValuePart(t, value).value;
    assert v[..8] == v && v[8..] == [];
  }

  /** The 8 value bytes the writer emits for a fixed-size type hold the value. */
  lemma FixedFieldHolds(t: TagType, value: TagValue)
    requires !IsArray(t) && ValuePart(t, value).Ok?
    requires BlobSized(t, value)
    ensures var v := ValuePart(t, value).value;
      |v| == TagValueLength && FieldHolds(v, t, value)
  {
    match t
    case Empty8 =>
    case Bool8 =>
    case Int8 =>
    case Float8 =>
    case BitSet64 =>
    case Color8 =>
    case TDateTime =>
  }

  /** The length field and padded payload the writer emits for an array type hold
      the value. */
  lemma ArrayPayloadHolds(t: TagType, value: TagValue)
    requires IsArray(t) && ValuePart(t, value).Ok?
    ensures var v := ValuePart(t, value).value;
      |v| >= TagValueLength && PayloadHolds(v[..8], v[8..], t, value)
  {
    ArrayValuePart(t, value);
    var payload := ArrayPayload(t, value).value;
    var length := ArrayLength(t, payload);
    var v := ValuePart(t, value).value;
    assert v[..8] == LittleEndian(length, TagValueLength) && v[8..] == TabString(payload, length);
  }

  /** The view of an array tag describes it. */
  lemma ArrayViewDescribes(t: TagType, id: string, index: Option<int>, value: TagValue)
    requires WriteTypedTag(t, id, index, value).Ok? && BlobSized(t, value)
    requires IsArray(t)
    ensures Describes(TagView(t, id, index, value), t, id, index, value)
  {
    ArrayPayloadHolds(t, value);
  }

  /** The view of a written tag describes it: same id, index and type, and its value. */
  lemma ViewDescribes(t: TagType, id: string, index: Option<int>, value: TagValue)
    requires WriteTypedTag(t, id, index, value).Ok? && BlobSized(t, value)
    ensures Describes(TagView(t, id, index, value), t, id, index, value)
  {
    if IsArray(t) {
      ArrayViewDescribes(t, id, index, value);
    } else {
      FixedViewDescribes(t, id, index, value);
    }
  }

  /** The bytes of the Header_End sentinel tag. */
  function EndTag(): (r: seq<byte>)
    ensures WriteTag(TagKey(HeaderEnd, None), NoValue) == Ok(r)
  {
    EndTagWritten();
    WriteTag(TagKey(HeaderEnd, None), NoValue).value
  }

  /** The reader stops at the sentinel and hands back what follows it. */
  lemma EndTagRead(data: seq<byte>)
    ensures ReadTags(EndTag() + data) == Some(([], data))
  {
    EndTagWritten();
    assert TagTypes[HeaderEnd] == Empty8;
    var bytes := WriteTypedTag(Empty8, HeaderEnd, None, NoValue).value;
    assert EndTag() == bytes;
    TagFields(Empty8, HeaderEnd, None, NoValue);
    ValuePartLayout(Empty8, NoValue);
    ReadLayout(EndIdField(), IndexField(None).value, LittleEndian(TypeCode(Empty8), TagTypeCodeLength),
               ValuePart(Empty8, NoValue).value, data);
  }

  /** Every tag's id is in tag_types and the tag can be written and read back apart
      from the others. */
  predicate AllReadable(tags: seq<(TagKey, TagValue)>)
  {
    forall i :: 0 <= i < |tags| ==>
      var (key, value) := tags[i];
      && key.id in TagTypes
      && WriteTypedTag(TagTypes[key.id], key.id, key.index, value).Ok?
      && Readable(TagTypes[key.id], key.id, key.index, value)
  }

  /** Dropping the first tag keeps the rest readable. */
  lemma AllReadableTail(tags: seq<(TagKey, TagValue)>)
    requires tags != [] && AllReadable(tags)
    ensures AllReadable(tags[1..])
  {
    forall i | 0 <= i < |tags[1..]|
      ensures tags[1..][i] == tags[i + 1]
    {
    }
  }

  /** The views of the tags, in order. */
  function Views(tags: seq<(TagKey, TagValue)>): (r: seq<ParsedTag>)
    requires AllReadable(tags)
    ensures |r| == |tags|
  {
    if tags == [] then []
    else
      AllReadableTail(tags);
      var (key, value) := tags[0];
      [TagView(TagTypes[key.id], key.id, key.index, value)] + Views(tags[1..])
  }

  lemma EmptyFront(w: seq<byte>, a: seq<byte>, b: seq<byte>)
    requires w == []
    ensures w + a + b == a + b
  {
  }

  /** Four byte strings written one after another, grouped from the right. */
  lemma AppendFour(a: seq<byte>, b: seq<byte>, c: seq<byte>, d: seq<byte>)
    ensures a + b + c + d == a + (b + c + d)
  {
  }

  /** Reading written tags followed by the sentinel gives the view of each tag, in
      order, and the bytes after the sentinel. */
  lemma {:induction false} TagsRoundTrip(tags: seq<(TagKey, TagValue)>, data: seq<byte>)
    requires AllReadable(tags)
    ensures WriteTags(tags).Ok?
    ensures ReadTags(WriteTags(tags).value + EndTag() + data) == Some((Views(tags), data))
  {
    if tags == [] {
      EmptyFront(WriteTags(tags).value, EndTag(), data);
      EndTagRead(data);
    } else {
      var (key, value) := tags[0];
      var t := TagTypes[key.id];
      var first := WriteTypedTag(t, key.id, key.index, value).value;
      AllReadableTail(tags);
      TagsRoundTrip(tags[1..], data);
      var later := WriteTags(tags[1..]).value;
      assert WriteTags(tags).value == first + later;
      AppendFour(first, later, EndTag(), data);
      var after := later + EndTag() + data;
      TypedTagRoundTrip(t, key.id, key.index, value, after);
      var view := TagView(t, key.id, key.index, value);
      assert view.id != EndIdField();
    }
  }

  /** The parsed tags describe the written ones, one for one and in order. */
  predicate DescribesAll(parsed: seq<ParsedTag>, tags: seq<(TagKey, TagValue)>)
    requires AllReadable(tags)
  {
    && |parsed| == |tags|
    && (tags != [] ==>
          var (key, value) := tags[0];
          && Describes(parsed[0], TagTypes[key.id], key.id, key.index, value)
          && (AllReadableTail(tags); DescribesAll(parsed[1..], tags[1..])))
  }

  /** The views of written tags describe them. */
  lemma {:induction false} ViewsDescribe(tags: seq<(TagKey, TagValue)>)
    requires AllReadable(tags)
    ensures DescribesAll(Views(tags), tags)
  {
    if tags != [] {
      AllReadableTail(tags);
      ViewsDescribe(tags[1..]);
      var (key, value) := tags[0];
      ViewDescribes(TagTypes[key.id], key.id, key.index, value);
      var views := Views(tags);
      assert views[0] == TagView(TagTypes[key.id], key.id, key.index, value);
      assert views[1..] == Views(tags[1..]);
    }
  }

  /** read(write_ptu(data, tags)): the magic and version check out, every tag is found
      in the dict's order and describes the tag written, and the data follows the
      header unchanged. */
  lemma PtuRoundTrip(data: seq<byte>, tags: seq<(TagKey, TagValue)>)
    requires AllReadable(tags)
    ensures WritePtu(data, tags).Ok?
    ensures ReadPtu(WritePtu(data, tags).value) == Some((Views(tags), data))
    ensures DescribesAll(Views(tags), tags)
  {
    TagsRoundTrip(tags, data);
    ViewsDescribe(tags);
    var magic, version := MagicField(), VersionField();
    var body := WriteTags(tags).value;
    AppendFour(magic + version, body, EndTag(), data);
    ReadAfterPreamble(magic, version, body + EndTag() + data);
  }

  /** After the magic and the version, the reader goes on to the tags. */
  lemma ReadAfterPreamble(magic: seq<byte>, version: seq<byte>, rest: seq<byte>)
    requires magic == MagicField() && version == VersionField()
    ensures ReadPtu(magic + version + rest) == ReadTags(rest)
  {
    var bytes := magic + version + rest;
    assert bytes == magic + (version + rest);
    assert bytes[..8] == magic && bytes[8..] == version + rest;
    assert bytes[8..16] == version && bytes[16..] == rest;
  }

  /** A missing index and index 0xFFFFFFFF give the same index field, so a reader
      cannot tell them apart; Readable excludes the latter. */
  lemma AllOnesIndexIsMissing()
    ensures IndexField(Some(0xFFFF_FFFF)) == IndexField(None)
  {
    var s := LittleEndian(0xFFFF_FFFF, TagIndexLength);
    assert Pow256(4) == 0x1_0000_0000;
    assert s == [0xFF, 0xFF, 0xFF, 0xFF];
  }

  /** An Int8 tag holding 42: type code bytes 08 00 00 10, value field 2A and seven
      zero bytes. */
  lemma Int8Example()
    ensures LittleEndian(TypeCode(Int8), TagTypeCodeLength) == [0x08, 0x00, 0x00, 0x10]
    ensures ValuePart(Int8, Integer(42)) == Ok([0x2A, 0, 0, 0, 0, 0, 0, 0])
  {
    assert Pow256(4) == 0x1_0000_0000;
    assert Pow256(8) == 0x1_0000_0000_0000_0000;
    assert SignedLittleEndian(42, TagValueLength) == LittleEndian(42, 8) == [0x2A, 0, 0, 0, 0, 0, 0, 0];
  }
}
