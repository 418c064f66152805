/** Decoding of a single 32-bit TTTR record (th260/ptu_format.py, read_T2_record and
    read_T3_record). The source renders the record as a 32-digit binary string and
    parses slices of it; the contracts state the resulting fields as bit fields. */
module Records {
  import opened Bits
  import opened Wrappers

  /** The kind of event a record stands for. */
  datatype EventKind = Photon | Overflow | Marker | Sync

  /** ('photon' | 'overflow' | 'marker' | 'sync', channel, timetag) of a T2 record. */
  datatype T2Event = T2Event(kind: EventKind, channel: int, timetag: nat)

  /** (kind, channel, dtime, nsync) of a T3 record. */
  datatype T3Event = T3Event(kind: EventKind, channel: int, dtime: nat, nsync: nat)

  /** The RuntimeErrors "Invalid record." (T2) and "Can't read record." (T3). */
  datatype RecordError = InvalidRecord | CantReadRecord

  // Bit fields, most significant first. Both modes: special:1, channel:6.
  // T2: timetag:25. T3: dtime:15, nsync:10.

  function SpecialBit(w: Word): nat { w / 0x8000_0000 }

  function ChannelField(w: Word): nat { (w / 0x200_0000) % 64 }

  function TimetagField(w: Word): nat { w % 0x200_0000 }

  function DtimeField(w: Word): nat { (w / 0x400) % 0x8000 }

  function NsyncField(w: Word): nat { w % 0x400 }

  /** The word whose fields are special, channel and the 25 low bits. */
  function ComposeWord(special: nat, channel: nat, low: nat): (w: Word)
    requires special < 2 && channel < 64 && low < 0x200_0000
  {
    special * 0x8000_0000 + channel * 0x200_0000 + low
  }

  /** The fields of a composed word are the ones it was composed of, and every word is
      the composition of its own fields. */
  lemma ComposeWordFields(special: nat, channel: nat, low: nat)
    requires special < 2 && channel < 64 && low < 0x200_0000
    ensures var w := ComposeWord(special, channel, low);
      SpecialBit(w) == special && ChannelField(w) == channel && TimetagField(w) == low
  {
    var w := ComposeWord(special, channel, low);
    var hi := special * 64 + channel;
    assert w == hi * 0x200_0000 + low;
    DivModUnique(w, 0x200_0000, hi, low);
    DivModUnique(hi, 64, special, channel);
    DivModUnique(w, 0x8000_0000, special, channel * 0x200_0000 + low);
  }

  lemma WordIsComposedOfFields(w: Word)
    ensures SpecialBit(w) < 2 && ChannelField(w) < 64
    ensures w == ComposeWord(SpecialBit(w), ChannelField(w), TimetagField(w))
  {
    var hi := w / 0x200_0000;
    assert w == hi * 0x200_0000 + w % 0x200_0000;
    assert hi == (hi / 64) * 64 + hi % 64;
    DivModUnique(w, 0x8000_0000, hi / 64, (hi % 64) * 0x200_0000 + w % 0x200_0000);
  }

  /** The T3 low 25 bits split into dtime (upper 15) and nsync (lower 10). */
  lemma T3LowFields(w: Word)
    ensures TimetagField(w) == DtimeField(w) * 0x400 + NsyncField(w)
  {
    var q := w / 0x400;
    assert w == q * 0x400 + w % 0x400;
    assert q == (q / 0x8000) * 0x8000 + q % 0x8000;
    DivModUnique(w, 0x200_0000, q / 0x8000, (q % 0x8000) * 0x400 + w % 0x400);
  }

  /** The slices of "{0:032b}".format(w) used by the record readers are the bit fields. */
  lemma BinarySlicesAreFields(w: Word)
    ensures ParseBinary(FormatBinary(w, 32)[0..1]) == SpecialBit(w)
    ensures ParseBinary(FormatBinary(w, 32)[1..7]) == ChannelField(w)
    ensures ParseBinary(FormatBinary(w, 32)[7..32]) == TimetagField(w)
    ensures ParseBinary(FormatBinary(w, 32)[7..22]) == DtimeField(w)
    ensures ParseBinary(FormatBinary(w, 32)[22..32]) == NsyncField(w)
  {
    Pow2Constants();
    BinaryField(w, 32, 0, 1);
    BinaryField(w, 32, 1, 7);
    BinaryField(w, 32, 7, 32);
    BinaryField(w, 32, 7, 22);
    BinaryField(w, 32, 22, 32);
    DivModUnique(w / 0x8000_0000, 2, 0, w / 0x8000_0000);
  }

  /** read_T2_record: classify a T2 record. */
  function ReadT2Record(record: Word): (r: Result<T2Event, RecordError>)
    ensures r.Err? <==> SpecialBit(record) == 1 && 16 <= ChannelField(record) <= 62
    ensures r.Err? ==> r.error == InvalidRecord
    ensures r.Ok? ==> r.value.timetag == TimetagField(record)
    ensures r.Ok? ==> (r.value.kind == Photon <==> SpecialBit(record) == 0)
    ensures r.Ok? ==> (r.value.kind == Overflow <==> SpecialBit(record) == 1 && ChannelField(record) == 63)
    ensures r.Ok? ==> (r.value.kind == Sync <==> SpecialBit(record) == 1 && ChannelField(record) == 0)
    ensures r.Ok? ==> (r.value.kind == Marker <==> SpecialBit(record) == 1 && 1 <= ChannelField(record) <= 15)
    ensures r.Ok? ==> r.value.channel == match r.value.kind
                                        case Photon => ChannelField(record) + 1
                                        case Marker => ChannelField(record)
                                        case _ => 0
  {
    BinarySlicesAreFields(record);
    var recordData := FormatBinary(record, 32);
    var special := ParseBinary(recordData[0..1]);
    var channel := ParseBinary(recordData[1..7]);
    var timetag := ParseBinary(recordData[7..32]);
    if special == 1 then
      if channel == 0x3F then Ok(T2Event(Overflow, 0, timetag))
      else if 1 <= channel <= 15 then Ok(T2Event(Marker, channel, timetag))
      else if channel == 0 then Ok(T2Event(Sync, 0, timetag))
      else Err(InvalidRecord)
    else
      Ok(T2Event(Photon, channel + 1, timetag))
  }

  /** read_T3_record: classify a T3 record; T3 has no sync code. */
  function ReadT3Record(record: Word): (r: Result<T3Event, RecordError>)
    ensures r.Err? <==> SpecialBit(record) == 1 && (ChannelField(record) == 0 || 16 <= ChannelField(record) <= 62)
    ensures r.Err? ==> r.error == CantReadRecord
    ensures r.Ok? ==> r.value.dtime == DtimeField(record) && r.value.nsync == NsyncField(record)
    ensures r.Ok? ==> r.value.kind != Sync
    ensures r.Ok? ==> (r.value.kind == Photon <==> SpecialBit(record) == 0)
    ensures r.Ok? ==> (r.value.kind == Overflow <==> SpecialBit(record) == 1 && ChannelField(record) == 63)
    ensures r.Ok? ==> (r.value.kind == Marker <==> SpecialBit(record) == 1 && 1 <= ChannelField(record) <= 15)
    ensures r.Ok? ==> r.value.channel == match r.value.kind
                                        case Photon => ChannelField(record) + 1
                                        case Marker => ChannelField(record)
                                        case _ => 0
  {
    BinarySlicesAreFields(record);
    var recordData := FormatBinary(record, 32);
    var special := ParseBinary(recordData[0..1]);
    var channel := ParseBinary(recordData[1..7]);
    var dtime := ParseBinary(recordData[7..22]);
    var nsync := ParseBinary(recordData[22..32]);
    if special == 1 then
      if channel == 0x3F then Ok(T3Event(Overflow, 0, dtime, nsync))
      else if 1 <= channel <= 15 then Ok(T3Event(Marker, channel, dtime, nsync))
      else Err(CantReadRecord)
    else
      Ok(T3Event(Photon, channel + 1, dtime, nsync))
  }

  /** A T2 record with the special bit clear is a photon on the next channel up. */
  lemma T2PhotonRecord(channel: nat, timetag: nat)
    requires channel < 64 && timetag < 0x200_0000
    ensures ReadT2Record(ComposeWord(0, channel, timetag)) == Ok(T2Event(Photon, channel + 1, timetag))
  {
    ComposeWordFields(0, channel, timetag);
  }

  /** A T2 record with the special bit set and channel code 0x3F is an overflow record
      whose timetag field is the number of overflows. */
  lemma T2OverflowRecord(count: nat)
    requires count < 0x200_0000
    ensures ReadT2Record(ComposeWord(1, 63, count)) == Ok(T2Event(Overflow, 0, count))
  {
    ComposeWordFields(1, 63, count);
  }
}
