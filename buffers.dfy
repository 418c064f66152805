/** Decoding of whole buffers of TTTR records (th260/ptu_format.py, read_T2_buffer and
    read_T3_buffer). The source works on whole arrays at once: it masks the 7-bit
    header of every record, forms a running uint32 sum of the overflow payloads and
    keeps the entries of the records whose header is the requested one. Here the
    decoders are one forward scan that carries the running sum, and their contracts
    state the array-wide result: the masked cumulative sum and the masked fields. */
module Buffers {
  import opened Bits
  import opened Wrappers
  import opened Records

  /** The two record layouts: T2 (timetag:25) and T3 (dtime:15, nsync:10). */
  datatype Mode = T2 | T3

  /** The rtype argument: 'photon', 'marker' or 'sync'. Any other string raises
      "Unknown type" before the buffer is looked at, as 'sync' does in T3 mode. */
  datatype RecordType = PhotonType | MarkerType | SyncType

  /** RuntimeError("Unknown type ...") and the IndexError of overflows_counts[-1] on an
      empty buffer. */
  datatype DecodeError = UnknownType | EmptyBuffer

  /** bit_overflow: special bit set and channel code 0x3F. */
  const OverflowHeader: nat := 0xFE00_0000

  /** record & 0xFE000000: the special bit and the channel code, left in place. */
  function Header(w: Word): (h: nat)
    ensures h == SpecialBit(w) * 0x8000_0000 + ChannelField(w) * 0x200_0000
  {
    WordIsComposedOfFields(w);
    (w / 0x200_0000) * 0x200_0000
  }

  /** bit_selected: the header a record must have to be returned. The marker value
      parses as (0x80000000 + channel) << 25 in the source and is kept as written. */
  function SelectedHeader(mode: Mode, channel: int, rtype: RecordType): (r: Result<int, DecodeError>)
    ensures r.Err? <==> mode.T3? && rtype.SyncType?
    ensures rtype == PhotonType ==> r == Ok((channel - 1) * 0x200_0000)
    ensures mode.T2? && rtype.SyncType? ==> r == Ok(0x8000_0000)
    ensures rtype.MarkerType? && channel >= 0 ==> r.Ok? && r.value >= WordModulus
  {
    match rtype
    case PhotonType => Ok((channel - 1) * 0x200_0000)
    case MarkerType => Ok((0x8000_0000 + channel) * 0x200_0000)
    case SyncType => if mode.T2? then Ok(0x8000_0000) else Err(UnknownType)
  }

  /** The field of an overflow record that holds the number of overflows: the timetag
      in T2 mode, nsync in T3 mode. */
  function OverflowField(mode: Mode, w: Word): nat
  {
    match mode
    case T2 => TimetagField(w)
    case T3 => NsyncField(w)
  }

  /** timetags * mask_overflows (T2) and nsync * mask_overflows (T3): a record's
      contribution to the overflow count. */
  function OverflowPayload(mode: Mode, w: Word): nat
  {
    if Header(w) == OverflowHeader then OverflowField(mode, w) else 0
  }

  // ---------------------------------------------------------------------
  // The array-wide formulation
  // ---------------------------------------------------------------------

  /** The exact (unbounded) sum of the overflow payloads of a run of records. */
  function OverflowSum(mode: Mode, s: seq<Word>): nat
  {
    if s == [] then 0 else OverflowSum(mode, s[..|s| - 1]) + OverflowPayload(mode, s[|s| - 1])
  }

  /** np.cumsum(payloads, dtype='uint32') started from running: entry i is the sum of
      the payloads at indices 0..i, wrapped to 32 bits. */
  function CumSumFrom(mode: Mode, buffer: seq<Word>, running: nat): (c: seq<nat>)
    ensures |c| == |buffer|
  {
    seq(|buffer|, i requires 0 <= i < |buffer| => (running + OverflowSum(mode, buffer[..i + 1])) % WordModulus)
  }

  function CumSum(mode: Mode, buffer: seq<Word>): (c: seq<nat>)
    ensures |c| == |buffer|
    ensures forall i :: 0 <= i < |buffer| ==> c[i] < WordModulus
  {
    CumSumFrom(mode, buffer, 0)
  }

  /** header == bit_selected, record by record. */
  function Mask(buffer: seq<Word>, target: int): (m: seq<bool>)
    ensures |m| == |buffer|
    ensures forall i :: 0 <= i < |buffer| ==> (m[i] <==> Header(buffer[i]) == target)
  {
    seq(|buffer|, i requires 0 <= i < |buffer| => Header(buffer[i]) == target)
  }

  /** Boolean indexing xs[mask]: the entries whose mask bit is set, in order. */
  function Compress<T>(xs: seq<T>, mask: seq<bool>): (r: seq<T>)
    requires |xs| == |mask|
    ensures |r| <= |xs|
  {
    if xs == [] then []
    else (if mask[0] then [xs[0]] else []) + Compress(xs[1..], mask[1..])
  }

  lemma CompressFront<T>(xs: seq<T>, mask: seq<bool>)
    requires |xs| == |mask| && xs != []
    ensures Compress(xs, mask) == (if mask[0] then [xs[0]] else []) + Compress(xs[1..], mask[1..])
  {
  }

  /** A field extracted from every record: buffer & bitmask, (buffer & bitmask) >> 10. */
  function Fields(f: Word -> nat, xs: seq<Word>): (r: seq<nat>)
    ensures |r| == |xs|
    ensures forall i :: 0 <= i < |xs| ==> r[i] == f(xs[i])
  {
    seq(|xs|, i requires 0 <= i < |xs| => f(xs[i]))
  }

  /** The records a decoder returns entries for. */
  function Selected(buffer: seq<Word>, target: int): seq<Word>
  {
    Compress(buffer, Mask(buffer, target))
  }

  lemma {:induction false} CompressFields(f: Word -> nat, xs: seq<Word>, mask: seq<bool>)
    requires |xs| == |mask|
    ensures Compress(Fields(f, xs), mask) == Fields(f, Compress(xs, mask))
  {
    if xs != [] {
      assert Fields(f, xs)[1..] == Fields(f, xs[1..]);
      CompressFields(f, xs[1..], mask[1..]);
    }
  }

  // ---------------------------------------------------------------------
  // The forward scan
  // ---------------------------------------------------------------------

  /** What a scan collects: for every selected record, the wrapped overflow count up
      to and including its index, and the record itself; then the final count. */
  datatype Scan = Scan(nOverflows: seq<nat>, records: seq<Word>, total: nat)

  /** One pass from the front, keeping the running overflow count in 32 bits. */
  function ScanRecords(mode: Mode, buffer: seq<Word>, target: int, running: nat): (r: Scan)
    ensures |r.nOverflows| == |r.records|
  {
    if buffer == [] then Scan([], [], running)
    else
      var counted := (running + OverflowPayload(mode, buffer[0])) % WordModulus;
      var rest := ScanRecords(mode, buffer[1..], target, counted);
      if Header(buffer[0]) == target then Scan([counted] + rest.nOverflows, [buffer[0]] + rest.records, rest.total)
      else rest
  }

  lemma {:induction false} OverflowSumAppend(mode: Mode, a: seq<Word>, b: seq<Word>)
    ensures OverflowSum(mode, a + b) == OverflowSum(mode, a) + OverflowSum(mode, b)
    decreases |b|
  {
    if b == [] {
      assert a + b == a;
    } else {
      var b' := b[..|b| - 1];
      assert (a + b)[..|a + b| - 1] == a + b';
      OverflowSumAppend(mode, a, b');
    }
  }

  lemma AddMod(a: nat, b: nat, m: nat)
    requires m > 0
    ensures (a % m + b) % m == (a + b) % m
  {
    DivModUnique(a + b, m, a / m + (a % m + b) / m, (a % m + b) % m);
  }

  /** The payload sum of a run of records is the first payload plus the sum of the rest. */
  lemma OverflowSumFront(mode: Mode, s: seq<Word>)
    requires s != []
    ensures OverflowSum(mode, s) == OverflowPayload(mode, s[0]) + OverflowSum(mode, s[1..])
  {
    assert [s[0]][..0] == [];
    assert s == [s[0]] + s[1..];
    OverflowSumAppend(mode, [s[0]], s[1..]);
  }

  /** Entry i + 1 of a cumulative sum is entry i of the sum of the rest started from
      the first entry. */
  lemma CumSumEntry(mode: Mode, buffer: seq<Word>, running: nat, i: nat)
    requires i + 1 < |buffer|
    ensures var counted := (running + OverflowPayload(mode, buffer[0])) % WordModulus;
      CumSumFrom(mode, buffer, running)[i + 1] == CumSumFrom(mode, buffer[1..], counted)[i]
  {
    var p := OverflowPayload(mode, buffer[0]);
    var prefix := buffer[..i + 2];
    OverflowSumFront(mode, prefix);
    assert prefix[1..] == buffer[1..][..i + 1];
    AddMod(running + p, OverflowSum(mode, buffer[1..][..i + 1]), WordModulus);
  }

  /** The first entry of a cumulative sum is the running count plus the first payload. */
  lemma CumSumHead(mode: Mode, buffer: seq<Word>, running: nat)
    requires buffer != []
    ensures CumSumFrom(mode, buffer, running)[0] == (running + OverflowPayload(mode, buffer[0])) % WordModulus
  {
    OverflowSumFront(mode, buffer[..1]);
    assert buffer[..1][1..] == [];
  }

  /** Dropping the first entry of a cumulative sum is starting the sum of the rest
      from that entry. */
  lemma CumSumRest(mode: Mode, buffer: seq<Word>, running: nat)
    requires buffer != []
    ensures var counted := (running + OverflowPayload(mode, buffer[0])) % WordModulus;
      CumSumFrom(mode, buffer, running)[1..] == CumSumFrom(mode, buffer[1..], counted)
  {
    var counted := (running + OverflowPayload(mode, buffer[0])) % WordModulus;
    var c, c' := CumSumFrom(mode, buffer, running), CumSumFrom(mode, buffer[1..], counted);
    forall i | 0 <= i < |c'|
      ensures c[i + 1] == c'[i]
    {
      CumSumEntry(mode, buffer, running, i);
    }
  }

  /** The same holds of the wrapped total. */
  lemma WrappedTotalRest(mode: Mode, buffer: seq<Word>, running: nat)
    requires buffer != []
    ensures var counted := (running + OverflowPayload(mode, buffer[0])) % WordModulus;
      (running + OverflowSum(mode, buffer)) % WordModulus
      == (counted + OverflowSum(mode, buffer[1..])) % WordModulus
  {
    var p := OverflowPayload(mode, buffer[0]);
    OverflowSumFront(mode, buffer);
    AddMod(running + p, OverflowSum(mode, buffer[1..]), WordModulus);
  }

  /** The forward scan ends at the wrapped total of the overflow payloads. */
  lemma {:induction false} ScanTotal(mode: Mode, buffer: seq<Word>, target: int, running: nat)
    requires running < WordModulus
    ensures ScanRecords(mode, buffer, target, running).total == (running + OverflowSum(mode, buffer)) % WordModulus
  {
    if buffer != [] {
      ScanTotal(mode, buffer[1..], target, (running + OverflowPayload(mode, buffer[0])) % WordModulus);
      WrappedTotalRest(mode, buffer, running);
    } else {
      DivModUnique(running, WordModulus, 0, running);
    }
  }

  /** The forward scan keeps the records the mask selects. */
  lemma {:induction false} ScanSelects(mode: Mode, buffer: seq<Word>, target: int, running: nat)
    ensures ScanRecords(mode, buffer, target, running).records == Selected(buffer, target)
  {
    if buffer != [] {
      var m := Mask(buffer, target);
      ScanSelects(mode, buffer[1..], target, (running + OverflowPayload(mode, buffer[0])) % WordModulus);
      assert m[1..] == Mask(buffer[1..], target);
      CompressFront(buffer, m);
    }
  }

  /** The forward scan's counts are the masked cumulative sum. */
  lemma {:induction false} ScanCounts(mode: Mode, buffer: seq<Word>, target: int, running: nat)
    ensures ScanRecords(mode, buffer, target, running).nOverflows
         == Compress(CumSumFrom(mode, buffer, running), Mask(buffer, target))
  {
    if buffer != [] {
      var counted := (running + OverflowPayload(mode, buffer[0])) % WordModulus;
      var c, m := CumSumFrom(mode, buffer, running), Mask(buffer, target);
      ScanCounts(mode, buffer[1..], target, counted);
      CumSumHead(mode, buffer, running);
      CumSumRest(mode, buffer, running);
      assert m[1..] == Mask(buffer[1..], target);
      CompressFront(c, m);
    }
  }

  /** The forward scan computes what the array-wide formulation computes. */
  lemma ScanIsCumSum(mode: Mode, buffer: seq<Word>, target: int, running: nat)
    requires running < WordModulus
    ensures ScanRecords(mode, buffer, target, running)
         == Scan(Compress(CumSumFrom(mode, buffer, running), Mask(buffer, target)),
                 Selected(buffer, target),
                 (running + OverflowSum(mode, buffer)) % WordModulus)
  {
    ScanTotal(mode, buffer, target, running);
    ScanSelects(mode, buffer, target, running);
    ScanCounts(mode, buffer, target, running);
  }

  // ---------------------------------------------------------------------
  // The decoders
  // ---------------------------------------------------------------------

  /** (n_overflows, timetag, total_overflows) of read_T2_buffer. */
  datatype T2Decoded = T2Decoded(nOverflows: seq<nat>, timetag: seq<nat>, total: nat)

  /** (n_overflows, dtime, nsync, total_overflows) of read_T3_buffer. */
  datatype T3Decoded = T3Decoded(nOverflows: seq<nat>, dtime: seq<nat>, nsync: seq<nat>, total: nat)

  /** read_T2_buffer. Reserved channel codes are not rejected: they only fail to match. */
  function ReadT2Buffer(buffer: seq<Word>, channel: int, rtype: RecordType): (r: Result<T2Decoded, DecodeError>)
    ensures r.Err? <==> buffer == []
    ensures r.Err? ==> r.error == EmptyBuffer
    ensures r.Ok? ==>
      var mask := Mask(buffer, SelectedHeader(T2, channel, rtype).value);
      && r.value.nOverflows == Compress(CumSum(T2, buffer), mask)
      && r.value.timetag == Compress(Fields(TimetagField, buffer), mask)
      && r.value.total == CumSum(T2, buffer)[|buffer| - 1]
  {
    var target := SelectedHeader(T2, channel, rtype).value;
    if buffer == [] then Err(EmptyBuffer)
    else
      var scan := ScanRecords(T2, buffer, target, 0);
      ScanIsCumSum(T2, buffer, target, 0);
      CompressFields(TimetagField, buffer, Mask(buffer, target));
      assert buffer[..|buffer|] == buffer;
      Ok(T2Decoded(scan.nOverflows, Fields(TimetagField, scan.records), scan.total))
  }

  /** read_T3_buffer: T3 has no sync selector; the overflow payload is nsync. */
  function ReadT3Buffer(buffer: seq<Word>, channel: int, rtype: RecordType): (r: Result<T3Decoded, DecodeError>)
    ensures rtype == SyncType ==> r == Err(UnknownType)
    ensures rtype != SyncType ==> (r.Err? <==> buffer == [])
    ensures rtype != SyncType && r.Err? ==> r.error == EmptyBuffer
    ensures r.Ok? ==>
      var mask := Mask(buffer, SelectedHeader(T3, channel, rtype).value);
      && r.value.nOverflows == Compress(CumSum(T3, buffer), mask)
      && r.value.dtime == Compress(Fields(DtimeField, buffer), mask)
      && r.value.nsync == Compress(Fields(NsyncField, buffer), mask)
      && r.value.total == CumSum(T3, buffer)[|buffer| - 1]
    ensures r.Ok? ==> |r.value.dtime| == |r.value.nsync| == |r.value.nOverflows|
  {
    match SelectedHeader(T3, channel, rtype)
    case Err(e) => Err(e)
    case Ok(target) =>
      if buffer == [] then Err(EmptyBuffer)
      else
        var scan := ScanRecords(T3, buffer, target, 0);
        ScanIsCumSum(T3, buffer, target, 0);
        CompressFields(DtimeField, buffer, Mask(buffer, target));
        CompressFields(NsyncField, buffer, Mask(buffer, target));
        assert buffer[..|buffer|] == buffer;
        Ok(T3Decoded(scan.nOverflows, Fields(DtimeField, scan.records), Fields(NsyncField, scan.records), scan.total))
  }

  // ---------------------------------------------------------------------
  // Agreement with the per-record classifiers
  // ---------------------------------------------------------------------

  /** Two headers agree exactly when their special bits and channel codes agree. */
  lemma HeaderFields(w: Word, special: nat, channel: nat)
    requires special < 2 && channel < 64
    ensures Header(w) == special * 0x8000_0000 + channel * 0x200_0000
        <==> SpecialBit(w) == special && ChannelField(w) == channel
  {
    WordIsComposedOfFields(w);
    var s, c := SpecialBit(w), ChannelField(w);
    if Header(w) == special * 0x8000_0000 + channel * 0x200_0000 {
      assert (s * 64 + c) * 0x200_0000 == (special * 64 + channel) * 0x200_0000;
      assert s * 64 + c == special * 64 + channel;
      DivModUnique(s * 64 + c, 64, special, channel);
    }
  }

  /** The overflow mask picks out exactly the records read_T2_record calls overflows,
      and their payload is the overflow count it reports. */
  /** The mask selects exactly the records whose special bit and channel code are
      the ones the target header spells. */
  lemma MaskByFields(buffer: seq<Word>, special: nat, channel: nat, i: nat)
    requires special < 2 && channel < 64 && i < |buffer|
    ensures Mask(buffer, special * 0x8000_0000 + channel * 0x200_0000)[i]
        <==> SpecialBit(buffer[i]) == special && ChannelField(buffer[i]) == channel
  {
    HeaderFields(buffer[i], special, channel);
  }

  lemma T2OverflowPayload(w: Word)
    ensures OverflowPayload(T2, w)
         == (if ReadT2Record(w).Ok? && ReadT2Record(w).value.kind == Overflow then ReadT2Record(w).value.timetag else 0)
  {
    HeaderFields(w, 1, 63);
  }

  /** The same for T3 records and read_T3_record, whose overflow count is nsync. */
  lemma T3OverflowPayload(w: Word)
    ensures OverflowPayload(T3, w)
         == (if ReadT3Record(w).Ok? && ReadT3Record(w).value.kind == Overflow then ReadT3Record(w).value.nsync else 0)
  {
    HeaderFields(w, 1, 63);
  }

  /** read_T2_record sees a photon on the given 1-based channel. */
  predicate IsT2Photon(w: Word, channel: int)
  {
    ReadT2Record(w) == Ok(T2Event(Photon, channel, TimetagField(w)))
  }

  /** read_T2_record sees a sync event. */
  predicate IsT2Sync(w: Word)
  {
    ReadT2Record(w) == Ok(T2Event(Sync, 0, TimetagField(w)))
  }

  /** read_T3_record sees a photon on the given 1-based channel. */
  predicate IsT3Photon(w: Word, channel: int)
  {
    ReadT3Record(w) == Ok(T3Event(Photon, channel, DtimeField(w), NsyncField(w)))
  }

  /** The records of xs that satisfy p, in order. */
  function Filter(p: Word -> bool, xs: seq<Word>): seq<Word>
  {
    if xs == [] then [] else (if p(xs[0]) then [xs[0]] else []) + Filter(p, xs[1..])
  }

  /** Selecting by header is filtering by any classification that holds of exactly
      the records with that header. */
  lemma {:induction false} SelectedIsFilter(buffer: seq<Word>, target: int, p: Word -> bool)
    requires forall w: Word :: p(w) <==> Header(w) == target
    ensures Selected(buffer, target) == Filter(p, buffer)
  {
    if buffer != [] {
      assert Mask(buffer, target)[1..] == Mask(buffer[1..], target);
      SelectedIsFilter(buffer[1..], target, p);
    }
  }

  /** The photon selection of read_T2_buffer for channel c keeps exactly the records
      that read_T2_record classifies as photons on channel c, and reports their
      timetags. */
  lemma T2PhotonSelection(buffer: seq<Word>, channel: int)
    requires buffer != [] && 1 <= channel <= 64
    ensures var r := ReadT2Buffer(buffer, channel, PhotonType).value;
      var photons := Filter((w: Word) => IsT2Photon(w, channel), buffer);
      && Selected(buffer, (channel - 1) * 0x200_0000) == photons
      && r.timetag == Fields(TimetagField, photons)
      && |r.nOverflows| == |photons|
  {
    var target := (channel - 1) * 0x200_0000;
    forall w: Word
      ensures IsT2Photon(w, channel) <==> Header(w) == target
    {
      HeaderFields(w, 0, channel - 1);
    }
    SelectedIsFilter(buffer, target, (w: Word) => IsT2Photon(w, channel));
    CompressFields(TimetagField, buffer, Mask(buffer, target));
  }

  /** The sync selection of read_T2_buffer keeps exactly the sync records. */
  lemma T2SyncSelection(buffer: seq<Word>)
    requires buffer != []
    ensures var r := ReadT2Buffer(buffer, 0, SyncType).value;
      var syncs := Filter(IsT2Sync, buffer);
      && Selected(buffer, 0x8000_0000) == syncs
      && r.timetag == Fields(TimetagField, syncs)
  {
    forall w: Word
      ensures IsT2Sync(w) <==> Header(w) == 0x8000_0000
    {
      HeaderFields(w, 1, 0);
    }
    SelectedIsFilter(buffer, 0x8000_0000, IsT2Sync);
    CompressFields(TimetagField, buffer, Mask(buffer, 0x8000_0000));
  }

  /** The photon selection of read_T3_buffer for channel c keeps exactly the records
      that read_T3_record classifies as photons on channel c. */
  lemma T3PhotonSelection(buffer: seq<Word>, channel: int)
    requires buffer != [] && 1 <= channel <= 64
    ensures var r := ReadT3Buffer(buffer, channel, PhotonType).value;
      var photons := Filter((w: Word) => IsT3Photon(w, channel), buffer);
      && Selected(buffer, (channel - 1) * 0x200_0000) == photons
      && r.dtime == Fields(DtimeField, photons)
      && r.nsync == Fields(NsyncField, photons)
  {
    var target := (channel - 1) * 0x200_0000;
    forall w: Word
      ensures IsT3Photon(w, channel) <==> Header(w) == target
    {
      HeaderFields(w, 0, channel - 1);
    }
    SelectedIsFilter(buffer, target, (w: Word) => IsT3Photon(w, channel));
    CompressFields(DtimeField, buffer, Mask(buffer, target));
    CompressFields(NsyncField, buffer, Mask(buffer, target));
  }

  /** A header no record carries selects nothing. */
  lemma {:induction false} NothingSelected(buffer: seq<Word>, target: int)
    requires forall w: Word :: Header(w) != target
    ensures Selected(buffer, target) == []
  {
    if buffer != [] {
      assert Mask(buffer, target)[1..] == Mask(buffer[1..], target);
      NothingSelected(buffer[1..], target);
    }
  }

  /** As written, the marker selector (0x80000000 + channel) << 25 lies above every
      32-bit header for any channel that is not hugely negative, so marker requests
      return nothing in either mode. */
  lemma MarkerSelectionEmpty(mode: Mode, buffer: seq<Word>, channel: int)
    requires channel > -0x8000_0000 + 127
    ensures Selected(buffer, SelectedHeader(mode, channel, MarkerType).value) == []
  {
    var target := SelectedHeader(mode, channel, MarkerType).value;
    assert target >= 128 * 0x200_0000;
    forall w: Word
      ensures Header(w) != target
    {
      WordIsComposedOfFields(w);
    }
    NothingSelected(buffer, target);
  }

  /** Records without the overflow header add nothing to the overflow count. */
  lemma {:induction false} NoOverflowSum(mode: Mode, buffer: seq<Word>)
    requires forall i :: 0 <= i < |buffer| ==> Header(buffer[i]) != OverflowHeader
    ensures OverflowSum(mode, buffer) == 0
  {
    if buffer != [] {
      var init := buffer[..|buffer| - 1];
      assert forall i :: 0 <= i < |init| ==> init[i] == buffer[i];
      NoOverflowSum(mode, init);
    }
  }

  /** With no overflow record in a buffer, every overflow count and the total are 0. */
  lemma NoOverflowRecords(mode: Mode, buffer: seq<Word>)
    requires forall i :: 0 <= i < |buffer| ==> Header(buffer[i]) != OverflowHeader
    ensures OverflowSum(mode, buffer) == 0
    ensures forall i :: 0 <= i < |buffer| ==> CumSum(mode, buffer)[i] == 0
  {
    NoOverflowSum(mode, buffer);
    forall i | 0 <= i < |buffer|
      ensures CumSum(mode, buffer)[i] == 0
    {
      var prefix := buffer[..i + 1];
      assert forall k :: 0 <= k < |prefix| ==> prefix[k] == buffer[k];
      NoOverflowSum(mode, prefix);
    }
  }

  /** Two photons on channel 1 around a record standing for three overflows. */
  lemma T2BufferExample()
    ensures ReadT2Buffer([0x0000_0005, 0xFE00_0003, 0x0000_0010], 1, PhotonType)
         == Ok(T2Decoded([0, 3], [5, 16], 3))
  {
    var buffer: seq<Word> := [0x0000_0005, 0xFE00_0003, 0x0000_0010];
    assert Header(buffer[0]) == 0 && Header(buffer[1]) == OverflowHeader && Header(buffer[2]) == 0;
    assert OverflowPayload(T2, buffer[0]) == 0 && OverflowPayload(T2, buffer[1]) == 3;
    var s2 := ScanRecords(T2, buffer[2..], 0, 3);
    assert s2 == Scan([3], [0x10], 3);
    var s1 := ScanRecords(T2, buffer[1..], 0, 0);
    assert s1 == Scan([3], [0x10], 3);
    assert ScanRecords(T2, buffer, 0, 0) == Scan([0, 3], [5, 0x10], 3);
    assert Fields(TimetagField, [5, 0x10]) == [5, 16];
    assert SelectedHeader(T2, 1, PhotonType) == Ok(0);
  }
}
