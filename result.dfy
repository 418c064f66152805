/** T2Result and T3Result: decode raw buffers for one channel and keep the
    unwrapped arrival times in tables, with the overflow count carried from
    one buffer to the next. */
module Results {
  import opened Bits
  import opened Wrappers
  import opened Records
  import opened Buffers
  import opened Histogram
  import opened Table

  /** T2WRAPAROUND_V2: ticks of the 25-bit T2 timetag before it wraps. */
  const T2Wraparound: nat := 0x200_0000
  /** T3WRAPAROUND: syncs counted by the 10-bit T3 nsync before it wraps. */
  const T3Wraparound: nat := 0x400

  /** (acc + n_k) * wrap + low_k for every selected record. */
  function Unwrap(acc: nat, nOverflows: seq<nat>, lows: seq<nat>, wrap: nat): (times: seq<int>)
    requires |nOverflows| == |lows|
    ensures |times| == |lows|
    ensures NonNegative(times)
  {
    seq(|lows|, k requires 0 <= k < |lows| => (acc + nOverflows[k]) * wrap + lows[k])
  }

  /** An unwrapped time splits back into its overflow count and its low field. */
  lemma UnwrapFields(acc: nat, nOverflows: seq<nat>, lows: seq<nat>, wrap: nat)
    requires |nOverflows| == |lows| && wrap > 0
    requires forall k :: 0 <= k < |lows| ==> lows[k] < wrap
    ensures forall k :: 0 <= k < |lows| ==>
      && Unwrap(acc, nOverflows, lows, wrap)[k] / wrap == acc + nOverflows[k]
      && Unwrap(acc, nOverflows, lows, wrap)[k] % wrap == lows[k]
  {
    forall k | 0 <= k < |lows|
      ensures Unwrap(acc, nOverflows, lows, wrap)[k] / wrap == acc + nOverflows[k]
      ensures Unwrap(acc, nOverflows, lows, wrap)[k] % wrap == lows[k]
    {
      DivModUnique(Unwrap(acc, nOverflows, lows, wrap)[k], wrap, acc + nOverflows[k], lows[k]);
    }
  }

  lemma {:induction false} CompressSameLength<T, U>(xs: seq<T>, ys: seq<U>, mask: seq<bool>)
    requires |xs| == |mask| && |ys| == |mask|
    ensures |Compress(xs, mask)| == |Compress(ys, mask)|
  {
    if xs != [] {
      CompressSameLength(xs[1..], ys[1..], mask[1..]);
    }
  }

  lemma {:induction false} CompressMembers<T>(xs: seq<T>, mask: seq<bool>)
    requires |xs| == |mask|
    ensures forall x :: x in Compress(xs, mask) ==> x in xs
  {
    if xs != [] {
      CompressMembers(xs[1..], mask[1..]);
    }
  }

  /** The decoded T2 sequences line up, and every timetag is a 25-bit field. */
  lemma T2DecodedShape(buffer: seq<Word>, channel: int)
    requires ReadT2Buffer(buffer, channel, PhotonType).Ok?
    ensures var d := ReadT2Buffer(buffer, channel, PhotonType).value;
      && |d.nOverflows| == |d.timetag|
      && forall k :: 0 <= k < |d.timetag| ==> d.timetag[k] < T2Wraparound
  {
    var mask := Mask(buffer, SelectedHeader(T2, channel, PhotonType).value);
    CompressSameLength(CumSum(T2, buffer), Fields(TimetagField, buffer), mask);
    CompressMembers(Fields(TimetagField, buffer), mask);
  }

  /** Every time T2Result appends splits into the carried overflow count plus
      the record's own count, and the record's timetag. */
  lemma T2Unwrapped(acc: nat, buffer: seq<Word>, channel: int)
    requires ReadT2Buffer(buffer, channel, PhotonType).Ok?
    ensures var d := ReadT2Buffer(buffer, channel, PhotonType).value;
      && |d.nOverflows| == |d.timetag|
      && forall k :: 0 <= k < |d.timetag| ==>
           && Unwrap(acc, d.nOverflows, d.timetag, T2Wraparound)[k] / T2Wraparound == acc + d.nOverflows[k]
           && Unwrap(acc, d.nOverflows, d.timetag, T2Wraparound)[k] % T2Wraparound == d.timetag[k]
  {
    T2DecodedShape(buffer, channel);
    var d := ReadT2Buffer(buffer, channel, PhotonType).value;
    UnwrapFields(acc, d.nOverflows, d.timetag, T2Wraparound);
  }

  /** Every nsync T3Result appends is a 10-bit field, so the same split holds. */
  lemma T3Unwrapped(acc: nat, buffer: seq<Word>, channel: int)
    requires ReadT3Buffer(buffer, channel, PhotonType).Ok?
    ensures var d := ReadT3Buffer(buffer, channel, PhotonType).value;
      forall k :: 0 <= k < |d.nsync| ==>
        && Unwrap(acc, d.nOverflows, d.nsync, T3Wraparound)[k] / T3Wraparound == acc + d.nOverflows[k]
        && Unwrap(acc, d.nOverflows, d.nsync, T3Wraparound)[k] % T3Wraparound == d.nsync[k]
  {
    var d := ReadT3Buffer(buffer, channel, PhotonType).value;
    var mask := Mask(buffer, SelectedHeader(T3, channel, PhotonType).value);
    CompressMembers(Fields(NsyncField, buffer), mask);
    UnwrapFields(acc, d.nOverflows, d.nsync, T3Wraparound);
  }

  /** T2Result: photon arrival times of one channel, in T2 timetag units. */
  class T2Result {
    const channel: int
    const timetags: BinnableTable
    /** _n_overflows: overflows seen in all earlier buffers. */
    var nOverflows: nat

    ghost predicate Valid()
      reads this, timetags, timetags.table, timetags.table.buf
    {
      timetags.Valid()
    }

    constructor (channel: int, binFactor: Option<nat>, onlyBin: bool)
      requires binFactor.Some? ==> binFactor.value > 0
      ensures Valid() && fresh(timetags) && fresh(timetags.table) && fresh(timetags.table.buf)
      ensures this.channel == channel && nOverflows == 0
      ensures timetags.Data() == [] && timetags.counts == []
      ensures timetags.binFactor == binFactor && timetags.onlyBin == onlyBin
    {
      this.channel := channel;
      timetags := new BinnableTable(binFactor, onlyBin);
      nOverflows := 0;
    }

    /** add_buffer: append the unwrapped time of every photon of the channel,
        then carry the buffer's overflow total. */
    method AddBuffer(buffer: seq<Word>) returns (r: Result<(), DecodeError>)
      requires Valid()
      modifies this, timetags.table, timetags.table.buf
      ensures Valid()
      ensures timetags.table.buf == old(timetags.table.buf) || fresh(timetags.table.buf)
      ensures match ReadT2Buffer(buffer, channel, PhotonType)
        case Err(e) =>
          r == Err(e) && nOverflows == old(nOverflows) && timetags.Data() == old(timetags.Data())
        case Ok(d) =>
          && r == Ok(())
          && |d.nOverflows| == |d.timetag|
          && timetags.Data() == old(timetags.Data()) + Unwrap(old(nOverflows), d.nOverflows, d.timetag, T2Wraparound)
          && nOverflows == old(nOverflows) + d.total
    {
      match ReadT2Buffer(buffer, channel, PhotonType)
      case Err(e) =>
        return Err(e);
      case Ok(d) =>
        T2DecodedShape(buffer, channel);
        timetags.Add(Unwrap(nOverflows, d.nOverflows, d.timetag, T2Wraparound));
        nOverflows := nOverflows + d.total;
        return Ok(());
    }

    /** bin_count of the time tags. */
    method BinCount() returns (r: Result<seq<nat>, BinError>)
      requires Valid()
      modifies timetags, timetags.table, timetags.table.buf
      ensures Valid()
      ensures timetags.binFactor == old(timetags.binFactor) && timetags.table.buf == old(timetags.table.buf)
      ensures old(timetags.binFactor).None? ==> r == Err(NoBinFactor)
      ensures r.Err? ==> unchanged(timetags, timetags.table, timetags.table.buf)
      ensures r.Ok? ==> r.value == timetags.counts && r.value == Bincount(Bins(timetags.consumed, timetags.binFactor.value))
      ensures old(timetags.binFactor).Some? && old(timetags.readPosition) == old(timetags.table.size) ==>
        r == Ok(old(timetags.counts)) && unchanged(timetags, timetags.table, timetags.table.buf)
      ensures old(timetags.binFactor).Some? && old(timetags.readPosition) < old(timetags.table.size) ==>
        var batch := old(timetags.Data())[old(timetags.readPosition)..];
        && (!NonNegative(batch) ==> r == Err(NegativeValue))
        && (NonNegative(batch) ==>
              (r.Ok? <==> old(timetags.consumed) == []
                          || MaxOf(Bins(old(timetags.consumed), timetags.binFactor.value)) <= MaxOf(Bins(batch, timetags.binFactor.value))))
        && (NonNegative(batch) && r.Err? ==> r == Err(ShapeMismatch))
        && (r.Ok? ==> timetags.consumed == old(timetags.consumed) + batch)
        && (r.Ok? && timetags.onlyBin ==> timetags.Data() == [] && timetags.readPosition == 0)
        && (r.Ok? && !timetags.onlyBin ==> timetags.Data() == old(timetags.Data()) && timetags.readPosition == timetags.table.size)
    {
      r := timetags.BinCount();
    }
  }

  /** A T2 acquisition: two buffers read one after the other into a fresh
      T2Result. The overflows of the first buffer carry into the times of the
      second. */
  method T2Session(channel: int, binFactor: Option<nat>, first: seq<Word>, second: seq<Word>)
    returns (t: T2Result)
    requires binFactor.Some? ==> binFactor.value > 0
    ensures t.Valid() && fresh(t) && fresh(t.timetags) && fresh(t.timetags.table) && fresh(t.timetags.table.buf)
    ensures t.channel == channel && t.timetags.binFactor == binFactor && !t.timetags.onlyBin
    ensures t.timetags.readPosition == 0 && t.timetags.consumed == [] && t.timetags.counts == []
    ensures ReadT2Buffer(first, channel, PhotonType).Ok? && ReadT2Buffer(second, channel, PhotonType).Ok? ==>
      var d1, d2 := ReadT2Buffer(first, channel, PhotonType).value, ReadT2Buffer(second, channel, PhotonType).value;
      && t.timetags.Data()
         == Unwrap(0, d1.nOverflows, d1.timetag, T2Wraparound) + Unwrap(d1.total, d2.nOverflows, d2.timetag, T2Wraparound)
      && t.nOverflows == d1.total + d2.total
  {
    t := new T2Result(channel, binFactor, false);
    ghost var e1, e2 := ReadT2Buffer(first, channel, PhotonType), ReadT2Buffer(second, channel, PhotonType);
    var r1 := t.AddBuffer(first);
    ghost var data1, n1 := t.timetags.Data(), t.nOverflows;
    if e1.Ok? {
      assert data1 == [] + Unwrap(0, e1.value.nOverflows, e1.value.timetag, T2Wraparound);
      assert n1 == e1.value.total;
    }
    var r2 := t.AddBuffer(second);
    if e1.Ok? && e2.Ok? {
      assert t.timetags.Data() == data1 + Unwrap(n1, e2.value.nOverflows, e2.value.timetag, T2Wraparound);
    }
  }

  /** bin_count with bin factor 1 after such an acquisition: the counts are the
      histogram of every time added. */
  method T2SessionCounts(channel: int, first: seq<Word>, second: seq<Word>)
    returns (t: T2Result, counts: Result<seq<nat>, BinError>)
    ensures t.Valid()
    ensures ReadT2Buffer(first, channel, PhotonType).Ok? && ReadT2Buffer(second, channel, PhotonType).Ok? ==>
      && NonNegative(t.timetags.Data())
      && counts == Ok(Bincount(Bins(t.timetags.Data(), 1)))
  {
    t := T2Session(channel, Some(1), first, second);
    ghost var added := t.timetags.Data();
    counts := t.BinCount();
    if ReadT2Buffer(first, channel, PhotonType).Ok? && ReadT2Buffer(second, channel, PhotonType).Ok? {
      assert NonNegative(added);
      assert t.timetags.Data() == added;
      assert t.timetags.consumed == added;
    }
  }

  /** T3Result: sync counts and in-period delays of one channel's photons. */
  class T3Result {
    const channel: int
    const nsyncs: BinnableTable
    const dtimes: ExtendableTable
    /** _n_overflows, which this model starts at zero. */
    var nOverflows: nat

    ghost predicate Valid()
      reads this, nsyncs, nsyncs.table, nsyncs.table.buf, dtimes, dtimes.buf
    {
      && nsyncs.Valid() && dtimes.Valid()
      && dtimes != nsyncs.table && dtimes.buf != nsyncs.table.buf
    }

    constructor (channel: int, binFactor: nat, onlyBin: bool)
      requires binFactor > 0
      ensures Valid() && fresh(nsyncs) && fresh(nsyncs.table) && fresh(nsyncs.table.buf)
      ensures fresh(dtimes) && fresh(dtimes.buf)
      ensures this.channel == channel && nOverflows == 0
      ensures nsyncs.Data() == [] && dtimes.Data() == [] && nsyncs.counts == []
      ensures nsyncs.binFactor == Some(binFactor) && nsyncs.onlyBin == onlyBin
    {
      this.channel := channel;
      nsyncs := new BinnableTable(Some(binFactor), onlyBin);
      dtimes := new ExtendableTable();
      nOverflows := 0;
    }

    /** add_buffer: append the unwrapped sync count and the dtime of every
        photon of the channel, then carry the buffer's overflow total. */
    method AddBuffer(buffer: seq<Word>) returns (r: Result<(), DecodeError>)
      requires Valid()
      modifies this, nsyncs.table, nsyncs.table.buf, dtimes, dtimes.buf
      ensures Valid()
      ensures nsyncs.table.buf == old(nsyncs.table.buf) || fresh(nsyncs.table.buf)
      ensures dtimes.buf == old(dtimes.buf) || fresh(dtimes.buf)
      ensures match ReadT3Buffer(buffer, channel, PhotonType)
        case Err(e) =>
          && r == Err(e) && nOverflows == old(nOverflows)
          && nsyncs.Data() == old(nsyncs.Data()) && dtimes.Data() == old(dtimes.Data())
        case Ok(d) =>
          && r == Ok(())
          && nsyncs.Data() == old(nsyncs.Data()) + Unwrap(old(nOverflows), d.nOverflows, d.nsync, T3Wraparound)
          && dtimes.Data() == old(dtimes.Data()) + d.dtime
          && |nsyncs.Data()| - |old(nsyncs.Data())| == |dtimes.Data()| - |old(dtimes.Data())|
          && nOverflows == old(nOverflows) + d.total
    {
      match ReadT3Buffer(buffer, channel, PhotonType)
      case Err(e) =>
        return Err(e);
      case Ok(d) =>
        nsyncs.Add(Unwrap(nOverflows, d.nOverflows, d.nsync, T3Wraparound));
        dtimes.Add(d.dtime);
        nOverflows := nOverflows + d.total;
        return Ok(());
    }

    /** bin_count of the sync counts. */
    method BinCount() returns (r: Result<seq<nat>, BinError>)
      requires Valid()
      modifies nsyncs, nsyncs.table, nsyncs.table.buf
      ensures Valid()
      ensures nsyncs.binFactor == old(nsyncs.binFactor) && nsyncs.table.buf == old(nsyncs.table.buf)
      ensures old(nsyncs.binFactor).None? ==> r == Err(NoBinFactor)
      ensures r.Err? ==> unchanged(nsyncs, nsyncs.table, nsyncs.table.buf)
      ensures r.Ok? ==> r.value == nsyncs.counts && r.value == Bincount(Bins(nsyncs.consumed, nsyncs.binFactor.value))
      ensures old(nsyncs.binFactor).Some? && old(nsyncs.readPosition) == old(nsyncs.table.size) ==>
        r == Ok(old(nsyncs.counts)) && unchanged(nsyncs, nsyncs.table, nsyncs.table.buf)
      ensures old(nsyncs.binFactor).Some? && old(nsyncs.readPosition) < old(nsyncs.table.size) ==>
        var batch := old(nsyncs.Data())[old(nsyncs.readPosition)..];
        && (!NonNegative(batch) ==> r == Err(NegativeValue))
        && (NonNegative(batch) ==>
              (r.Ok? <==> old(nsyncs.consumed) == []
                          || MaxOf(Bins(old(nsyncs.consumed), nsyncs.binFactor.value)) <= MaxOf(Bins(batch, nsyncs.binFactor.value))))
        && (NonNegative(batch) && r.Err? ==> r == Err(ShapeMismatch))
        && (r.Ok? ==> nsyncs.consumed == old(nsyncs.consumed) + batch)
        && (r.Ok? && nsyncs.onlyBin ==> nsyncs.Data() == [] && nsyncs.readPosition == 0)
        && (r.Ok? && !nsyncs.onlyBin ==> nsyncs.Data() == old(nsyncs.Data()) && nsyncs.readPosition == nsyncs.table.size)
    {
      r := nsyncs.BinCount();
    }
  }

  /** What T3Result.add_buffer raises as written. */
  datatype T3Error = DecodeFailed(DecodeError) | MissingAccumulator

  /** T3Result exactly as written: __init__ never sets _n_overflows, so the
      accumulator is absent and add_buffer fails once a buffer decodes. */
  class T3ResultAsWritten {
    const channel: int
    const nsyncs: BinnableTable
    const dtimes: ExtendableTable
    var nOverflows: Option<nat>

    ghost predicate Valid()
      reads this, nsyncs, nsyncs.table, nsyncs.table.buf, dtimes, dtimes.buf
    {
      && nsyncs.Valid() && dtimes.Valid()
      && dtimes != nsyncs.table && dtimes.buf != nsyncs.table.buf
    }

    constructor (channel: int, binFactor: nat, onlyBin: bool)
      requires binFactor > 0
      ensures Valid() && fresh(nsyncs) && fresh(nsyncs.table) && fresh(nsyncs.table.buf)
      ensures fresh(dtimes) && fresh(dtimes.buf)
      ensures this.channel == channel && nOverflows == None
    {
      this.channel := channel;
      nsyncs := new BinnableTable(Some(binFactor), onlyBin);
      dtimes := new ExtendableTable();
      nOverflows := None;
    }

    method AddBuffer(buffer: seq<Word>) returns (r: Result<(), T3Error>)
      requires Valid()
      modifies this, nsyncs.table, nsyncs.table.buf, dtimes, dtimes.buf
      ensures Valid()
      ensures ReadT3Buffer(buffer, channel, PhotonType).Err? ==>
        r == Err(DecodeFailed(ReadT3Buffer(buffer, channel, PhotonType).error))
      ensures ReadT3Buffer(buffer, channel, PhotonType).Ok? && old(nOverflows).None? ==>
        r == Err(MissingAccumulator) && nsyncs.Data() == old(nsyncs.Data()) && dtimes.Data() == old(dtimes.Data())
    {
      match ReadT3Buffer(buffer, channel, PhotonType)
      case Err(e) =>
        return Err(DecodeFailed(e));
      case Ok(d) =>
        if nOverflows.None? {
          return Err(MissingAccumulator);
        }
        var acc := nOverflows.value;
        nsyncs.Add(Unwrap(acc, d.nOverflows, d.nsync, T3Wraparound));
        dtimes.Add(d.dtime);
        nOverflows := Some(acc + d.total);
        return Ok(());
    }
  }

  /** The first buffer handed to a new T3Result as written is refused, while
      the corrected T3Result accepts it and records its photon. */
  method T3FirstBuffer() returns (asWritten: Result<(), T3Error>, corrected: Result<(), DecodeError>)
    ensures asWritten == Err(MissingAccumulator)
    ensures corrected == Ok(())
  {
    var buffer: seq<Word> := [0x0000_0005];
    assert ReadT3Buffer(buffer, 1, PhotonType).Ok?;
    var original := new T3ResultAsWritten(1, 1, false);
    asWritten := original.AddBuffer(buffer);
    var fixed := new T3Result(1, 1, false);
    corrected := fixed.AddBuffer(buffer);
  }
}
