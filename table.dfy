/** The growable storage of tttr_result.py: ExtendableTable, an array whose
    capacity is a power of two, and binnableTable, which keeps an incremental
    histogram of what was added to it. */
module Table {
  import opened Bits
  import opened Wrappers
  import opened Histogram

  /** Rows allocated by ExtendableTable.__init__. */
  const InitialCapacity: nat := 0x100

  /** int(np.ceil(np.log2(n))): the exponent of the smallest power of two
      that is at least n. */
  function CeilLog2(n: nat): (k: nat)
    requires n >= 1
    ensures n <= Pow2(k)
    ensures k > 0 ==> Pow2(k - 1) < n
  {
    if n == 1 then 0
    else
      var k' := CeilLog2((n + 1) / 2);
      assert Pow2(k' + 1) == 2 * Pow2(k');
      k' + 1
  }

  /** The capacity after _inner_resize(newSize). */
  function GrownCapacity(capacity: nat, newSize: nat): nat
    requires capacity >= 1
  {
    if newSize >= capacity then Pow2(CeilLog2(newSize)) else capacity
  }

  /** The grown capacity holds newSize rows, never shrinks, and is the
      smallest power of two that holds them whenever it grew. */
  lemma GrownCapacityFits(capacity: nat, newSize: nat)
    requires capacity >= 1
    ensures newSize <= GrownCapacity(capacity, newSize)
    ensures capacity <= GrownCapacity(capacity, newSize)
    ensures newSize >= capacity ==>
      forall k: nat :: newSize <= Pow2(k) ==> GrownCapacity(capacity, newSize) <= Pow2(k)
  {
    if newSize >= capacity {
      var j := CeilLog2(newSize);
      forall k: nat | newSize <= Pow2(k) ensures Pow2(j) <= Pow2(k) {
        if k < j { Pow2Monotone(k, j - 1); }
        else { Pow2Monotone(j, k); }
      }
    }
  }

  lemma {:induction false} Pow2Monotone(i: nat, j: nat)
    requires i <= j
    ensures Pow2(i) <= Pow2(j)
  {
    if i < j { Pow2Monotone(i, j - 1); }
  }

  lemma InitialCapacityIsPow2()
    ensures Pow2(8) == InitialCapacity
  {
    Pow2Add(4, 4);
    assert Pow2(4) == 16;
  }

  /** What one bin_count call adds to the counts of the values consumed
      before it. */
  lemma CountStep(consumed: seq<int>, batch: seq<int>, factor: nat)
    requires factor > 0 && NonNegative(consumed) && NonNegative(batch) && batch != []
    ensures NonNegative(consumed + batch)
    ensures AddCounts(Bincount(Bins(batch, factor)), Bincount(Bins(consumed, factor))) ==
      if consumed == [] || MaxOf(Bins(consumed, factor)) <= MaxOf(Bins(batch, factor))
      then Ok(Bincount(Bins(consumed + batch, factor)))
      else Err(ShapeMismatch)
  {
    BincountSplit(Bins(consumed, factor), Bins(batch, factor));
    BinsAppend(consumed, batch, factor);
  }

  /** newdata[:n] = data[:n] into a new array of the given capacity. */
  method CopyPrefix(src: array<int>, n: nat, capacity: nat) returns (dst: array<int>)
    requires n <= src.Length && n <= capacity
    ensures fresh(dst) && dst.Length == capacity
    ensures dst[..n] == src[..n]
  {
    dst := new int[capacity];
    var i := 0;
    while i < n
      invariant 0 <= i <= n
      invariant dst[..i] == src[..i]
      modifies dst
    {
      dst[i] := src[i];
      i := i + 1;
    }
  }

  /** a[start:start + len(xs)] = xs, leaving the rows before start alone. */
  method WriteAt(a: array<int>, start: nat, xs: seq<int>)
    requires start + |xs| <= a.Length
    modifies a
    ensures a[..start + |xs|] == old(a[..start]) + xs
  {
    var i := 0;
    while i < |xs|
      invariant 0 <= i <= |xs|
      invariant a[..start + i] == old(a[..start]) + xs[..i]
    {
      a[start + i] := xs[i];
      assert a[..start + i + 1] == a[..start + i] + [xs[i]];
      assert xs[..i + 1] == xs[..i] + [xs[i]];
      i := i + 1;
    }
    assert xs[..|xs|] == xs;
  }

  /** A table of integers with amortised appends (ExtendableTable). The rows
      in use are buf[..size]; the rest of buf is spare capacity. */
  class ExtendableTable {
    var buf: array<int>
    var size: nat
    /** The capacity is Pow2(logCapacity). */
    ghost var logCapacity: nat

    ghost predicate Valid()
      reads this
    {
      && buf.Length == Pow2(logCapacity)
      && InitialCapacity <= buf.Length
      && size <= buf.Length
    }

    /** The data property: the rows in use. */
    function Data(): seq<int>
      reads this, buf
      requires Valid()
    {
      buf[..size]
    }

    /** __len__. */
    function Len(): (n: nat)
      reads this, buf
      requires Valid()
      ensures n == |Data()|
    {
      size
    }

    constructor ()
      ensures Valid() && fresh(buf)
      ensures Data() == [] && buf.Length == InitialCapacity
    {
      InitialCapacityIsPow2();
      buf := new int[InitialCapacity];
      size := 0;
      logCapacity := 8;
    }

    /** _inner_resize: once newSize reaches the capacity, move the rows in use
        into a new array of the smallest power of two at least newSize. */
    method InnerResize(newSize: nat)
      requires Valid()
      modifies this
      ensures Valid() && size == old(size)
      ensures Data() == old(Data())
      ensures buf.Length == GrownCapacity(old(buf.Length), newSize)
      ensures newSize >= old(buf.Length) ==> fresh(buf)
      ensures newSize < old(buf.Length) ==> buf == old(buf)
    {
      if newSize >= buf.Length {
        var k := CeilLog2(newSize);
        buf := CopyPrefix(buf, size, Pow2(k));
        logCapacity := k;
      }
    }

    /** add: the rows xs follow the rows already in use. */
    method Add(xs: seq<int>)
      requires Valid()
      modifies this, buf
      ensures Valid()
      ensures Data() == old(Data()) + xs
      ensures buf == old(buf) || fresh(buf)
      ensures buf.Length == GrownCapacity(old(buf.Length), old(size) + |xs|)
      ensures old(size) + |xs| < old(buf.Length) ==> buf == old(buf)
    {
      var newSize := size + |xs|;
      InnerResize(newSize);
      GrownCapacityFits(old(buf.Length), newSize);
      WriteAt(buf, size, xs);
      size := newSize;
    }

    /** remove: drop the first n rows, shifting the rest to the front. */
    method Remove(n: nat)
      requires Valid() && n <= size
      modifies this`size, buf
      ensures Valid()
      ensures Data() == old(Data())[n..]
    {
      var newSize := size - n;
      var i := 0;
      while i < newSize
        invariant 0 <= i <= newSize
        invariant buf[..i] == old(buf[n..n + i])
        invariant buf[i..] == old(buf[i..])
        modifies buf
      {
        buf[i] := buf[n + i];
        i := i + 1;
      }
      size := newSize;
    }
  }

  /** binnableTable: an ExtendableTable whose values are also counted per bin
      of width binFactor. Rows before readPosition are already counted. */
  class BinnableTable {
    const table: ExtendableTable
    var binFactor: Option<nat>
    var readPosition: nat
    var counts: seq<nat>
    const onlyBin: bool
    /** Every value counted since the factor was last set. */
    ghost var consumed: seq<int>

    ghost predicate Valid()
      reads this, table, table.buf
    {
      && table.Valid()
      && readPosition <= table.size
      && (binFactor.Some? ==> binFactor.value > 0)
      && NonNegative(consumed)
      && (binFactor.None? ==> consumed == [])
      && (binFactor.Some? ==> counts == Bincount(Bins(consumed, binFactor.value)))
      && (onlyBin ==> readPosition == 0)
      && (!onlyBin ==> consumed == table.Data()[..readPosition])
    }

    function Data(): seq<int>
      reads this, table, table.buf
      requires Valid()
    {
      table.Data()
    }

    constructor (binFactor: Option<nat>, onlyBin: bool)
      requires binFactor.Some? ==> binFactor.value > 0
      ensures Valid() && fresh(table) && fresh(table.buf)
      ensures Data() == [] && counts == [] && readPosition == 0
      ensures this.binFactor == binFactor && this.onlyBin == onlyBin
    {
      table := new ExtendableTable();
      this.binFactor := binFactor;
      readPosition := 0;
      counts := [];
      this.onlyBin := onlyBin;
      consumed := [];
    }

    /** add, inherited from ExtendableTable: the rows wait to be counted. */
    method Add(xs: seq<int>)
      requires Valid()
      modifies table, table.buf
      ensures Valid() && Data() == old(Data()) + xs
      ensures table.buf == old(table.buf) || fresh(table.buf)
    {
      table.Add(xs);
      assert table.Data()[..readPosition] == old(table.Data())[..readPosition];
    }

    /** bin_count: count the rows added since the last call and return the
        counts of everything consumed since the factor was set. */
    method BinCount() returns (r: Result<seq<nat>, BinError>)
      requires Valid()
      modifies this, table, table.buf
      ensures Valid()
      ensures binFactor == old(binFactor) && table.buf == old(table.buf)
      ensures old(binFactor).None? ==> r == Err(NoBinFactor)
      ensures r.Err? ==> unchanged(this, table, table.buf)
      ensures r.Ok? ==> r.value == counts
      ensures old(binFactor).Some? && old(readPosition) == old(table.size) ==>
        r == Ok(old(counts)) && unchanged(this, table, table.buf)
      ensures old(binFactor).Some? && old(readPosition) < old(table.size) ==>
        var batch := old(Data())[old(readPosition)..];
        && (!NonNegative(batch) ==> r == Err(NegativeValue))
        && (NonNegative(batch) ==>
              (r.Ok? <==> old(consumed) == [] || MaxOf(Bins(old(consumed), binFactor.value)) <= MaxOf(Bins(batch, binFactor.value))))
        && (NonNegative(batch) && r.Err? ==> r == Err(ShapeMismatch))
        && (r.Ok? ==> consumed == old(consumed) + batch)
        && (r.Ok? && onlyBin ==> Data() == [] && readPosition == 0)
        && (r.Ok? && !onlyBin ==> Data() == old(Data()) && readPosition == table.size)
    {
      if binFactor.None? {
        return Err(NoBinFactor);
      }
      var factor := binFactor.value;
      var newPos := table.size;
      if newPos == readPosition {
        return Ok(counts);
      }
      var batch := table.buf[readPosition..newPos];
      assert batch == Data()[readPosition..];
      if !NonNegative(batch) {
        return Err(NegativeValue);
      }
      CountStep(consumed, batch, factor);
      match AddCounts(Bincount(Bins(batch, factor)), counts)
      case Err(e) =>
        return Err(e);
      case Ok(total) =>
        Consume(batch, total);
        return Ok(total);
    }

    /** The bookkeeping of a successful bin_count: keep the new counts, then
        either drop the counted rows (only_bin) or move past them. */
    method Consume(batch: seq<int>, total: seq<nat>)
      requires Valid() && binFactor.Some?
      requires readPosition < table.size && batch == Data()[readPosition..]
      requires NonNegative(consumed + batch)
      requires total == Bincount(Bins(consumed + batch, binFactor.value))
      modifies this, table, table.buf
      ensures Valid()
      ensures binFactor == old(binFactor) && table.buf == old(table.buf)
      ensures counts == total && consumed == old(consumed) + batch
      ensures onlyBin ==> Data() == [] && readPosition == 0
      ensures !onlyBin ==> Data() == old(Data()) && readPosition == table.size
    {
      counts := total;
      if onlyBin {
        consumed := consumed + batch;
        table.Remove(table.size);
        readPosition := 0;
      } else {
        assert consumed + batch == table.Data()[..table.size];
        consumed := consumed + batch;
        readPosition := table.size;
      }
    }

    /** set_bin_factor: refused once raw rows are discarded; otherwise start
        counting afresh, keeping the rows. */
    method SetBinFactor(factor: Option<nat>) returns (r: Result<(), BinError>)
      requires Valid()
      requires factor.Some? ==> factor.value > 0
      modifies this
      ensures Valid() && Data() == old(Data())
      ensures onlyBin ==> r == Err(RawDataDiscarded) && unchanged(this)
      ensures !onlyBin ==>
        && r == Ok(()) && binFactor == factor
        && counts == [] && readPosition == 0 && consumed == []
    {
      if onlyBin {
        return Err(RawDataDiscarded);
      }
      binFactor := factor;
      readPosition := 0;
      counts := [];
      consumed := [];
      return Ok(());
    }
  }
}
