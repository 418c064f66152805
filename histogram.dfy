/** The histogram arithmetic behind binnableTable.bin_count: integer binning,
    numpy's bincount and the in-place addition of the counts kept so far. */
module Histogram {
  import opened Wrappers

  /** Why a bin count is refused. */
  datatype BinError =
    | NoBinFactor     // RuntimeError('Need to set bin factor.')
    | NegativeValue   // np.bincount refuses negative input
    | ShapeMismatch   // the += of line 105 cannot broadcast the old counts
    | RawDataDiscarded // NotImplementedError in set_bin_factor

  predicate NonNegative(values: seq<int>)
  {
    forall k :: 0 <= k < |values| ==> values[k] >= 0
  }

  /** timetags // bin_factor, element by element (floor division, which for a
      positive divisor is Dafny's division). */
  function Bins(values: seq<int>, factor: nat): (bins: seq<nat>)
    requires factor > 0 && NonNegative(values)
    ensures |bins| == |values|
    ensures forall k :: 0 <= k < |values| ==> bins[k] * factor <= values[k] < (bins[k] + 1) * factor
  {
    seq(|values|, k requires 0 <= k < |values| => values[k] / factor)
  }

  lemma BinsAppend(a: seq<int>, b: seq<int>, factor: nat)
    requires factor > 0 && NonNegative(a) && NonNegative(b)
    ensures NonNegative(a + b)
    ensures Bins(a + b, factor) == Bins(a, factor) + Bins(b, factor)
  {
    assert NonNegative(a + b) by {
      forall k | 0 <= k < |a + b| ensures (a + b)[k] >= 0 {
        if k >= |a| { assert (a + b)[k] == b[k - |a|]; }
      }
    }
  }

  /** The largest bin of a non-empty sequence. */
  function MaxOf(xs: seq<nat>): (m: nat)
    requires xs != []
    ensures forall k :: 0 <= k < |xs| ==> xs[k] <= m
    ensures m in xs
  {
    if |xs| == 1 then xs[0]
    else
      var init := xs[..|xs| - 1];
      assert forall k :: 0 <= k < |init| ==> init[k] == xs[k];
      var m := MaxOf(init);
      if xs[|xs| - 1] > m then xs[|xs| - 1] else m
  }

  lemma MaxOfAppend(a: seq<nat>, b: seq<nat>)
    requires a != [] && b != []
    ensures MaxOf(a + b) == if MaxOf(a) < MaxOf(b) then MaxOf(b) else MaxOf(a)
  {
    var m := MaxOf(a + b);
    assert forall k :: 0 <= k < |a| ==> a[k] == (a + b)[k];
    assert forall k :: 0 <= k < |b| ==> b[k] == (a + b)[|a| + k];
    assert m in a || m in b;
  }

  /** One more occurrence of bin x: the counts grow to cover x when needed. */
  function Bump(c: seq<nat>, x: nat): (r: seq<nat>)
  {
    if x < |c| then c[x := c[x] + 1] else c + seq(x - |c|, _ => 0) + [1]
  }

  /** np.bincount, one value at a time. */
  function Bincount(xs: seq<nat>): seq<nat>
  {
    if xs == [] then [] else Bump(Bincount(xs[..|xs| - 1]), xs[|xs| - 1])
  }

  /** np.bincount has as many counts as the largest bin plus one. */
  lemma {:induction false} BincountShape(xs: seq<nat>)
    ensures xs == [] ==> Bincount(xs) == []
    ensures xs != [] ==> |Bincount(xs)| == MaxOf(xs) + 1
  {
    if xs != [] {
      var init := xs[..|xs| - 1];
      if init != [] {
        BincountShape(init);
      }
    }
  }

  /** Count i of np.bincount is the number of occurrences of i, and a value
      beyond the counts does not occur. */
  lemma {:induction false} BincountEntry(xs: seq<nat>, i: nat)
    ensures i < |Bincount(xs)| ==> Bincount(xs)[i] == multiset(xs)[i]
    ensures i >= |Bincount(xs)| ==> multiset(xs)[i] == 0
  {
    if xs != [] {
      var init: seq<nat>, x: nat := xs[..|xs| - 1], xs[|xs| - 1];
      assert xs == init + [x];
      BincountEntry(init, i);
      assert multiset(xs) == multiset(init) + multiset{x};
      if x >= |Bincount(init)| {
        BincountEntry(init, x);
      }
    }
  }

  /** bin_count[:len(counts)] += counts, refused when the new counts are shorter. */
  function AddCounts(batch: seq<nat>, prior: seq<nat>): (r: Result<seq<nat>, BinError>)
  {
    if |batch| < |prior| then Err(ShapeMismatch)
    else Ok(seq(|batch|, i requires 0 <= i < |batch| => batch[i] + if i < |prior| then prior[i] else 0))
  }

  /** Counting a batch on top of earlier counts gives the counts of everything,
      exactly when the batch reaches the largest bin seen before. */
  lemma BincountSplit(a: seq<nat>, b: seq<nat>)
    requires b != []
    ensures AddCounts(Bincount(b), Bincount(a)).Ok? <==> (a == [] || MaxOf(a) <= MaxOf(b))
    ensures AddCounts(Bincount(b), Bincount(a)).Ok? ==> AddCounts(Bincount(b), Bincount(a)).value == Bincount(a + b)
    ensures AddCounts(Bincount(b), Bincount(a)).Err? ==> AddCounts(Bincount(b), Bincount(a)).error == ShapeMismatch
  {
    BincountShape(a);
    BincountShape(b);
    BincountShape(a + b);
    var ca, cb, all := Bincount(a), Bincount(b), Bincount(a + b);
    var r := AddCounts(cb, ca);
    if r.Ok? {
      if a == [] {
        assert a + b == b;
      } else {
        MaxOfAppend(a, b);
      }
      assert |all| == |cb|;
      forall i | 0 <= i < |all| ensures r.value[i] == all[i] {
        BincountEntry(a, i);
        BincountEntry(b, i);
        BincountEntry(a + b, i);
        assert multiset(a + b) == multiset(a) + multiset(b);
      }
    }
  }
}
