/**
 * Bin2DProfile: the two-dimensional weighted-histogram accumulator of
 * PointCombine.c.
 *
 * Entry n of the input falls into bin (binsX[n], binsY[n]).  For each entry the
 * kernel adds its weight to `wresult`, its weight times its value to `bresult`, and
 * sets the bin's flag in `used` to 1.0.  The tables are updated in place, so a
 * profile can be accumulated over several calls.
 */
module Bin2DProfile {
  import opened Outcomes

  /** The argument checks of the wrapper, one constructor per size check. */
  datatype ProfileError =
    | BinsYShape      // bins_y differs in size from bins_x
    | WSourceShape    // wsource differs in size from bins_x
    | BSourceShape    // bsource differs in size from bins_x
    | BResultShape    // bresult differs from wresult in size or first dimension
    | UsedShape       // used differs from wresult in size or first dimension

  /** Two tables pass the wrapper's shape test: same size, same first dimension. */
  predicate SameShape(a: array2<real>, b: array2<real>) {
    a.Length0 * a.Length1 == b.Length0 * b.Length1 && a.Length0 == b.Length0
  }

  /** The argument checks, in the order the wrapper makes them (lines 284-347). */
  function CheckProfile(binsX: array<int>, binsY: array<int>, wsource: array<real>, bsource: array<real>,
                        wresult: array2<real>, bresult: array2<real>, used: array2<real>): (r: Result<(), ProfileError>)
    ensures r.Ok? <==>
      && binsY.Length == wsource.Length == bsource.Length == binsX.Length
      && SameShape(bresult, wresult) && SameShape(used, wresult)
    ensures r == Err(BinsYShape) <==> binsY.Length != binsX.Length
    ensures r == Err(UsedShape) ==>
      && binsY.Length == wsource.Length == bsource.Length == binsX.Length
      && SameShape(bresult, wresult) && !SameShape(used, wresult)
  {
    if binsY.Length != binsX.Length then Err(BinsYShape)
    else if wsource.Length != binsX.Length then Err(WSourceShape)
    else if bsource.Length != binsX.Length then Err(BSourceShape)
    else if !SameShape(bresult, wresult) then Err(BResultShape)
    else if !SameShape(used, wresult) then Err(UsedShape)
    else Ok(())
  }

  /** Every entry's bin lies inside a table of `rows` x `cols` cells. */
  predicate BinsInRange(binsX: seq<int>, binsY: seq<int>, rows: int, cols: int)
    requires |binsY| == |binsX|
  {
    forall n | 0 <= n < |binsX| :: 0 <= binsX[n] < rows && 0 <= binsY[n] < cols
  }

  /** Entry `n` falls into bin (i, j). */
  predicate InBin(binsX: seq<int>, binsY: seq<int>, n: int, i: int, j: int)
    requires |binsY| == |binsX| && 0 <= n < |binsX|
  {
    binsX[n] == i && binsY[n] == j
  }

  /** Sum of `vals` over the first `n` entries that fall into bin (i, j). */
  function BinSum(binsX: seq<int>, binsY: seq<int>, vals: seq<real>, i: int, j: int, n: int): real
    requires |binsY| == |binsX| == |vals| && 0 <= n <= |binsX|
  {
    if n == 0 then 0.0
    else BinSum(binsX, binsY, vals, i, j, n - 1) + (if InBin(binsX, binsY, n - 1, i, j) then vals[n - 1] else 0.0)
  }

  /** Number of the first `n` entries that fall into bin (i, j). */
  function BinCount(binsX: seq<int>, binsY: seq<int>, i: int, j: int, n: int): nat
    requires |binsY| == |binsX| && 0 <= n <= |binsX|
  {
    if n == 0 then 0
    else BinCount(binsX, binsY, i, j, n - 1) + (if InBin(binsX, binsY, n - 1, i, j) then 1 else 0)
  }

  /** The per-entry products weight x value that `bresult` accumulates. */
  function Weighted(w: seq<real>, b: seq<real>): (p: seq<real>)
    requires |b| == |w|
    ensures |p| == |w| && forall n | 0 <= n < |w| :: p[n] == w[n] * b[n]
  {
    seq(|w|, n requires 0 <= n < |w| => w[n] * b[n])
  }

  /** The contents of a table as a value: bin (i, j) to its value. */
  type Table = imap<(int, int), real>

  /** The value `t` holds for bin (i, j) (0.0 outside the table). */
  ghost function At(t: Table, i: int, j: int): real {
    if (i, j) in t then t[(i, j)] else 0.0
  }

  /** The current contents of table `a`. */
  ghost function Snap(a: array2<real>): (t: Table)
    reads a
    ensures forall i, j | 0 <= i < a.Length0 && 0 <= j < a.Length1 :: At(t, i, j) == a[i, j]
  {
    imap p: (int, int) | 0 <= p.0 < a.Length0 && 0 <= p.1 < a.Length1 :: a[p.0, p.1]
  }

  /** The three tables hold their starting contents (w0, b0, u0) with the first `n`
      entries accumulated into them. */
  ghost predicate Binned(xs: seq<int>, ys: seq<int>, ws: seq<real>, wb: seq<real>, w0: Table, b0: Table, u0: Table,
                         wresult: array2<real>, bresult: array2<real>, used: array2<real>, n: int)
    reads wresult, bresult, used
    requires |ys| == |xs| == |ws| == |wb| && 0 <= n <= |xs|
    requires wresult.Length0 > 0 ==>
      bresult.Length0 == used.Length0 == wresult.Length0 && bresult.Length1 == used.Length1 == wresult.Length1
  {
    forall i, j | 0 <= i < wresult.Length0 && 0 <= j < wresult.Length1 ::
      && wresult[i, j] == At(w0, i, j) + BinSum(xs, ys, ws, i, j, n)
      && bresult[i, j] == At(b0, i, j) + BinSum(xs, ys, wb, i, j, n)
      && used[i, j] == if BinCount(xs, ys, i, j, n) > 0 then 1.0 else At(u0, i, j)
  }

  /** Accumulating entry `n` into tables that hold the first `n` entries gives
      tables that hold the first `n + 1`. */
  twostate lemma BinnedStep(new xs: seq<int>, new ys: seq<int>, new ws: seq<real>, new wb: seq<real>,
                            new w0: Table, new b0: Table, new u0: Table,
                            wresult: array2<real>, new bresult: array2<real>, new used: array2<real>, new n: int)
    requires |ys| == |xs| == |ws| == |wb| && 0 <= n < |xs|
    requires wresult.Length0 > 0 ==>
      bresult.Length0 == used.Length0 == wresult.Length0 && bresult.Length1 == used.Length1 == wresult.Length1
    requires old(allocated(bresult)) && old(allocated(used)) && old(allocated(w0)) && old(allocated(b0)) && old(allocated(u0))
    requires old(Binned(xs, ys, ws, wb, w0, b0, u0, wresult, bresult, used, n))
    requires forall i, j | 0 <= i < wresult.Length0 && 0 <= j < wresult.Length1 ::
      && wresult[i, j] == old(wresult[i, j]) + (if InBin(xs, ys, n, i, j) then ws[n] else 0.0)
      && bresult[i, j] == old(bresult[i, j]) + (if InBin(xs, ys, n, i, j) then wb[n] else 0.0)
      && used[i, j] == if InBin(xs, ys, n, i, j) then 1.0 else old(used[i, j])
    ensures Binned(xs, ys, ws, wb, w0, b0, u0, wresult, bresult, used, n + 1)
  {
    forall i, j | 0 <= i < wresult.Length0 && 0 <= j < wresult.Length1
      ensures && wresult[i, j] == At(w0, i, j) + BinSum(xs, ys, ws, i, j, n + 1)
              && bresult[i, j] == At(b0, i, j) + BinSum(xs, ys, wb, i, j, n + 1)
              && used[i, j] == if BinCount(xs, ys, i, j, n + 1) > 0 then 1.0 else At(u0, i, j)
    {
      assert old(wresult[i, j]) == At(w0, i, j) + BinSum(xs, ys, ws, i, j, n);
      assert old(bresult[i, j]) == At(b0, i, j) + BinSum(xs, ys, wb, i, j, n);
      assert old(used[i, j]) == if BinCount(xs, ys, i, j, n) > 0 then 1.0 else At(u0, i, j);
    }
  }

  /** Before any entry, the tables hold their own contents. */
  lemma BinnedStart(xs: seq<int>, ys: seq<int>, ws: seq<real>, wb: seq<real>,
                    wresult: array2<real>, bresult: array2<real>, used: array2<real>)
    requires |ys| == |xs| == |ws| == |wb|
    requires wresult.Length0 > 0 ==>
      bresult.Length0 == used.Length0 == wresult.Length0 && bresult.Length1 == used.Length1 == wresult.Length1
    ensures Binned(xs, ys, ws, wb, Snap(wresult), Snap(bresult), Snap(used), wresult, bresult, used, 0)
  {
  }

  /** Once every entry is in, each table holds its old contents plus the entries'
      sums. */
  twostate lemma BinnedEnd(new xs: seq<int>, new ys: seq<int>, new ws: seq<real>, new wb: seq<real>,
                           wresult: array2<real>, new bresult: array2<real>, new used: array2<real>)
    requires |ys| == |xs| == |ws| == |wb|
    requires wresult.Length0 > 0 ==>
      bresult.Length0 == used.Length0 == wresult.Length0 && bresult.Length1 == used.Length1 == wresult.Length1
    requires old(allocated(bresult)) && old(allocated(used))
    requires Binned(xs, ys, ws, wb, old(Snap(wresult)), old(Snap(bresult)), old(Snap(used)), wresult, bresult, used, |xs|)
    ensures forall i, j | 0 <= i < wresult.Length0 && 0 <= j < wresult.Length1 ::
      && wresult[i, j] == old(wresult[i, j]) + BinSum(xs, ys, ws, i, j, |xs|)
      && bresult[i, j] == old(bresult[i, j]) + BinSum(xs, ys, wb, i, j, |xs|)
      && used[i, j] == if BinCount(xs, ys, i, j, |xs|) > 0 then 1.0 else old(used[i, j])
  {
  }

  /** Accumulates entry `n` into its bin (lines 353-359). */
  method AddEntry(binsX: array<int>, binsY: array<int>, wsource: array<real>, bsource: array<real>,
                  wresult: array2<real>, bresult: array2<real>, used: array2<real>, n: int,
                  ghost xs: seq<int>, ghost ys: seq<int>, ghost ws: seq<real>, ghost wb: seq<real>,
                  ghost w0: Table, ghost b0: Table, ghost u0: Table)
    requires binsY.Length == wsource.Length == bsource.Length == binsX.Length && 0 <= n < binsX.Length
    requires xs == binsX[..] && ys == binsY[..] && ws == wsource[..] && wb == Weighted(wsource[..], bsource[..])
    requires wresult != bresult && wresult != used && bresult != used
    requires 0 <= binsX[n] < wresult.Length0 && 0 <= binsY[n] < wresult.Length1
    requires bresult.Length0 == used.Length0 == wresult.Length0 && bresult.Length1 == used.Length1 == wresult.Length1
    requires Binned(xs, ys, ws, wb, w0, b0, u0, wresult, bresult, used, n)
    modifies wresult, bresult, used
    ensures forall i, j | 0 <= i < wresult.Length0 && 0 <= j < wresult.Length1 ::
      && wresult[i, j] == old(wresult[i, j]) + (if InBin(xs, ys, n, i, j) then ws[n] else 0.0)
      && bresult[i, j] == old(bresult[i, j]) + (if InBin(xs, ys, n, i, j) then wb[n] else 0.0)
      && used[i, j] == if InBin(xs, ys, n, i, j) then 1.0 else old(used[i, j])
    ensures Binned(xs, ys, ws, wb, w0, b0, u0, wresult, bresult, used, n + 1)
  {
    var i, j := binsX[n], binsY[n];
    wresult[i, j] := wresult[i, j] + wsource[n];
    bresult[i, j] := bresult[i, j] + wsource[n] * bsource[n];
    used[i, j] := 1.0;
    BinnedStep(xs, ys, ws, wb, w0, b0, u0, wresult, bresult, used, n);
  }

  /** The pass over the entries (lines 352-360): each bin gains the weights of its
      entries and their products with the values, and is flagged once touched. */
  method Accumulate(binsX: array<int>, binsY: array<int>, wsource: array<real>, bsource: array<real>,
                    wresult: array2<real>, bresult: array2<real>, used: array2<real>)
    requires binsY.Length == wsource.Length == bsource.Length == binsX.Length
    requires wresult.Length0 > 0 ==>
      bresult.Length0 == used.Length0 == wresult.Length0 && bresult.Length1 == used.Length1 == wresult.Length1
    requires wresult != bresult && wresult != used && bresult != used
    requires BinsInRange(binsX[..], binsY[..], wresult.Length0, wresult.Length1)
    modifies wresult, bresult, used
    ensures forall i, j | 0 <= i < wresult.Length0 && 0 <= j < wresult.Length1 ::
      && wresult[i, j] == old(wresult[i, j]) + BinSum(binsX[..], binsY[..], wsource[..], i, j, binsX.Length)
      && bresult[i, j] == old(bresult[i, j]) + BinSum(binsX[..], binsY[..], Weighted(wsource[..], bsource[..]), i, j, binsX.Length)
      && used[i, j] == if BinCount(binsX[..], binsY[..], i, j, binsX.Length) > 0 then 1.0 else old(used[i, j])
  {
    ghost var xs, ys, ws := binsX[..], binsY[..], wsource[..];
    ghost var wb := Weighted(wsource[..], bsource[..]);
    ghost var w0, b0, u0 := Snap(wresult), Snap(bresult), Snap(used);
    BinnedStart(xs, ys, ws, wb, wresult, bresult, used);
    for n := 0 to binsX.Length
      invariant Binned(xs, ys, ws, wb, w0, b0, u0, wresult, bresult, used, n)
    {
      AddEntry(binsX, binsY, wsource, bsource, wresult, bresult, used, n, xs, ys, ws, wb, w0, b0, u0);
    }
    BinnedEnd(xs, ys, ws, wb, wresult, bresult, used);
  }

  /** Py_Bin2DProfile: the argument checks, then the pass over the entries; on
      success the result is 1, as the wrapper returns. */
  method Bin2DProfile(binsX: array<int>, binsY: array<int>, wsource: array<real>, bsource: array<real>,
                      wresult: array2<real>, bresult: array2<real>, used: array2<real>)
    returns (r: Result<int, ProfileError>)
    requires CheckProfile(binsX, binsY, wsource, bsource, wresult, bresult, used).Ok? ==>
      && wresult != bresult && wresult != used && bresult != used
      && BinsInRange(binsX[..], binsY[..], wresult.Length0, wresult.Length1)
    modifies wresult, bresult, used
    ensures r.Err? <==> CheckProfile(binsX, binsY, wsource, bsource, wresult, bresult, used).Err?
    ensures r.Err? ==> CheckProfile(binsX, binsY, wsource, bsource, wresult, bresult, used) == Err(r.error)
    ensures r.Err? ==> unchanged(wresult, bresult, used)
    ensures r.Ok? ==> r.value == 1
    ensures r.Ok? ==> forall i, j | 0 <= i < wresult.Length0 && 0 <= j < wresult.Length1 ::
      && wresult[i, j] == old(wresult[i, j]) + BinSum(binsX[..], binsY[..], wsource[..], i, j, binsX.Length)
      && bresult[i, j] == old(bresult[i, j]) + BinSum(binsX[..], binsY[..], Weighted(wsource[..], bsource[..]), i, j, binsX.Length)
      && used[i, j] == if BinCount(binsX[..], binsY[..], i, j, binsX.Length) > 0 then 1.0 else old(used[i, j])
  {
    var check := CheckProfile(binsX, binsY, wsource, bsource, wresult, bresult, used);
    if check.Err? {
      return Err(check.error);
    }
    if wresult.Length0 > 0 {
      SameShapeDims(bresult, wresult);
      SameShapeDims(used, wresult);
    }
    Accumulate(binsX, binsY, wsource, bsource, wresult, bresult, used);
    r := Ok(1);
  }

  /** Two tables of the same size and first dimension have the same shape, once the
      first dimension is positive. */
  lemma SameShapeDims(a: array2<real>, b: array2<real>)
    requires SameShape(a, b) && b.Length0 > 0
    ensures a.Length0 == b.Length0 && a.Length1 == b.Length1
  {
  }

  /** A bin's flag is set exactly when some entry falls into it. */
  lemma {:induction false} BinCountPositive(binsX: seq<int>, binsY: seq<int>, i: int, j: int, n: int)
    requires |binsY| == |binsX| && 0 <= n <= |binsX|
    ensures BinCount(binsX, binsY, i, j, n) > 0 <==> exists m | 0 <= m < n :: InBin(binsX, binsY, m, i, j)
  {
    if n > 0 {
      BinCountPositive(binsX, binsY, i, j, n - 1);
    }
  }

  /** A bin no entry falls into gains nothing. */
  lemma {:induction false} UntouchedBinUnchanged(binsX: seq<int>, binsY: seq<int>, vals: seq<real>, i: int, j: int, n: int)
    requires |binsY| == |binsX| == |vals| && 0 <= n <= |binsX|
    requires BinCount(binsX, binsY, i, j, n) == 0
    ensures BinSum(binsX, binsY, vals, i, j, n) == 0.0
  {
    if n > 0 {
      UntouchedBinUnchanged(binsX, binsY, vals, i, j, n - 1);
    }
  }

  /** When every entry of a bin carries the same value `v`, the bin's weighted sum is
      `v` times its weight, so bresult / wresult recovers `v`. */
  lemma {:induction false} UniformValue(binsX: seq<int>, binsY: seq<int>, w: seq<real>, b: seq<real>, v: real, i: int, j: int, n: int)
    requires |binsY| == |binsX| == |w| == |b| && 0 <= n <= |binsX|
    requires forall m | 0 <= m < n && InBin(binsX, binsY, m, i, j) :: b[m] == v
    ensures BinSum(binsX, binsY, Weighted(w, b), i, j, n) == v * BinSum(binsX, binsY, w, i, j, n)
  {
    if n > 0 {
      UniformValue(binsX, binsY, w, b, v, i, j, n - 1);
    }
  }

  /** A bin's sum over the first `n` entries ignores everything after them. */
  lemma {:induction false} BinSumPrefix(xs: seq<int>, ys: seq<int>, vs: seq<real>,
                                        xs': seq<int>, ys': seq<int>, vs': seq<real>, i: int, j: int, n: int)
    requires |ys| == |xs| == |vs| && |ys'| == |xs'| == |vs'| && 0 <= n <= |xs|
    ensures BinSum(xs + xs', ys + ys', vs + vs', i, j, n) == BinSum(xs, ys, vs, i, j, n)
  {
    if n > 0 {
      BinSumPrefix(xs, ys, vs, xs', ys', vs', i, j, n - 1);
    }
  }

  /** Accumulating two batches of entries one after the other gives each bin the sum
      over both: the profile of a concatenation is the sum of the profiles. */
  lemma {:induction false} BinSumAppend(xs: seq<int>, ys: seq<int>, vs: seq<real>,
                                        xs': seq<int>, ys': seq<int>, vs': seq<real>, i: int, j: int, m: int)
    requires |ys| == |xs| == |vs| && |ys'| == |xs'| == |vs'| && 0 <= m <= |xs'|
    ensures BinSum(xs + xs', ys + ys', vs + vs', i, j, |xs| + m)
         == BinSum(xs, ys, vs, i, j, |xs|) + BinSum(xs', ys', vs', i, j, m)
  {
    if m == 0 {
      BinSumPrefix(xs, ys, vs, xs', ys', vs', i, j, |xs|);
    } else {
      BinSumAppend(xs, ys, vs, xs', ys', vs', i, j, m - 1);
      assert InBin(xs + xs', ys + ys', |xs| + m - 1, i, j) == InBin(xs', ys', m - 1, i, j);
    }
  }
}
