/**
 * CombineGrids: merging a sparse list of integer-indexed source points into a
 * destination point list at an integer refinement factor (PointCombine.c).
 *
 * The kernel works in place on the caller's buffers.  Each side of the merge is a
 * PointSet: parallel buffers of cell coordinates, masks, weights and one row of
 * values per physical quantity.  A source point is "consumed" by overwriting its x
 * coordinate with -1, and points with a negative x coordinate are skipped on both
 * sides.
 */
module CombineGrids {
  import opened Outcomes

  /** One side of a merge.  Row k of `vals` holds quantity k for every point. */
  class PointSet {
    const x: array<int>
    const y: array<int>
    const mask: array<int>
    const wgt: array<real>
    const vals: array2<real>

    constructor (x: array<int>, y: array<int>, mask: array<int>, wgt: array<real>, vals: array2<real>)
      ensures this.x == x && this.y == y && this.mask == mask && this.wgt == wgt && this.vals == vals
    {
      this.x, this.y, this.mask, this.wgt, this.vals := x, y, mask, wgt, vals;
    }
  }

  /** The argument checks of the wrapper, one constructor per error it reports. */
  datatype ShapeError =
    | SrcYShape | SrcMaskShape | SrcWgtShape
    | DstYShape | DstMaskShape | DstWgtShape
    | NoValueArrays | ValueListLengths

  /** Every buffer of a side has the length of its x buffer, and both sides carry
      the same, positive, number of value rows. */
  predicate ShapesAgree(src: PointSet, dst: PointSet) {
    && src.y.Length == src.x.Length && src.mask.Length == src.x.Length && src.wgt.Length == src.x.Length
    && dst.y.Length == dst.x.Length && dst.mask.Length == dst.x.Length && dst.wgt.Length == dst.x.Length
    && src.vals.Length0 >= 1 && dst.vals.Length0 == src.vals.Length0
  }

  /** The argument checks, in the order the wrapper makes them; on success the
      number of value arrays. */
  function CheckShapes(src: PointSet, dst: PointSet): (r: Result<nat, ShapeError>)
    ensures r.Ok? <==> ShapesAgree(src, dst)
    ensures r.Ok? ==> r.value == src.vals.Length0 == dst.vals.Length0 && r.value >= 1
    ensures r == Err(SrcYShape) <==> src.y.Length != src.x.Length
    ensures r == Err(DstWgtShape) ==>
      && src.y.Length == src.mask.Length == src.wgt.Length == src.x.Length
      && dst.y.Length == dst.mask.Length == dst.x.Length != dst.wgt.Length
    ensures r == Err(NoValueArrays) ==> src.vals.Length0 < 1
    ensures r == Err(ValueListLengths) ==> src.vals.Length0 >= 1 && dst.vals.Length0 != src.vals.Length0
  {
    if src.y.Length != src.x.Length then Err(SrcYShape)
    else if src.mask.Length != src.x.Length then Err(SrcMaskShape)
    else if src.wgt.Length != src.x.Length then Err(SrcWgtShape)
    else if dst.y.Length != dst.x.Length then Err(DstYShape)
    else if dst.mask.Length != dst.x.Length then Err(DstMaskShape)
    else if dst.wgt.Length != dst.x.Length then Err(DstWgtShape)
    else if src.vals.Length0 < 1 then Err(NoValueArrays)
    else if dst.vals.Length0 != src.vals.Length0 then Err(ValueListLengths)
    else Ok(src.vals.Length0)
  }

  /** The buffers the merge writes are none of the buffers it only reads, and the
      two sides do not share a buffer that is written. */
  predicate Separate(src: PointSet, dst: PointSet) {
    && src.x != src.y && src.x != src.mask && src.x != dst.x && src.x != dst.y && src.x != dst.mask
    && dst.mask != src.y && dst.mask != src.mask && dst.mask != dst.x && dst.mask != dst.y
    && src.wgt != dst.wgt && src.vals != dst.vals
  }

  /** The mask a match leaves on a destination point (the expression at line 199):
      on the same level the AND of both masks, across levels the destination's own. */
  function MergeMask(rf: int, srcMask: int, dstMask: int): (m: int)
    ensures m == 0 || m == 1
    ensures rf == 1 ==> (m == 1 <==> srcMask != 0 && dstMask != 0)
    ensures rf != 1 ==> (m == 1 <==> dstMask != 0)
  {
    if (srcMask != 0 && dstMask != 0) || (rf != 1 && dstMask != 0) then 1 else 0
  }

  /** The coordinates the merge matches on, as they stand when it starts. */
  datatype Coords = Coords(srcX: seq<int>, srcY: seq<int>, dstX: seq<int>, dstY: seq<int>, rf: int)
  {
    predicate WellShaped() { |srcY| == |srcX| && |dstY| == |dstX| }

    /** No live destination point before `di` has the coordinates of `di`. */
    predicate FirstLive(di: int)
      requires WellShaped() && 0 <= di < |dstX|
    {
      forall d :: 0 <= d < di ==> !(dstX[d] >= 0 && dstX[d] == dstX[di] && dstY[d] == dstY[di])
    }

    /** The scan for fine cell (fx, fy) matches destination `di`: it is live, it sits
        at (fx, fy), and on the same level it is the first live point there (the scan
        stops at the first match). */
    predicate MatchesAt(fx: int, fy: int, di: int)
      requires WellShaped() && 0 <= di < |dstX|
    {
      dstX[di] >= 0 && dstX[di] == fx && dstY[di] == fy && (rf == 1 ==> FirstLive(di))
    }

    /** Fine-level x coordinate of the corner of source `si`'s block. */
    function BaseX(si: int): int
      requires WellShaped() && 0 <= si < |srcX|
    {
      rf * srcX[si]
    }

    /** Fine-level y coordinate of the corner of source `si`'s block. */
    function BaseY(si: int): int
      requires WellShaped() && 0 <= si < |srcX|
    {
      rf * srcY[si]
    }

    /** Destination `di` lies in the rf x rf block of fine cells under source `si`. */
    predicate InBlock(si: int, di: int)
      requires WellShaped() && 0 <= si < |srcX| && 0 <= di < |dstX|
    {
      && BaseX(si) <= dstX[di] < BaseX(si) + rf
      && BaseY(si) <= dstY[di] < BaseY(si) + rf
    }

    /** Source point `si` feeds destination point `di` during the merge. */
    predicate Hit(si: int, di: int)
      requires WellShaped() && 0 <= si < |srcX| && 0 <= di < |dstX|
    {
      srcX[si] >= 0 && dstX[di] >= 0 && InBlock(si, di) && (rf == 1 ==> FirstLive(di))
    }
  }

  /** The destinations the scan for fine cell (fx, fy) matches, among the first `n`. */
  ghost function MatchesBelow(c: Coords, fx: int, fy: int, n: int): set<int>
    requires c.WellShaped() && 0 <= n <= |c.dstX|
  {
    set d | 0 <= d < n && c.MatchesAt(fx, fy, d)
  }

  /** The destinations source point `si` feeds. */
  ghost function FedSet(c: Coords, si: int): set<int>
    requires c.WellShaped() && 0 <= si < |c.srcX|
  {
    set d | 0 <= d < |c.dstX| && c.Hit(si, d)
  }

  /** Column offset and row offset of destination `di` inside source `si`'s block. */
  function Offset(c: Coords, si: int, di: int): (int, int)
    requires c.WellShaped() && 0 <= si < |c.srcX| && 0 <= di < |c.dstX|
  {
    (c.dstX[di] - c.BaseX(si), c.dstY[di] - c.BaseY(si))
  }

  /** The destinations source `si` feeds from fine cells of column `xOff` of its block
      with row offset below `yOff`: what the scan of that column has fed so far. */
  ghost function ColumnFed(c: Coords, si: int, xOff: int, yOff: int): set<int>
    requires c.WellShaped() && 0 <= si < |c.srcX|
  {
    set d | 0 <= d < |c.dstX| && c.Hit(si, d) && Offset(c, si, d).0 == xOff && Offset(c, si, d).1 < yOff
  }

  /** The destinations source `si` feeds from the columns of its block before `xOff`. */
  ghost function FedBefore(c: Coords, si: int, xOff: int): set<int>
    requires c.WellShaped() && 0 <= si < |c.srcX|
  {
    set d | 0 <= d < |c.dstX| && c.Hit(si, d) && Offset(c, si, d).0 < xOff
  }

  /** Scanning fine cell (xOff, yOff) of the block feeds exactly the destinations at
      that cell, none of which the earlier cells of the column fed, and each of them
      at an index the source weight buffer has. */
  lemma CellStep(c: Coords, si: int, xOff: int, yOff: int, fx: int, fy: int, n: int, srcWgtLen: int)
    requires c.WellShaped() && 0 <= si < |c.srcX| && c.srcX[si] >= 0
    requires WeightReadsInBounds(c, srcWgtLen)
    requires 0 <= xOff < c.rf && 0 <= yOff < c.rf
    requires fx == c.BaseX(si) + xOff && fy == c.BaseY(si) + yOff && n == |c.dstX|
    ensures forall d :: d in ColumnFed(c, si, xOff, yOff + 1) <==> d in ColumnFed(c, si, xOff, yOff) || d in MatchesBelow(c, fx, fy, n)
    ensures |ColumnFed(c, si, xOff, yOff + 1)| == |ColumnFed(c, si, xOff, yOff)| + |MatchesBelow(c, fx, fy, n)|
    ensures forall d | 0 <= d < n && c.MatchesAt(fx, fy, d) :: d < srcWgtLen
  {
    var m := MatchesBelow(c, fx, fy, n);
    assert ColumnFed(c, si, xOff, yOff + 1) == ColumnFed(c, si, xOff, yOff) + m;
    assert ColumnFed(c, si, xOff, yOff) * m == {};
    forall d | 0 <= d < n && c.MatchesAt(fx, fy, d)
      ensures d < srcWgtLen
    {
      assert c.Hit(si, d);
    }
  }

  /** Scanning column `xOff` of the block adds the destinations of that column, none
      of which an earlier column fed. */
  lemma ColumnStep(c: Coords, si: int, xOff: int)
    requires c.WellShaped() && 0 <= si < |c.srcX| && c.srcX[si] >= 0
    requires 0 <= xOff < c.rf
    ensures forall d :: d in FedBefore(c, si, xOff + 1) <==> d in FedBefore(c, si, xOff) || d in ColumnFed(c, si, xOff, c.rf)
    ensures |FedBefore(c, si, xOff + 1)| == |FedBefore(c, si, xOff)| + |ColumnFed(c, si, xOff, c.rf)|
  {
    assert FedBefore(c, si, xOff + 1) == FedBefore(c, si, xOff) + ColumnFed(c, si, xOff, c.rf);
    assert FedBefore(c, si, xOff) * ColumnFed(c, si, xOff, c.rf) == {};
  }

  /** Before the first column nothing is fed; after the last one, all of `FedSet`. */
  lemma ColumnsDone(c: Coords, si: int)
    requires c.WellShaped() && 0 <= si < |c.srcX| && c.srcX[si] >= 0
    ensures FedBefore(c, si, if c.rf > 0 then c.rf else 0) == FedSet(c, si)
    ensures FedBefore(c, si, 0) == {}
  {
  }

  /** Number of matches made by the first `n` source points. */
  ghost function FoundBefore(c: Coords, n: int): nat
    requires c.WellShaped() && 0 <= n <= |c.srcX|
  {
    if n == 0 then 0 else FoundBefore(c, n - 1) + |FedSet(c, n - 1)|
  }

  /** Number of the first `n` source points that feed destination `di`. */
  ghost function HitCount(c: Coords, di: int, n: int): nat
    requires c.WellShaped() && 0 <= di < |c.dstX| && 0 <= n <= |c.srcX|
  {
    if n == 0 then 0 else HitCount(c, di, n - 1) + (if c.Hit(n - 1, di) then 1 else 0)
  }

  /** Quantity `k` that the first `n` source points add to destination `di`. */
  ghost function ValSum(c: Coords, vals: array2<real>, k: int, di: int, n: int): real
    requires c.WellShaped() && 0 <= di < |c.dstX| && 0 <= n <= |c.srcX|
    requires 0 <= k < vals.Length0 && |c.srcX| <= vals.Length1
    reads vals
  {
    if n == 0 then 0.0
    else ValSum(c, vals, k, di, n - 1) + (if c.Hit(n - 1, di) then vals[k, n - 1] else 0.0)
  }

  /** Weight the first `n` source points add to destination `di`; every match adds
      `w`, the source weight stored at the destination's own index. */
  ghost function WgtSum(c: Coords, w: real, di: int, n: int): real
    requires c.WellShaped() && 0 <= di < |c.dstX| && 0 <= n <= |c.srcX|
  {
    if n == 0 then 0.0 else WgtSum(c, w, di, n - 1) + (if c.Hit(n - 1, di) then w else 0.0)
  }

  /** Mask of destination `di` after the first `n` source points, from `m0`. */
  ghost function MaskAfter(c: Coords, srcMask: seq<int>, m0: int, di: int, n: int): int
    requires c.WellShaped() && 0 <= di < |c.dstX| && 0 <= n <= |c.srcX| <= |srcMask|
  {
    if n == 0 then m0
    else
      var m := MaskAfter(c, srcMask, m0, di, n - 1);
      if c.Hit(n - 1, di) then MergeMask(c.rf, srcMask[n - 1], m) else m
  }

  /** Every weight read at a destination index (the source indexes src_wgt by the
      destination's index) stays inside the source weight buffer. */
  ghost predicate WeightReadsInBounds(c: Coords, srcWgtLen: int)
    requires c.WellShaped()
  {
    forall si, di | 0 <= si < |c.srcX| && 0 <= di < |c.dstX| && c.Hit(si, di) :: di < srcWgtLen
  }

  /** What a merge needs of its buffers once the argument checks have passed. */
  ghost predicate Ready(src: PointSet, dst: PointSet, c: Coords)
    reads src.x, src.y, dst.x, dst.y
  {
    && ShapesAgree(src, dst) && Separate(src, dst)
    && src.x.Length <= src.vals.Length1 && dst.x.Length <= dst.vals.Length1
    && c.WellShaped() && |c.srcX| == src.x.Length
    && c.srcY == src.y[..] && c.dstX == dst.x[..] && c.dstY == dst.y[..]
    && WeightReadsInBounds(c, src.wgt.Length)
  }

  /** The destination buffers hold their values at the start plus the contribution
      of source point `si` to each destination point in `fed`. */
  twostate predicate Contributed(src: PointSet, dst: PointSet, rf: int, si: int, fed: set<int>)
    requires ShapesAgree(src, dst) && 0 <= si < src.x.Length <= src.vals.Length1
    requires dst.x.Length <= dst.vals.Length1
    requires forall d | d in fed :: 0 <= d < dst.x.Length && d < src.wgt.Length
    reads src.wgt, src.mask, src.vals, dst.wgt, dst.mask, dst.vals
  {
    && (forall d | 0 <= d < dst.x.Length ::
          dst.wgt[d] == old(dst.wgt[d]) + (if d in fed then src.wgt[d] else 0.0))
    && (forall d | 0 <= d < dst.x.Length ::
          dst.mask[d] == if d in fed then MergeMask(rf, src.mask[si], old(dst.mask[d])) else old(dst.mask[d]))
    && (forall k, d | 0 <= k < dst.vals.Length0 && 0 <= d < dst.vals.Length1 ::
          dst.vals[k, d] == old(dst.vals[k, d]) + (if d in fed then src.vals[k, si] else 0.0))
  }

  /** Adds the values of source point `si` into destination point `di`, one quantity
      at a time (the loop at lines 204-206). */
  method AddValues(src: PointSet, dst: PointSet, si: int, di: int)
    requires src.vals != dst.vals && dst.vals.Length0 <= src.vals.Length0
    requires 0 <= si < src.vals.Length1 && 0 <= di < dst.vals.Length1
    modifies dst.vals
    ensures forall k, d | 0 <= k < dst.vals.Length0 && 0 <= d < dst.vals.Length1 ::
      dst.vals[k, d] == old(dst.vals[k, d]) + (if d == di then src.vals[k, si] else 0.0)
  {
    for k := 0 to dst.vals.Length0
      invariant forall k', d | 0 <= k' < dst.vals.Length0 && 0 <= d < dst.vals.Length1 ::
        dst.vals[k', d] == old(dst.vals[k', d]) + (if d == di && k' < k then src.vals[k', si] else 0.0)
    {
      dst.vals[k, di] := dst.vals[k, di] + src.vals[k, si];
    }
  }

  /** Merges source point `si` into destination point `di` (lines 197-206): the
      weight, the mask and every value of `di` are updated and `si` is consumed. */
  method MergePoint(src: PointSet, dst: PointSet, rf: int, si: int, di: int)
    requires ShapesAgree(src, dst) && Separate(src, dst)
    requires 0 <= si < src.x.Length && 0 <= di < dst.x.Length && di < src.wgt.Length
    requires src.x.Length <= src.vals.Length1 && dst.x.Length <= dst.vals.Length1
    modifies src.x, dst.wgt, dst.mask, dst.vals
    ensures forall d | 0 <= d < dst.wgt.Length ::
      dst.wgt[d] == if d == di then old(dst.wgt[d]) + src.wgt[di] else old(dst.wgt[d])
    ensures forall d | 0 <= d < dst.mask.Length ::
      dst.mask[d] == if d == di then MergeMask(rf, src.mask[si], old(dst.mask[d])) else old(dst.mask[d])
    ensures forall s | 0 <= s < src.x.Length :: src.x[s] == if s == si then -1 else old(src.x[s])
    ensures forall k, d | 0 <= k < dst.vals.Length0 && 0 <= d < dst.vals.Length1 ::
      dst.vals[k, d] == old(dst.vals[k, d]) + (if d == di then src.vals[k, si] else 0.0)
  {
    dst.wgt[di] := dst.wgt[di] + src.wgt[di];
    dst.mask[di] := MergeMask(rf, src.mask[si], dst.mask[di]);
    src.x[si] := -1;
    AddValues(src, dst, si, di);
  }

  /** Scans every destination point for fine cell (fx, fy) of source point `si` and
      merges the source into each match (lines 193-209); on the same level it stops
      at the first match. */
  method ScanDestinations(src: PointSet, dst: PointSet, ghost c: Coords, rf: int, si: int, fx: int, fy: int)
    returns (found: nat)
    requires ShapesAgree(src, dst) && Separate(src, dst)
    requires src.x.Length <= src.vals.Length1 && dst.x.Length <= dst.vals.Length1
    requires c.WellShaped() && c.dstX == dst.x[..] && c.dstY == dst.y[..] && c.rf == rf
    requires 0 <= si < src.x.Length
    requires forall d | 0 <= d < dst.x.Length && c.MatchesAt(fx, fy, d) :: d < src.wgt.Length
    modifies src.x, dst.wgt, dst.mask, dst.vals
    ensures Contributed(src, dst, rf, si, MatchesBelow(c, fx, fy, dst.x.Length))
    ensures forall s | 0 <= s < src.x.Length && s != si :: src.x[s] == old(src.x[s])
    ensures src.x[si] == if found > 0 then -1 else old(src.x[si])
    ensures found == |MatchesBelow(c, fx, fy, dst.x.Length)|
  {
    found := 0;
    var di := 0;
    ghost var hitAt := -1;
    while di < dst.x.Length && !(rf == 1 && found > 0)
      invariant 0 <= di <= dst.x.Length
      invariant found == |MatchesBelow(c, fx, fy, di)|
      invariant rf == 1 && found == 0 ==>
        forall d :: 0 <= d < di ==> !(dst.x[d] >= 0 && dst.x[d] == fx && dst.y[d] == fy)
      invariant rf == 1 && found > 0 ==>
        0 <= hitAt < di && dst.x[hitAt] >= 0 && dst.x[hitAt] == fx && dst.y[hitAt] == fy
      invariant forall d | 0 <= d < dst.x.Length ::
        dst.wgt[d] == old(dst.wgt[d]) + (if d < di && c.MatchesAt(fx, fy, d) then src.wgt[d] else 0.0)
      invariant forall d | 0 <= d < dst.x.Length ::
        dst.mask[d] == if d < di && c.MatchesAt(fx, fy, d) then MergeMask(rf, src.mask[si], old(dst.mask[d])) else old(dst.mask[d])
      invariant forall k, d | 0 <= k < dst.vals.Length0 && 0 <= d < dst.vals.Length1 ::
        dst.vals[k, d] == old(dst.vals[k, d]) + (if d < di && c.MatchesAt(fx, fy, d) then src.vals[k, si] else 0.0)
      invariant forall s | 0 <= s < src.x.Length && s != si :: src.x[s] == old(src.x[s])
      invariant src.x[si] == if found > 0 then -1 else old(src.x[si])
    {
      MatchesStep(c, fx, fy, di);
      if dst.x[di] >= 0 && fx == dst.x[di] && fy == dst.y[di] {
        assert c.MatchesAt(fx, fy, di);
        found := found + 1;
        MergePoint(src, dst, rf, si, di);
        hitAt := di;
      } else {
        assert !c.MatchesAt(fx, fy, di);
      }
      di := di + 1;
    }
    forall d | di <= d < dst.x.Length
      ensures !c.MatchesAt(fx, fy, d)
    {
      assert rf == 1 && found > 0;
      assert !c.FirstLive(d) || !(dst.x[d] == fx && dst.y[d] == fy) by {
        if dst.x[d] == fx && dst.y[d] == fy {
          assert c.dstX[hitAt] >= 0 && c.dstX[hitAt] == c.dstX[d] && c.dstY[hitAt] == c.dstY[d];
        }
      }
    }
    NoMatchesAbove(c, fx, fy, di, dst.x.Length);
  }

  /** Scanning destination `di` adds it to the matches exactly when it matches. */
  lemma MatchesStep(c: Coords, fx: int, fy: int, di: int)
    requires c.WellShaped() && 0 <= di < |c.dstX|
    ensures |MatchesBelow(c, fx, fy, di + 1)| == |MatchesBelow(c, fx, fy, di)| + (if c.MatchesAt(fx, fy, di) then 1 else 0)
  {
    if c.MatchesAt(fx, fy, di) {
      assert MatchesBelow(c, fx, fy, di + 1) == MatchesBelow(c, fx, fy, di) + {di};
    } else {
      assert MatchesBelow(c, fx, fy, di + 1) == MatchesBelow(c, fx, fy, di);
    }
  }

  /** When no destination from `lo` on matches, the matches below `n` are those
      below `lo`. */
  lemma NoMatchesAbove(c: Coords, fx: int, fy: int, lo: int, n: int)
    requires c.WellShaped() && 0 <= lo <= n <= |c.dstX|
    requires forall d | lo <= d < n :: !c.MatchesAt(fx, fy, d)
    ensures MatchesBelow(c, fx, fy, n) == MatchesBelow(c, fx, fy, lo)
  {
  }

  /** Scans column `xOff` of source point `si`'s block, fine cell by fine cell (the
      loop at lines 189-210). */
  method ScanColumn(src: PointSet, dst: PointSet, ghost c: Coords, rf: int, si: int,
                    initX: int, initY: int, xOff: int)
    returns (found: nat)
    requires ShapesAgree(src, dst) && Separate(src, dst)
    requires src.x.Length <= src.vals.Length1 && dst.x.Length <= dst.vals.Length1
    requires c.WellShaped() && c.dstX == dst.x[..] && c.dstY == dst.y[..] && c.rf == rf
    requires WeightReadsInBounds(c, src.wgt.Length)
    requires 0 <= si < src.x.Length == |c.srcX| && c.srcX[si] >= 0 && 0 <= xOff < rf
    requires initX == c.BaseX(si) && initY == c.BaseY(si)
    modifies src.x, dst.wgt, dst.mask, dst.vals
    ensures Contributed(src, dst, rf, si, ColumnFed(c, si, xOff, rf))
    ensures forall s | 0 <= s < src.x.Length && s != si :: src.x[s] == old(src.x[s])
    ensures src.x[si] == if found > 0 then -1 else old(src.x[si])
    ensures found == |ColumnFed(c, si, xOff, rf)|
  {
    found := 0;
    assert ColumnFed(c, si, xOff, 0) == {};
    var yOff := 0;
    while yOff < rf
      invariant 0 <= yOff <= rf
      invariant found == |ColumnFed(c, si, xOff, yOff)|
      invariant forall d | d in ColumnFed(c, si, xOff, yOff) :: 0 <= d < dst.x.Length && d < src.wgt.Length
      invariant forall d | 0 <= d < dst.x.Length ::
        dst.wgt[d] == old(dst.wgt[d]) + (if d in ColumnFed(c, si, xOff, yOff) then src.wgt[d] else 0.0)
      invariant forall d | 0 <= d < dst.x.Length ::
        dst.mask[d] == if d in ColumnFed(c, si, xOff, yOff) then MergeMask(rf, src.mask[si], old(dst.mask[d])) else old(dst.mask[d])
      invariant forall k, d | 0 <= k < dst.vals.Length0 && 0 <= d < dst.vals.Length1 ::
        dst.vals[k, d] == old(dst.vals[k, d]) + (if d in ColumnFed(c, si, xOff, yOff) then src.vals[k, si] else 0.0)
      invariant forall s | 0 <= s < src.x.Length && s != si :: src.x[s] == old(src.x[s])
      invariant src.x[si] == if found > 0 then -1 else old(src.x[si])
    {
      ghost var m := MatchesBelow(c, initX + xOff, initY + yOff, dst.x.Length);
      CellStep(c, si, xOff, yOff, initX + xOff, initY + yOff, dst.x.Length, src.wgt.Length);
      var n := ScanDestinations(src, dst, c, rf, si, initX + xOff, initY + yOff);
      found := found + n;
      yOff := yOff + 1;
    }
  }

  /** Merges source point `si` into every destination point its block covers: the
      rf x rf sub-cells in x-major order, each scanned against all destinations
      (lines 186-211). */
  method MergeSource(src: PointSet, dst: PointSet, ghost c: Coords, rf: int, si: int) returns (found: nat)
    requires ShapesAgree(src, dst) && Separate(src, dst)
    requires src.x.Length <= src.vals.Length1 && dst.x.Length <= dst.vals.Length1
    requires c.WellShaped() && c.dstX == dst.x[..] && c.dstY == dst.y[..] && c.rf == rf
    requires WeightReadsInBounds(c, src.wgt.Length)
    requires 0 <= si < src.x.Length == |c.srcX| && src.x[si] == c.srcX[si] && src.y[si] == c.srcY[si]
    modifies src.x, dst.wgt, dst.mask, dst.vals
    ensures Contributed(src, dst, rf, si, FedSet(c, si))
    ensures forall s | 0 <= s < src.x.Length && s != si :: src.x[s] == old(src.x[s])
    ensures src.x[si] == if found > 0 then -1 else old(src.x[si])
    ensures found == |FedSet(c, si)|
  {
    found := 0;
    if src.x[si] < 0 {
      assert FedSet(c, si) == {};
      return;
    }
    var initX := rf * src.x[si];
    var initY := rf * src.y[si];
    ColumnsDone(c, si);
    var xOff := 0;
    while xOff < rf
      invariant 0 <= xOff && (rf > 0 ==> xOff <= rf)
      invariant found == |FedBefore(c, si, xOff)|
      invariant forall d | d in FedBefore(c, si, xOff) :: 0 <= d < dst.x.Length && d < src.wgt.Length
      invariant forall d | 0 <= d < dst.x.Length ::
        dst.wgt[d] == old(dst.wgt[d]) + (if d in FedBefore(c, si, xOff) then src.wgt[d] else 0.0)
      invariant forall d | 0 <= d < dst.x.Length ::
        dst.mask[d] == if d in FedBefore(c, si, xOff) then MergeMask(rf, src.mask[si], old(dst.mask[d])) else old(dst.mask[d])
      invariant forall k, d | 0 <= k < dst.vals.Length0 && 0 <= d < dst.vals.Length1 ::
        dst.vals[k, d] == old(dst.vals[k, d]) + (if d in FedBefore(c, si, xOff) then src.vals[k, si] else 0.0)
      invariant forall s | 0 <= s < src.x.Length && s != si :: src.x[s] == old(src.x[s])
      invariant src.x[si] == if found > 0 then -1 else old(src.x[si])
    {
      ColumnStep(c, si, xOff);
      var n := ScanColumn(src, dst, c, rf, si, initX, initY, xOff);
      found := found + n;
      xOff := xOff + 1;
    }
  }

  /** The merge loop (lines 184-211): every live source point in turn is merged into
      the destination points of its block. */
  method Merge(src: PointSet, dst: PointSet, rf: int, ghost c: Coords) returns (numFound: nat)
    requires ShapesAgree(src, dst) && Separate(src, dst)
    requires src.x.Length <= src.vals.Length1 && dst.x.Length <= dst.vals.Length1
    requires c == Coords(src.x[..], src.y[..], dst.x[..], dst.y[..], rf)
    requires WeightReadsInBounds(c, src.wgt.Length)
    modifies src.x, dst.wgt, dst.mask, dst.vals
    ensures numFound == FoundBefore(c, src.x.Length)
    ensures forall d | 0 <= d < dst.x.Length ::
      dst.wgt[d] == old(dst.wgt[d]) + (if d < src.wgt.Length then WgtSum(c, src.wgt[d], d, src.x.Length) else 0.0)
    ensures forall d | 0 <= d < dst.x.Length ::
      dst.mask[d] == MaskAfter(c, src.mask[..], old(dst.mask[d]), d, src.x.Length)
    ensures forall k, d | 0 <= k < dst.vals.Length0 && 0 <= d < dst.vals.Length1 ::
      dst.vals[k, d] == old(dst.vals[k, d]) + (if d < dst.x.Length then ValSum(c, src.vals, k, d, src.x.Length) else 0.0)
    ensures forall s | 0 <= s < src.x.Length :: src.x[s] == if FedSet(c, s) != {} then -1 else old(src.x[s])
  {
    numFound := 0;
    for si := 0 to src.x.Length
      invariant numFound == FoundBefore(c, si)
      invariant forall d | 0 <= d < dst.x.Length ::
        dst.wgt[d] == old(dst.wgt[d]) + (if d < src.wgt.Length then WgtSum(c, src.wgt[d], d, si) else 0.0)
      invariant forall d | 0 <= d < dst.x.Length ::
        dst.mask[d] == MaskAfter(c, src.mask[..], old(dst.mask[d]), d, si)
      invariant forall k, d | 0 <= k < dst.vals.Length0 && 0 <= d < dst.vals.Length1 ::
        dst.vals[k, d] == old(dst.vals[k, d]) + (if d < dst.x.Length then ValSum(c, src.vals, k, d, si) else 0.0)
      invariant forall s | 0 <= s < si :: src.x[s] == if FedSet(c, s) != {} then -1 else old(src.x[s])
      invariant forall s | si <= s < src.x.Length :: src.x[s] == old(src.x[s])
    {
      var found := MergeSource(src, dst, c, rf, si);
      numFound := numFound + found;
    }
  }

  /** The coordinates a merge of `src` into `dst` at factor `rf` matches on. */
  ghost function Initial(src: PointSet, dst: PointSet, rf: int): Coords
    reads src.x, src.y, dst.x, dst.y
  {
    Coords(src.x[..], src.y[..], dst.x[..], dst.y[..], rf)
  }

  /** What the merge needs beyond the checked shapes: buffers that are not aliased,
      value rows at least as long as the point lists, and weight reads in bounds. */
  ghost predicate MergeSafe(src: PointSet, dst: PointSet, rf: int)
    reads src.x, src.y, dst.x, dst.y
  {
    ShapesAgree(src, dst) ==>
      && Separate(src, dst)
      && src.x.Length <= src.vals.Length1 && dst.x.Length <= dst.vals.Length1
      && WeightReadsInBounds(Initial(src, dst, rf), src.wgt.Length)
  }

  /** Py_CombineGrids: the argument checks (lines 76-143), then the merge (lines
      184-211); the result is the number of matches. */
  method CombineGrids(src: PointSet, dst: PointSet, rf: int) returns (r: Result<nat, ShapeError>)
    requires MergeSafe(src, dst, rf)
    modifies src.x, dst.wgt, dst.mask, dst.vals
    ensures r.Ok? <==> ShapesAgree(src, dst)
    ensures r.Err? ==> r == CheckShapes(src, dst) && unchanged(src.x, dst.wgt, dst.mask, dst.vals)
    ensures r.Ok? ==> var c := old(Initial(src, dst, rf));
      && r.value == FoundBefore(c, src.x.Length)
      && (forall d | 0 <= d < dst.x.Length ::
            dst.wgt[d] == old(dst.wgt[d]) + (if d < src.wgt.Length then WgtSum(c, src.wgt[d], d, src.x.Length) else 0.0))
      && (forall d | 0 <= d < dst.x.Length ::
            dst.mask[d] == MaskAfter(c, src.mask[..], old(dst.mask[d]), d, src.x.Length))
      && (forall k, d | 0 <= k < dst.vals.Length0 && 0 <= d < dst.vals.Length1 ::
            dst.vals[k, d] == old(dst.vals[k, d]) + (if d < dst.x.Length then ValSum(c, src.vals, k, d, src.x.Length) else 0.0))
      && (forall s | 0 <= s < src.x.Length :: src.x[s] == if FedSet(c, s) != {} then -1 else old(src.x[s]))
  {
    var check := CheckShapes(src, dst);
    if check.Err? {
      return Err(check.error);
    }
    var n := Merge(src, dst, rf, Initial(src, dst, rf));
    r := Ok(n);
  }

  /** On the same level a source point feeds at most one destination point, since
      the scan of its single fine cell stops at the first live match. */
  lemma SameLevelFeedsOne(c: Coords, si: int)
    requires c.WellShaped() && 0 <= si < |c.srcX| && c.rf == 1
    ensures |FedSet(c, si)| <= 1
  {
    var fed := FedSet(c, si);
    if |fed| > 1 {
      var a :| a in fed;
      assert |fed - {a}| == |fed| - 1;
      var b :| b in fed - {a};
    }
  }

  /** On the same level the merge reports at most one match per source point. */
  lemma {:induction false} SameLevelCount(c: Coords, n: int)
    requires c.WellShaped() && 0 <= n <= |c.srcX| && c.rf == 1
    ensures FoundBefore(c, n) <= n
  {
    if n > 0 {
      SameLevelCount(c, n - 1);
      SameLevelFeedsOne(c, n - 1);
    }
  }

  /** Every match adds the same weight, the source weight at the destination's index,
      so the weight a destination gains is that weight times its number of matches. */
  lemma {:induction false} WeightGain(c: Coords, w: real, di: int, n: int)
    requires c.WellShaped() && 0 <= di < |c.dstX| && 0 <= n <= |c.srcX|
    ensures WgtSum(c, w, di, n) == HitCount(c, di, n) as real * w
  {
    if n > 0 {
      WeightGain(c, w, di, n - 1);
    }
  }

  /** Across levels a matched destination point ends with mask 1 exactly when its
      mask was nonzero; an unmatched one keeps its mask. */
  lemma {:induction false} CrossLevelMask(c: Coords, srcMask: seq<int>, m0: int, di: int, n: int)
    requires c.WellShaped() && 0 <= di < |c.dstX| && 0 <= n <= |c.srcX| <= |srcMask| && c.rf != 1
    ensures MaskAfter(c, srcMask, m0, di, n) == if HitCount(c, di, n) == 0 then m0 else if m0 != 0 then 1 else 0
  {
    if n > 0 {
      CrossLevelMask(c, srcMask, m0, di, n - 1);
    }
  }

  /** Every source point among the first `n` that feeds `di` has a nonzero mask. */
  ghost predicate HitMasksSet(c: Coords, srcMask: seq<int>, di: int, n: int)
    requires c.WellShaped() && 0 <= di < |c.dstX| && 0 <= n <= |c.srcX| <= |srcMask|
  {
    forall s | 0 <= s < n && c.Hit(s, di) :: srcMask[s] != 0
  }

  /** A destination with no match among the first `n` source points is fed by none of them. */
  lemma {:induction false} NoHitsBelow(c: Coords, di: int, n: int)
    requires c.WellShaped() && 0 <= di < |c.dstX| && 0 <= n <= |c.srcX|
    ensures HitCount(c, di, n) == 0 <==> forall s | 0 <= s < n :: !c.Hit(s, di)
  {
    if n > 0 {
      NoHitsBelow(c, di, n - 1);
    }
  }

  /** On the same level a matched destination point ends with mask 1 exactly when its
      own mask and the mask of every source point matched to it were nonzero. */
  lemma {:induction false} SameLevelMask(c: Coords, srcMask: seq<int>, m0: int, di: int, n: int)
    requires c.WellShaped() && 0 <= di < |c.dstX| && 0 <= n <= |c.srcX| <= |srcMask| && c.rf == 1
    ensures MaskAfter(c, srcMask, m0, di, n) ==
      if HitCount(c, di, n) == 0 then m0
      else if m0 != 0 && HitMasksSet(c, srcMask, di, n) then 1 else 0
  {
    if n > 0 {
      SameLevelMask(c, srcMask, m0, di, n - 1);
      NoHitsBelow(c, di, n - 1);
    }
  }

  /** A destination point with a negative x coordinate is never matched, so the merge
      leaves its weight, mask and values as they were. */
  lemma {:induction false} DeadDestination(c: Coords, srcMask: seq<int>, vals: array2<real>, m0: int, di: int, n: int)
    requires c.WellShaped() && 0 <= di < |c.dstX| && 0 <= n <= |c.srcX| <= |srcMask| && c.dstX[di] < 0
    requires |c.srcX| <= vals.Length1
    ensures HitCount(c, di, n) == 0
    ensures MaskAfter(c, srcMask, m0, di, n) == m0
    ensures forall w: real :: WgtSum(c, w, di, n) == 0.0
    ensures forall k | 0 <= k < vals.Length0 :: ValSum(c, vals, k, di, n) == 0.0
  {
    if n > 0 {
      DeadDestination(c, srcMask, vals, m0, di, n - 1);
    }
  }

  /** A source point with a negative x coordinate feeds nothing. */
  lemma ConsumedSourceFeedsNothing(c: Coords, si: int)
    requires c.WellShaped() && 0 <= si < |c.srcX| && c.srcX[si] < 0
    ensures FedSet(c, si) == {}
  {
  }

  /** At refinement factor 2 the source point at (0, 0) feeds each of the four fine
      cells of its block, so one source point makes four matches. */
  lemma RefinedExample()
    ensures var c := Coords([0], [0], [0, 0, 1, 1], [0, 1, 0, 1], 2);
      FedSet(c, 0) == {0, 1, 2, 3} && FoundBefore(c, 1) == 4
  {
    var c := Coords([0], [0], [0, 0, 1, 1], [0, 1, 0, 1], 2);
    assert c.Hit(0, 0) && c.Hit(0, 1) && c.Hit(0, 2) && c.Hit(0, 3);
    assert FedSet(c, 0) == {0, 1, 2, 3};
  }

  /** On the same level only the first of two live destination points at the same
      cell is matched. */
  lemma SameLevelDuplicateExample()
    ensures var c := Coords([3], [4], [3, 3], [4, 4], 1);
      FedSet(c, 0) == {0} && FoundBefore(c, 1) == 1
  {
    var c := Coords([3], [4], [3, 3], [4, 4], 1);
    assert c.Hit(0, 0);
    assert !c.FirstLive(1);
    assert FedSet(c, 0) == {0};
  }
}
