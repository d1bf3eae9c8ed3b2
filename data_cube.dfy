/**
 * DataCube: copying between a three-dimensional grid of cells and a uniform cube
 * that overlaps it (DataCubeGeneric in PointCombine.c).
 *
 * Each grid cell covers, on each axis, the interval from its lower edge
 * gridLeft + gridDx * g to its upper edge gridLeft + gridDx * (g + 1).  A cell is
 * kept when the lastlevel flag `ll` is set or its child mask is nonzero (it is a
 * leaf), and when on every axis its lower edge is at most the cube's right edge and
 * its upper edge at least the cube's left edge.  For a kept cell the kernel computes
 * a box of cube indices, clamped to the cube, and transfers a value for every cube
 * cell of the box: Refine copies the grid value into the cube, Replace copies the
 * cube value into the grid.  The result is the number of transfers.
 */
module DataCube {
  import opened Outcomes

  /** The transfer rule the wrapper passes in (dcRefine or dcReplace). */
  datatype Rule = Refine | Replace

  /** The argument checks of the wrapper, one per edge or spacing vector that must
      hold three values. */
  datatype CubeError =
    | GridLeftEdgeSize | GridDxSize | CubeLeftEdgeSize | CubeRightEdgeSize | CubeDxSize

  /** A cell index, or the extent of a three-dimensional buffer. */
  datatype Cell = Cell(x: int, y: int, z: int)
  {
    /** The coordinate along axis `a`. */
    function At(a: int): int {
      if a == 0 then x else if a == 1 then y else z
    }
  }

  /** The extent of a three-dimensional buffer. */
  function Dims<T>(a: array3<T>): (d: Cell)
    ensures d.x == a.Length0 && d.y == a.Length1 && d.z == a.Length2
  {
    Cell(a.Length0, a.Length1, a.Length2)
  }

  /** Cell `c` lies inside a buffer of extent `d`. */
  predicate Inside(c: Cell, d: Cell) {
    0 <= c.x < d.x && 0 <= c.y < d.y && 0 <= c.z < d.z
  }

  /** Edges and spacings of the grid and of the cube, three values each. */
  datatype Geometry = Geometry(gridLeft: seq<real>, gridDx: seq<real>,
                               cubeLeft: seq<real>, cubeRight: seq<real>, cubeDx: seq<real>)
  {
    /** Every vector holds the three values the wrapper demands. */
    predicate WellSized() {
      |gridLeft| == 3 && |gridDx| == 3 && |cubeLeft| == 3 && |cubeRight| == 3 && |cubeDx| == 3
    }

    /** Lower edge of grid cell `g` along axis `a`. */
    function Low(a: int, g: int): real
      requires WellSized() && 0 <= a < 3
    {
      gridLeft[a] + gridDx[a] * g as real
    }

    /** Upper edge of grid cell `g` along axis `a`. */
    function High(a: int, g: int): real
      requires WellSized() && 0 <= a < 3
    {
      gridLeft[a] + gridDx[a] * (g + 1) as real
    }

    /** Lower edge of cube cell `k` along axis `a`. */
    function CubeLow(a: int, k: int): real
      requires WellSized() && 0 <= a < 3
    {
      cubeLeft[a] + cubeDx[a] * k as real
    }
  }

  /** The argument checks, in the order the wrapper makes them (lines 424-490). */
  function CheckGeometry(geo: Geometry): (r: Result<(), CubeError>)
    ensures r.Ok? <==> geo.WellSized()
    ensures r == Err(GridLeftEdgeSize) <==> |geo.gridLeft| != 3
    ensures r == Err(CubeDxSize) ==>
      |geo.gridLeft| == |geo.gridDx| == |geo.cubeLeft| == |geo.cubeRight| == 3 != |geo.cubeDx|
  {
    if |geo.gridLeft| != 3 then Err(GridLeftEdgeSize)
    else if |geo.gridDx| != 3 then Err(GridDxSize)
    else if |geo.cubeLeft| != 3 then Err(CubeLeftEdgeSize)
    else if |geo.cubeRight| != 3 then Err(CubeRightEdgeSize)
    else if |geo.cubeDx| != 3 then Err(CubeDxSize)
    else Ok(())
  }

  /** The least integer at or above `r` (ceill). */
  function Ceil(r: real): (n: int)
    ensures r <= n as real < r + 1.0
  {
    -((-r).Floor)
  }

  function Max(a: int, b: int): int { if a < b then b else a }
  function Min(a: int, b: int): int { if a < b then a else b }

  /** The cube indices a grid cell covers along one axis, half-open, or Miss when
      the cell lies outside the cube on that axis. */
  datatype Overlap = Miss | Span(lo: int, hi: int)

  /** The per-axis test and index range of lines 515-518 (and their y and z
      counterparts): a cell entirely beyond the cube's right edge or before its left
      edge is skipped; otherwise the range runs from the floor of the lower edge's
      offset in cube cells, raised to 0, to the ceiling of the upper edge's offset,
      lowered to the cube's extent `dim`. */
  function AxisSpan(geo: Geometry, a: int, g: int, dim: int): (r: Overlap)
    requires geo.WellSized() && 0 <= a < 3 && geo.cubeDx[a] != 0.0
    ensures r.Span? <==> geo.Low(a, g) <= geo.cubeRight[a] && geo.High(a, g) >= geo.cubeLeft[a]
    ensures r.Span? ==> 0 <= r.lo && r.hi <= dim
  {
    if geo.Low(a, g) > geo.cubeRight[a] || geo.High(a, g) < geo.cubeLeft[a] then Miss
    else
      Span(Max(((geo.Low(a, g) - geo.cubeLeft[a]) / geo.cubeDx[a]).Floor, 0),
           Min(Ceil((geo.High(a, g) - geo.cubeLeft[a]) / geo.cubeDx[a]), dim))
  }

  /** Number of indices in the half-open range [lo, hi). */
  function Width(lo: int, hi: int): nat {
    if lo < hi then hi - lo else 0
  }

  /** `n` copies of `w` added up, one per step of a counting loop. */
  function Times(n: int, w: nat): nat
    decreases n
  {
    if n <= 0 then 0 else Times(n - 1, w) + w
  }

  /** Counting `w` per step for `n` steps gives the product. */
  lemma {:induction false} TimesIsProduct(n: nat, w: nat)
    ensures Times(n, w) == n * w
  {
    if n > 0 {
      TimesIsProduct(n - 1, w);
    }
  }

  /** A half-open box of cube indices. */
  datatype Box = Box(lo: Cell, hi: Cell)
  {
    /** Cell `c` lies in the box. */
    predicate Holds(c: Cell) {
      lo.x <= c.x < hi.x && lo.y <= c.y < hi.y && lo.z <= c.z < hi.z
    }

    /** Number of cells in the box (see VolumeIsProduct). */
    function Volume(): nat {
      Times(Width(lo.x, hi.x), Times(Width(lo.y, hi.y), Width(lo.z, hi.z)))
    }

    /** The box holds at least one cell. */
    predicate NonEmpty() {
      lo.x < hi.x && lo.y < hi.y && lo.z < hi.z
    }

    /** The last cell of the box in x, y, z order. */
    function Last(): Cell {
      Cell(hi.x - 1, hi.y - 1, hi.z - 1)
    }
  }

  /** A box holds the product of its three widths in cells. */
  lemma VolumeIsProduct(b: Box)
    ensures b.Volume() == Width(b.lo.x, b.hi.x) * (Width(b.lo.y, b.hi.y) * Width(b.lo.z, b.hi.z))
  {
    var wx, wy, wz := Width(b.lo.x, b.hi.x), Width(b.lo.y, b.hi.y), Width(b.lo.z, b.hi.z);
    TimesIsProduct(wy, wz);
    TimesIsProduct(wx, wy * wz);
  }

  /** The inputs of one walk that stay fixed while it runs. */
  datatype Setup = Setup(geo: Geometry, ll: int, grid: Cell, cube: Cell)
  {
    /** The vectors hold three values each, the cube spacing is nonzero on every
        axis, and the buffer extents are non-negative. */
    predicate Valid() {
      && geo.WellSized() && geo.cubeDx[0] != 0.0 && geo.cubeDx[1] != 0.0 && geo.cubeDx[2] != 0.0
      && grid.x >= 0 && grid.y >= 0 && grid.z >= 0 && cube.x >= 0 && cube.y >= 0 && cube.z >= 0
    }

    /** The range of cube indices grid cell `g` covers on axis `a`. */
    function Axis(a: int, g: int): Overlap
      requires Valid() && 0 <= a < 3
    {
      AxisSpan(geo, a, g, cube.At(a))
    }
  }

  /** The child mask as a value: the flag of every cell of the mask buffer. */
  type Mask = imap<Cell, int>

  /** The mask flag of cell `g` (0 outside the buffer). */
  ghost function Flag(mask: Mask, g: Cell): int {
    if g in mask then mask[g] else 0
  }

  /** The contents of the child-mask buffer. */
  ghost function MaskOf(cm: array3<int>): (mask: Mask)
    reads cm
    ensures forall i, j, k | 0 <= i < cm.Length0 && 0 <= j < cm.Length1 && 0 <= k < cm.Length2 ::
      Flag(mask, Cell(i, j, k)) == cm[i, j, k]
  {
    imap g: Cell | Inside(g, Dims(cm)) :: cm[g.x, g.y, g.z]
  }

  /** Grid cell `g` is a leaf or the walk takes every cell (line 523). */
  ghost predicate Kept(s: Setup, mask: Mask, g: Cell) {
    s.ll != 0 || Flag(mask, g) != 0
  }

  /** The box of cube cells grid cell `g` transfers with, or None when the walk
      skips the cell. */
  ghost function CellBox(s: Setup, mask: Mask, g: Cell): (r: Option<Box>)
    requires s.Valid() && Inside(g, s.grid)
    ensures r.Some? <==> Kept(s, mask, g) && s.Axis(0, g.x).Span? && s.Axis(1, g.y).Span? && s.Axis(2, g.z).Span?
    ensures r.Some? ==> 0 <= r.value.lo.x && 0 <= r.value.lo.y && 0 <= r.value.lo.z
    ensures r.Some? ==> r.value.hi.x <= s.cube.x && r.value.hi.y <= s.cube.y && r.value.hi.z <= s.cube.z
  {
    if Kept(s, mask, g) && s.Axis(0, g.x).Span? && s.Axis(1, g.y).Span? && s.Axis(2, g.z).Span? then
      Some(Box(Cell(s.Axis(0, g.x).lo, s.Axis(1, g.y).lo, s.Axis(2, g.z).lo),
               Cell(s.Axis(0, g.x).hi, s.Axis(1, g.y).hi, s.Axis(2, g.z).hi)))
    else None
  }

  /** Number of transfers grid cell `g` makes. */
  ghost function Visits(s: Setup, mask: Mask, g: Cell): nat
    requires s.Valid() && Inside(g, s.grid)
  {
    match CellBox(s, mask, g)
    case None => 0
    case Some(b) => b.Volume()
  }

  /** With a positive cube spacing, the range AxisSpan computes for a grid cell holds
      exactly the cube cells inside the cube whose interval overlaps the grid cell's
      interval (neither ends before the other starts). */
  lemma AxisSpanExact(geo: Geometry, a: int, g: int, dim: int, k: int)
    requires geo.WellSized() && 0 <= a < 3 && geo.cubeDx[a] > 0.0
    requires AxisSpan(geo, a, g, dim).Span? && 0 <= k < dim
    ensures var r := AxisSpan(geo, a, g, dim);
      r.lo <= k < r.hi <==> geo.CubeLow(a, k + 1) > geo.Low(a, g) && geo.CubeLow(a, k) < geo.High(a, g)
  {
    var d := geo.cubeDx[a];
    FloorBound(geo.Low(a, g) - geo.cubeLeft[a], d, k);
    CeilBound(geo.High(a, g) - geo.cubeLeft[a], d, k);
  }

  /** Cube cell `k` starts at or after the cell holding offset `x` exactly when the
      next cell's start lies beyond `x`. */
  lemma FloorBound(x: real, d: real, k: int)
    requires d > 0.0
    ensures (x / d).Floor <= k <==> x < d * (k + 1) as real
  {
    var t := x / d;
    assert d * t == x;
    ScaleLess(d, t, (k + 1) as real);
  }

  /** Cube cell `k` lies below the ceiling of offset `x` exactly when it starts
      before `x`. */
  lemma CeilBound(x: real, d: real, k: int)
    requires d > 0.0
    ensures k < Ceil(x / d) <==> d * k as real < x
  {
    var u := x / d;
    assert d * u == x;
    ScaleLess(d, k as real, u);
  }

  /** Multiplying by a positive factor preserves strict order. */
  lemma ScaleLess(d: real, x: real, y: real)
    requires d > 0.0
    ensures x < y <==> d * x < d * y
  {
    if x < y {
      assert d * (y - x) > 0.0;
    } else {
      assert d * (x - y) >= 0.0;
    }
  }

  /** One transfer between a cube cell and a grid cell (dcRefine and dcReplace,
      lines 261-267, called as func(cube cell, grid cell)): Refine stores the grid
      value in the cube, Replace stores the cube value in the grid. */
  method Transfer(rule: Rule, grid: array3<real>, cube: array3<real>, g: Cell, c: Cell)
    requires grid != cube && Inside(g, Dims(grid)) && Inside(c, Dims(cube))
    modifies grid, cube
    ensures rule == Refine ==> unchanged(grid) && forall i, j, k | 0 <= i < cube.Length0 && 0 <= j < cube.Length1 && 0 <= k < cube.Length2 ::
      cube[i, j, k] == if Cell(i, j, k) == c then grid[g.x, g.y, g.z] else old(cube[i, j, k])
    ensures rule == Replace ==> unchanged(cube) && forall i, j, k | 0 <= i < grid.Length0 && 0 <= j < grid.Length1 && 0 <= k < grid.Length2 ::
      grid[i, j, k] == if Cell(i, j, k) == g then cube[c.x, c.y, c.z] else old(grid[i, j, k])
  {
    match rule
    case Refine => cube[c.x, c.y, c.z] := grid[g.x, g.y, g.z];
    case Replace => grid[g.x, g.y, g.z] := cube[c.x, c.y, c.z];
  }

  /** The innermost loop (lines 533-537): transfers between grid cell `g` and cube
      cells (xc, yc, zc) for zc from `lo` up to `hi`. */
  method TransferRow(rule: Rule, grid: array3<real>, cube: array3<real>, g: Cell, xc: int, yc: int, lo: int, hi: int)
    returns (count: nat)
    requires grid != cube && Inside(g, Dims(grid))
    requires 0 <= xc < cube.Length0 && 0 <= yc < cube.Length1 && 0 <= lo && hi <= cube.Length2
    modifies grid, cube
    ensures count == Width(lo, hi)
    ensures rule == Refine ==> unchanged(grid) && forall i, j, k | 0 <= i < cube.Length0 && 0 <= j < cube.Length1 && 0 <= k < cube.Length2 ::
      cube[i, j, k] == if i == xc && j == yc && lo <= k < hi then grid[g.x, g.y, g.z] else old(cube[i, j, k])
    ensures rule == Replace ==> unchanged(cube) && forall i, j, k | 0 <= i < grid.Length0 && 0 <= j < grid.Length1 && 0 <= k < grid.Length2 ::
      grid[i, j, k] == if Cell(i, j, k) == g && lo < hi then cube[xc, yc, hi - 1] else old(grid[i, j, k])
  {
    count := 0;
    var zc := lo;
    while zc < hi
      invariant lo <= zc <= Max(lo, hi) && count == zc - lo
      invariant rule == Refine ==> unchanged(grid) && forall i, j, k | 0 <= i < cube.Length0 && 0 <= j < cube.Length1 && 0 <= k < cube.Length2 ::
        cube[i, j, k] == if i == xc && j == yc && lo <= k < zc then grid[g.x, g.y, g.z] else old(cube[i, j, k])
      invariant rule == Replace ==> unchanged(cube) && forall i, j, k | 0 <= i < grid.Length0 && 0 <= j < grid.Length1 && 0 <= k < grid.Length2 ::
        grid[i, j, k] == if Cell(i, j, k) == g && lo < zc then cube[xc, yc, zc - 1] else old(grid[i, j, k])
    {
      Transfer(rule, grid, cube, g, Cell(xc, yc, zc));
      count := count + 1;
      zc := zc + 1;
    }
  }

  /** The middle loop (lines 532-538): one row of transfers for each yc of the box's
      y range. */
  method TransferPlane(rule: Rule, grid: array3<real>, cube: array3<real>, g: Cell, xc: int, lo: Cell, hi: Cell)
    returns (count: nat)
    requires grid != cube && Inside(g, Dims(grid))
    requires 0 <= xc < cube.Length0 && 0 <= lo.y && hi.y <= cube.Length1 && 0 <= lo.z && hi.z <= cube.Length2
    modifies grid, cube
    ensures count == Times(Width(lo.y, hi.y), Width(lo.z, hi.z))
    ensures rule == Refine ==> unchanged(grid) && forall i, j, k | 0 <= i < cube.Length0 && 0 <= j < cube.Length1 && 0 <= k < cube.Length2 ::
      cube[i, j, k] == if i == xc && lo.y <= j < hi.y && lo.z <= k < hi.z then grid[g.x, g.y, g.z] else old(cube[i, j, k])
    ensures rule == Replace ==> unchanged(cube) && forall i, j, k | 0 <= i < grid.Length0 && 0 <= j < grid.Length1 && 0 <= k < grid.Length2 ::
      grid[i, j, k] == if Cell(i, j, k) == g && lo.y < hi.y && lo.z < hi.z then cube[xc, hi.y - 1, hi.z - 1] else old(grid[i, j, k])
  {
    count := 0;
    var yc := lo.y;
    while yc < hi.y
      invariant lo.y <= yc <= Max(lo.y, hi.y) && count == Times(yc - lo.y, Width(lo.z, hi.z))
      invariant rule == Refine ==> unchanged(grid) && forall i, j, k | 0 <= i < cube.Length0 && 0 <= j < cube.Length1 && 0 <= k < cube.Length2 ::
        cube[i, j, k] == if i == xc && lo.y <= j < yc && lo.z <= k < hi.z then grid[g.x, g.y, g.z] else old(cube[i, j, k])
      invariant rule == Replace ==> unchanged(cube) && forall i, j, k | 0 <= i < grid.Length0 && 0 <= j < grid.Length1 && 0 <= k < grid.Length2 ::
        grid[i, j, k] == if Cell(i, j, k) == g && lo.y < yc && lo.z < hi.z then cube[xc, yc - 1, hi.z - 1] else old(grid[i, j, k])
    {
      var n := TransferRow(rule, grid, cube, g, xc, yc, lo.z, hi.z);
      count := count + n;
      yc := yc + 1;
    }
  }

  /** The three innermost loops (lines 531-538): a transfer between grid cell `g` and
      every cube cell of box [lo, hi), in x, y, z order. */
  method TransferBox(rule: Rule, grid: array3<real>, cube: array3<real>, g: Cell, b: Box)
    returns (count: nat)
    requires grid != cube && Inside(g, Dims(grid))
    requires 0 <= b.lo.x && 0 <= b.lo.y && 0 <= b.lo.z
    requires b.hi.x <= cube.Length0 && b.hi.y <= cube.Length1 && b.hi.z <= cube.Length2
    modifies grid, cube
    ensures count == b.Volume()
    ensures rule == Refine ==> unchanged(grid) && forall i, j, k | 0 <= i < cube.Length0 && 0 <= j < cube.Length1 && 0 <= k < cube.Length2 ::
      cube[i, j, k] == if b.Holds(Cell(i, j, k)) then grid[g.x, g.y, g.z] else old(cube[i, j, k])
    ensures rule == Replace ==> unchanged(cube) && forall i, j, k | 0 <= i < grid.Length0 && 0 <= j < grid.Length1 && 0 <= k < grid.Length2 ::
      grid[i, j, k] == if Cell(i, j, k) == g && b.NonEmpty() then cube[b.hi.x - 1, b.hi.y - 1, b.hi.z - 1] else old(grid[i, j, k])
  {
    count := 0;
    var xc := b.lo.x;
    while xc < b.hi.x
      invariant b.lo.x <= xc <= Max(b.lo.x, b.hi.x)
      invariant count == Times(xc - b.lo.x, Times(Width(b.lo.y, b.hi.y), Width(b.lo.z, b.hi.z)))
      invariant rule == Refine ==> unchanged(grid) && forall i, j, k | 0 <= i < cube.Length0 && 0 <= j < cube.Length1 && 0 <= k < cube.Length2 ::
        cube[i, j, k] == if b.lo.x <= i < xc && b.lo.y <= j < b.hi.y && b.lo.z <= k < b.hi.z then grid[g.x, g.y, g.z] else old(cube[i, j, k])
      invariant rule == Replace ==> unchanged(cube) && forall i, j, k | 0 <= i < grid.Length0 && 0 <= j < grid.Length1 && 0 <= k < grid.Length2 ::
        grid[i, j, k] == if Cell(i, j, k) == g && b.lo.x < xc && b.lo.y < b.hi.y && b.lo.z < b.hi.z then cube[xc - 1, b.hi.y - 1, b.hi.z - 1] else old(grid[i, j, k])
    {
      var n := TransferPlane(rule, grid, cube, g, xc, b.lo, b.hi);
      count := count + n;
      xc := xc + 1;
    }
  }

  /** Grid cell `g` transfers with cube cell `c`. */
  ghost predicate Covers(s: Setup, mask: Mask, g: Cell, c: Cell)
    requires s.Valid() && Inside(g, s.grid)
  {
    CellBox(s, mask, g).Some? && CellBox(s, mask, g).value.Holds(c)
  }

  /** Grid cell `g` makes at least one transfer. */
  ghost predicate Transfers(s: Setup, mask: Mask, g: Cell)
    requires s.Valid() && Inside(g, s.grid)
  {
    CellBox(s, mask, g).Some? && CellBox(s, mask, g).value.NonEmpty()
  }

  /** The cube cell of the last transfer grid cell `g` makes: the one whose value
      Replace leaves in `g`. */
  ghost function Source(s: Setup, mask: Mask, g: Cell): (c: Cell)
    requires s.Valid() && Inside(g, s.grid) && Transfers(s, mask, g)
    ensures Inside(c, s.cube)
  {
    CellBox(s, mask, g).value.Last()
  }

  /** A position of the walk: (x, y, z) with cell (x, y, z) next in row (x, y),
      (x, ny, 0) once plane x is done, or (nx, 0, 0) once the grid is done. */
  predicate Position(s: Setup, x: int, y: int, z: int) {
    || (0 <= x < s.grid.x && 0 <= y < s.grid.y && 0 <= z <= s.grid.z)
    || (0 <= x < s.grid.x && y == s.grid.y && z == 0)
    || (x == s.grid.x && y == 0 && z == 0)
  }

  /** Grid cell `g` comes before position (x, y, z) in the walk's x, y, z order. */
  predicate Before(g: Cell, x: int, y: int, z: int) {
    g.x < x || (g.x == x && (g.y < y || (g.y == y && g.z < z)))
  }

  /** The last grid cell before position (x, y, z), in walk order, that covers
      cube cell `c`. */
  ghost function LastBefore(s: Setup, mask: Mask, c: Cell, x: int, y: int, z: int): (r: Option<Cell>)
    requires s.Valid() && Position(s, x, y, z)
    ensures r.Some? ==> Inside(r.value, s.grid)
    decreases x, y, z
  {
    if z > 0 then
      if Covers(s, mask, Cell(x, y, z - 1), c) then Some(Cell(x, y, z - 1)) else LastBefore(s, mask, c, x, y, z - 1)
    else if y > 0 then LastBefore(s, mask, c, x, y - 1, s.grid.z)
    else if x > 0 then LastBefore(s, mask, c, x - 1, s.grid.y, 0)
    else None
  }

  /** Number of transfers the grid cells before position (x, y, z) make. */
  ghost function TotalBefore(s: Setup, mask: Mask, x: int, y: int, z: int): nat
    requires s.Valid() && Position(s, x, y, z)
    decreases x, y, z
  {
    if z > 0 then TotalBefore(s, mask, x, y, z - 1) + Visits(s, mask, Cell(x, y, z - 1))
    else if y > 0 then TotalBefore(s, mask, x, y - 1, s.grid.z)
    else if x > 0 then TotalBefore(s, mask, x - 1, s.grid.y, 0)
    else 0
  }

  /** The contents of a real buffer as a value. */
  type Contents = imap<Cell, real>

  /** The value `m` holds for cell `c` (0 outside the buffer). */
  ghost function Val(m: Contents, c: Cell): real {
    if c in m then m[c] else 0.0
  }

  /** The current contents of buffer `a`. */
  ghost function Snap(a: array3<real>): (m: Contents)
    reads a
    ensures forall c | Inside(c, Dims(a)) :: Val(m, c) == a[c.x, c.y, c.z]
  {
    imap c: Cell | Inside(c, Dims(a)) :: a[c.x, c.y, c.z]
  }

  /** What Refine has left in cube cell `c` once the walk reaches (x, y, z), from
      grid contents `grid0` and cube contents `cube0`: the value of the last grid
      cell that covers `c`, or the cell's own value when none has. */
  ghost function RefineValue(s: Setup, mask: Mask, grid0: Contents, cube0: Contents, c: Cell, x: int, y: int, z: int): real
    requires s.Valid() && Position(s, x, y, z)
  {
    match LastBefore(s, mask, c, x, y, z)
    case Some(w) => Val(grid0, w)
    case None => Val(cube0, c)
  }

  /** What Replace has left in grid cell `g` once the walk reaches (x, y, z): the
      value of the last cube cell it transferred with, or its own value when it has
      not transferred yet. */
  ghost function ReplaceValue(s: Setup, mask: Mask, grid0: Contents, cube0: Contents, g: Cell, x: int, y: int, z: int): real
    requires s.Valid() && Inside(g, s.grid)
  {
    if Before(g, x, y, z) && Transfers(s, mask, g) then Val(cube0, Source(s, mask, g)) else Val(grid0, g)
  }

  /** The buffers hold what the walk has left in them on reaching (x, y, z), having
      started from contents `grid0` and `cube0`.  Refine writes only the cube and
      Replace only the grid. */
  ghost predicate Walked(rule: Rule, s: Setup, mask: Mask, grid: array3<real>, cube: array3<real>,
                         grid0: Contents, cube0: Contents, x: int, y: int, z: int)
    requires s.Valid() && Position(s, x, y, z) && Dims(grid) == s.grid && Dims(cube) == s.cube
    reads grid, cube
  {
    match rule
    case Refine =>
      && (forall i, j, k | 0 <= i < s.grid.x && 0 <= j < s.grid.y && 0 <= k < s.grid.z ::
            grid[i, j, k] == Val(grid0, Cell(i, j, k)))
      && (forall i, j, k | 0 <= i < s.cube.x && 0 <= j < s.cube.y && 0 <= k < s.cube.z ::
            cube[i, j, k] == RefineValue(s, mask, grid0, cube0, Cell(i, j, k), x, y, z))
    case Replace =>
      && (forall i, j, k | 0 <= i < s.cube.x && 0 <= j < s.cube.y && 0 <= k < s.cube.z ::
            cube[i, j, k] == Val(cube0, Cell(i, j, k)))
      && (forall i, j, k | 0 <= i < s.grid.x && 0 <= j < s.grid.y && 0 <= k < s.grid.z ::
            grid[i, j, k] == ReplaceValue(s, mask, grid0, cube0, Cell(i, j, k), x, y, z))
  }

  /** Two positions at which the walk has left the same values are interchangeable. */
  lemma Moved(rule: Rule, s: Setup, mask: Mask, grid: array3<real>, cube: array3<real>, grid0: Contents, cube0: Contents,
              x: int, y: int, z: int, x2: int, y2: int, z2: int)
    requires s.Valid() && Position(s, x, y, z) && Position(s, x2, y2, z2) && Dims(grid) == s.grid && Dims(cube) == s.cube
    requires Walked(rule, s, mask, grid, cube, grid0, cube0, x, y, z)
    requires forall c :: RefineValue(s, mask, grid0, cube0, c, x2, y2, z2) == RefineValue(s, mask, grid0, cube0, c, x, y, z)
    requires forall g | Inside(g, s.grid) ::
      ReplaceValue(s, mask, grid0, cube0, g, x2, y2, z2) == ReplaceValue(s, mask, grid0, cube0, g, x, y, z)
    ensures Walked(rule, s, mask, grid, cube, grid0, cube0, x2, y2, z2)
  {
    match rule
    case Refine =>
      forall i, j, k | 0 <= i < s.cube.x && 0 <= j < s.cube.y && 0 <= k < s.cube.z
        ensures cube[i, j, k] == RefineValue(s, mask, grid0, cube0, Cell(i, j, k), x2, y2, z2)
      {
        assert cube[i, j, k] == RefineValue(s, mask, grid0, cube0, Cell(i, j, k), x, y, z);
      }
    case Replace =>
      forall i, j, k | 0 <= i < s.grid.x && 0 <= j < s.grid.y && 0 <= k < s.grid.z
        ensures grid[i, j, k] == ReplaceValue(s, mask, grid0, cube0, Cell(i, j, k), x2, y2, z2)
      {
        assert grid[i, j, k] == ReplaceValue(s, mask, grid0, cube0, Cell(i, j, k), x, y, z);
      }
  }

  /** The buffers a walk works on match its setup, are distinct, and the child
      mask covers the grid. */
  predicate Buffers(s: Setup, grid: array3<real>, cube: array3<real>, cm: array3<int>) {
    && s.Valid() && grid != cube && Dims(grid) == s.grid && Dims(cube) == s.cube
    && cm.Length0 >= s.grid.x && cm.Length1 >= s.grid.y && cm.Length2 >= s.grid.z
  }

  /** The transfers of grid cell `g` (lines 523-538), whose x and y ranges the
      caller has computed: the kept-cell and z-axis tests, then the box. */
  method VisitCell(rule: Rule, s: Setup, grid: array3<real>, cube: array3<real>, cm: array3<int>, ghost mask: Mask,
                   g: Cell, spanX: Overlap, spanY: Overlap)
    returns (count: nat)
    requires Buffers(s, grid, cube, cm) && Inside(g, s.grid) && Flag(mask, g) == cm[g.x, g.y, g.z]
    requires spanX == s.Axis(0, g.x) && spanX.Span? && spanY == s.Axis(1, g.y) && spanY.Span?
    modifies grid, cube
    ensures count == Visits(s, mask, g)
    ensures rule == Refine ==> unchanged(grid) && forall i, j, k | 0 <= i < cube.Length0 && 0 <= j < cube.Length1 && 0 <= k < cube.Length2 ::
      cube[i, j, k] == if Covers(s, mask, g, Cell(i, j, k)) then grid[g.x, g.y, g.z] else old(cube[i, j, k])
    ensures rule == Replace ==> unchanged(cube) && forall i, j, k | 0 <= i < grid.Length0 && 0 <= j < grid.Length1 && 0 <= k < grid.Length2 ::
      grid[i, j, k] == if Cell(i, j, k) == g && Transfers(s, mask, g) then cube[Source(s, mask, g).x, Source(s, mask, g).y, Source(s, mask, g).z] else old(grid[i, j, k])
  {
    count := 0;
    if s.ll == 0 && cm[g.x, g.y, g.z] == 0 {
      assert CellBox(s, mask, g).None?;
      return;
    }
    var spanZ := AxisSpan(s.geo, 2, g.z, cube.Length2);
    if spanZ.Miss? {
      assert CellBox(s, mask, g).None?;
      return;
    }
    var b := Box(Cell(spanX.lo, spanY.lo, spanZ.lo), Cell(spanX.hi, spanY.hi, spanZ.hi));
    assert CellBox(s, mask, g) == Some(b);
    count := TransferBox(rule, grid, cube, g, b);
  }

  /** One step of the innermost grid loop: the walk moves past grid cell `g` and
      the running total gains the cell's transfers. */
  method WalkCell(rule: Rule, s: Setup, grid: array3<real>, cube: array3<real>, cm: array3<int>,
                  ghost mask: Mask, ghost grid0: Contents, ghost cube0: Contents,
                  g: Cell, spanX: Overlap, spanY: Overlap, total0: nat)
    returns (total: nat)
    requires Buffers(s, grid, cube, cm) && Inside(g, s.grid) && Flag(mask, g) == cm[g.x, g.y, g.z]
    requires spanX == s.Axis(0, g.x) && spanX.Span? && spanY == s.Axis(1, g.y) && spanY.Span?
    requires Walked(rule, s, mask, grid, cube, grid0, cube0, g.x, g.y, g.z)
    requires total0 == TotalBefore(s, mask, g.x, g.y, g.z)
    modifies grid, cube
    ensures Walked(rule, s, mask, grid, cube, grid0, cube0, g.x, g.y, g.z + 1)
    ensures rule == Refine ==> unchanged(grid)
    ensures rule == Replace ==> unchanged(cube)
    ensures total == TotalBefore(s, mask, g.x, g.y, g.z + 1)
  {
    var n := VisitCell(rule, s, grid, cube, cm, mask, g, spanX, spanY);
    total := total0 + n;
    if rule == Refine {
      RefineStep(s, mask, grid, cube, grid0, cube0, g);
    } else {
      ReplaceStep(s, mask, grid, cube, grid0, cube0, g);
    }
  }

  /** Refine's transfers for grid cell `g` move the walk past `g`. */
  twostate lemma RefineStep(new s: Setup, new mask: Mask, grid: array3<real>, new cube: array3<real>,
                            new grid0: Contents, new cube0: Contents, new g: Cell)
    requires s.Valid() && Inside(g, s.grid) && Dims(grid) == s.grid && Dims(cube) == s.cube && old(allocated(cube))
    requires old(Walked(Refine, s, mask, grid, cube, grid0, cube0, g.x, g.y, g.z))
    requires unchanged(grid) && forall i, j, k | 0 <= i < cube.Length0 && 0 <= j < cube.Length1 && 0 <= k < cube.Length2 ::
      cube[i, j, k] == if Covers(s, mask, g, Cell(i, j, k)) then grid[g.x, g.y, g.z] else old(cube[i, j, k])
    ensures Walked(Refine, s, mask, grid, cube, grid0, cube0, g.x, g.y, g.z + 1)
  {
    forall i, j, k | 0 <= i < s.cube.x && 0 <= j < s.cube.y && 0 <= k < s.cube.z
      ensures cube[i, j, k] == RefineValue(s, mask, grid0, cube0, Cell(i, j, k), g.x, g.y, g.z + 1)
    {
      assert old(cube[i, j, k]) == RefineValue(s, mask, grid0, cube0, Cell(i, j, k), g.x, g.y, g.z);
    }
  }

  /** Replace's transfers for grid cell `g` move the walk past `g`. */
  twostate lemma ReplaceStep(new s: Setup, new mask: Mask, grid: array3<real>, new cube: array3<real>,
                             new grid0: Contents, new cube0: Contents, new g: Cell)
    requires s.Valid() && Inside(g, s.grid) && Dims(grid) == s.grid && Dims(cube) == s.cube && old(allocated(cube))
    requires old(Walked(Replace, s, mask, grid, cube, grid0, cube0, g.x, g.y, g.z))
    requires unchanged(cube) && forall i, j, k | 0 <= i < grid.Length0 && 0 <= j < grid.Length1 && 0 <= k < grid.Length2 ::
      grid[i, j, k] == if Cell(i, j, k) == g && Transfers(s, mask, g) then cube[Source(s, mask, g).x, Source(s, mask, g).y, Source(s, mask, g).z] else old(grid[i, j, k])
    ensures Walked(Replace, s, mask, grid, cube, grid0, cube0, g.x, g.y, g.z + 1)
  {
    forall i, j, k | 0 <= i < s.grid.x && 0 <= j < s.grid.y && 0 <= k < s.grid.z
      ensures grid[i, j, k] == ReplaceValue(s, mask, grid0, cube0, Cell(i, j, k), g.x, g.y, g.z + 1)
    {
      if Cell(i, j, k) == g {
        if Transfers(s, mask, g) {
          var c := Source(s, mask, g);
          assert old(cube[c.x, c.y, c.z]) == Val(cube0, c);
        }
      } else {
        assert old(grid[i, j, k]) == ReplaceValue(s, mask, grid0, cube0, Cell(i, j, k), g.x, g.y, g.z);
      }
    }
  }

  /** The end of row (xg, yg) is the start of row (xg, yg + 1). */
  lemma RowEnd(s: Setup, mask: Mask, grid0: Contents, cube0: Contents, xg: int, yg: int)
    requires s.Valid() && 0 <= xg < s.grid.x && 0 <= yg < s.grid.y
    ensures TotalBefore(s, mask, xg, yg, s.grid.z) == TotalBefore(s, mask, xg, yg + 1, 0)
    ensures forall c :: RefineValue(s, mask, grid0, cube0, c, xg, yg, s.grid.z) == RefineValue(s, mask, grid0, cube0, c, xg, yg + 1, 0)
    ensures forall g | Inside(g, s.grid) ::
      ReplaceValue(s, mask, grid0, cube0, g, xg, yg, s.grid.z) == ReplaceValue(s, mask, grid0, cube0, g, xg, yg + 1, 0)
  {
  }

  /** The end of plane xg is the start of plane xg + 1. */
  lemma PlaneEnd(s: Setup, mask: Mask, grid0: Contents, cube0: Contents, xg: int)
    requires s.Valid() && 0 <= xg < s.grid.x
    ensures TotalBefore(s, mask, xg, s.grid.y, 0) == TotalBefore(s, mask, xg + 1, 0, 0)
    ensures forall c :: RefineValue(s, mask, grid0, cube0, c, xg, s.grid.y, 0) == RefineValue(s, mask, grid0, cube0, c, xg + 1, 0, 0)
    ensures forall g | Inside(g, s.grid) ::
      ReplaceValue(s, mask, grid0, cube0, g, xg, s.grid.y, 0) == ReplaceValue(s, mask, grid0, cube0, g, xg + 1, 0, 0)
  {
  }

  /** A row whose x or y range misses the cube makes no transfer: the walk passes
      its first `n` cells without effect. */
  lemma {:induction false} RowMiss(s: Setup, mask: Mask, xg: int, yg: int, n: int)
    requires s.Valid() && 0 <= xg < s.grid.x && 0 <= yg < s.grid.y && 0 <= n <= s.grid.z
    requires s.Axis(0, xg).Miss? || s.Axis(1, yg).Miss?
    ensures TotalBefore(s, mask, xg, yg, n) == TotalBefore(s, mask, xg, yg, 0)
    ensures forall c :: LastBefore(s, mask, c, xg, yg, n) == LastBefore(s, mask, c, xg, yg, 0)
  {
    if n > 0 {
      RowMiss(s, mask, xg, yg, n - 1);
      assert CellBox(s, mask, Cell(xg, yg, n - 1)).None?;
    }
  }

  /** A plane whose x range misses the cube makes no transfer: the walk passes its
      first `n` rows without effect. */
  lemma {:induction false} PlaneMiss(s: Setup, mask: Mask, xg: int, n: int)
    requires s.Valid() && 0 <= xg < s.grid.x && 0 <= n <= s.grid.y
    requires s.Axis(0, xg).Miss?
    ensures TotalBefore(s, mask, xg, n, 0) == TotalBefore(s, mask, xg, 0, 0)
    ensures forall c :: LastBefore(s, mask, c, xg, n, 0) == LastBefore(s, mask, c, xg, 0, 0)
  {
    if n > 0 {
      PlaneMiss(s, mask, xg, n - 1);
      RowMiss(s, mask, xg, n - 1, s.grid.z);
    }
  }

  /** The innermost grid loop (lines 522-539): the cells of row (xg, yg), whose x
      and y ranges the caller has computed. */
  method WalkRow(rule: Rule, s: Setup, grid: array3<real>, cube: array3<real>, cm: array3<int>,
                 ghost mask: Mask, ghost grid0: Contents, ghost cube0: Contents,
                 xg: int, yg: int, spanX: Overlap, spanY: Overlap, total0: nat)
    returns (total: nat)
    requires Buffers(s, grid, cube, cm) && 0 <= xg < s.grid.x && 0 <= yg < s.grid.y
    requires forall k | 0 <= k < s.grid.z :: Flag(mask, Cell(xg, yg, k)) == cm[xg, yg, k]
    requires spanX == s.Axis(0, xg) && spanX.Span? && spanY == s.Axis(1, yg) && spanY.Span?
    requires Walked(rule, s, mask, grid, cube, grid0, cube0, xg, yg, 0)
    requires total0 == TotalBefore(s, mask, xg, yg, 0)
    modifies grid, cube
    ensures Walked(rule, s, mask, grid, cube, grid0, cube0, xg, yg + 1, 0)
    ensures rule == Refine ==> unchanged(grid)
    ensures rule == Replace ==> unchanged(cube)
    ensures total == TotalBefore(s, mask, xg, yg + 1, 0)
  {
    total := total0;
    for zg := 0 to grid.Length2
      invariant Walked(rule, s, mask, grid, cube, grid0, cube0, xg, yg, zg)
      invariant rule == Refine ==> unchanged(grid)
      invariant rule == Replace ==> unchanged(cube)
      invariant total == TotalBefore(s, mask, xg, yg, zg)
    {
      total := WalkCell(rule, s, grid, cube, cm, mask, grid0, cube0, Cell(xg, yg, zg), spanX, spanY, total);
    }
    RowEnd(s, mask, grid0, cube0, xg, yg);
    Moved(rule, s, mask, grid, cube, grid0, cube0, xg, yg, s.grid.z, xg, yg + 1, 0);
  }

  /** Skipping a row whose x or y range misses the cube moves the walk to the next
      row without effect. */
  lemma RowSkipped(s: Setup, mask: Mask, grid0: Contents, cube0: Contents, xg: int, yg: int)
    requires s.Valid() && 0 <= xg < s.grid.x && 0 <= yg < s.grid.y
    requires s.Axis(0, xg).Miss? || s.Axis(1, yg).Miss?
    ensures TotalBefore(s, mask, xg, yg + 1, 0) == TotalBefore(s, mask, xg, yg, 0)
    ensures forall c :: RefineValue(s, mask, grid0, cube0, c, xg, yg + 1, 0) == RefineValue(s, mask, grid0, cube0, c, xg, yg, 0)
    ensures forall g | Inside(g, s.grid) ::
      ReplaceValue(s, mask, grid0, cube0, g, xg, yg + 1, 0) == ReplaceValue(s, mask, grid0, cube0, g, xg, yg, 0)
  {
    RowMiss(s, mask, xg, yg, s.grid.z);
    RowEnd(s, mask, grid0, cube0, xg, yg);
    forall g | Inside(g, s.grid)
      ensures ReplaceValue(s, mask, grid0, cube0, g, xg, yg + 1, 0) == ReplaceValue(s, mask, grid0, cube0, g, xg, yg, 0)
    {
      if g.x == xg && g.y == yg {
        assert CellBox(s, mask, g).None?;
      }
    }
  }

  /** Skipping a plane whose x range misses the cube moves the walk to the next
      plane without effect. */
  lemma PlaneSkipped(s: Setup, mask: Mask, grid0: Contents, cube0: Contents, xg: int)
    requires s.Valid() && 0 <= xg < s.grid.x && s.Axis(0, xg).Miss?
    ensures TotalBefore(s, mask, xg + 1, 0, 0) == TotalBefore(s, mask, xg, 0, 0)
    ensures forall c :: RefineValue(s, mask, grid0, cube0, c, xg + 1, 0, 0) == RefineValue(s, mask, grid0, cube0, c, xg, 0, 0)
    ensures forall g | Inside(g, s.grid) ::
      ReplaceValue(s, mask, grid0, cube0, g, xg + 1, 0, 0) == ReplaceValue(s, mask, grid0, cube0, g, xg, 0, 0)
  {
    PlaneMiss(s, mask, xg, s.grid.y);
    PlaneEnd(s, mask, grid0, cube0, xg);
    forall g | Inside(g, s.grid)
      ensures ReplaceValue(s, mask, grid0, cube0, g, xg + 1, 0, 0) == ReplaceValue(s, mask, grid0, cube0, g, xg, 0, 0)
    {
      if g.x == xg {
        assert CellBox(s, mask, g).None?;
      }
    }
  }

  /** The middle grid loop (lines 519-540): the rows of plane xg, whose x range the
      caller has computed; a row whose y range misses the cube is skipped. */
  method WalkPlane(rule: Rule, s: Setup, grid: array3<real>, cube: array3<real>, cm: array3<int>,
                   ghost mask: Mask, ghost grid0: Contents, ghost cube0: Contents,
                   xg: int, spanX: Overlap, total0: nat)
    returns (total: nat)
    requires Buffers(s, grid, cube, cm) && 0 <= xg < s.grid.x
    requires forall j, k | 0 <= j < s.grid.y && 0 <= k < s.grid.z :: Flag(mask, Cell(xg, j, k)) == cm[xg, j, k]
    requires spanX == s.Axis(0, xg) && spanX.Span?
    requires Walked(rule, s, mask, grid, cube, grid0, cube0, xg, 0, 0)
    requires total0 == TotalBefore(s, mask, xg, 0, 0)
    modifies grid, cube
    ensures Walked(rule, s, mask, grid, cube, grid0, cube0, xg + 1, 0, 0)
    ensures rule == Refine ==> unchanged(grid)
    ensures rule == Replace ==> unchanged(cube)
    ensures total == TotalBefore(s, mask, xg + 1, 0, 0)
  {
    total := total0;
    for yg := 0 to grid.Length1
      invariant Walked(rule, s, mask, grid, cube, grid0, cube0, xg, yg, 0)
      invariant rule == Refine ==> unchanged(grid)
      invariant rule == Replace ==> unchanged(cube)
      invariant total == TotalBefore(s, mask, xg, yg, 0)
    {
      var spanY := AxisSpan(s.geo, 1, yg, cube.Length1);
      if spanY.Span? {
        total := WalkRow(rule, s, grid, cube, cm, mask, grid0, cube0, xg, yg, spanX, spanY, total);
      } else {
        RowSkipped(s, mask, grid0, cube0, xg, yg);
        Moved(rule, s, mask, grid, cube, grid0, cube0, xg, yg, 0, xg, yg + 1, 0);
      }
    }
    PlaneEnd(s, mask, grid0, cube0, xg);
    Moved(rule, s, mask, grid, cube, grid0, cube0, xg, s.grid.y, 0, xg + 1, 0, 0);
  }

  /** The outer grid loop (lines 514-541): the planes of the grid, in x order; a
      plane whose x range misses the cube is skipped. */
  method Walk(rule: Rule, s: Setup, grid: array3<real>, cube: array3<real>, cm: array3<int>,
              ghost mask: Mask, ghost grid0: Contents, ghost cube0: Contents)
    returns (total: nat)
    requires Buffers(s, grid, cube, cm)
    requires forall i, j, k | 0 <= i < s.grid.x && 0 <= j < s.grid.y && 0 <= k < s.grid.z ::
      Flag(mask, Cell(i, j, k)) == cm[i, j, k]
    requires Walked(rule, s, mask, grid, cube, grid0, cube0, 0, 0, 0)
    modifies grid, cube
    ensures Walked(rule, s, mask, grid, cube, grid0, cube0, s.grid.x, 0, 0)
    ensures rule == Refine ==> unchanged(grid)
    ensures rule == Replace ==> unchanged(cube)
    ensures total == TotalBefore(s, mask, s.grid.x, 0, 0)
  {
    total := 0;
    for xg := 0 to grid.Length0
      invariant Walked(rule, s, mask, grid, cube, grid0, cube0, xg, 0, 0)
      invariant rule == Refine ==> unchanged(grid)
      invariant rule == Replace ==> unchanged(cube)
      invariant total == TotalBefore(s, mask, xg, 0, 0)
    {
      var spanX := AxisSpan(s.geo, 0, xg, cube.Length0);
      if spanX.Span? {
        total := WalkPlane(rule, s, grid, cube, cm, mask, grid0, cube0, xg, spanX, total);
      } else {
        PlaneSkipped(s, mask, grid0, cube0, xg);
        Moved(rule, s, mask, grid, cube, grid0, cube0, xg, 0, 0, xg + 1, 0, 0);
      }
    }
  }

  /** The last grid cell, in walk order, that covers cube cell `c`: the one whose
      value Refine leaves in `c`. */
  ghost function LastCover(s: Setup, mask: Mask, c: Cell): (r: Option<Cell>)
    requires s.Valid()
    ensures r.Some? ==> Inside(r.value, s.grid)
  {
    LastBefore(s, mask, c, s.grid.x, 0, 0)
  }

  /** Refine has run: the grid is untouched, and every cube cell holds the old value
      of the last grid cell that covers it, or its own old value when none does. */
  twostate predicate CubeRefined(s: Setup, mask: Mask, grid: array3<real>, cube: array3<real>)
    requires s.Valid() && Dims(grid) == s.grid
    reads grid, cube
  {
    && unchanged(grid)
    && forall i, j, k | 0 <= i < cube.Length0 && 0 <= j < cube.Length1 && 0 <= k < cube.Length2 ::
         cube[i, j, k] == match LastCover(s, mask, Cell(i, j, k))
                          case Some(w) => old(grid[w.x, w.y, w.z])
                          case None => old(cube[i, j, k])
  }

  /** Replace has run: the cube is untouched, and every grid cell that transfers
      holds the old value of the last cube cell of its box; every other grid cell
      keeps its old value. */
  twostate predicate GridReplaced(s: Setup, mask: Mask, grid: array3<real>, cube: array3<real>)
    requires s.Valid() && Dims(grid) == s.grid && Dims(cube) == s.cube
    reads grid, cube
  {
    && unchanged(cube)
    && forall i, j, k | 0 <= i < grid.Length0 && 0 <= j < grid.Length1 && 0 <= k < grid.Length2 ::
         grid[i, j, k] == if Transfers(s, mask, Cell(i, j, k))
                          then old(cube[Source(s, mask, Cell(i, j, k)).x, Source(s, mask, Cell(i, j, k)).y, Source(s, mask, Cell(i, j, k)).z])
                          else old(grid[i, j, k])
  }

  /** The setup a call describes. */
  function SetupOf(geo: Geometry, ll: int, grid: array3<real>, cube: array3<real>): (s: Setup)
    requires geo.WellSized() && geo.cubeDx[0] != 0.0 && geo.cubeDx[1] != 0.0 && geo.cubeDx[2] != 0.0
    ensures s.Valid() && s.grid == Dims(grid) && s.cube == Dims(cube)
  {
    Setup(geo, ll, Dims(grid), Dims(cube))
  }

  /** A walk that has not started has left the buffers as they are. */
  lemma Started(rule: Rule, s: Setup, mask: Mask, grid: array3<real>, cube: array3<real>)
    requires s.Valid() && Dims(grid) == s.grid && Dims(cube) == s.cube
    ensures Walked(rule, s, mask, grid, cube, Snap(grid), Snap(cube), 0, 0, 0)
  {
    var grid0, cube0 := Snap(grid), Snap(cube);
    match rule
    case Refine =>
      forall i, j, k | 0 <= i < s.cube.x && 0 <= j < s.cube.y && 0 <= k < s.cube.z
        ensures cube[i, j, k] == RefineValue(s, mask, grid0, cube0, Cell(i, j, k), 0, 0, 0)
      {
      }
    case Replace =>
      forall i, j, k | 0 <= i < s.grid.x && 0 <= j < s.grid.y && 0 <= k < s.grid.z
        ensures grid[i, j, k] == ReplaceValue(s, mask, grid0, cube0, Cell(i, j, k), 0, 0, 0)
      {
      }
  }

  /** A finished Refine walk has refined the cube. */
  twostate lemma RefineFinished(new s: Setup, new mask: Mask, grid: array3<real>, new cube: array3<real>,
                                new grid0: Contents, new cube0: Contents)
    requires s.Valid() && Dims(grid) == s.grid && Dims(cube) == s.cube && old(allocated(cube))
    requires forall c | Inside(c, s.grid) :: Val(grid0, c) == old(grid[c.x, c.y, c.z])
    requires forall c | Inside(c, s.cube) :: Val(cube0, c) == old(cube[c.x, c.y, c.z])
    requires unchanged(grid) && Walked(Refine, s, mask, grid, cube, grid0, cube0, s.grid.x, 0, 0)
    ensures CubeRefined(s, mask, grid, cube)
  {
    forall i, j, k | 0 <= i < cube.Length0 && 0 <= j < cube.Length1 && 0 <= k < cube.Length2
      ensures cube[i, j, k] == match LastCover(s, mask, Cell(i, j, k))
                               case Some(w) => old(grid[w.x, w.y, w.z])
                               case None => old(cube[i, j, k])
    {
      assert cube[i, j, k] == RefineValue(s, mask, grid0, cube0, Cell(i, j, k), s.grid.x, 0, 0);
    }
  }

  /** A finished Replace walk has replaced the grid values. */
  twostate lemma ReplaceFinished(new s: Setup, new mask: Mask, grid: array3<real>, new cube: array3<real>,
                                 new grid0: Contents, new cube0: Contents)
    requires s.Valid() && Dims(grid) == s.grid && Dims(cube) == s.cube && old(allocated(cube))
    requires forall c | Inside(c, s.grid) :: Val(grid0, c) == old(grid[c.x, c.y, c.z])
    requires forall c | Inside(c, s.cube) :: Val(cube0, c) == old(cube[c.x, c.y, c.z])
    requires unchanged(cube) && Walked(Replace, s, mask, grid, cube, grid0, cube0, s.grid.x, 0, 0)
    ensures GridReplaced(s, mask, grid, cube)
  {
    forall i, j, k | 0 <= i < grid.Length0 && 0 <= j < grid.Length1 && 0 <= k < grid.Length2
      ensures grid[i, j, k] == if Transfers(s, mask, Cell(i, j, k))
                               then old(cube[Source(s, mask, Cell(i, j, k)).x, Source(s, mask, Cell(i, j, k)).y, Source(s, mask, Cell(i, j, k)).z])
                               else old(grid[i, j, k])
    {
      assert grid[i, j, k] == ReplaceValue(s, mask, grid0, cube0, Cell(i, j, k), s.grid.x, 0, 0);
    }
  }

  /** DataCubeGeneric (lines 387-570): the argument checks, then the walk over the
      grid with transfer rule `rule`; on success the result is the number of
      transfers. */
  method DataCubeGeneric(rule: Rule, geo: Geometry, ll: int, grid: array3<real>, cm: array3<int>, cube: array3<real>)
    returns (r: Result<nat, CubeError>)
    requires geo.WellSized() ==>
      && grid != cube
      && cm.Length0 >= grid.Length0 && cm.Length1 >= grid.Length1 && cm.Length2 >= grid.Length2
      && geo.cubeDx[0] != 0.0 && geo.cubeDx[1] != 0.0 && geo.cubeDx[2] != 0.0
    modifies grid, cube
    ensures r.Err? <==> CheckGeometry(geo).Err?
    ensures r.Err? ==> CheckGeometry(geo) == Err(r.error) && unchanged(grid, cube)
    ensures r.Ok? ==> r.value == TotalBefore(SetupOf(geo, ll, grid, cube), old(MaskOf(cm)), grid.Length0, 0, 0)
    ensures r.Ok? && rule == Refine ==> CubeRefined(SetupOf(geo, ll, grid, cube), old(MaskOf(cm)), grid, cube)
    ensures r.Ok? && rule == Replace ==> GridReplaced(SetupOf(geo, ll, grid, cube), old(MaskOf(cm)), grid, cube)
  {
    var check := CheckGeometry(geo);
    if check.Err? {
      return Err(check.error);
    }
    var s := SetupOf(geo, ll, grid, cube);
    ghost var mask := MaskOf(cm);
    ghost var grid0, cube0 := Snap(grid), Snap(cube);
    Started(rule, s, mask, grid, cube);
    var total := Walk(rule, s, grid, cube, cm, mask, grid0, cube0);
    r := Ok(total);
    if rule == Refine {
      RefineFinished(s, mask, grid, cube, grid0, cube0);
    } else {
      ReplaceFinished(s, mask, grid, cube, grid0, cube0);
    }
  }

  /** Py_DataCubeRefine (lines 572-577): DataCubeGeneric with the Refine rule. */
  method DataCubeRefine(geo: Geometry, ll: int, grid: array3<real>, cm: array3<int>, cube: array3<real>)
    returns (r: Result<nat, CubeError>)
    requires geo.WellSized() ==>
      && grid != cube
      && cm.Length0 >= grid.Length0 && cm.Length1 >= grid.Length1 && cm.Length2 >= grid.Length2
      && geo.cubeDx[0] != 0.0 && geo.cubeDx[1] != 0.0 && geo.cubeDx[2] != 0.0
    modifies grid, cube
    ensures r.Err? <==> CheckGeometry(geo).Err?
    ensures r.Err? ==> CheckGeometry(geo) == Err(r.error) && unchanged(grid, cube)
    ensures r.Ok? ==> r.value == TotalBefore(SetupOf(geo, ll, grid, cube), old(MaskOf(cm)), grid.Length0, 0, 0)
    ensures r.Ok? ==> CubeRefined(SetupOf(geo, ll, grid, cube), old(MaskOf(cm)), grid, cube)
  {
    r := DataCubeGeneric(Refine, geo, ll, grid, cm, cube);
  }

  /** Py_DataCubeReplace (lines 579-584): DataCubeGeneric with the Replace rule. */
  method DataCubeReplace(geo: Geometry, ll: int, grid: array3<real>, cm: array3<int>, cube: array3<real>)
    returns (r: Result<nat, CubeError>)
    requires geo.WellSized() ==>
      && grid != cube
      && cm.Length0 >= grid.Length0 && cm.Length1 >= grid.Length1 && cm.Length2 >= grid.Length2
      && geo.cubeDx[0] != 0.0 && geo.cubeDx[1] != 0.0 && geo.cubeDx[2] != 0.0
    modifies grid, cube
    ensures r.Err? <==> CheckGeometry(geo).Err?
    ensures r.Err? ==> CheckGeometry(geo) == Err(r.error) && unchanged(grid, cube)
    ensures r.Ok? ==> r.value == TotalBefore(SetupOf(geo, ll, grid, cube), old(MaskOf(cm)), grid.Length0, 0, 0)
    ensures r.Ok? ==> GridReplaced(SetupOf(geo, ll, grid, cube), old(MaskOf(cm)), grid, cube)
  {
    r := DataCubeGeneric(Replace, geo, ll, grid, cm, cube);
  }

  /** LastBefore is what its name says: the cell it names comes before the position
      and covers `c`, and every other covering cell before the position comes before
      it; when it names none, no cell before the position covers `c`. */
  lemma {:induction false} LastBeforeIsLatest(s: Setup, mask: Mask, c: Cell, x: int, y: int, z: int)
    requires s.Valid() && Position(s, x, y, z)
    ensures LastBefore(s, mask, c, x, y, z).Some? ==>
      var w := LastBefore(s, mask, c, x, y, z).value;
      && Before(w, x, y, z) && Covers(s, mask, w, c)
      && forall g | Inside(g, s.grid) && Before(g, x, y, z) && Covers(s, mask, g, c) :: g == w || Before(g, w.x, w.y, w.z)
    ensures LastBefore(s, mask, c, x, y, z).None? ==>
      forall g | Inside(g, s.grid) && Before(g, x, y, z) :: !Covers(s, mask, g, c)
    decreases x, y, z
  {
    if z > 0 {
      LastBeforeIsLatest(s, mask, c, x, y, z - 1);
    } else if y > 0 {
      LastBeforeIsLatest(s, mask, c, x, y - 1, s.grid.z);
    } else if x > 0 {
      LastBeforeIsLatest(s, mask, c, x - 1, s.grid.y, 0);
    }
  }

  /** A count of `n` steps of `w` is positive exactly when both are. */
  lemma {:induction false} TimesPositive(n: int, w: nat)
    ensures Times(n, w) > 0 <==> n > 0 && w > 0
    decreases n
  {
    if n > 0 {
      TimesPositive(n - 1, w);
    }
  }

  /** A grid cell adds to the total exactly when its box holds a cube cell; every
      cube cell it covers lies in the cube, and it covers its last cube cell. */
  lemma VisitsPositive(s: Setup, mask: Mask, g: Cell)
    requires s.Valid() && Inside(g, s.grid)
    ensures Visits(s, mask, g) > 0 <==> Transfers(s, mask, g)
    ensures forall c | Covers(s, mask, g, c) :: Transfers(s, mask, g) && Inside(c, s.cube)
    ensures Transfers(s, mask, g) ==> Covers(s, mask, g, Source(s, mask, g))
  {
    if CellBox(s, mask, g).Some? {
      var b := CellBox(s, mask, g).value;
      TimesPositive(Width(b.lo.y, b.hi.y), Width(b.lo.z, b.hi.z));
      TimesPositive(Width(b.lo.x, b.hi.x), Times(Width(b.lo.y, b.hi.y), Width(b.lo.z, b.hi.z)));
    }
  }

  /** The walk has counted no transfer by position (x, y, z) exactly when no grid
      cell before it transfers, so a zero result means neither buffer changed. */
  lemma {:induction false} NoTransfers(s: Setup, mask: Mask, x: int, y: int, z: int)
    requires s.Valid() && Position(s, x, y, z)
    ensures TotalBefore(s, mask, x, y, z) == 0 <==>
      forall g | Inside(g, s.grid) && Before(g, x, y, z) :: !Transfers(s, mask, g)
    decreases x, y, z
  {
    if z > 0 {
      NoTransfers(s, mask, x, y, z - 1);
      VisitsPositive(s, mask, Cell(x, y, z - 1));
    } else if y > 0 {
      NoTransfers(s, mask, x, y - 1, s.grid.z);
    } else if x > 0 {
      NoTransfers(s, mask, x - 1, s.grid.y, 0);
    }
  }
}
