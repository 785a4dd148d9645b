/**
 * The quadtree reduction of tiler/icon_tiler.py: sel_2nd picks every other
 * tile along both tile axes, pyramid_step glues the four siblings into a
 * doubled block and averages 2x2 pixel windows back to the original size.
 */
module Pyramid {
  import opened Wrappers
  import opened Tiles

  /** Number of positions start, start+2, ... below n (the length of slice(start, None, 2)). */
  function StrideCount(n: nat, start: nat): (k: nat)
    requires start < 2
    ensures k == (n + 1 - start) / 2
    ensures k == (n + 1) / 2 <==> start == 0 || n % 2 == 0
  {
    (n + 1 - start) / 2
  }

  /** Tiles at positions a, b of a grid, for a, b below the given counts, taken at 2a + ix, 2b + iy. */
  function EveryOther<T>(d: Grid<T>, ntx: nat, nty: nat, ix: nat, iy: nat): (g: Grid<T>)
    requires forall a :: 0 <= a < ntx ==> 2 * a + ix < |d|
    requires forall a, b :: 0 <= a < ntx && 0 <= b < nty ==> 2 * b + iy < |d[2 * a + ix]|
    ensures |g| == ntx && forall a :: 0 <= a < ntx ==> |g[a]| == nty
    ensures forall a, b :: 0 <= a < ntx && 0 <= b < nty ==> g[a][b] == d[2 * a + ix][2 * b + iy]
  {
    seq(ntx, a requires 0 <= a < ntx => seq(nty, b requires 0 <= b < nty => d[2 * a + ix][2 * b + iy]))
  }

  /** The even-position coordinates, halved: coords[::2] // 2. */
  function HalveCoords(coords: seq<nat>): (r: seq<nat>)
    ensures |r| == (|coords| + 1) / 2
    ensures forall a :: 0 <= a < |r| ==> r[a] == coords[2 * a] / 2
  {
    seq((|coords| + 1) / 2, a requires 0 <= a < (|coords| + 1) / 2 => coords[2 * a] / 2)
  }

  /**
   * sel_2nd(tiles, ix, iy): tiles at tx = ix, ix+2, ... and ty = iy, iy+2, ...,
   * relabelled with the halved even coordinates tx[::2] // 2 and ty[::2] // 2.
   * When the selection and the relabelling differ in length (an odd axis with
   * offset 1) xarray refuses the coordinates: None.
   */
  function SelSecond<T>(t: Tiles<T>, ix: nat, iy: nat): (r: Option<Tiles<T>>)
    requires WellFormed(t) && ix < 2 && iy < 2
    ensures r.Some? <==> (ix == 0 || |t.tx| % 2 == 0) && (iy == 0 || |t.ty| % 2 == 0)
    ensures r.Some? ==>
      && WellFormed(r.value)
      && |r.value.tx| == (|t.tx| + 1) / 2 && |r.value.ty| == (|t.ty| + 1) / 2
      && r.value.y == t.y && r.value.x == t.x
      && (forall a :: 0 <= a < |r.value.tx| ==> r.value.tx[a] == t.tx[2 * a] / 2)
      && (forall b :: 0 <= b < |r.value.ty| ==> r.value.ty[b] == t.ty[2 * b] / 2)
      && (forall a, b :: 0 <= a < |r.value.tx| && 0 <= b < |r.value.ty| ==>
            r.value.data[a][b] == t.data[2 * a + ix][2 * b + iy])
  {
    var ntx, nty := StrideCount(|t.tx|, ix), StrideCount(|t.ty|, iy);
    if ntx != (|t.tx| + 1) / 2 || nty != (|t.ty| + 1) / 2 then None
    else
      assert forall a :: 0 <= a < ntx ==> 2 * a + ix < |t.tx|;
      assert forall b :: 0 <= b < nty ==> 2 * b + iy < |t.ty|;
      var d := EveryOther(t.data, ntx, nty, ix, iy);
      assert HasShape(d, ntx, nty, |t.y|, |t.x|);
      Some(Tiles(HalveCoords(t.tx), HalveCoords(t.ty), t.y, t.x, d))
  }

  /** One tile continued on the right by another with the same number of rows. */
  function JoinColumns<T>(p: Tile<T>, q: Tile<T>): (r: Tile<T>)
    requires |p| == |q|
    ensures |r| == |p|
    ensures forall row :: 0 <= row < |p| ==> r[row] == p[row] + q[row]
  {
    seq(|p|, row requires 0 <= row < |p| => p[row] + q[row])
  }

  /** xr.concat along "x" of two tile sets on the same tile grid: each tile of p continued by the tile of q. */
  function ConcatX<T>(p: Tiles<T>, q: Tiles<T>): (r: Tiles<T>)
    requires WellFormed(p) && WellFormed(q)
    requires p.tx == q.tx && p.ty == q.ty && p.y == q.y
    ensures WellFormed(r)
    ensures r.tx == p.tx && r.ty == p.ty && r.y == p.y && r.x == p.x + q.x
    ensures forall i, j :: 0 <= i < |p.tx| && 0 <= j < |p.ty| ==> r.data[i][j] == JoinColumns(p.data[i][j], q.data[i][j])
  {
    var d := seq(|p.tx|, i requires 0 <= i < |p.tx| =>
               seq(|p.ty|, j requires 0 <= j < |p.ty| => JoinColumns(p.data[i][j], q.data[i][j])));
    assert forall i, j :: 0 <= i < |p.tx| && 0 <= j < |p.ty| ==> IsTile(d[i][j], |p.y|, |p.x| + |q.x|);
    Tiles(p.tx, p.ty, p.y, p.x + q.x, d)
  }

  /** xr.concat along "y": the rows of each tile of p followed by the rows of the tile of q. */
  function ConcatY<T>(p: Tiles<T>, q: Tiles<T>): (r: Tiles<T>)
    requires WellFormed(p) && WellFormed(q)
    requires p.tx == q.tx && p.ty == q.ty && p.x == q.x
    ensures WellFormed(r)
    ensures r.tx == p.tx && r.ty == p.ty && r.y == p.y + q.y && r.x == p.x
    ensures forall i, j :: 0 <= i < |p.tx| && 0 <= j < |p.ty| ==> r.data[i][j] == p.data[i][j] + q.data[i][j]
  {
    var d := seq(|p.tx|, i requires 0 <= i < |p.tx| =>
               seq(|p.ty|, j requires 0 <= j < |p.ty| => p.data[i][j] + q.data[i][j]));
    assert forall i, j :: 0 <= i < |p.tx| && 0 <= j < |p.ty| ==> IsTile(d[i][j], |p.y| + |q.y|, |p.x|) by {
      forall i, j | 0 <= i < |p.tx| && 0 <= j < |p.ty| ensures IsTile(d[i][j], |p.y| + |q.y|, |p.x|) {
        assert IsTile(p.data[i][j], |p.y|, |p.x|) && IsTile(q.data[i][j], |q.y|, |p.x|);
      }
    }
    Tiles(p.tx, p.ty, p.y + q.y, p.x, d)
  }

  /** The arithmetic mean of a 2x2 window. */
  function Mean4(a: real, b: real, c: real, d: real): (m: real)
    ensures Min4(a, b, c, d) <= m <= Max4(a, b, c, d)
    ensures a == b == c == d ==> m == a
  {
    (a + b + c + d) / 4.0
  }

  function Min4(a: real, b: real, c: real, d: real): real
  {
    var m := if a <= b then a else b;
    var n := if c <= d then c else d;
    if m <= n then m else n
  }

  function Max4(a: real, b: real, c: real, d: real): real
  {
    var m := if a >= b then a else b;
    var n := if c >= d then c else d;
    if m >= n then m else n
  }

  /** The 2x2 block mean of one tile of 2ny by 2nx pixels. */
  function CoarsenTile(tile: Tile<real>, ny: nat, nx: nat): (r: Tile<real>)
    requires IsTile(tile, 2 * ny, 2 * nx)
    ensures IsTile(r, ny, nx)
    ensures forall row, c :: 0 <= row < ny && 0 <= c < nx ==>
              r[row][c] == Mean4(tile[2 * row][2 * c], tile[2 * row][2 * c + 1], tile[2 * row + 1][2 * c], tile[2 * row + 1][2 * c + 1])
  {
    seq(ny, row requires 0 <= row < ny =>
      seq(nx, c requires 0 <= c < nx =>
        Mean4(tile[2 * row][2 * c], tile[2 * row][2 * c + 1], tile[2 * row + 1][2 * c], tile[2 * row + 1][2 * c + 1])))
  }

  /** coarsen(x=2, y=2).mean(): every 2x2 pixel window of every tile replaced by its mean. */
  function Coarsen(t: Tiles<real>): (g: Grid<real>)
    requires WellFormed(t) && |t.y| % 2 == 0 && |t.x| % 2 == 0
    ensures HasShape(g, |t.tx|, |t.ty|, |t.y| / 2, |t.x| / 2)
    ensures forall i, j :: 0 <= i < |t.tx| && 0 <= j < |t.ty| ==> g[i][j] == CoarsenTile(t.data[i][j], |t.y| / 2, |t.x| / 2)
  {
    seq(|t.tx|, i requires 0 <= i < |t.tx| =>
      seq(|t.ty|, j requires 0 <= j < |t.ty| => CoarsenTile(t.data[i][j], |t.y| / 2, |t.x| / 2)))
  }

  /**
   * The doubled block B(a, b) that pyramid_step averages: tiles (2a, 2b) and
   * (2a+1, 2b) side by side on top, (2a, 2b+1) and (2a+1, 2b+1) below.
   */
  function Block(t: Tiles<real>, a: nat, b: nat): (blk: Tile<real>)
    requires WellFormed(t) && 2 * a + 1 < |t.tx| && 2 * b + 1 < |t.ty|
    ensures IsTile(blk, 2 * |t.y|, 2 * |t.x|)
  {
    assert IsTile(t.data[2 * a][2 * b], |t.y|, |t.x|) && IsTile(t.data[2 * a + 1][2 * b], |t.y|, |t.x|);
    assert IsTile(t.data[2 * a][2 * b + 1], |t.y|, |t.x|) && IsTile(t.data[2 * a + 1][2 * b + 1], |t.y|, |t.x|);
    JoinColumns(t.data[2 * a][2 * b], t.data[2 * a + 1][2 * b]) + JoinColumns(t.data[2 * a][2 * b + 1], t.data[2 * a + 1][2 * b + 1])
  }

  /** The coarser payload: tile [a, b] is the 2x2 mean of the block B(a, b), at the original tile size. */
  function QuadMeans(t: Tiles<real>): (g: Grid<real>)
    requires WellFormed(t) && |t.tx| % 2 == 0 && |t.ty| % 2 == 0
    ensures HasShape(g, |t.tx| / 2, |t.ty| / 2, |t.y|, |t.x|)
    ensures forall a, b :: 0 <= a < |t.tx| / 2 && 0 <= b < |t.ty| / 2 ==> g[a][b] == CoarsenTile(Block(t, a, b), |t.y|, |t.x|)
  {
    seq(|t.tx| / 2, a requires 0 <= a < |t.tx| / 2 =>
      seq(|t.ty| / 2, b requires 0 <= b < |t.ty| / 2 => CoarsenTile(Block(t, a, b), |t.y|, |t.x|)))
  }

  /**
   * pyramid_step: one level coarser. Tile [a, b] of the result is the 2x2
   * mean of the block B(a, b), the tiles keep their pixel coordinates and the
   * tile coordinates are tx[::2] // 2 and ty[::2] // 2. None when xarray would
   * reject the step (a tile axis of odd length). PipelineIsPyramidStep shows
   * this is what the sel_2nd / concat / coarsen pipeline computes.
   */
  function PyramidStep(t: Tiles<real>): (r: Option<Tiles<real>>)
    requires WellFormed(t)
    ensures r.Some? <==> |t.tx| % 2 == 0 && |t.ty| % 2 == 0
    ensures r.Some? ==>
      && WellFormed(r.value)
      && |r.value.tx| == |t.tx| / 2 && |r.value.ty| == |t.ty| / 2
      && r.value.y == t.y && r.value.x == t.x
  {
    if |t.tx| % 2 != 0 || |t.ty| % 2 != 0 then None
    else Some(Tiles(HalveCoords(t.tx), HalveCoords(t.ty), t.y, t.x, QuadMeans(t)))
  }

  /** pyramid_step as written: four sel_2nd selections, two concats along x, one along y, then the 2x2 mean. */
  function PyramidStepPipeline(t: Tiles<real>): Option<Tiles<real>>
    requires WellFormed(t)
  {
    match (SelSecond(t, 0, 0), SelSecond(t, 1, 0), SelSecond(t, 0, 1), SelSecond(t, 1, 1))
    case (Some(_), Some(_), Some(_), Some(_)) =>
      var block := PipelineBlock(t);
      Some(Tiles(block.tx, block.ty, t.y, t.x, Coarsen(block)))
    case _ => None
  }

  /** The block the pipeline glues from the four sel_2nd selections of a tile set with even tile axes. */
  function PipelineBlock(t: Tiles<real>): (block: Tiles<real>)
    requires WellFormed(t) && |t.tx| % 2 == 0 && |t.ty| % 2 == 0
    ensures WellFormed(block) && block.tx == HalveCoords(t.tx) && block.ty == HalveCoords(t.ty)
    ensures |block.y| == 2 * |t.y| && |block.x| == 2 * |t.x|
  {
    ConcatY(ConcatX(SelSecond(t, 0, 0).value, SelSecond(t, 1, 0).value),
            ConcatX(SelSecond(t, 0, 1).value, SelSecond(t, 1, 1).value))
  }

  /** Tile [a, b] of the glued block is B(a, b). */
  lemma PipelineBlockTile(t: Tiles<real>, a: nat, b: nat)
    requires WellFormed(t) && |t.tx| % 2 == 0 && |t.ty| % 2 == 0
    requires a < |t.tx| / 2 && b < |t.ty| / 2
    ensures PipelineBlock(t).data[a][b] == Block(t, a, b)
  {
  }

  /** Averaging the glued block gives the block means. */
  lemma PipelineMeans(t: Tiles<real>)
    requires WellFormed(t) && |t.tx| % 2 == 0 && |t.ty| % 2 == 0
    ensures |PipelineBlock(t).y| % 2 == 0 && |PipelineBlock(t).x| % 2 == 0
    ensures Coarsen(PipelineBlock(t)) == QuadMeans(t)
  {
    var g, q := Coarsen(PipelineBlock(t)), QuadMeans(t);
    forall a | 0 <= a < |t.tx| / 2 ensures g[a] == q[a] {
      PipelineMeansRow(t, a);
    }
  }

  /** Row a of tiles: averaging the glued block gives the block means. */
  lemma PipelineMeansRow(t: Tiles<real>, a: nat)
    requires WellFormed(t) && |t.tx| % 2 == 0 && |t.ty| % 2 == 0
    requires a < |t.tx| / 2
    ensures Coarsen(PipelineBlock(t))[a] == QuadMeans(t)[a]
  {
    var block := PipelineBlock(t);
    var g, q := Coarsen(block), QuadMeans(t);
    assert |block.y| / 2 == |t.y| && |block.x| / 2 == |t.x|;
    forall b | 0 <= b < |t.ty| / 2 ensures g[a][b] == q[a][b] {
      PipelineBlockTile(t, a, b);
    }
  }

  /** The sel_2nd / concat / coarsen pipeline and the block means agree on every tile set. */
  lemma PipelineIsPyramidStep(t: Tiles<real>)
    requires WellFormed(t)
    ensures PyramidStepPipeline(t) == PyramidStep(t)
  {
    if |t.tx| % 2 == 0 && |t.ty| % 2 == 0 {
      PipelineMeans(t);
    }
  }

  /** Pixel (r, c) of B(a, b): columns [0, X) from tile 2a, [X, 2X) from 2a+1; rows [0, Y) from tile 2b, [Y, 2Y) from 2b+1. */
  lemma BlockPixel(t: Tiles<real>, a: nat, b: nat, r: nat, c: nat)
    requires WellFormed(t) && 2 * a + 1 < |t.tx| && 2 * b + 1 < |t.ty|
    requires r < 2 * |t.y| && c < 2 * |t.x|
    ensures IsTile(Block(t, a, b), 2 * |t.y|, 2 * |t.x|)
    ensures var i := if c < |t.x| then 2 * a else 2 * a + 1;
            var j := if r < |t.y| then 2 * b else 2 * b + 1;
            Block(t, a, b)[r][c] == t.data[i][j][if r < |t.y| then r else r - |t.y|][if c < |t.x| then c else c - |t.x|]
  {
    var top := JoinColumns(t.data[2 * a][2 * b], t.data[2 * a + 1][2 * b]);
    var bottom := JoinColumns(t.data[2 * a][2 * b + 1], t.data[2 * a + 1][2 * b + 1]);
    assert IsTile(t.data[2 * a][2 * b], |t.y|, |t.x|) && IsTile(t.data[2 * a + 1][2 * b], |t.y|, |t.x|);
    assert IsTile(t.data[2 * a][2 * b + 1], |t.y|, |t.x|) && IsTile(t.data[2 * a + 1][2 * b + 1], |t.y|, |t.x|);
    assert Block(t, a, b) == top + bottom;
  }

  /** Output pixel [a, b, y, x] is the mean of the window at rows 2y, 2y+1 and columns 2x, 2x+1 of B(a, b). */
  lemma PyramidStepWindow(t: Tiles<real>, a: nat, b: nat, y: nat, x: nat)
    requires WellFormed(t) && |t.tx| % 2 == 0 && |t.ty| % 2 == 0
    requires a < |t.tx| / 2 && b < |t.ty| / 2 && y < |t.y| && x < |t.x|
    ensures IsTile(Block(t, a, b), 2 * |t.y|, 2 * |t.x|)
    ensures PyramidStep(t).Some? && WellFormed(PyramidStep(t).value)
    ensures var blk := Block(t, a, b);
            PyramidStep(t).value.data[a][b][y][x] ==
              Mean4(blk[2 * y][2 * x], blk[2 * y][2 * x + 1], blk[2 * y + 1][2 * x], blk[2 * y + 1][2 * x + 1])
  {
  }

  /** With an even tile size the window at rows 2y, 2y+1 and columns 2x, 2x+1 of B(a, b) lies inside one finer tile. */
  lemma WindowInOneTile(t: Tiles<real>, a: nat, b: nat, y: nat, x: nat)
    requires WellFormed(t) && 2 * a + 1 < |t.tx| && 2 * b + 1 < |t.ty|
    requires |t.y| % 2 == 0 && |t.x| % 2 == 0 && y < |t.y| && x < |t.x|
    ensures IsTile(Block(t, a, b), 2 * |t.y|, 2 * |t.x|)
    ensures var i := if 2 * x < |t.x| then 2 * a else 2 * a + 1;
            var j := if 2 * y < |t.y| then 2 * b else 2 * b + 1;
            var r := if 2 * y < |t.y| then 2 * y else 2 * y - |t.y|;
            var c := if 2 * x < |t.x| then 2 * x else 2 * x - |t.x|;
            var blk, tile := Block(t, a, b), t.data[i][j];
            && r + 1 < |t.y| && c + 1 < |t.x| && IsTile(tile, |t.y|, |t.x|)
            && blk[2 * y][2 * x] == tile[r][c] && blk[2 * y][2 * x + 1] == tile[r][c + 1]
            && blk[2 * y + 1][2 * x] == tile[r + 1][c] && blk[2 * y + 1][2 * x + 1] == tile[r + 1][c + 1]
  {
    BlockPixel(t, a, b, 2 * y, 2 * x);
    BlockPixel(t, a, b, 2 * y, 2 * x + 1);
    BlockPixel(t, a, b, 2 * y + 1, 2 * x);
    BlockPixel(t, a, b, 2 * y + 1, 2 * x + 1);
  }

  /**
   * With an even tile size output pixel [a, b, y, x] is the mean of the four
   * pixels at rows r, r+1 and columns c, c+1 of one finer tile (i, j).
   */
  lemma PyramidStepPixel(t: Tiles<real>, a: nat, b: nat, y: nat, x: nat)
    requires WellFormed(t) && |t.tx| % 2 == 0 && |t.ty| % 2 == 0
    requires |t.y| % 2 == 0 && |t.x| % 2 == 0
    requires a < |t.tx| / 2 && b < |t.ty| / 2 && y < |t.y| && x < |t.x|
    ensures PyramidStep(t).Some? && WellFormed(PyramidStep(t).value)
    ensures var i := if 2 * x < |t.x| then 2 * a else 2 * a + 1;
            var j := if 2 * y < |t.y| then 2 * b else 2 * b + 1;
            var r := if 2 * y < |t.y| then 2 * y else 2 * y - |t.y|;
            var c := if 2 * x < |t.x| then 2 * x else 2 * x - |t.x|;
            && r + 1 < |t.y| && c + 1 < |t.x| && IsTile(t.data[i][j], |t.y|, |t.x|)
            && var tile := t.data[i][j];
            PyramidStep(t).value.data[a][b][y][x] == Mean4(tile[r][c], tile[r][c + 1], tile[r + 1][c], tile[r + 1][c + 1])
  {
    PyramidStepWindow(t, a, b, y, x);
    WindowInOneTile(t, a, b, y, x);
  }

  /** Output pixel [a, b, y, x] lies between the smallest and the largest of the four pixels it averages. */
  lemma PyramidStepPixelBetween(t: Tiles<real>, a: nat, b: nat, y: nat, x: nat)
    requires WellFormed(t) && |t.tx| % 2 == 0 && |t.ty| % 2 == 0
    requires a < |t.tx| / 2 && b < |t.ty| / 2 && y < |t.y| && x < |t.x|
    ensures PyramidStep(t).Some? && WellFormed(PyramidStep(t).value)
    ensures var blk, v := Block(t, a, b), PyramidStep(t).value.data[a][b][y][x];
            && Min4(blk[2 * y][2 * x], blk[2 * y][2 * x + 1], blk[2 * y + 1][2 * x], blk[2 * y + 1][2 * x + 1]) <= v
            && v <= Max4(blk[2 * y][2 * x], blk[2 * y][2 * x + 1], blk[2 * y + 1][2 * x], blk[2 * y + 1][2 * x + 1])
  {
    PyramidStepWindow(t, a, b, y, x);
  }

  /** Every pixel of the block B(a, b) is a pixel of a finer tile, so it keeps the finer level's bounds. */
  lemma BlockBounded(t: Tiles<real>, a: nat, b: nat, r: nat, c: nat, lo: real, hi: real)
    requires WellFormed(t) && Bounded(t, lo, hi) && 2 * a + 1 < |t.tx| && 2 * b + 1 < |t.ty|
    requires r < 2 * |t.y| && c < 2 * |t.x|
    ensures IsTile(Block(t, a, b), 2 * |t.y|, 2 * |t.x|)
    ensures lo <= Block(t, a, b)[r][c] <= hi
  {
    BlockPixel(t, a, b, r, c);
  }

  /** The mean of a 2x2 window of B(a, b) keeps the finer level's bounds. */
  lemma WindowBounded(t: Tiles<real>, a: nat, b: nat, y: nat, x: nat, lo: real, hi: real)
    requires WellFormed(t) && Bounded(t, lo, hi) && 2 * a + 1 < |t.tx| && 2 * b + 1 < |t.ty|
    requires y < |t.y| && x < |t.x|
    ensures var blk := Block(t, a, b);
            lo <= Mean4(blk[2 * y][2 * x], blk[2 * y][2 * x + 1], blk[2 * y + 1][2 * x], blk[2 * y + 1][2 * x + 1]) <= hi
  {
    BlockBounded(t, a, b, 2 * y, 2 * x, lo, hi);
    BlockBounded(t, a, b, 2 * y, 2 * x + 1, lo, hi);
    BlockBounded(t, a, b, 2 * y + 1, 2 * x, lo, hi);
    BlockBounded(t, a, b, 2 * y + 1, 2 * x + 1, lo, hi);
  }

  lemma StepPixelBounded(t: Tiles<real>, a: nat, b: nat, y: nat, x: nat, lo: real, hi: real)
    requires WellFormed(t) && Bounded(t, lo, hi) && |t.tx| % 2 == 0 && |t.ty| % 2 == 0
    requires a < |t.tx| / 2 && b < |t.ty| / 2 && y < |t.y| && x < |t.x|
    ensures PyramidStep(t).Some? && WellFormed(PyramidStep(t).value)
    ensures lo <= PyramidStep(t).value.data[a][b][y][x] <= hi
  {
    PyramidStepWindow(t, a, b, y, x);
    WindowBounded(t, a, b, y, x, lo, hi);
  }

  /** A step keeps every value within bounds that held at the finer level. */
  lemma PyramidStepBounded(t: Tiles<real>, lo: real, hi: real)
    requires WellFormed(t) && Bounded(t, lo, hi)
    ensures PyramidStep(t).Some? ==> Bounded(PyramidStep(t).value, lo, hi)
  {
    if PyramidStep(t).Some? {
      var p := PyramidStep(t).value;
      forall a, b, y, x | 0 <= a < |p.tx| && 0 <= b < |p.ty| && 0 <= y < |p.y| && 0 <= x < |p.x|
        ensures lo <= p.data[a][b][y][x] <= hi
      {
        StepPixelBounded(t, a, b, y, x, lo, hi);
      }
    }
  }

  /** The coarser level relabels its tiles with the halved even coordinates tx[::2] // 2 and ty[::2] // 2. */
  lemma PyramidStepCoords(t: Tiles<real>)
    requires WellFormed(t) && |t.tx| % 2 == 0 && |t.ty| % 2 == 0
    ensures PyramidStep(t).Some?
    ensures forall a :: 0 <= a < |t.tx| / 2 ==> PyramidStep(t).value.tx[a] == t.tx[2 * a] / 2
    ensures forall b :: 0 <= b < |t.ty| / 2 ==> PyramidStep(t).value.ty[b] == t.ty[2 * b] / 2
  {
  }

  /** Tile coordinates 0..n-1 with n even become 0..n/2-1. */
  lemma PyramidStepRange(t: Tiles<real>)
    requires WellFormed(t) && |t.tx| % 2 == 0 && |t.ty| % 2 == 0
    requires t.tx == Range(|t.tx|) && t.ty == Range(|t.ty|)
    ensures PyramidStep(t).Some?
    ensures PyramidStep(t).value.tx == Range(|t.tx| / 2)
    ensures PyramidStep(t).value.ty == Range(|t.ty| / 2)
  {
    var p := PyramidStep(t).value;
    PyramidStepCoords(t);
    forall a | 0 <= a < |p.tx| ensures p.tx[a] == a {
      assert t.tx[2 * a] == 2 * a;
    }
    forall b | 0 <= b < |p.ty| ensures p.ty[b] == b {
      assert t.ty[2 * b] == 2 * b;
    }
  }
}
