/**
 * Tile sets as the tiler stores them: a 4-D array with dimensions
 * (tx, ty, y, x) and one coordinate vector per dimension.
 */
module Tiles {

  /** One tile: rows indexed by pixel-y, each row indexed by pixel-x. */
  type Tile<T> = seq<seq<T>>

  /** The 4-D payload, indexed [tx][ty][y][x]. */
  type Grid<T> = seq<seq<Tile<T>>>

  /** A labelled tile array: the payload plus the coordinate of each index along each dimension. */
  datatype Tiles<T> = Tiles(tx: seq<nat>, ty: seq<nat>, y: seq<nat>, x: seq<nat>, data: Grid<T>)

  /** A tile of ny rows of nx pixels. */
  predicate IsTile<T>(tile: Tile<T>, ny: nat, nx: nat)
  {
    |tile| == ny && forall r :: 0 <= r < ny ==> |tile[r]| == nx
  }

  /** The tile grid is ntx by nty and every tile has ny rows of nx pixels. */
  predicate HasShape<T>(d: Grid<T>, ntx: nat, nty: nat, ny: nat, nx: nat)
  {
    && |d| == ntx
    && (forall i :: 0 <= i < ntx ==> |d[i]| == nty)
    && (forall i, j :: 0 <= i < ntx && 0 <= j < nty ==> IsTile(d[i][j], ny, nx))
  }

  /** The array's shape agrees with its coordinate vectors (xarray keeps this as an invariant). */
  predicate WellFormed<T>(t: Tiles<T>)
  {
    HasShape(t.data, |t.tx|, |t.ty|, |t.y|, |t.x|)
  }

  /** The coordinate vector 0, 1, ..., n-1 (numpy's arange). */
  function Range(n: nat): (r: seq<nat>)
    ensures |r| == n
    ensures forall i :: 0 <= i < n ==> r[i] == i
  {
    seq(n, i => i)
  }

  /** 2^level: the number of tiles along each axis at a zoom level. */
  function NumTiles(level: nat): (n: nat)
    ensures n >= 1
  {
    if level == 0 then 1 else 2 * NumTiles(level - 1)
  }

  /**
   * floor(log2 n) for n >= 1. int(np.log2(n)) takes the logarithm in
   * double precision; with a correctly rounded logarithm the two agree for
   * n < 2^48, while for n = 2^49 - 1 the rounded logarithm is exactly 49.0
   * and int() gives 49.
   */
  function Log2Floor(n: nat): (k: nat)
    requires n >= 1
    ensures NumTiles(k) <= n < 2 * NumTiles(k)
  {
    if n == 1 then 0
    else
      var k := Log2Floor(n / 2);
      assert NumTiles(k + 1) == 2 * NumTiles(k);
      k + 1
  }

  lemma {:induction false} Log2OfPower(level: nat)
    ensures Log2Floor(NumTiles(level)) == level
  {
    if level > 0 {
      Log2OfPower(level - 1);
      assert NumTiles(level) / 2 == NumTiles(level - 1);
    }
  }

  /** Every pixel value lies in [lo, hi]. */
  ghost predicate Bounded(t: Tiles<real>, lo: real, hi: real)
    requires WellFormed(t)
  {
    forall i, j, r, c :: 0 <= i < |t.tx| && 0 <= j < |t.ty| && 0 <= r < |t.y| && 0 <= c < |t.x| ==>
      lo <= t.data[i][j][r][c] <= hi
  }
}
