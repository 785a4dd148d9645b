/**
 * The tile index builder of tiler/icon_tiler.py: a nearest-element query
 * over the mesh positions and the per-pixel index array of one zoom level.
 */
module NearestIndex {
  import opened Tiles

  /** A mesh element's (or a pixel centre's) position in the Cartesian embedding of the sphere. */
  datatype Point = Point(x: real, y: real, z: real)

  /** Squared Euclidean distance; the KD-tree orders candidates by the distance itself, which orders them the same way. */
  function SqDist(p: Point, q: Point): real
  {
    (p.x - q.x) * (p.x - q.x) + (p.y - q.y) * (p.y - q.y) + (p.z - q.z) * (p.z - q.z)
  }

  /** i names an element of pts whose distance to q is minimal among all elements. */
  ghost predicate IsNearest(pts: seq<Point>, q: Point, i: nat)
  {
    i < |pts| && forall j :: 0 <= j < |pts| ==> SqDist(pts[i], q) <= SqDist(pts[j], q)
  }

  /** The element of pts[..k] nearest to q; among equally near elements the lowest index wins. */
  function NearestAmong(pts: seq<Point>, q: Point, k: nat): (r: nat)
    requires 1 <= k <= |pts|
    ensures r < k
    ensures forall j :: 0 <= j < k ==> SqDist(pts[r], q) <= SqDist(pts[j], q)
    ensures forall j :: 0 <= j < r ==> SqDist(pts[r], q) < SqDist(pts[j], q)
  {
    if k == 1 then 0
    else
      var best := NearestAmong(pts, q, k - 1);
      if SqDist(pts[k - 1], q) < SqDist(pts[best], q) then k - 1 else best
  }

  /**
   * One nearest-neighbour query. An empty mesh has no element to return:
   * the answer is then |pts| (that is, 0), the KD-tree's "no neighbour" index.
   */
  function Nearest(pts: seq<Point>, q: Point): (r: nat)
    ensures |pts| == 0 ==> r == |pts|
    ensures |pts| > 0 ==> IsNearest(pts, q, r)
    ensures forall j :: 0 <= j < r && r < |pts| ==> SqDist(pts[r], q) < SqDist(pts[j], q)
  {
    if |pts| == 0 then 0 else NearestAmong(pts, q, |pts|)
  }

  lemma SqDistNonNegative(p: Point, q: Point)
    ensures SqDist(p, q) >= 0.0
  {
    var a, b, c := p.x - q.x, p.y - q.y, p.z - q.z;
    assert a * a >= 0.0 && b * b >= 0.0 && c * c >= 0.0;
  }

  /** A query exactly at an element's position is answered at distance zero, by that element or an earlier one. */
  lemma NearestOfElement(pts: seq<Point>, k: nat)
    requires k < |pts|
    ensures Nearest(pts, pts[k]) <= k
    ensures SqDist(pts[Nearest(pts, pts[k])], pts[k]) == 0.0
  {
    var r := Nearest(pts, pts[k]);
    SqDistNonNegative(pts[r], pts[k]);
    assert SqDist(pts[k], pts[k]) == 0.0;
  }

  /** The arguments of the pixel-to-position projection: which pixel of which tile at which level. */
  datatype PixelCenter = PixelCenter(level: nat, tilesize: nat, tx: nat, ty: nat, py: nat, px: nat)

  /** Capacity of the unsigned 32-bit ("u4") slots of the index array. */
  const U4Limit: nat := 0x1_0000_0000

  /** Storing a tile into a "u4" array keeps each index modulo 2^32. */
  function ToU4(t: Tile<nat>): (r: Tile<nat>)
    ensures |r| == |t|
    ensures forall py :: 0 <= py < |t| ==> |r[py]| == |t[py]|
    ensures forall py, px :: 0 <= py < |t| && 0 <= px < |t[py]| && t[py][px] < U4Limit ==> r[py][px] == t[py][px]
  {
    seq(|t|, py requires 0 <= py < |t| => seq(|t[py]|, px requires 0 <= px < |t[py]| => t[py][px] % U4Limit))
  }

  /** The tile of the freshly allocated index array (np.zeros). */
  function ZeroTile(tilesize: nat): Tile<nat>
  {
    seq(tilesize, py => seq(tilesize, px => 0))
  }

  /** The builder holds the mesh positions; the KD-tree over them is represented by its query contract. */
  datatype TileIndexBuilder = TileIndexBuilder(points: seq<Point>)
  {
    /** The bulk query: one nearest element per query position, in order. */
    function Ll2Index(qs: seq<Point>): (idx: seq<nat>)
      ensures |idx| == |qs|
      ensures |points| > 0 ==> forall k :: 0 <= k < |qs| ==> IsNearest(points, qs[k], idx[k])
    {
      seq(|qs|, k requires 0 <= k < |qs| => Nearest(points, qs[k]))
    }

    /** render_tile: project every pixel centre of tile (tx, ty) and look the whole batch up, row by row. */
    function RenderTile(tx: nat, ty: nat, level: nat, tilesize: nat, project: PixelCenter -> Point): (t: Tile<nat>)
      ensures |t| == tilesize && forall py :: 0 <= py < tilesize ==> |t[py]| == tilesize
      ensures |points| > 0 ==> forall py, px :: 0 <= py < tilesize && 0 <= px < tilesize ==>
                IsNearest(points, project(PixelCenter(level, tilesize, tx, ty, py, px)), t[py][px])
    {
      seq(tilesize, py requires 0 <= py < tilesize =>
        Ll2Index(seq(tilesize, px requires 0 <= px < tilesize => project(PixelCenter(level, tilesize, tx, ty, py, px)))))
    }

    /**
     * generate_index: allocate the (n, n, S, S) index array with n = 2^level and fill
     * slot [i, j] with the rendered tile (i, j), one slot per step.
     */
    method GenerateIndex(level: nat, tilesize: nat, project: PixelCenter -> Point) returns (ds: TileIndex)
      ensures ds.tileLevel == level && ds.tilesize == tilesize
      ensures WellFormed(ds.pixels)
      ensures ds.pixels.tx == Range(NumTiles(level)) && ds.pixels.ty == Range(NumTiles(level))
      ensures ds.pixels.y == Range(tilesize) && ds.pixels.x == Range(tilesize)
      ensures forall i, j :: 0 <= i < NumTiles(level) && 0 <= j < NumTiles(level) ==>
                ds.pixels.data[i][j] == ToU4(RenderTile(i, j, level, tilesize, project))
      ensures 0 < |points| <= U4Limit ==>
                forall i, j, py, px ::
                  (0 <= i < NumTiles(level) && 0 <= j < NumTiles(level) && 0 <= py < tilesize && 0 <= px < tilesize) ==>
                  IsNearest(points, project(PixelCenter(level, tilesize, i, j, py, px)), ds.pixels.data[i][j][py][px])
    {
      var n := NumTiles(level);
      var idxs := new Tile<nat>[n, n]((i, j) => ZeroTile(tilesize));
      for i := 0 to n
        invariant forall a, b :: 0 <= a < i && 0 <= b < n ==>
                    idxs[a, b] == ToU4(RenderTile(a, b, level, tilesize, project))
      {
        for j := 0 to n
          invariant forall a, b :: 0 <= a < i && 0 <= b < n ==>
                      idxs[a, b] == ToU4(RenderTile(a, b, level, tilesize, project))
          invariant forall b :: 0 <= b < j ==> idxs[i, b] == ToU4(RenderTile(i, b, level, tilesize, project))
        {
          idxs[i, j] := ToU4(RenderTile(i, j, level, tilesize, project));
        }
      }
      var data := seq(n, a requires 0 <= a < n reads idxs =>
                    seq(n, b requires 0 <= b < n reads idxs => idxs[a, b]));
      ds := TileIndex(Tiles(Range(n), Range(n), Range(tilesize), Range(tilesize), data), level, tilesize);
      if 0 < |points| <= U4Limit {
        forall i, j, py, px | 0 <= i < n && 0 <= j < n && 0 <= py < tilesize && 0 <= px < tilesize
          ensures IsNearest(points, project(PixelCenter(level, tilesize, i, j, py, px)), data[i][j][py][px])
        {
          var t := RenderTile(i, j, level, tilesize, project);
          assert t[py][px] < |points| <= U4Limit;
        }
      }
    }
  }

  /** The index dataset: the per-pixel element index plus the tile_level and tilesize attributes. */
  datatype TileIndex = TileIndex(pixels: Tiles<nat>, tileLevel: nat, tilesize: nat)
}
