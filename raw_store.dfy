/**
 * The raw tile store of tiler/icon_tiler.py: gathering variable values
 * through the tile index (build_raw_tiles) and writing the pyramid from the
 * finest level down to level 0, one dataset per level (store_raw_tiles).
 */
module RawStore {
  import opened Wrappers
  import opened Tiles
  import opened Pyramid
  import opened NearestIndex

  datatype StoreError =
    | NoTiles              // log2 of an empty tile axis
    | LevelExists(level: nat)  // the level's dataset is already in the folder
    | OddTileAxis(level: nat)  // the step down to this level meets a tile axis of odd length
    | IndexOutOfRange      // the index names an element the variable does not have

  /** The folder's contents after a run: the dataset of each level, the order the levels were written in, and how the run ended. */
  datatype StoreState = StoreState(levels: map<nat, Tiles<real>>, written: seq<nat>, error: Option<StoreError>)

  /**
   * pyramid_step on any tile set: None where xarray would refuse it, which for
   * the tile sets the loop meets (well formed ones) means an odd tile axis.
   */
  function NextLevel(t: Tiles<real>): (r: Option<Tiles<real>>)
    ensures WellFormed(t) ==> r == PyramidStep(t)
  {
    if WellFormed(t) then PyramidStep(t) else None
  }

  /**
   * The level loop from `level` down, starting from a folder holding `levels`,
   * with `step` computing each level from the one above it.
   */
  ghost function StoreFrom(step: Tiles<real> -> Option<Tiles<real>>, levels: map<nat, Tiles<real>>, written: seq<nat>, t: Tiles<real>, level: nat): (s: StoreState)
    ensures forall l :: l in levels ==> l in s.levels && s.levels[l] == levels[l]
    ensures forall l :: l in s.levels && l !in levels ==> l <= level
    ensures written <= s.written
    ensures s.error.Some? ==> s.error.value.LevelExists? || s.error.value.OddTileAxis?
    ensures level in levels ==> s.levels == levels && s.written == written && s.error == Some(LevelExists(level))
    decreases level
  {
    if level in levels then StoreState(levels, written, Some(LevelExists(level)))
    else if level == 0 then StoreState(levels[level := t], written + [level], None)
    else
      match step(t)
      case None => StoreState(levels[level := t], written + [level], Some(OddTileAxis(level - 1)))
      case Some(coarser) => StoreFrom(step, levels[level := t], written + [level], coarser, level - 1)
  }

  /** store_raw_tiles: the loop starts at level floor(log2(number of tiles along tx)). */
  ghost function StoreRun(levels: map<nat, Tiles<real>>, written: seq<nat>, t: Tiles<real>): (s: StoreState)
    ensures s.error == Some(NoTiles) <==> |t.tx| == 0
    ensures forall l :: l in levels ==> l in s.levels && s.levels[l] == levels[l]
    ensures |t.tx| > 0 ==> forall l :: l in s.levels && l !in levels ==> l <= Log2Floor(|t.tx|)
    ensures written <= s.written
  {
    if |t.tx| == 0 then StoreState(levels, written, Some(NoTiles))
    else StoreFrom(NextLevel, levels, written, t, Log2Floor(|t.tx|))
  }

  /** The levels n, n-1, ..., 0. */
  function Countdown(n: nat): (r: seq<nat>)
    ensures |r| == n + 1
    ensures forall k :: 0 <= k <= n ==> r[k] == n - k
  {
    if n == 0 then [0] else [n] + Countdown(n - 1)
  }

  /** The folder of raw tile datasets, one per pyramid level. */
  class RawFolder {
    /** The dataset stored for each level. */
    var levels: map<nat, Tiles<real>>
    /** The levels in the order their datasets were written. */
    var written: seq<nat>

    constructor ()
      ensures levels == map[] && written == []
    {
      levels := map[];
      written := [];
    }

    /**
     * The level loop of store_raw_tiles: write the tiles as `level`, read them
     * back and write their step as the next coarser level, down to level 0;
     * stop at a level already in the folder or a step that fails.
     */
    method StoreLevels(step: Tiles<real> -> Option<Tiles<real>>, tiles: Tiles<real>, top: nat) returns (error: Option<StoreError>)
      modifies this
      ensures StoreState(levels, written, error) == StoreFrom(step, old(levels), old(written), tiles, top)
    {
      ghost var outcome := StoreFrom(step, levels, written, tiles, top);
      var level: int := top;
      var tileds := tiles;
      while level >= 0
        invariant level >= -1
        invariant level >= 0 ==> StoreFrom(step, levels, written, tileds, level) == outcome
        invariant level < 0 ==> StoreState(levels, written, None) == outcome
        decreases level
      {
        if level in levels {
          return Some(LevelExists(level));
        }
        ghost var levels0, written0 := levels, written;
        levels := levels[level := tileds];
        written := written + [level];
        if level > 0 {
          var next := step(levels[level]);
          if next.None? {
            return Some(OddTileAxis(level - 1));
          }
          StoreFromStep(step, levels0, written0, tileds, level, next.value);
          tileds := next.value;
        }
        level := level - 1;
      }
      return None;
    }

    /** store_raw_tiles: the level loop from floor(log2(number of tiles along tx)) with pyramid_step as the step. */
    method StoreRawTiles(tiles: Tiles<real>) returns (error: Option<StoreError>)
      modifies this
      ensures StoreState(levels, written, error) == StoreRun(old(levels), old(written), tiles)
    {
      if |tiles.tx| == 0 {
        return Some(NoTiles);
      }
      error := StoreLevels(NextLevel, tiles, Log2Floor(|tiles.tx|));
    }
  }

  /** One turn of the loop, when the level is new and the step down succeeds. */
  lemma StoreFromStep(step: Tiles<real> -> Option<Tiles<real>>, levels: map<nat, Tiles<real>>, written: seq<nat>, t: Tiles<real>, level: nat, next: Tiles<real>)
    requires level > 0 && level !in levels && step(t) == Some(next)
    ensures StoreFrom(step, levels, written, t, level) == StoreFrom(step, levels[level := t], written + [level], next, level - 1)
  {
  }

  /** The step succeeds on the way down from `level` to 0. */
  ghost predicate StepsDown(step: Tiles<real> -> Option<Tiles<real>>, t: Tiles<real>, level: nat)
    decreases level
  {
    level == 0 || (step(t).Some? && StepsDown(step, step(t).value, level - 1))
  }

  /** The 2^L by 2^L tile set halves cleanly at every level down to 0. */
  ghost predicate HalvesDownTo0(t: Tiles<real>, level: nat)
  {
    WellFormed(t) && |t.tx| == NumTiles(level) && |t.ty| == NumTiles(level)
  }

  lemma HalvesStep(t: Tiles<real>, level: nat)
    requires HalvesDownTo0(t, level) && level > 0
    ensures PyramidStep(t).Some? && HalvesDownTo0(PyramidStep(t).value, level - 1)
  {
  }

  /** pyramid_step succeeds all the way down from a 2^L by 2^L tile set. */
  lemma {:induction false} PowerOfTwoStepsDown(t: Tiles<real>, level: nat)
    requires HalvesDownTo0(t, level)
    ensures StepsDown(NextLevel, t, level)
    decreases level
  {
    if level > 0 {
      HalvesStep(t, level);
      PowerOfTwoStepsDown(PyramidStep(t).value, level - 1);
    }
  }

  /** No level from 0 to top is in the folder yet. */
  ghost predicate Fresh(levels: map<nat, Tiles<real>>, top: nat)
  {
    forall l: nat :: l <= top ==> l !in levels
  }

  /**
   * When the step succeeds all the way down and none of the levels 0..L is in
   * the folder yet, the loop succeeds and writes the levels L, L-1, ..., 0, once
   * each, in that order.
   */
  lemma {:induction false} StoreFromWritesCountdown(step: Tiles<real> -> Option<Tiles<real>>, levels: map<nat, Tiles<real>>, written: seq<nat>, t: Tiles<real>, level: nat)
    requires StepsDown(step, t, level) && Fresh(levels, level)
    ensures StoreFrom(step, levels, written, t, level).error == None
    ensures StoreFrom(step, levels, written, t, level).written == written + Countdown(level)
    decreases level
  {
    if level > 0 {
      StoreFromWritesCountdown(step, levels[level := t], written + [level], step(t).value, level - 1);
      assert written + Countdown(level) == written + [level] + Countdown(level - 1);
    }
  }

  /** The folder afterwards holds the levels it held before, unchanged, plus the levels 0..L, the finest holding the input. */
  lemma {:induction false} StoreFromKeys(step: Tiles<real> -> Option<Tiles<real>>, levels: map<nat, Tiles<real>>, written: seq<nat>, t: Tiles<real>, level: nat)
    requires StepsDown(step, t, level) && Fresh(levels, level)
    ensures var after := StoreFrom(step, levels, written, t, level).levels;
            && (forall l: nat :: l in after <==> l in levels || l <= level)
            && (forall l :: l in levels ==> after[l] == levels[l])
            && level in after && after[level] == t
    decreases level
  {
    if level > 0 {
      var coarser := step(t).value;
      StoreFromStep(step, levels, written, t, level, coarser);
      StoreFromKeys(step, levels[level := t], written + [level], coarser, level - 1);
      assert forall l: nat :: l in levels[level := t] <==> l in levels || l == level;
    }
  }

  /** Level l is in the folder and is the step of level l + 1. */
  ghost predicate StepLink(step: Tiles<real> -> Option<Tiles<real>>, levels: map<nat, Tiles<real>>, l: nat)
  {
    l in levels && l + 1 in levels && step(levels[l + 1]) == Some(levels[l])
  }

  /** Every level below top is the step of the level above it. */
  ghost predicate StepChain(step: Tiles<real> -> Option<Tiles<real>>, levels: map<nat, Tiles<real>>, top: nat)
  {
    forall l: nat :: l < top ==> StepLink(step, levels, l)
  }

  /** Each level after the first is the step of the level written just before it. */
  lemma {:induction false} StoreFromChain(step: Tiles<real> -> Option<Tiles<real>>, levels: map<nat, Tiles<real>>, written: seq<nat>, t: Tiles<real>, level: nat)
    requires StepsDown(step, t, level) && Fresh(levels, level)
    ensures StepChain(step, StoreFrom(step, levels, written, t, level).levels, level)
    decreases level
  {
    if level > 0 {
      var coarser := step(t).value;
      var mid := levels[level := t];
      StoreFromStep(step, levels, written, t, level, coarser);
      StoreFromChain(step, mid, written + [level], coarser, level - 1);
      StoreFromKeys(step, mid, written + [level], coarser, level - 1);
      var after := StoreFrom(step, mid, written + [level], coarser, level - 1).levels;
      assert after[level] == t && after[level - 1] == coarser;
      assert StepLink(step, after, level - 1);
    }
  }

  /**
   * The whole of store_raw_tiles on a fresh folder and a 2^L by 2^L tile set:
   * it succeeds, writes L, L-1, ..., 0 once each in that order, the finest
   * level holds the input, every coarser level is one pyramid step of the
   * level above it, and levels already present stay as they were.
   */
  lemma StoreRunPowerOfTwo(levels: map<nat, Tiles<real>>, written: seq<nat>, t: Tiles<real>, level: nat)
    requires HalvesDownTo0(t, level) && Fresh(levels, level)
    ensures var s := StoreRun(levels, written, t);
      && s.error == None
      && s.written == written + Countdown(level)
      && (forall l: nat :: l in s.levels <==> l in levels || l <= level)
      && (forall l :: l in levels ==> s.levels[l] == levels[l])
      && s.levels[level] == t
      && StepChain(NextLevel, s.levels, level)
  {
    Log2OfPower(level);
    PowerOfTwoStepsDown(t, level);
    StoreFromWritesCountdown(NextLevel, levels, written, t, level);
    StoreFromKeys(NextLevel, levels, written, t, level);
    StoreFromChain(NextLevel, levels, written, t, level);
  }

  /** Down a chain of pyramid steps from a well-formed level, every level is well formed and keeps its bounds. */
  lemma {:induction false} ChainBounded(levels: map<nat, Tiles<real>>, top: nat, l: nat, lo: real, hi: real)
    requires StepChain(NextLevel, levels, top) && l <= top && top in levels
    requires WellFormed(levels[top]) && Bounded(levels[top], lo, hi)
    ensures l in levels && WellFormed(levels[l]) && Bounded(levels[l], lo, hi)
    decreases top - l
  {
    if l < top {
      ChainBounded(levels, top, l + 1, lo, hi);
      var upper := levels[l + 1];
      assert StepLink(NextLevel, levels, l);
      assert PyramidStep(upper) == Some(levels[l]);
      PyramidStepBounded(upper, lo, hi);
    }
  }

  /** Down a chain of pyramid steps from tile coordinates 0..2^L-1, level l carries tile coordinates 0..2^l-1. */
  lemma {:induction false} ChainRange(levels: map<nat, Tiles<real>>, top: nat, l: nat)
    requires StepChain(NextLevel, levels, top) && l <= top && top in levels
    requires HalvesDownTo0(levels[top], top)
    requires levels[top].tx == Range(NumTiles(top)) && levels[top].ty == Range(NumTiles(top))
    ensures l in levels && HalvesDownTo0(levels[l], l)
    ensures levels[l].tx == Range(NumTiles(l)) && levels[l].ty == Range(NumTiles(l))
    decreases top - l
  {
    if l < top {
      ChainRange(levels, top, l + 1);
      assert StepLink(NextLevel, levels, l);
      HalvesStep(levels[l + 1], l + 1);
      PyramidStepRange(levels[l + 1]);
    }
  }

  /** Every index of the tile set names an element of the variable. */
  predicate IndexInRange(values: seq<real>, index: Tiles<nat>)
    requires WellFormed(index)
  {
    forall i, j, y, x | 0 <= i < |index.tx| && 0 <= j < |index.ty| && 0 <= y < |index.y| && 0 <= x < |index.x| ::
      index.data[i][j][y][x] < |values|
  }

  /** One tile of values looked up through one tile of indices. */
  function GatherTile(values: seq<real>, tile: Tile<nat>, ny: nat, nx: nat): (r: Tile<real>)
    requires IsTile(tile, ny, nx)
    requires forall y, x :: 0 <= y < ny && 0 <= x < nx ==> tile[y][x] < |values|
    ensures IsTile(r, ny, nx)
    ensures forall y, x :: 0 <= y < ny && 0 <= x < nx ==> r[y][x] == values[tile[y][x]]
  {
    seq(ny, y requires 0 <= y < ny => seq(nx, x requires 0 <= x < nx => values[tile[y][x]]))
  }

  /**
   * build_raw_tiles' gather: entry [tx, ty, y, x] becomes values[index[tx, ty, y, x]],
   * and every dimension is labelled 0..size-1. numpy refuses an index past the
   * end of the variable: None.
   */
  function Gather(values: seq<real>, index: Tiles<nat>): (r: Option<Tiles<real>>)
    requires WellFormed(index)
    ensures r.Some? <==> IndexInRange(values, index)
    ensures r.Some? ==>
      && WellFormed(r.value)
      && r.value.tx == Range(|index.tx|) && r.value.ty == Range(|index.ty|)
      && r.value.y == Range(|index.y|) && r.value.x == Range(|index.x|)
      && forall i, j, y, x :: 0 <= i < |index.tx| && 0 <= j < |index.ty| && 0 <= y < |index.y| && 0 <= x < |index.x| ==>
           r.value.data[i][j][y][x] == values[index.data[i][j][y][x]]
  {
    if !IndexInRange(values, index) then None
    else
      var d := seq(|index.tx|, i requires 0 <= i < |index.tx| =>
                 seq(|index.ty|, j requires 0 <= j < |index.ty| =>
                   GatherTile(values, index.data[i][j], |index.y|, |index.x|)));
      Some(Tiles(Range(|index.tx|), Range(|index.ty|), Range(|index.y|), Range(|index.x|), d))
  }

  /**
   * The index of a non-empty mesh gathers without error from a variable with one
   * value per element, and every raw pixel is the value of the element nearest
   * to the pixel's centre.
   */
  lemma GatherGeneratedIndex(builder: TileIndexBuilder, values: seq<real>, ds: TileIndex, project: PixelCenter -> Point)
    requires 0 < |builder.points| <= U4Limit && |values| == |builder.points|
    requires WellFormed(ds.pixels)
    requires |ds.pixels.tx| == |ds.pixels.ty| == NumTiles(ds.tileLevel)
    requires |ds.pixels.y| == |ds.pixels.x| == ds.tilesize
    requires forall i, j, py, px ::
      (0 <= i < NumTiles(ds.tileLevel) && 0 <= j < NumTiles(ds.tileLevel) && 0 <= py < ds.tilesize && 0 <= px < ds.tilesize) ==>
      IsNearest(builder.points, project(PixelCenter(ds.tileLevel, ds.tilesize, i, j, py, px)), ds.pixels.data[i][j][py][px])
    ensures Gather(values, ds.pixels).Some?
    ensures forall i: nat, j: nat, py: nat, px: nat ::
      (i < NumTiles(ds.tileLevel) && j < NumTiles(ds.tileLevel) && py < ds.tilesize && px < ds.tilesize) ==>
      var k := ds.pixels.data[i][j][py][px];
      k < |values| && Gather(values, ds.pixels).value.data[i][j][py][px] == values[k] &&
      IsNearest(builder.points, project(PixelCenter(ds.tileLevel, ds.tilesize, i, j, py, px)), k)
  {
  }

  /**
   * build_raw_tiles: gather the variable through the index, label the
   * dimensions 0..size-1 and store the pyramid of the result.
   */
  method BuildRawTiles(values: seq<real>, index: Tiles<nat>, folder: RawFolder) returns (error: Option<StoreError>)
    requires WellFormed(index)
    modifies folder
    ensures Gather(values, index).None? ==>
              error == Some(IndexOutOfRange) && folder.levels == old(folder.levels) && folder.written == old(folder.written)
    ensures Gather(values, index).Some? ==>
              StoreState(folder.levels, folder.written, error) == StoreRun(old(folder.levels), old(folder.written), Gather(values, index).value)
  {
    var tiles := Gather(values, index);
    if tiles.None? {
      return Some(IndexOutOfRange);
    }
    error := folder.StoreRawTiles(tiles.value);
  }
}
