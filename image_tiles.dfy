/**
 * The image tiles of tiler/icon_tiler.py (build_image_tiles): every raw tile
 * of levels 0..maxlevel is coloured and saved as
 * <targetfolder>/<level>/<tx>/<ty>.jpg, tx and ty being the tile's
 * coordinate values.
 */
module ImageTiles {
  import opened Wrappers
  import opened Tiles
  import opened RawStore
  import opened Decimals

  /** os.path.join(a, b): an absolute b replaces a; otherwise a separator is added unless a is empty or already ends with one. */
  function JoinPath(a: string, b: string): string
  {
    if |b| > 0 && b[0] == '/' then b
    else if |a| == 0 || a[|a| - 1] == '/' then a + b
    else a + "/" + b
  }

  /** Joining a relative name puts exactly one separator between the parts; an absolute name replaces the folder. */
  lemma JoinPathSeparator(a: string, b: string)
    ensures |b| > 0 && b[0] == '/' ==> JoinPath(a, b) == b
    ensures |a| == 0 ==> JoinPath(a, b) == b
    ensures |a| > 0 && a[|a| - 1] == '/' && (|b| == 0 || b[0] != '/') ==> JoinPath(a, b) == a + b
    ensures |a| > 0 && a[|a| - 1] != '/' && (|b| == 0 || b[0] != '/') ==> JoinPath(a, b) == a + "/" + b
  {
  }

  /** A relative join starts with the folder, ends with the name and adds at most one character, a separator, between them. */
  lemma JoinPathShape(a: string, b: string)
    requires |b| == 0 || b[0] != '/'
    ensures var p := JoinPath(a, b);
            && |a| + |b| <= |p| <= |a| + |b| + 1
            && p[..|a|] == a && p[|p| - |b|..] == b
            && (|a| > 0 ==> p[|p| - |b| - 1] == '/')
  {
  }

  /** The folder of one level: f"{targetfolder}/{level}/". */
  function LevelPrefix(target: string, level: nat): string
  {
    target + "/" + Decimal(level) + "/"
  }

  /** The level folder is the target folder, a separator, the level's digits and a closing separator. */
  lemma LevelPrefixShape(target: string, level: nat)
    ensures var prefix := LevelPrefix(target, level);
            && |prefix| == |target| + |Decimal(level)| + 2
            && prefix[..|target|] == target && prefix[|target|] == '/'
            && prefix[|target| + 1..|prefix| - 1] == Decimal(level) && prefix[|prefix| - 1] == '/'
  {
  }

  /** The name of one tile inside its level's folder: f"{tx}/{ty}.jpg". */
  function TileName(tx: nat, ty: nat): string
  {
    Decimal(tx) + "/" + Decimal(ty) + ".jpg"
  }

  /** The tile name starts with a digit, holds tx's digits and a separator, then ty's digits, and ends in ".jpg". */
  lemma TileNameShape(tx: nat, ty: nat)
    ensures var name := TileName(tx, ty);
            && |name| == |Decimal(tx)| + |Decimal(ty)| + 5
            && '0' <= name[0] <= '9'
            && name[..|Decimal(tx)|] == Decimal(tx) && name[|Decimal(tx)|] == '/'
            && name[|Decimal(tx)| + 1..|name| - 4] == Decimal(ty)
            && name[|name| - 4..] == ".jpg"
  {
  }

  /** The file a tile is saved to: the level folder followed by the tile name (os.path.join of the two, see TilePathJoin). */
  function TilePath(target: string, level: nat, tx: nat, ty: nat): string
  {
    LevelPrefix(target, level) + TileName(tx, ty)
  }

  /** os.path.join(prefix, name) adds no separator of its own: the prefix ends with one and the name starts with a digit. */
  lemma TilePathJoin(target: string, level: nat, tx: nat, ty: nat)
    ensures JoinPath(LevelPrefix(target, level), TileName(tx, ty)) == TilePath(target, level, tx, ty)
  {
    var prefix, name := LevelPrefix(target, level), TileName(tx, ty);
    JoinPathSeparator(prefix, name);
  }

  /** The path is <target>/<level>/<tx>/<ty>.jpg. */
  lemma TilePathText(target: string, level: nat, tx: nat, ty: nat)
    ensures TilePath(target, level, tx, ty) == target + "/" + (Decimal(level) + "/" + (Decimal(tx) + "/" + (Decimal(ty) + ".jpg")))
  {
    var head, l, x, y := target + "/", Decimal(level), Decimal(tx), Decimal(ty);
    var prefix, name := LevelPrefix(target, level), TileName(tx, ty);
    assert prefix == (head + l) + "/";
    assert prefix[|prefix| - 1] == '/';
    assert name == ((x + "/") + y) + ".jpg";
    assert name[0] == x[0];
    AppendAssociates(x + "/", y, ".jpg");
    AppendAssociates(head, l, "/");
    AppendAssociates(head, l + "/", name);
  }

  /** The position of the first separator '/' in a path, or its length when it has none. */
  function FirstSeparator(w: string): (k: nat)
    ensures k <= |w|
    ensures forall m :: 0 <= m < k ==> w[m] != '/'
    ensures k < |w| ==> w[k] == '/'
  {
    if |w| == 0 || w[0] == '/' then 0 else 1 + FirstSeparator(w[1..])
  }

  /** In digits followed by a separator, the first separator comes right after the digits. */
  lemma {:induction false} DigitsThenSeparator(a: string, s: string)
    requires IsDigits(a)
    ensures FirstSeparator(a + "/" + s) == |a|
    decreases |a|
  {
    var w := a + "/" + s;
    if |a| == 0 {
      assert w[0] == '/';
    } else {
      assert w[0] == a[0] && w[1..] == a[1..] + "/" + s;
      DigitsThenSeparator(a[1..], s);
    }
  }

  /** Two strings without a separator, each followed by one: the first separator tells where they end. */
  lemma SplitAtSeparator(a: string, s: string, b: string, u: string)
    requires IsDigits(a) && IsDigits(b)
    requires a + "/" + s == b + "/" + u
    ensures a == b && s == u
  {
    DigitsThenSeparator(a, s);
    DigitsThenSeparator(b, u);
    assert a == (a + "/" + s)[..|a|];
    assert b == (b + "/" + u)[..|b|];
    assert s == (a + "/" + s)[|a| + 1..];
    assert u == (b + "/" + u)[|b| + 1..];
  }

  /** Distinct tiles go to distinct files: the path determines the level and both tile coordinates. */
  lemma TilePathInjective(target: string, l1: nat, x1: nat, y1: nat, l2: nat, x2: nat, y2: nat)
    requires TilePath(target, l1, x1, y1) == TilePath(target, l2, x2, y2)
    ensures l1 == l2 && x1 == x2 && y1 == y2
  {
    TilePathText(target, l1, x1, y1);
    TilePathText(target, l2, x2, y2);
    var head := target + "/";
    var rest1 := Decimal(l1) + "/" + (Decimal(x1) + "/" + (Decimal(y1) + ".jpg"));
    var rest2 := Decimal(l2) + "/" + (Decimal(x2) + "/" + (Decimal(y2) + ".jpg"));
    assert TilePath(target, l1, x1, y1) == head + rest1;
    assert TilePath(target, l2, x2, y2) == head + rest2;
    assert rest1 == (head + rest1)[|head|..];
    assert rest2 == (head + rest2)[|head|..];
    SplitAtSeparator(Decimal(l1), Decimal(x1) + "/" + (Decimal(y1) + ".jpg"), Decimal(l2), Decimal(x2) + "/" + (Decimal(y2) + ".jpg"));
    SplitAtSeparator(Decimal(x1), Decimal(y1) + ".jpg", Decimal(x2), Decimal(y2) + ".jpg");
    var d1, d2 := Decimal(y1), Decimal(y2);
    assert |d1| == |d2|;
    assert d1 == (d1 + ".jpg")[..|d1|];
    assert d2 == (d2 + ".jpg")[..|d2|];
    DecimalInjective(l1, l2);
    DecimalInjective(x1, x2);
    DecimalInjective(y1, y2);
  }

  /** A colour map's output with bytes=True: red, green, blue and alpha channels. */
  datatype Rgba = Rgba(r: nat, g: nat, b: nat, a: nat)

  /** One pixel of a saved image. */
  datatype Rgb = Rgb(r: nat, g: nat, b: nat)

  /** An image: rows of pixels. */
  type Image = seq<seq<Rgb>>

  /** Image.fromarray(cmap(norm(tile), bytes=True)[..., :3]): each value coloured, the alpha channel dropped. */
  function RenderImage(tile: Tile<real>, colormap: real -> Rgba): Image
    decreases |tile|
  {
    if |tile| == 0 then [] else RenderImage(tile[..|tile| - 1], colormap) + [RenderRow(tile[|tile| - 1], colormap)]
  }

  /** One row of the image: each value coloured, alpha dropped. */
  function RenderRow(row: seq<real>, colormap: real -> Rgba): seq<Rgb>
    decreases |row|
  {
    if |row| == 0 then []
    else
      var c := colormap(row[|row| - 1]);
      RenderRow(row[..|row| - 1], colormap) + [Rgb(c.r, c.g, c.b)]
  }

  /** Each pixel of a row is the colour of the value at the same place. */
  lemma {:induction false} RenderRowPixels(row: seq<real>, colormap: real -> Rgba)
    ensures |RenderRow(row, colormap)| == |row|
    ensures forall x :: 0 <= x < |row| ==> var c := colormap(row[x]); RenderRow(row, colormap)[x] == Rgb(c.r, c.g, c.b)
    decreases |row|
  {
    if |row| > 0 {
      var init := row[..|row| - 1];
      RenderRowPixels(init, colormap);
      assert forall x :: 0 <= x < |init| ==> init[x] == row[x];
    }
  }

  /** The image has the tile's shape, and each pixel is the colour of the tile value at the same place, alpha dropped. */
  lemma {:induction false} RenderImagePixels(tile: Tile<real>, colormap: real -> Rgba)
    ensures |RenderImage(tile, colormap)| == |tile|
    ensures forall y :: 0 <= y < |tile| ==> |RenderImage(tile, colormap)[y]| == |tile[y]|
    ensures forall y, x :: 0 <= y < |tile| && 0 <= x < |tile[y]| ==>
              var c := colormap(tile[y][x]); RenderImage(tile, colormap)[y][x] == Rgb(c.r, c.g, c.b)
    decreases |tile|
  {
    if |tile| > 0 {
      var init, last := tile[..|tile| - 1], tile[|tile| - 1];
      RenderImagePixels(init, colormap);
      RenderRowPixels(last, colormap);
      assert forall y :: 0 <= y < |init| ==> init[y] == tile[y];
    }
  }

  /** One save: the file and the image written to it. */
  datatype Save = Save(path: string, image: Image)

  /** Tile [i, j] of a level: one step of the saving loops. */
  datatype TileRef = TileRef(level: nat, i: nat, j: nat)

  /** r names a tile of a level the raw folder holds. */
  predicate Refers(levels: map<nat, Tiles<real>>, r: TileRef)
  {
    r.level in levels && r.i < |levels[r.level].tx| && r.j < |levels[r.level].ty|
  }

  /** The levels lo..hi are all in the raw folder. */
  predicate Present(levels: map<nat, Tiles<real>>, lo: nat, hi: nat)
  {
    forall l :: lo <= l <= hi ==> l in levels
  }

  /** The save of one tile: the coloured tile, written to the file its level and coordinate values name. */
  function TileSave(levels: map<nat, Tiles<real>>, target: string, colormap: real -> Rgba, r: TileRef): Save
    requires forall l :: l in levels ==> WellFormed(levels[l])
    requires Refers(levels, r)
  {
    var t := levels[r.level];
    assert WellFormed(t);
    Save(TilePath(target, r.level, t.tx[r.i], t.ty[r.j]), RenderImage(t.data[r.i][r.j], colormap))
  }

  /** The saves of a sequence of tiles, in the same order: the k-th save is the save of the k-th tile. */
  function Saves(levels: map<nat, Tiles<real>>, target: string, colormap: real -> Rgba, order: seq<TileRef>): (s: seq<Save>)
    requires forall l :: l in levels ==> WellFormed(levels[l])
    requires forall k :: 0 <= k < |order| ==> Refers(levels, order[k])
    ensures |s| == |order|
    ensures forall k :: 0 <= k < |order| ==> s[k] == TileSave(levels, target, colormap, order[k])
  {
    seq(|order|, k requires 0 <= k < |order| => TileSave(levels, target, colormap, order[k]))
  }

  /** One more tile, one more save at the end. */
  lemma SavesSnoc(levels: map<nat, Tiles<real>>, target: string, colormap: real -> Rgba, order: seq<TileRef>, r: TileRef)
    requires forall l :: l in levels ==> WellFormed(levels[l])
    requires forall k :: 0 <= k < |order| ==> Refers(levels, order[k])
    requires Refers(levels, r)
    ensures forall k :: 0 <= k < |order + [r]| ==> Refers(levels, (order + [r])[k])
    ensures Saves(levels, target, colormap, order + [r]) == Saves(levels, target, colormap, order) + [TileSave(levels, target, colormap, r)]
  {
    SavesAppend(levels, target, colormap, order, [r]);
  }

  /** The tiles of a + b are tiles of the raw folder when those of a and of b are. */
  lemma ReferAppend(levels: map<nat, Tiles<real>>, a: seq<TileRef>, b: seq<TileRef>)
    requires forall k :: 0 <= k < |a| ==> Refers(levels, a[k])
    requires forall k :: 0 <= k < |b| ==> Refers(levels, b[k])
    ensures forall k :: 0 <= k < |a + b| ==> Refers(levels, (a + b)[k])
  {
    forall k | 0 <= k < |a + b| ensures Refers(levels, (a + b)[k]) {
      if k < |a| { assert (a + b)[k] == a[k]; } else { assert (a + b)[k] == b[k - |a|]; }
    }
  }

  /** Saving the tiles of a then those of b is saving the tiles of a + b. */
  lemma SavesAppend(levels: map<nat, Tiles<real>>, target: string, colormap: real -> Rgba, a: seq<TileRef>, b: seq<TileRef>)
    requires forall l :: l in levels ==> WellFormed(levels[l])
    requires forall k :: 0 <= k < |a| ==> Refers(levels, a[k])
    requires forall k :: 0 <= k < |b| ==> Refers(levels, b[k])
    ensures forall k :: 0 <= k < |a + b| ==> Refers(levels, (a + b)[k])
    ensures Saves(levels, target, colormap, a + b) == Saves(levels, target, colormap, a) + Saves(levels, target, colormap, b)
  {
    ReferAppend(levels, a, b);
    var sab, sa, sb := Saves(levels, target, colormap, a + b), Saves(levels, target, colormap, a), Saves(levels, target, colormap, b);
    forall k | 0 <= k < |sab| ensures sab[k] == (sa + sb)[k] {
      SavesAppendAt(levels, target, colormap, a, b, k);
    }
  }

  /** The k-th save of a + b is the k-th save of a, or past a the matching save of b. */
  lemma SavesAppendAt(levels: map<nat, Tiles<real>>, target: string, colormap: real -> Rgba, a: seq<TileRef>, b: seq<TileRef>, k: nat)
    requires forall l :: l in levels ==> WellFormed(levels[l])
    requires forall k :: 0 <= k < |a + b| ==> Refers(levels, (a + b)[k])
    requires forall k :: 0 <= k < |a| ==> Refers(levels, a[k])
    requires forall k :: 0 <= k < |b| ==> Refers(levels, b[k])
    requires k < |a| + |b|
    ensures Saves(levels, target, colormap, a + b)[k] ==
            (Saves(levels, target, colormap, a) + Saves(levels, target, colormap, b))[k]
  {
    IndexAppend(a, b, k);
    if k < |a| {
      var r := a[k];
      SaveAt(levels, target, colormap, a + b, k, r);
      SaveAt(levels, target, colormap, a, k, r);
    } else {
      var j: nat := k - |a|;
      var r := b[j];
      SaveAt(levels, target, colormap, a + b, k, r);
      SaveAt(levels, target, colormap, b, j, r);
    }
    IndexAppend(Saves(levels, target, colormap, a), Saves(levels, target, colormap, b), k);
  }

  /** The k-th save of a sequence of tiles is the save of its k-th tile. */
  lemma SaveAt(levels: map<nat, Tiles<real>>, target: string, colormap: real -> Rgba, order: seq<TileRef>, k: nat, r: TileRef)
    requires forall l :: l in levels ==> WellFormed(levels[l])
    requires forall k :: 0 <= k < |order| ==> Refers(levels, order[k])
    requires k < |order| && order[k] == r
    ensures Saves(levels, target, colormap, order)[k] == TileSave(levels, target, colormap, r)
  {
  }

  /** Element k of x + y: from x below |x|, from y after it. */
  lemma IndexAppend<T>(x: seq<T>, y: seq<T>, k: nat)
    requires k < |x| + |y|
    ensures k < |x| ==> (x + y)[k] == x[k]
    ensures k >= |x| ==> (x + y)[k] == y[k - |x|]
  {
  }

  lemma AppendAssociates<T>(x: seq<T>, y: seq<T>, z: seq<T>)
    ensures (x + y) + z == x + (y + z)
  {
  }

  /** Tiles [i, 0], ..., [i, n-1] of a level, in that order: the inner loop of store_images. */
  function RowOrder(level: nat, i: nat, n: nat): (r: seq<TileRef>)
    ensures |r| == n
    ensures forall j :: 0 <= j < n ==> r[j] == TileRef(level, i, j)
  {
    if n == 0 then [] else RowOrder(level, i, n - 1) + [TileRef(level, i, n - 1)]
  }

  /** Rows 0, ..., m-1 of a level of ny tiles per row, row after row: the outer loop of store_images. */
  function LevelOrder(level: nat, m: nat, ny: nat): (r: seq<TileRef>)
    ensures forall k :: 0 <= k < |r| ==> r[k].level == level && r[k].i < m && r[k].j < ny
  {
    if m == 0 then [] else LevelOrder(level, m - 1, ny) + RowOrder(level, m - 1, ny)
  }

  /** The saves of the first m rows of a level. */
  function LevelSaves(levels: map<nat, Tiles<real>>, target: string, colormap: real -> Rgba, level: nat, m: nat): seq<Save>
    requires forall l :: l in levels ==> WellFormed(levels[l])
    requires level in levels && m <= |levels[level].tx|
  {
    Saves(levels, target, colormap, LevelOrder(level, m, |levels[level].ty|))
  }

  /** Every tile of the first m rows is in their order. */
  lemma {:induction false} TileInLevelOrder(level: nat, m: nat, ny: nat, i: nat, j: nat)
    requires i < m && j < ny
    ensures TileRef(level, i, j) in LevelOrder(level, m, ny)
    decreases m
  {
    var prev, row := LevelOrder(level, m - 1, ny), RowOrder(level, m - 1, ny);
    assert LevelOrder(level, m, ny) == prev + row;
    if i < m - 1 {
      TileInLevelOrder(level, m - 1, ny, i, j);
    } else {
      assert (prev + row)[|prev| + j] == row[j];
    }
  }

  /**
   * The tiles build_image_tiles saves from `level` on: every tile of each
   * level up to maxlevel, level after level, stopping at the first level
   * the raw folder lacks.
   */
  function RunOrder(levels: map<nat, Tiles<real>>, level: nat, maxlevel: nat): (r: seq<TileRef>)
    ensures forall k :: 0 <= k < |r| ==> Refers(levels, r[k]) && level <= r[k].level <= maxlevel && Present(levels, level, r[k].level)
    decreases maxlevel + 1 - level
  {
    if level > maxlevel || level !in levels then []
    else
      var t := levels[level];
      LevelOrder(level, |t.tx|, |t.ty|) + RunOrder(levels, level + 1, maxlevel)
  }

  /** With the levels `level`..l all present, every tile of level l is in the run. */
  lemma {:induction false} TileInRunOrder(levels: map<nat, Tiles<real>>, level: nat, maxlevel: nat, r: TileRef)
    requires Refers(levels, r) && level <= r.level <= maxlevel && Present(levels, level, r.level)
    ensures r in RunOrder(levels, level, maxlevel)
    decreases r.level - level
  {
    var t := levels[level];
    var here, rest := LevelOrder(level, |t.tx|, |t.ty|), RunOrder(levels, level + 1, maxlevel);
    assert RunOrder(levels, level, maxlevel) == here + rest;
    if r.level == level {
      TileInLevelOrder(level, |t.tx|, |t.ty|, r.i, r.j);
    } else {
      TileInRunOrder(levels, level + 1, maxlevel, r);
    }
  }

  /** The run saves exactly the tiles of the levels up to maxlevel that come before the first missing level. */
  lemma RunOrderTiles(levels: map<nat, Tiles<real>>, maxlevel: nat, r: TileRef)
    ensures r in RunOrder(levels, 0, maxlevel) <==> Refers(levels, r) && r.level <= maxlevel && Present(levels, 0, r.level)
  {
    if Refers(levels, r) && r.level <= maxlevel && Present(levels, 0, r.level) {
      TileInRunOrder(levels, 0, maxlevel, r);
    }
  }

  /** The folder after a sequence of saves: each save writes (or overwrites) one file. */
  function Saved(files: map<string, Image>, saves: seq<Save>): map<string, Image>
    decreases |saves|
  {
    if |saves| == 0 then files
    else Saved(files, saves[..|saves| - 1])[saves[|saves| - 1].path := saves[|saves| - 1].image]
  }

  /** After the saves every saved path is a file, and every file was there before or was saved. */
  lemma {:induction false} SavedPaths(files: map<string, Image>, saves: seq<Save>)
    ensures forall k :: 0 <= k < |saves| ==> saves[k].path in Saved(files, saves)
    ensures forall path :: path in Saved(files, saves) ==> path in files || exists k :: 0 <= k < |saves| && saves[k].path == path
    decreases |saves|
  {
    if |saves| > 0 {
      var init := saves[..|saves| - 1];
      SavedPaths(files, init);
      assert forall k :: 0 <= k < |init| ==> init[k] == saves[k];
    }
  }

  /** Why a run stopped early. */
  datatype ImageError = MissingLevel(level: nat)  // the raw folder has no dataset for the level

  /** The first level from `level` to maxlevel that the raw folder lacks, if any. */
  function FirstMissing(levels: map<nat, Tiles<real>>, level: nat, maxlevel: nat): (r: Option<nat>)
    ensures r.Some? ==> level <= r.value <= maxlevel && r.value !in levels
    decreases maxlevel + 1 - level
  {
    if level > maxlevel then None
    else if level !in levels then Some(level)
    else FirstMissing(levels, level + 1, maxlevel)
  }

  /** FirstMissing finds the first gap: every level before it is present, and without a gap all are. */
  lemma {:induction false} FirstMissingIsFirst(levels: map<nat, Tiles<real>>, level: nat, maxlevel: nat)
    ensures FirstMissing(levels, level, maxlevel).Some? ==>
              forall l :: level <= l < FirstMissing(levels, level, maxlevel).value ==> l in levels
    ensures FirstMissing(levels, level, maxlevel).None? ==> forall l :: level <= l <= maxlevel ==> l in levels
    decreases maxlevel + 1 - level
  {
    if level <= maxlevel && level in levels {
      FirstMissingIsFirst(levels, level + 1, maxlevel);
    }
  }

  /** The folder of image tiles. */
  class ImageFolder {
    /** The image saved under each path. */
    var files: map<string, Image>

    constructor ()
      ensures files == map[]
    {
      files := map[];
    }

    /** store_images over row i of a level: tiles [i, 0], ..., [i, |ty|-1] saved in that order. */
    method SaveRow(levels: map<nat, Tiles<real>>, target: string, colormap: real -> Rgba, level: nat, i: nat)
      requires forall l :: l in levels ==> WellFormed(levels[l])
      requires level in levels && i < |levels[level].tx|
      modifies this
      ensures files == Saved(old(files), Saves(levels, target, colormap, RowOrder(level, i, |levels[level].ty|)))
    {
      for j := 0 to |levels[level].ty|
        invariant files == Saved(old(files), Saves(levels, target, colormap, RowOrder(level, i, j)))
      {
        var r := TileRef(level, i, j);
        var s := TileSave(levels, target, colormap, r);
        SavesSnoc(levels, target, colormap, RowOrder(level, i, j), r);
        SavedSnoc(old(files), Saves(levels, target, colormap, RowOrder(level, i, j)), s);
        files := files[s.path := s.image];
      }
    }

    /** store_images over one level: every tile saved, row after row. */
    method SaveLevel(levels: map<nat, Tiles<real>>, target: string, colormap: real -> Rgba, level: nat)
      requires forall l :: l in levels ==> WellFormed(levels[l])
      requires level in levels
      modifies this
      ensures files == Saved(old(files), LevelSaves(levels, target, colormap, level, |levels[level].tx|))
    {
      var i := 0;
      while i < |levels[level].tx|
        invariant i <= |levels[level].tx|
        invariant files == Saved(old(files), LevelSaves(levels, target, colormap, level, i))
      {
        ghost var before := files;
        SaveRow(levels, target, colormap, level, i);
        LevelStep(levels, target, colormap, old(files), level, i, |levels[level].ty|, before, files);
        i := i + 1;
      }
    }

    /**
     * build_image_tiles: for each level 0..maxlevel open the raw level and
     * save every tile, coloured, under <target>/<level>/<tx>/<ty>.jpg; a
     * missing raw level stops the run.
     */
    method BuildImageTiles(raw: RawFolder, target: string, colormap: real -> Rgba, maxlevel: nat) returns (error: Option<ImageError>)
      requires forall l :: l in raw.levels ==> WellFormed(raw.levels[l])
      modifies this
      ensures files == Saved(old(files), Saves(raw.levels, target, colormap, RunOrder(raw.levels, 0, maxlevel)))
      ensures error == (match FirstMissing(raw.levels, 0, maxlevel) case None => None case Some(l) => Some(MissingLevel(l)))
    {
      for level := 0 to maxlevel + 1
        invariant Saved(files, Saves(raw.levels, target, colormap, RunOrder(raw.levels, level, maxlevel))) ==
                  Saved(old(files), Saves(raw.levels, target, colormap, RunOrder(raw.levels, 0, maxlevel)))
        invariant FirstMissing(raw.levels, 0, maxlevel) == FirstMissing(raw.levels, level, maxlevel)
      {
        if level !in raw.levels {
          RunEnds(raw.levels, target, colormap, files, level, maxlevel);
          return Some(MissingLevel(level));
        }
        RunStep(raw.levels, target, colormap, files, level, maxlevel);
        SaveLevel(raw.levels, target, colormap, level);
      }
      RunEnds(raw.levels, target, colormap, files, maxlevel + 1, maxlevel);
      return None;
    }
  }

  /** Row i of a level: its tiles follow those of the rows before it, and saving them continues from the folder those left. */
  lemma LevelStep(levels: map<nat, Tiles<real>>, target: string, colormap: real -> Rgba, files: map<string, Image>, level: nat, i: nat, ny: nat,
                  before: map<string, Image>, after: map<string, Image>)
    requires forall l :: l in levels ==> WellFormed(levels[l])
    requires level in levels && i < |levels[level].tx| && ny == |levels[level].ty|
    requires before == Saved(files, LevelSaves(levels, target, colormap, level, i))
    requires after == Saved(before, Saves(levels, target, colormap, RowOrder(level, i, ny)))
    ensures after == Saved(files, LevelSaves(levels, target, colormap, level, i + 1))
  {
    var done, row := LevelOrder(level, i, ny), RowOrder(level, i, ny);
    SavesAppend(levels, target, colormap, done, row);
    SavedAppend(files, Saves(levels, target, colormap, done), Saves(levels, target, colormap, row));
  }

  /** The run stops past maxlevel and at a level the raw folder lacks, saving nothing more. */
  lemma RunEnds(levels: map<nat, Tiles<real>>, target: string, colormap: real -> Rgba, files: map<string, Image>, level: nat, maxlevel: nat)
    requires forall l :: l in levels ==> WellFormed(levels[l])
    requires level > maxlevel || level !in levels
    ensures Saved(files, Saves(levels, target, colormap, RunOrder(levels, level, maxlevel))) == files
    ensures FirstMissing(levels, level, maxlevel) == if level > maxlevel then None else Some(level)
  {
    assert RunOrder(levels, level, maxlevel) == [];
  }

  /** One level of the run: its tiles are saved first, then those of the levels after it. */
  lemma RunStep(levels: map<nat, Tiles<real>>, target: string, colormap: real -> Rgba, files: map<string, Image>, level: nat, maxlevel: nat)
    requires forall l :: l in levels ==> WellFormed(levels[l])
    requires level <= maxlevel && level in levels
    ensures var here := LevelOrder(level, |levels[level].tx|, |levels[level].ty|);
            forall k :: 0 <= k < |here| ==> Refers(levels, here[k])
    ensures var here := LevelOrder(level, |levels[level].tx|, |levels[level].ty|);
            Saved(files, Saves(levels, target, colormap, RunOrder(levels, level, maxlevel))) ==
            Saved(Saved(files, Saves(levels, target, colormap, here)), Saves(levels, target, colormap, RunOrder(levels, level + 1, maxlevel)))
    ensures FirstMissing(levels, level, maxlevel) == FirstMissing(levels, level + 1, maxlevel)
  {
    var t := levels[level];
    var here, rest := LevelOrder(level, |t.tx|, |t.ty|), RunOrder(levels, level + 1, maxlevel);
    assert RunOrder(levels, level, maxlevel) == here + rest;
    SavesAppend(levels, target, colormap, here, rest);
    SavedAppend(files, Saves(levels, target, colormap, here), Saves(levels, target, colormap, rest));
  }

  /** One more save writes one more file on top of the earlier ones. */
  lemma SavedSnoc(files: map<string, Image>, saves: seq<Save>, s: Save)
    ensures Saved(files, saves + [s]) == Saved(files, saves)[s.path := s.image]
  {
    assert (saves + [s])[..|saves|] == saves;
  }

  /** Saving a then b is saving a + b. */
  lemma {:induction false} SavedAppend(files: map<string, Image>, a: seq<Save>, b: seq<Save>)
    ensures Saved(files, a + b) == Saved(Saved(files, a), b)
    decreases |b|
  {
    if |b| == 0 {
      assert a + b == a;
    } else {
      SavedAppend(files, a, b[..|b| - 1]);
      assert (a + b)[..|a + b| - 1] == a + b[..|b| - 1];
      assert (a + b)[|a + b| - 1] == b[|b| - 1];
    }
  }

  /** When some save writes v to p and every save to p writes v, the folder ends with v at p. */
  lemma {:induction false} SavedAgreeing(files: map<string, Image>, saves: seq<Save>, p: string, v: Image)
    requires Save(p, v) in saves
    requires forall k :: 0 <= k < |saves| && saves[k].path == p ==> saves[k].image == v
    ensures p in Saved(files, saves) && Saved(files, saves)[p] == v
    decreases |saves|
  {
    var last := saves[|saves| - 1];
    var prefix := saves[..|saves| - 1];
    assert saves == prefix + [last];
    if last.path != p {
      assert Save(p, v) in prefix;
      SavedAgreeing(files, prefix, p, v);
    }
  }

  /** A file no save touches keeps its content. */
  lemma {:induction false} SavedUntouched(files: map<string, Image>, saves: seq<Save>, p: string)
    requires forall k :: 0 <= k < |saves| ==> saves[k].path != p
    ensures p in Saved(files, saves) <==> p in files
    ensures p in files ==> Saved(files, saves)[p] == files[p]
    decreases |saves|
  {
    if |saves| > 0 {
      SavedUntouched(files, saves[..|saves| - 1], p);
    }
  }

  /** No coordinate value repeats. */
  predicate Distinct(coords: seq<nat>)
  {
    forall p, q :: 0 <= p < q < |coords| ==> coords[p] != coords[q]
  }

  /** With repeat-free coordinates at its level, no other tile is saved to the file of tile r. */
  lemma SamePathSameTile(levels: map<nat, Tiles<real>>, target: string, colormap: real -> Rgba, r: TileRef, r2: TileRef)
    requires forall l :: l in levels ==> WellFormed(levels[l])
    requires Refers(levels, r) && Refers(levels, r2)
    requires Distinct(levels[r.level].tx) && Distinct(levels[r.level].ty)
    requires TileSave(levels, target, colormap, r2).path == TileSave(levels, target, colormap, r).path
    ensures r2 == r
  {
    var t, t2 := levels[r.level], levels[r2.level];
    TilePathInjective(target, r.level, t.tx[r.i], t.ty[r.j], r2.level, t2.tx[r2.i], t2.ty[r2.j]);
  }

  /** With the levels 0..l present and repeat-free coordinates at level l, the file of tile (l, i, j) ends holding that tile's image. */
  lemma BuiltTileImage(files: map<string, Image>, levels: map<nat, Tiles<real>>, target: string, colormap: real -> Rgba, maxlevel: nat, r: TileRef)
    requires forall l :: l in levels ==> WellFormed(levels[l])
    requires Refers(levels, r) && r.level <= maxlevel && Present(levels, 0, r.level)
    requires Distinct(levels[r.level].tx) && Distinct(levels[r.level].ty)
    ensures var after, s := Saved(files, Saves(levels, target, colormap, RunOrder(levels, 0, maxlevel))), TileSave(levels, target, colormap, r);
            s.path in after && after[s.path] == s.image
  {
    var order := RunOrder(levels, 0, maxlevel);
    var saves := Saves(levels, target, colormap, order);
    var s := TileSave(levels, target, colormap, r);
    TileInRunOrder(levels, 0, maxlevel, r);
    var k0 :| 0 <= k0 < |order| && order[k0] == r;
    forall k | 0 <= k < |saves| && saves[k].path == s.path
      ensures saves[k].image == s.image
    {
      SamePathSameTile(levels, target, colormap, r, order[k]);
    }
    SavedAgreeing(files, saves, s.path, s.image);
  }

  /** A run leaves every file that is not a tile path under the target folder as it was. */
  lemma BuiltOtherFiles(files: map<string, Image>, levels: map<nat, Tiles<real>>, target: string, colormap: real -> Rgba, maxlevel: nat, p: string)
    requires forall l :: l in levels ==> WellFormed(levels[l])
    requires forall l: nat, x: nat, y: nat :: p != TilePath(target, l, x, y)
    ensures var after := Saved(files, Saves(levels, target, colormap, RunOrder(levels, 0, maxlevel)));
            (p in after <==> p in files) && (p in files ==> after[p] == files[p])
  {
    var order := RunOrder(levels, 0, maxlevel);
    var saves := Saves(levels, target, colormap, order);
    forall k | 0 <= k < |saves| ensures saves[k].path != p {
      var r := order[k];
      var t := levels[r.level];
      assert saves[k].path == TilePath(target, r.level, t.tx[r.i], t.ty[r.j]);
    }
    SavedUntouched(files, saves, p);
  }
}
