# nextGEMS tiles, DDH station files and clear-sky skin-temperature composites

This project is a Dafny model of three pieces of the nextGEMS post-processing
scripts, together with proofs about them.

- **The ICON tiler** (`tiler/icon_tiler.py`).
  - A tile index maps every pixel of every map tile of a zoom level to the
    nearest mesh element. The nearest element is specified as an argmin of
    the distance over the mesh positions.
  - The raw tiles gather a variable through that index.
  - A quadtree reduction builds each coarser level. `sel_2nd` selects every
    other tile. `pyramid_step` glues four sibling tiles into a doubled block
    and averages its 2x2 pixel windows.
  - The raw levels are written from the finest level, log2 of the tile count,
    down to level 0.
  - Levels 0..maxlevel are saved as coloured images under
    `<target>/<level>/<tx>/<ty>.jpg`.
- **The DDH station-file loader** (`IFS/ddh_funcs.py`).
  - The two-line header becomes a typed key/value map following
    `HEADER_TYPES`.
  - The records are scattered onto a dense (time, level) grid. The axes are
    the sorted distinct times and levels, and empty cells are NaN.
  - Times are rounded to the minute.
  - One data variable is built per `VARDEFS[kind]` entry. The station
    coordinates and the attributes come from the header.
  - A single level is squeezed away.
- **The clear-sky diurnal composite of skin temperature**
  (`skt_diurnal/process_icon_skt.py` and `skt_diurnal/process_ifs_skt.py`).
  - The points inside a latitude/longitude box are selected.
  - The month length comes from the script's own date arithmetic.
  - For each hour processed, every day of the month is visited.
  - Each point counts the clear slots and sums their Celsius temperature.
    A slot is clear when `cllvi + clivi <= 0.005` (ICON) or `tcc <= 0.3` (IFS).
  - The hour's LST is the mean over the clear slots, or ZFILL = -999 when
    there were none. FVALID is the fraction of slots that were clear.

Modelling choices:

- Values are modelled as reals and integers, not floats.
- NaN is `None`.
- A Python exception is the `Err` or `None` branch of a result.
- Library calls whose code is not part of this model are parameters:
  - the pixel projection of `lltiler.render_tile`;
  - the colour map;
  - the pyramid step inside the store loop.

The model has one module per component:

| file | module |
|---|---|
| `wrappers.dfy` | `Option` and `Result` |
| `tiles.dfy` | the 4-D tile arrays and their coordinates |
| `decimals.dfy` | decimal numerals |
| `nearest.dfy` | the nearest-element query and `generate_index` |
| `pyramid.dfy` | `sel_2nd` and `pyramid_step` |
| `raw_store.dfy` | `build_raw_tiles` and `store_raw_tiles`, with the raw folder as a class |
| `image_tiles.dfy` | `build_image_tiles`, with the image folder as a class |
| `ddh_header.dfy` | the DDH header |
| `ddh_load.dfy` | the rest of `load_ddh` |
| `skt_composite.dfy` | the composite shared by both scripts |
| `icon_skt.dfy` | the ICON script |
| `ifs_skt.dfy` | the IFS script |

## Model

| member | source | states |
|---|---|---|
| Tiles.Range | tiler/icon_tiler.py:88-89 | `np.arange(n)`: n coordinates, the i-th being i |
| Tiles.NumTiles | tiler/icon_tiler.py:27 | at least one tile per axis at every level (2^level) |
| Tiles.Log2Floor | tiler/icon_tiler.py:70 | the k with 2^k <= n < 2^(k+1), which is `int(np.log2(n))` for n < 2^48 |
| Tiles.Log2OfPower | tiler/icon_tiler.py:70 | the starting level of a 2^L-tile axis is L |
| Decimals.Decimal | tiler/icon_tiler.py:103 | `str()` of a number: at least one digit, all digits, no leading zero |
| Decimals.DecimalRoundTrip | tiler/icon_tiler.py:103 | reading back the digits of n gives n |
| Decimals.DecimalInjective | tiler/icon_tiler.py:103 | distinct numbers have distinct names |
| NearestIndex.NearestAmong | tiler/icon_tiler.py:21-24 | the index is among the first k elements, no farther than any of them, and strictly nearer than every earlier one |
| NearestIndex.Nearest | tiler/icon_tiler.py:21-24 | for a non-empty mesh the answer is an element at minimal distance, the lowest such; an empty mesh answers N (= 0), the KD-tree's "no neighbour" |
| NearestIndex.NearestOfElement | tiler/icon_tiler.py:21-24 | querying an element's own position is answered at distance 0, by that element or an earlier one |
| NearestIndex.ToU4 | tiler/icon_tiler.py:27 | storing into the "u4" array keeps the tile's shape and every index below 2^32 unchanged |
| NearestIndex.TileIndexBuilder.Ll2Index | tiler/icon_tiler.py:21-24 | one answer per query position, each the index of a nearest mesh element |
| NearestIndex.TileIndexBuilder.RenderTile | tiler/icon_tiler.py:30 | a tilesize x tilesize tile whose pixel (py, px) holds a nearest element to that pixel's projected centre |
| NearestIndex.TileIndexBuilder.GenerateIndex | tiler/icon_tiler.py:26-40 | the (2^level, 2^level, S, S) array with arange coordinates and the tile_level/tilesize attributes; slot [i, j] holds exactly rendered tile (i, j) stored as u4; for a mesh of at most 2^32 elements every pixel holds a nearest element to its centre |
| Pyramid.StrideCount | tiler/icon_tiler.py:54 | `slice(start, None, 2)` keeps (n + 1 - start) / 2 positions, as many as the even positions exactly when start is 0 or n is even |
| Pyramid.EveryOther | tiler/icon_tiler.py:54 | the selected grid's tile [a, b] is tile [2a + ix, 2b + iy] |
| Pyramid.HalveCoords | tiler/icon_tiler.py:55 | `coords[::2] // 2`: one entry per even position, entry a being coords[2a] / 2 |
| Pyramid.SelSecond | tiler/icon_tiler.py:52-55 | succeeds exactly when the offset-1 axes have even length; then tile [a, b] is tile [2a + ix, 2b + iy], labelled tx[2a] // 2 and ty[2b] // 2, pixel axes unchanged |
| Pyramid.JoinColumns | tiler/icon_tiler.py:59-60 | concatenating along x continues each row of the first tile with the same row of the second |
| Pyramid.ConcatX | tiler/icon_tiler.py:59-60 | same tile grid and rows; the x coordinate is p.x followed by q.x; each tile joined column-wise |
| Pyramid.ConcatY | tiler/icon_tiler.py:59-61 | same tile grid and columns; the y coordinate is p.y followed by q.y; each tile's rows followed by the other's |
| Pyramid.Mean4 | tiler/icon_tiler.py:62-63 | the mean of a 2x2 window lies between its least and greatest pixel, and a uniform window keeps its value |
| Pyramid.CoarsenTile | tiler/icon_tiler.py:62-63 | a 2ny x 2nx tile becomes ny x nx, pixel (r, c) the mean of rows 2r..2r+1 and columns 2c..2c+1 |
| Pyramid.Coarsen | tiler/icon_tiler.py:62-63 | `coarsen(x=2, y=2).mean()` halves both pixel axes of every tile, each tile coarsened on its own |
| Pyramid.Block | tiler/icon_tiler.py:59-61 | the glued block B(a, b) is 2S x 2S |
| Pyramid.QuadMeans | tiler/icon_tiler.py:58-65 | the coarser payload has half the tiles per axis at the original size; tile [a, b] is the 2x2 mean of B(a, b) |
| Pyramid.PyramidStep | tiler/icon_tiler.py:58-65 | succeeds exactly when both tile axes have even length; then both tile axes are halved and the pixel axes keep their length and their original coordinates |
| Pyramid.PipelineBlock | tiler/icon_tiler.py:59-61 | the glue of the four selections has the halved tile coordinates and doubled pixel axes |
| Pyramid.PipelineBlockTile | tiler/icon_tiler.py:59-61 | tile [a, b] of the glued selections is B(a, b) |
| Pyramid.PipelineMeans | tiler/icon_tiler.py:59-63 | coarsening the glued selections gives the block means |
| Pyramid.PipelineIsPyramidStep | tiler/icon_tiler.py:58-65 | the literal sel_2nd/concat/coarsen pipeline equals PyramidStep on every tile set |
| Pyramid.BlockPixel | tiler/icon_tiler.py:59-61 | pixel (r, c) of B(a, b) comes from tile 2a for c < S and 2a+1 otherwise, and from tile 2b for r < S and 2b+1 otherwise, at the offset position |
| Pyramid.PyramidStepWindow | tiler/icon_tiler.py:58-65 | output [a, b, y, x] is the mean of rows 2y..2y+1 and columns 2x..2x+1 of B(a, b) |
| Pyramid.WindowInOneTile | tiler/icon_tiler.py:59-63 | with an even tile size the four pixels of a window come from one finer tile |
| Pyramid.PyramidStepPixel | tiler/icon_tiler.py:58-65 | with an even tile size output [a, b, y, x] is the mean of four neighbouring pixels of one finer tile, named explicitly |
| Pyramid.PyramidStepPixelBetween | tiler/icon_tiler.py:62-63 | every output pixel lies between the least and the greatest of the four pixels it averages |
| Pyramid.BlockBounded | tiler/icon_tiler.py:59-61 | the block keeps the bounds of the finer level |
| Pyramid.WindowBounded | tiler/icon_tiler.py:62-63 | a window mean keeps the bounds of the finer level |
| Pyramid.StepPixelBounded | tiler/icon_tiler.py:58-65 | each output pixel keeps the bounds of the finer level |
| Pyramid.PyramidStepBounded | tiler/icon_tiler.py:58-65 | a step keeps every value within bounds that held for the finer level |
| Pyramid.PyramidStepCoords | tiler/icon_tiler.py:55 | the coarser tiles are labelled tx[2a] // 2 and ty[2b] // 2 |
| Pyramid.PyramidStepRange | tiler/icon_tiler.py:55 | tile coordinates 0..n-1 (n even) become 0..n/2-1 |
| RawStore.StoreFrom | tiler/icon_tiler.py:72-78 | the level loop never changes a level already in the folder, writes only levels at or below the start, only appends to the write log, and can stop only on an existing level or an odd tile axis; an existing start level stops it before anything is written |
| RawStore.StoreRun | tiler/icon_tiler.py:68-78 | the run reports NoTiles exactly for an empty tx axis, keeps every level already stored, and writes no level above floor(log2 of the tx count) |
| RawStore.NextLevel | tiler/icon_tiler.py:77 | on a well-formed level the step is pyramid_step |
| RawStore.Countdown | tiler/icon_tiler.py:72-78 | the levels n, n-1, ..., 0: n + 1 entries, the k-th being n - k |
| RawStore.RawFolder.constructor | tiler/icon_tiler.py:68 | an empty folder with nothing written |
| RawStore.RawFolder.StoreLevels | tiler/icon_tiler.py:72-78 | the loop's final folder, write order and error equal the specification StoreFrom applied to the old folder |
| RawStore.RawFolder.StoreRawTiles | tiler/icon_tiler.py:68-78 | the loop runs from floor(log2(number of tiles along tx)) with pyramid_step; an empty tile axis is an error (log2 of 0) |
| RawStore.StoreFromStep | tiler/icon_tiler.py:76-78 | one turn on a new level with a successful step writes the level and continues one level down from the step's result |
| RawStore.HalvesStep | tiler/icon_tiler.py:77 | a 2^L x 2^L tile set steps to a 2^(L-1) x 2^(L-1) one |
| RawStore.PowerOfTwoStepsDown | tiler/icon_tiler.py:70-78 | pyramid_step succeeds all the way from a 2^L x 2^L tile set down to level 0 |
| RawStore.StoreFromWritesCountdown | tiler/icon_tiler.py:72-78 | when every step succeeds and no level is present yet, the loop ends without error, writing L, L-1, ..., 0 once each in that order |
| RawStore.StoreFromKeys | tiler/icon_tiler.py:72-78 | afterwards the folder holds its old levels unchanged plus levels 0..L, the finest being the input |
| RawStore.StoreFromChain | tiler/icon_tiler.py:75-77 | each level below L is the step of the level written just before it |
| RawStore.StoreRunPowerOfTwo | tiler/icon_tiler.py:68-78 | on a fresh folder and a 2^L x 2^L tile set store_raw_tiles succeeds and writes L..0 once each, in decreasing order; the finest level is the input, each coarser one the pyramid step of the one above; other levels are untouched |
| RawStore.ChainBounded | tiler/icon_tiler.py:77 | every stored level keeps the bounds of the finest one |
| RawStore.ChainRange | tiler/icon_tiler.py:77 | level l of the chain is 2^l x 2^l with tile coordinates 0..2^l-1 |
| RawStore.GatherTile | tiler/icon_tiler.py:84-85 | pixel (y, x) of a gathered tile is values[index[y][x]] |
| RawStore.Gather | tiler/icon_tiler.py:84-89 | fails exactly when some index is past the end of the variable; otherwise entry [tx, ty, y, x] is values[index[tx, ty, y, x]] and every dimension is labelled 0..size-1 |
| RawStore.GatherGeneratedIndex | tiler/icon_tiler.py:81-89 | the generated index of a non-empty mesh gathers without error, every raw pixel being the value of an element nearest to its centre |
| RawStore.BuildRawTiles | tiler/icon_tiler.py:81-92 | an index out of range fails and leaves the folder alone; otherwise the folder ends as store_raw_tiles of the gathered tiles |
| ImageTiles.JoinPathShape | tiler/icon_tiler.py:105 | joining a relative name gives a path that starts with the folder, ends with the name, and between them holds one separator when the folder is non-empty, adding at most one character |
| ImageTiles.LevelPrefixShape | tiler/icon_tiler.py:98 | the prefix is the target folder, a separator, the level's decimal digits and a closing separator |
| ImageTiles.TileNameShape | tiler/icon_tiler.py:103 | the name starts with a digit, holds tx's digits, a separator, ty's digits, and ends in `.jpg` |
| ImageTiles.TilePathJoin | tiler/icon_tiler.py:98-105 | `os.path.join` of the level folder and the tile name is plain concatenation: no separator is added or dropped |
| ImageTiles.JoinPathSeparator | tiler/icon_tiler.py:105 | `os.path.join` keeps an absolute name, returns the name for an empty folder, and otherwise puts exactly one separator between folder and name |
| ImageTiles.TilePathText | tiler/icon_tiler.py:98-105 | the file of tile (level, tx, ty) is `<target>/<level>/<tx>/<ty>.jpg` |
| ImageTiles.TilePathInjective | tiler/icon_tiler.py:98-105 | equal paths imply equal level, tx and ty |
| ImageTiles.RenderRowPixels | tiler/icon_tiler.py:104 | each pixel of an image row is the colour of the value in the same place, alpha dropped |
| ImageTiles.RenderImagePixels | tiler/icon_tiler.py:104 | the image has the tile's shape and every pixel is the colour of the tile value in the same place, alpha dropped |
| ImageTiles.Saves | tiler/icon_tiler.py:100-107 | one save per tile, in order, the k-th being the k-th tile's image at its path |
| ImageTiles.SavesSnoc | tiler/icon_tiler.py:101-107 | one more tile adds one save at the end |
| ImageTiles.SavesAppend | tiler/icon_tiler.py:101-107 | the saves of a + b are the saves of a followed by those of b |
| ImageTiles.RowOrder | tiler/icon_tiler.py:102 | the inner loop visits tiles [i, 0], ..., [i, n-1] in that order |
| ImageTiles.LevelOrder | tiler/icon_tiler.py:101-102 | the nested loops visit only tiles of the level inside its bounds |
| ImageTiles.TileInLevelOrder | tiler/icon_tiler.py:101-102 | the nested loops visit every tile of the level |
| ImageTiles.RunOrder | tiler/icon_tiler.py:97-112 | the run saves only tiles of levels up to maxlevel whose lower levels are all present |
| ImageTiles.TileInRunOrder | tiler/icon_tiler.py:97-112 | each tile of a level reached is saved |
| ImageTiles.RunOrderTiles | tiler/icon_tiler.py:97-112 | a tile is saved exactly when its level is at most maxlevel and every level up to it is present |
| ImageTiles.FirstMissing | tiler/icon_tiler.py:111 | a reported missing level lies in 0..maxlevel and is absent from the raw folder |
| ImageTiles.FirstMissingIsFirst | tiler/icon_tiler.py:97-111 | all levels before the reported one are present, and with none reported all levels 0..maxlevel are |
| ImageTiles.ImageFolder.constructor | tiler/icon_tiler.py:95 | an empty image folder |
| ImageTiles.ImageFolder.SaveRow | tiler/icon_tiler.py:102-107 | the folder afterwards is the old one with the saves of row i applied in order |
| ImageTiles.ImageFolder.SaveLevel | tiler/icon_tiler.py:101-107 | the folder afterwards is the old one with the saves of the whole level applied, row after row |
| ImageTiles.ImageFolder.BuildImageTiles | tiler/icon_tiler.py:95-113 | the folder afterwards is the old one with the saves of RunOrder applied; the error names the first missing level, if any |
| ImageTiles.SavedPaths | tiler/icon_tiler.py:107 | after the saves every saved path is a file, and every file was there before or was saved |
| ImageTiles.SavedSnoc | tiler/icon_tiler.py:107 | one more save writes one more file over the earlier ones |
| ImageTiles.SavedAppend | tiler/icon_tiler.py:107 | saving a then b is saving a + b |
| ImageTiles.SavedAgreeing | tiler/icon_tiler.py:107 | when every save to a path writes the same image, the folder ends with that image there |
| ImageTiles.SavedUntouched | tiler/icon_tiler.py:107 | a path no save touches keeps its content, or stays absent |
| ImageTiles.SamePathSameTile | tiler/icon_tiler.py:103-105 | with repeat-free coordinates no other tile is saved to a tile's file |
| ImageTiles.BuiltTileImage | tiler/icon_tiler.py:95-113 | after the run, the file of every tile reached holds that tile's coloured image |
| ImageTiles.BuiltOtherFiles | tiler/icon_tiler.py:95-113 | the run leaves every file that is not a tile path as it was |
| DdhHeader.Split | IFS/ddh_funcs.py:78 | `str.split()` yields non-empty tokens without separators |
| DdhHeader.SplitSpaced | IFS/ddh_funcs.py:78 | splitting tokens written out with blanks gives the tokens back |
| DdhHeader.SplitEmpty | IFS/ddh_funcs.py:78 | a line splits into nothing exactly when it holds only separators |
| DdhHeader.PairsLookup | IFS/ddh_funcs.py:78 | `dict` of pairs maps a key to the value of its last pairing |
| DdhHeader.ZipDict | IFS/ddh_funcs.py:78 | `dict(zip(keys, values))` has exactly the keys that have a value, each mapping to the value of its last pairing |
| DdhHeader.PairsAll | IFS/ddh_funcs.py:78 | the dict over the first n pairs holds exactly the first n keys, each with the value of its last pairing |
| DdhHeader.PairsKeys | IFS/ddh_funcs.py:78 | a key is in the dict exactly when it is among the paired keys |
| DdhHeader.RawHeader | IFS/ddh_funcs.py:77-78 | the raw header fails exactly for a single line holding tokens; with fewer than two lines it is empty, otherwise its keys are the tokens of the first line that have a partner in the second |
| DdhHeader.RawHeaderPairs | IFS/ddh_funcs.py:78 | token k of the first line is paired with token k of the second (the last pairing wins); lines after the second are ignored |
| DdhHeader.RawHeaderKeys | IFS/ddh_funcs.py:78 | the raw header's keys are exactly the first-line tokens that have a partner; surplus tokens of the longer line are dropped |
| DdhHeader.OneLineHeader | IFS/ddh_funcs.py:78 | a file of a single line is accepted only when that line holds no token, giving an empty header |
| DdhHeader.ParseInt | IFS/ddh_funcs.py:79 | `int()` accepts only an optional sign followed by at least one digit, gives a negative number only after '-', and reads plain digits as their decimal value |
| DdhHeader.ParseMantissa | IFS/ddh_funcs.py:79 | an accepted mantissa is non-empty and denotes a non-negative value |
| DdhHeader.Combine | IFS/ddh_funcs.py:79 | a float is formed exactly when mantissa and exponent both parsed, and is negative only with a '-' sign |
| DdhHeader.ParseFloat | IFS/ddh_funcs.py:79 | `float()` accepts no empty text and gives a negative value only after '-'; the value of text with a point or an exponent is stated by FloatOfDecimal, FloatOfScientific and FloatOfDigitsScientific |
| DdhHeader.DecimalNumber | IFS/ddh_funcs.py:79 | the number written d.f is non-negative |
| DdhHeader.MantissaOfDecimal | IFS/ddh_funcs.py:79 | digits, a point and digits read as the whole part plus the fraction |
| DdhHeader.FloatOfDecimal | IFS/ddh_funcs.py:79 | `float()` of `[-]d.f` is the number d.f, negated after '-' |
| DdhHeader.FloatOfScientific | IFS/ddh_funcs.py:79 | `float()` of `[-]d.fe<x>` is d.f times 10^x, negated after '-', for every integer exponent x |
| DdhHeader.FloatOfDigitsScientific | IFS/ddh_funcs.py:79 | `float()` of `[-]de<x>` is d times 10^x, negated after '-' |
| DdhHeader.ParseIntRoundTrip | IFS/ddh_funcs.py:79 | `int()` reads back what `str()` writes for every integer |
| DdhHeader.FractionValue | IFS/ddh_funcs.py:79 | the digits after a decimal point denote a value in [0, 1] |
| DdhHeader.FloatOfInt | IFS/ddh_funcs.py:79 | whatever `int()` reads, `float()` reads as the same number |
| DdhHeader.Convert | IFS/ddh_funcs.py:79 | str always succeeds; int and float succeed exactly when the text parses, giving the parsed value |
| DdhHeader.TableKeys | IFS/ddh_funcs.py:70 | the set of keys of a type table is exactly its listed keys |
| DdhHeader.TypeKeysSpec | IFS/ddh_funcs.py:79 | the typed header exists exactly when every present key converts; its keys are then the table keys present in the raw header, each holding its converted value; otherwise the error names the first failing key in table order |
| DdhHeader.TypeKeys | IFS/ddh_funcs.py:79 | the comprehension keeps only keys of the raw header and of the table; a failure names a present table key whose value does not convert |
| DdhHeader.TypedHeader | IFS/ddh_funcs.py:79 | the `HEADER_TYPES` comprehension succeeds exactly when every present key converts; its keys are then the `HEADER_TYPES` keys the raw header has; a failure names one of them |
| DdhHeader.ParseHeader | IFS/ddh_funcs.py:77-79 | the header fails with the dict() error exactly for a single line holding tokens; its keys are `HEADER_TYPES` keys; fewer than two lines give an empty header |
| DdhHeader.TypedHeaderKey | IFS/ddh_funcs.py:79 | a typed key came from the raw header and holds a value of its declared type, converted from the raw text |
| DdhHeader.HeaderTypesDistinct | IFS/ddh_funcs.py:70 | HEADER_TYPES names six distinct keys |
| DdhLoad.VarDefs | IFS/ddh_funcs.py:7-68 | the kind is known exactly when it is atmflx, atmvar, sfcflx, sfcpres or sfcvar |
| DdhLoad.Columns | IFS/ddh_funcs.py:94-96 | the columns read are the entries' columns, in order |
| DdhLoad.VarDefsNamesDistinct | IFS/ddh_funcs.py:7-68 | within each kind no two entries are renamed to the same variable |
| DdhLoad.RecordTime | IFS/ddh_funcs.py:83 | with the hour in [0, 24) the valid time lies within the record's day, from vdat up to vdat + 86400 s |
| DdhLoad.RecordTimes | IFS/ddh_funcs.py:82-84 | the time of record k is vdat + 3600 * vtim |
| DdhLoad.Insert | IFS/ddh_funcs.py:86-87 | inserting into a strictly increasing sequence keeps it strictly increasing and adds exactly the new value |
| DdhLoad.SortedUnique | IFS/ddh_funcs.py:86-87 | `np.unique`: strictly increasing, holding exactly the values of the input |
| DdhLoad.IncreasingListingUnique | IFS/ddh_funcs.py:86-87 | two strictly increasing sequences with the same values are equal, so the axis is determined |
| DdhLoad.Rank | IFS/ddh_funcs.py:86-87 | the inverse index finds the value |
| DdhLoad.RankOfIndex | IFS/ddh_funcs.py:86-87 | in a strictly increasing axis the rank of entry k is k |
| DdhLoad.Ranks | IFS/ddh_funcs.py:86-87 | `return_inverse`: for each record, an axis position holding its value |
| DdhLoad.Times | IFS/ddh_funcs.py:86 | the time axis is increasing and holds exactly the valid times of the records |
| DdhLoad.Levels | IFS/ddh_funcs.py:87 | the level axis is increasing and holds exactly the levels of the records |
| DdhLoad.ScatteredHit | IFS/ddh_funcs.py:89-91 | a record whose cell no later record hits leaves its value there |
| DdhLoad.Scattered | IFS/ddh_funcs.py:90-91 | a cell stays NaN exactly when no record maps to it; otherwise it holds the value of a record that maps to it |
| DdhLoad.ScatteredMissing | IFS/ddh_funcs.py:89-91 | a cell stays NaN exactly when no record is assigned to it |
| DdhLoad.Grid | IFS/ddh_funcs.py:89-92 | the reshaped variable is nt x nl |
| DdhLoad.ReshapeVar | IFS/ddh_funcs.py:89-92 | a fresh nt x nl array, NaN-filled then scattered record by record, equals the grid specification cell by cell |
| DdhLoad.RoundHalfEven | IFS/ddh_funcs.py:74 | `np.round`: within one half of the input, ties going to the even integer |
| DdhLoad.RoundHalfEvenMonotone | IFS/ddh_funcs.py:74 | rounding is monotone |
| DdhLoad.RoundToMinute | IFS/ddh_funcs.py:72-74 | the result is 2020-01-01 plus a whole number of minutes, within 30 seconds of the input |
| DdhLoad.RoundToMinuteIdempotent | IFS/ddh_funcs.py:72-74 | rounding a whole-minute time changes nothing, so rounding twice is rounding once |
| DdhLoad.RoundToMinuteMonotone | IFS/ddh_funcs.py:72-74 | rounding keeps the order of times |
| DdhLoad.RoundTimes | IFS/ddh_funcs.py:98 | the time coordinate is each distinct time rounded |
| DdhLoad.RoundedTimesSorted | IFS/ddh_funcs.py:98 | the rounded time axis is still sorted (but may repeat) |
| DdhLoad.FirstAbsent | IFS/ddh_funcs.py:94-96 | every column before the reported one is present and the reported one is absent |
| DdhLoad.FirstMissingColumn | IFS/ddh_funcs.py:94-96 | the KeyError names the column of an entry that the table lacks while every earlier entry's column is present |
| DdhLoad.ParsedHeaderWellTyped | IFS/ddh_funcs.py:79 | a parsed header holds an int at i and floats at north and west |
| DdhLoad.Variables | IFS/ddh_funcs.py:94-96 | the data variables are exactly the new names of the kind's entries |
| DdhLoad.VariablesHold | IFS/ddh_funcs.py:94-96 | with distinct names, each entry's variable is its own column reshaped, with its own units |
| DdhLoad.Squeezed | IFS/ddh_funcs.py:105-106 | the level dimension goes exactly when there is one level, and the time dimension also goes when there is then one time |
| DdhLoad.TimeIndex | IFS/ddh_funcs.py:86 | one row index per record |
| DdhLoad.LevelIndex | IFS/ddh_funcs.py:87 | one column index per record |
| DdhLoad.MissingKey | IFS/ddh_funcs.py:100-103 | no key is reported exactly when the header has i, north, west, exp, vp and ty; a reported key is one of them and absent |
| DdhLoad.Build | IFS/ddh_funcs.py:94-106 | one variable per entry name, a sorted time axis with one entry per distinct time, the level axis dropped exactly for one level, and the attributes exp, vp and ty |
| DdhLoad.Assemble | IFS/ddh_funcs.py:94-103 | an unknown kind fails first; a table lacking columns fails on the first missing column in `VARDEFS` order; success exactly when the kind is known, its columns are present and the header has every key read; a reported column or key is absent |
| DdhLoad.LoadDdh | IFS/ddh_funcs.py:76-108 | a header error exactly when the header cannot be read or typed; success exactly when the header parses, the kind is known, its columns exist and the header holds every key read; a reported column is absent |
| DdhLoad.LoadDdhOutcome | IFS/ddh_funcs.py:76-108 | load_ddh fails, in this order, on an unreadable or mistyped header, an unknown kind, the first missing column in `VARDEFS` order, or the first missing header key; it succeeds exactly otherwise, returning the dataset Build describes |
| DdhLoad.BuildShape | IFS/ddh_funcs.py:94-106 | one variable per entry name, each on distinct-times x distinct-levels; the time axis is the rounded distinct times; the level axis is dropped exactly when there is one level |
| DdhLoad.VariablesShape | IFS/ddh_funcs.py:94-96 | each variable is an nt x nl grid |
| DdhLoad.BuildCoords | IFS/ddh_funcs.py:100-102 | station = i, lat = north, lon = 360 - west |
| DdhLoad.BuildAttrs | IFS/ddh_funcs.py:103 | the attributes are exactly exp, vp and ty, copied from the header |
| DdhLoad.BuildVariable | IFS/ddh_funcs.py:94-96 | each entry's variable is its column reshaped onto the grid, with the entry's units |
| DdhLoad.GridOfTable | IFS/ddh_funcs.py:86-91 | record k goes to the row of its time and the column of its level; its value is there unless a later record has the same time and level |
| DdhLoad.GridEmptyCells | IFS/ddh_funcs.py:89-91 | a cell is NaN exactly when no record has that time and level |
| SktComposite.Celsius | skt_diurnal/process_icon_skt.py:170 | adding back 273.16 gives the kelvin value; the result is positive exactly above 273.16 K |
| SktComposite.InRegion | skt_diurnal/process_icon_skt.py:150-151 | a point is in the mask exactly when both its latitude and longitude are less than 81 in size |
| SktComposite.RegionIndices | skt_diurnal/process_icon_skt.py:150-153 | the kept points are exactly those with -81 < lat < 81 and -81 < lon < 81, in grid order |
| SktComposite.RegionSize | skt_diurnal/process_icon_skt.py:152 | npp, the mask's sum, is the number of points kept |
| SktComposite.CountInRegion | skt_diurnal/process_icon_skt.py:152 | npp is at most the number of points |
| SktComposite.CountInRegionExtremes | skt_diurnal/process_icon_skt.py:152 | npp is 0 exactly when no point is in the box, and the number of points exactly when every point is |
| SktComposite.Select | skt_diurnal/process_icon_skt.py:170-171 | `x[reg]` holds the values at the kept points, in order |
| SktComposite.MonthLength | skt_diurnal/process_icon_skt.py:156 | Gregorian month length: 31 exactly for months 1, 3, 5, 7, 8, 10 and 12; 29 exactly for February of a leap year |
| SktComposite.DaysInMonthAsWritten | skt_diurnal/process_icon_skt.py:156 | the script's ndays fails exactly for December of year 1 and is otherwise between 28 and 31 |
| SktComposite.DayBefore | skt_diurnal/process_icon_skt.py:156 | subtracting one day gives a valid date, and fails only before 0001-01-01 |
| SktComposite.DaysInMonthIsMonthLength | skt_diurnal/process_icon_skt.py:156 | `ndays` as computed is the month's length for every month, December included; only December of year 1 raises |
| SktComposite.HoursFrom | skt_diurnal/process_icon_skt.py:159 | `range(from, 24, step)` starts at `from`, stays strictly increasing within [from, 24), and ends at the last such hour before 24 |
| SktComposite.HoursFromStep | skt_diurnal/process_icon_skt.py:159 | `range(from, 24, step)` rises by step from each hour to the next |
| SktComposite.StepRemainderIsRemainder | skt_diurnal/process_icon_skt.py:159 | subtracting steps repeatedly gives the remainder |
| SktComposite.HoursFromSpec | skt_diurnal/process_icon_skt.py:159 | an hour is in `range(from, 24, step)` exactly when it lies in [from, 24) a whole number of steps from `from` |
| SktComposite.Hours | skt_diurnal/process_icon_skt.py:159 | `range(0, 24, step)` starts at 0, stays strictly increasing below 24, and stops at the last hour before 24 |
| SktComposite.HoursStep | skt_diurnal/process_icon_skt.py:159 | `range(0, 24, step)` rises by step from each hour to the next |
| SktComposite.HoursSpec | skt_diurnal/process_icon_skt.py:159 | an hour is processed exactly when it is a multiple of the step below 24 |
| SktComposite.SelectSlot | skt_diurnal/process_icon_skt.py:170-171 | a slot restricted to the region has npp values per field |
| SktComposite.ClearCount | skt_diurnal/process_icon_skt.py:165-175 | zVAL after n slots is at most n |
| SktComposite.ClearSum | skt_diurnal/process_icon_skt.py:176 | zAVG stays 0 when no slot is clear, and is non-negative when every clear temperature is at least 273.16 K |
| SktComposite.Average | skt_diurnal/process_icon_skt.py:179 | with a positive count the mean times the count is the sum; with none it is ZFILL |
| SktComposite.Fraction | skt_diurnal/process_icon_skt.py:180 | FVALID is 0 exactly with no clear slot, times nslotSTP it gives the count, and it lies in [0, 1] |
| SktComposite.AccumulateHour | skt_diurnal/process_icon_skt.py:159-180 | nslotSTP is the number of days; LST at each point is the clear-slot sum over the clear count, or ZFILL at a zero count; FVALID is the count over nslotSTP, or 0 |
| SktComposite.FractionInUnit | skt_diurnal/process_icon_skt.py:180 | FVALID lies in [0, 1], is 0 exactly at a zero count, and is 1 exactly when every slot was clear |
| SktComposite.NoClearSlot | skt_diurnal/process_icon_skt.py:174-179 | the count is 0 exactly when every slot was cloudy at the point, and the LST is then ZFILL |
| SktComposite.AllClearSlots | skt_diurnal/process_icon_skt.py:174-175 | the count equals the number of slots exactly when every slot was clear |
| SktComposite.CloudySlotsIgnored | skt_diurnal/process_icon_skt.py:174-176 | temperatures of cloudy slots never reach the count or the sum |
| SktComposite.ClearSumBetween | skt_diurnal/process_icon_skt.py:176 | the sum lies between count x least and count x greatest clear temperature |
| SktComposite.MeanBetween | skt_diurnal/process_icon_skt.py:179 | the LST of a point with a clear slot lies between its least and greatest clear temperature |
| SktComposite.AverageBetween | skt_diurnal/process_icon_skt.py:179 | a mean over a positive count of a sum between count times lo and count times hi lies between lo and hi |
| SktComposite.HourSlots | skt_diurnal/process_icon_skt.py:165-171 | one slot per day, each covering the region's points |
| SktComposite.DiurnalCycle | skt_diurnal/process_icon_skt.py:159-185 | one result per hour, in order, each with NSLOT = ndays and the mean and clear fraction of that hour's slots at every point |
| SktComposite.CompositeMonth | skt_diurnal/process_icon_skt.py:150-180 | fails only for December of year 1; otherwise npp is the region size, ndays the month length, and every hour's LST and FVALID are those of its slots at the kept points |
| IconSkt.Freq | skt_diurnal/process_icon_skt.py:119-121 | the hour step is positive (3 for ngc2012, otherwise 1) |
| IconSkt.IconHours | skt_diurnal/process_icon_skt.py:119-121 | ngc2012 processes exactly the hours divisible by 3; every other run processes all 24 hours |
| IconSkt.CloudWater | skt_diurnal/process_icon_skt.py:171 | the cloud measure tcw is cllvi + clivi pointwise, with ts as temperature |
| IconSkt.IconClear | skt_diurnal/process_icon_skt.py:174 | a point is clear exactly when cllvi + clivi <= 0.005 there |
| IconSkt.IconSlots | skt_diurnal/process_icon_skt.py:170-171 | every slot the month reads has tcw as its cloud measure |
| IconSkt.ProcessIcon | skt_diurnal/process_icon_skt.py:147-180 | fails only for December of year 1; otherwise npp is the region size, the hours are `range(0, 24, freq)`, NSLOT is the month length, and LST and FVALID are the clear-sky mean and fraction under tcw <= 0.005 |
| IfsSkt.WrapLon | skt_diurnal/process_ifs_skt.py:119 | longitudes above 180 lose one turn and the others stay; up to 540 the result is at most 180 |
| IfsSkt.WrapLonRange | skt_diurnal/process_ifs_skt.py:119 | a longitude in [0, 360) lands in (-180, 180] on the same meridian |
| IfsSkt.WrapLonIdempotent | skt_diurnal/process_ifs_skt.py:119 | wrapping twice is wrapping once, for longitudes up to 540 |
| IfsSkt.WrapLons | skt_diurnal/process_ifs_skt.py:119 | model_lon is every longitude wrapped |
| IfsSkt.IfsHours | skt_diurnal/process_ifs_skt.py:131 | `range(24)` is the hours 0..23 in order |
| IfsSkt.EveryHourFrom | skt_diurnal/process_ifs_skt.py:131 | `range(from, 24)` lists every hour from `from` to 23 |
| IfsSkt.IfsClear | skt_diurnal/process_ifs_skt.py:146 | a point is clear exactly when tcc <= 0.3 there |
| IfsSkt.ProcessIfs | skt_diurnal/process_ifs_skt.py:119-152 | fails only for December of year 1; otherwise npp is the size of the region under the wrapped longitudes, every hour 0..23 is processed with NSLOT the month length, and LST and FVALID are the clear-sky mean and fraction under tcc <= 0.3 |

## Left out

- `ll2xyz` (the latitude/longitude to Cartesian conversion) uses floating-point trigonometry. Mesh and pixel positions are given as points, and the nearest lookup is specified by squared distance.
- The KD-tree of scipy and its parallel `workers=-1` query are left out. Only their argmin contract is modelled: the lowest index among equally near elements is returned, which is one of the valid KD-tree answers.
- `lltiler` is not part of this model. Its `numTiles` is taken as 2^level, which agrees with the log2 in `store_raw_tiles`. `render_tile` is modelled as a per-pixel projection (a parameter) followed by the nearest lookup.
- The `element_type` naming and the long-name attribute of the index variable are text metadata and are not modelled.
- The storage, rendering and scheduling machinery is left out: zarr, dask `map_blocks`/chunking, PIL encoding, `norm`, `os.makedirs`, tqdm and printing.
  - A raw level is a map entry of `RawFolder`, and an image file is a map entry of `ImageFolder`.
  - The colour map (with `norm`) is a parameter.
  - `os.makedirs` creates no file, so it is omitted.
- The NaN-skipping of `coarsen().mean()` is left out: the pyramid is modelled over fully defined values.
- The attributes that `build_raw_tiles` copies with `assign_attrs` are not modelled.
- `pd.read_fwf`, date parsing and the `drop_vars` of bookkeeping columns are left out. The parsed table is an input, with its `vdat` in seconds.
- numpy's dtype handling is not modelled: variables are reals, and NaN is `None`.
- `int()` and `float()` accept a simplified grammar: a sign, decimal digits, and for floats a decimal point and an exponent. Underscores, surrounding Unicode whitespace, `inf` and `nan` are not modelled.
- DdhHeader.ParseFloat: the value is the exact decimal number the text denotes. Python rounds it to the nearest float64, and that rounding is not modelled.
- `str.split()` is modelled with the ASCII separators only: blank, the controls 9-13 (tab, line feed, vertical tab, form feed, carriage return) and 28-31 (the file, group, record and unit separators). Non-ASCII Unicode whitespace such as U+0085 or U+00A0 is kept inside tokens.
- The `units` attributes of the lat/lon coordinates are constant strings and are not modelled.
- The output of the skt scripts is left out: netCDF creation (`gen_output`), regridding by `inter2D` onto the regular grid, and the timing prints. `LST` and `FVALID` are compared on the region's points, before regridding.
- The skt inputs are left out: `sys.argv`, `strptime`, intake/zarr/gribscan loading, and selecting a slot by time. The month is a (year, month) pair, and the slots of each hour and day are inputs.
- The float32 accumulator `zAVG` and the int32 counter `zVAL` are modelled with exact real and natural arithmetic.
- The FESOM catalogue scripts are file-system scans with no logic of their own, so they are not modelled.
- Tiles.Log2Floor: it is exact floor(log2 n). `np.log2` rounds in double precision, so for very large tile counts (n = 2^49 - 1 is the first) `int(np.log2(n))` is one more than floor(log2 n). The model agrees with the source for n < 2^48 when the logarithm is correctly rounded, and for n < 2^46 even when it is one unit in the last place off. Both bounds are far beyond any tile count of a real pyramid.
- RawStore.BuildRawTiles: the index is taken as an in-memory array, so the gather happens at once and an out-of-range index fails before anything else. With a dask-backed index, such as one reopened from zarr, `xr.map_blocks` defers the gather into `to_zarr`. The IndexError then comes after the `np.log2` of the tile count, so an empty tx axis reports NoTiles first, and it comes after the finest level's store has been opened. This lazy order is not modelled.
- RawStore.StoreRunPowerOfTwo: success, write order and the step chain are proved for a 2^L x 2^L tile set on a folder without the levels 0..L. Every other input is covered only by RawFolder.StoreLevels, which equals the StoreFrom specification.
- ImageTiles.BuiltTileImage: it requires repeat-free tile coordinates at the tile's level. With repeated coordinates two tiles share a file and the later save wins, as Saved describes.
- Pyramid.PyramidStepPixel: it names a single finer tile only for an even tile size. For an odd size a window can straddle two tiles; PyramidStepWindow covers every size.
