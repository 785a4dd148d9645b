/**
 * load_ddh in IFS/ddh_funcs.py: the records of a DDH station file are
 * placed on a (time, level) grid, one grid per variable of the file's
 * kind, with the header supplying the station coordinates and the
 * experiment attributes.
 *
 * Times are seconds since 1970-01-01T00:00:00 as reals; a NaN cell of the
 * grid is None.
 */
module DdhLoad {
  import opened Wrappers
  import opened DdhHeader

  // ---------------------------------------------------------------------
  // VARDEFS
  // ---------------------------------------------------------------------

  /** One entry of VARDEFS: the column read, the variable name it becomes, its units attribute if it has one. */
  datatype VarDef = VarDef(column: string, name: string, units: Option<string>)

  /** VARDEFS["atmflx"]. */
  const Atmflx: seq<VarDef> := [
    VarDef("T  FSWR", "SW", Some("W/m2")),
    VarDef("T  FLWR", "LW", Some("W/m2")),
    VarDef("T  FVDF", "T_vrt.dff", Some("W/m2")),
    VarDef("Q  FVDF", "Q_vrt.diff", Some("mm/D")),
    VarDef("Q  FCVR", "Cnv_rain", Some("mm/D")),
    VarDef("Q  FCVN", "Cnv_snow", Some("mm/D")),
    VarDef("Q  FLSR", "LS_rain", Some("mm/D")),
    VarDef("Q  FLSN", "LS_snow", Some("mm/D")),
    VarDef("U  FVDF", "Uflxvrt.dff", Some("Pa")),
    VarDef("V  FVDF", "Vflxvrt.dff", Some("Pa"))]

  /** VARDEFS["atmvar"]. */
  const Atmvar: seq<VarDef> := [
    VarDef("P  HIST", "pressure", Some("hPa")),
    VarDef("U  HIST", "x-wind", Some("m/s")),
    VarDef("V  HIST", "y-wind", Some("m/s")),
    VarDef("T  HIST", "temp", Some("degC")),
    VarDef("Q  HIST", "sp.humidity", Some("g/kg")),
    VarDef("L  HIST", "c.liq", Some("g/kg")),
    VarDef("I  HIST", "c.ice", Some("g/kg")),
    VarDef("A  HIST", "c.frac", Some("%")),
    VarDef("N  HIST", "rain", Some("g/kg")),
    VarDef("O  HIST", "snow", Some("g/kg")),
    VarDef("R  HIST", "RH", Some("%")),
    VarDef("W  HIST", "vert.vel", Some("Pa/s"))]

  /** VARDEFS["sfcflx"]. */
  const Sfcflx: seq<VarDef> := [
    VarDef("SFSSLHF", "sfsslhf", Some("W/m2")),
    VarDef("SFSFDIR", "sfsfdir", Some("W/m2")),
    VarDef("SFSSSHF", "sfsshf", Some("W/m2")),
    VarDef("SFSSW", "sfssw", Some("W/m2")),
    VarDef("SFSLW", "sfslw", Some("W/m2")),
    VarDef("SFSSWC", "clrskySW", Some("W/m2")),
    VarDef("SFSLWC", "clrskyLW", Some("W/m2")),
    VarDef("SFSLSR", "LSrainfall", Some("kg/m2")),
    VarDef("SFSCR", "Conv.rainfall", Some("kg/m2")),
    VarDef("SFSLSF", "LSsnowfall", Some("kg/m2")),
    VarDef("SFSCF", "Conv.snowfall", Some("kg/m2")),
    VarDef("SFSTCC", "tot.cldcvr", None),
    VarDef("SFSLSPF", "LS prec.frac", Some("1")),
    VarDef("SFSSWDO", "Dwnwrd SW", Some("W/m2")),
    VarDef("SFSLWDO", "Dwnwrd LW", Some("W/m2")),
    VarDef("SFSZ", "orogr", Some("m2/s2")),
    VarDef("SFSLF", "Land frac", None),
    VarDef("S  HIST", "s hist", None)]

  /** VARDEFS["sfcpres"]. */
  const Sfcpres: seq<VarDef> := [
    VarDef("S  HIST", "SP", Some("Pa"))]

  /** VARDEFS["sfcvar"]. */
  const Sfcvar: seq<VarDef> := [
    VarDef("SFST2M", "2mtemp", Some("C")),
    VarDef("SFSQ2M", "2mspechum", Some("g/kg")),
    VarDef("SFS10U", "10U", Some("m/s")),
    VarDef("SFS10V", "10V", Some("m/s")),
    VarDef("SFSZ0M", "Sfc.rough", Some("m")),
    VarDef("SFSZ0H", "sfc.rough.heat", Some("m")),
    VarDef("SFSAL", "albedo", Some("%")),
    VarDef("SFSBLH", "BLH", Some("m")),
    VarDef("SFSTSK", "Tskin", Some("degC"))]

  /** VARDEFS[kind], entries in declaration order; None for a kind VARDEFS does not have. */
  function VarDefs(kind: string): (defs: Option<seq<VarDef>>)
    ensures defs.Some? <==> kind in {"atmflx", "atmvar", "sfcflx", "sfcpres", "sfcvar"}
  {
    if kind == "atmflx" then Some(Atmflx)
    else if kind == "atmvar" then Some(Atmvar)
    else if kind == "sfcflx" then Some(Sfcflx)
    else if kind == "sfcpres" then Some(Sfcpres)
    else if kind == "sfcvar" then Some(Sfcvar)
    else None
  }

  /** The columns of an entry list, in order. */
  function Columns(defs: seq<VarDef>): (cs: seq<string>)
    ensures |cs| == |defs| && forall p :: 0 <= p < |defs| ==> cs[p] == defs[p].column
  {
    seq(|defs|, p requires 0 <= p < |defs| => defs[p].column)
  }

  /** No two entries produce the same variable name. */
  predicate NamesDistinct(defs: seq<VarDef>)
  {
    forall p, q :: 0 <= p < q < |defs| ==> defs[p].name != defs[q].name
  }

  /** The names of the entries lo .. hi-1 differ from the names of every later entry. */
  predicate NamesDistinctFrom(defs: seq<VarDef>, lo: nat, hi: nat)
  {
    forall p, q :: lo <= p < hi && p < q < |defs| ==> defs[p].name != defs[q].name
  }

  /** Within each kind no two entries become the same variable, so the dataset has one variable per entry. */
  lemma VarDefsNamesDistinct(kind: string)
    ensures VarDefs(kind).Some? ==> NamesDistinct(VarDefs(kind).value)
  {
    AtmflxNamesDistinct();
    AtmvarNamesDistinct();
    SfcflxNamesDistinct();
    SfcvarNamesDistinct();
  }

  /** The atmflx names differ, proved a few entries at a time. */
  lemma AtmflxNamesDistinct()
    ensures NamesDistinct(Atmflx)
  {
    AtmflxNames0();
    AtmflxNames1();
    AtmflxNames2();
    AtmflxNames3();
  }

  lemma AtmflxNames0()
    ensures NamesDistinctFrom(Atmflx, 0, 3)
  {
  }

  lemma AtmflxNames1()
    ensures NamesDistinctFrom(Atmflx, 3, 6)
  {
  }

  lemma AtmflxNames2()
    ensures NamesDistinctFrom(Atmflx, 6, 9)
  {
  }

  lemma AtmflxNames3()
    ensures NamesDistinctFrom(Atmflx, 9, 10)
  {
  }

  /** The atmvar names differ, proved a few entries at a time. */
  lemma AtmvarNamesDistinct()
    ensures NamesDistinct(Atmvar)
  {
    AtmvarNames0();
    AtmvarNames1();
    AtmvarNames2();
    AtmvarNames3();
  }

  lemma AtmvarNames0()
    ensures NamesDistinctFrom(Atmvar, 0, 3)
  {
  }

  lemma AtmvarNames1()
    ensures NamesDistinctFrom(Atmvar, 3, 6)
  {
  }

  lemma AtmvarNames2()
    ensures NamesDistinctFrom(Atmvar, 6, 9)
  {
  }

  lemma AtmvarNames3()
    ensures NamesDistinctFrom(Atmvar, 9, 12)
  {
  }

  /** The sfcflx names differ, proved a few entries at a time. */
  lemma SfcflxNamesDistinct()
    ensures NamesDistinct(Sfcflx)
  {
    SfcflxNames0();
    SfcflxNames1();
    SfcflxNames2();
    SfcflxNames3();
    SfcflxNames4();
    SfcflxNames5();
  }

  lemma SfcflxNames0()
    ensures NamesDistinctFrom(Sfcflx, 0, 3)
  {
  }

  lemma SfcflxNames1()
    ensures NamesDistinctFrom(Sfcflx, 3, 6)
  {
  }

  lemma SfcflxNames2()
    ensures NamesDistinctFrom(Sfcflx, 6, 9)
  {
  }

  lemma SfcflxNames3()
    ensures NamesDistinctFrom(Sfcflx, 9, 12)
  {
  }

  lemma SfcflxNames4()
    ensures NamesDistinctFrom(Sfcflx, 12, 15)
  {
  }

  lemma SfcflxNames5()
    ensures NamesDistinctFrom(Sfcflx, 15, 18)
  {
  }

  lemma SfcvarNamesDistinct()
    ensures NamesDistinct(Sfcvar)
  {
  }

  // ---------------------------------------------------------------------
  // The records table
  // ---------------------------------------------------------------------

  /**
   * The fixed-width table below the header, one record per row: its date
   * vdat (seconds), its hour vtim, its level lev, and the remaining
   * columns by name.
   */
  datatype Table = Table(vdat: seq<real>, vtim: seq<real>, lev: seq<real>, columns: map<string, seq<real>>)

  /** Every column of the table has one entry per record. */
  predicate TableWF(t: Table)
  {
    && |t.vtim| == |t.vdat|
    && |t.lev| == |t.vdat|
    && forall c :: c in t.columns ==> |t.columns[c]| == |t.vdat|
  }

  /** The valid time of record k: its date plus its hour. */
  function RecordTime(t: Table, k: nat): (time: real)
    requires TableWF(t) && k < |t.vdat|
    ensures 0.0 <= t.vtim[k] < 24.0 ==> t.vdat[k] <= time < t.vdat[k] + 86400.0
  {
    t.vdat[k] + t.vtim[k] * 3600.0
  }

  /** The valid times of all records, in record order. */
  function RecordTimes(t: Table): (ts: seq<real>)
    requires TableWF(t)
    ensures |ts| == |t.vdat| && forall k :: 0 <= k < |ts| ==> ts[k] == RecordTime(t, k)
  {
    seq(|t.vdat|, k requires 0 <= k < |t.vdat| => RecordTime(t, k))
  }

  // ---------------------------------------------------------------------
  // np.unique with return_inverse
  // ---------------------------------------------------------------------

  /** Strictly increasing: sorted with no value twice. */
  predicate Increasing(u: seq<real>)
  {
    forall p, q :: 0 <= p < q < |u| ==> u[p] < u[q]
  }

  /** x put into its place in the increasing sequence u, unless it is there already. */
  function Insert(u: seq<real>, x: real): (r: seq<real>)
    requires Increasing(u)
    ensures Increasing(r)
    ensures forall y :: y in r <==> y in u || y == x
  {
    if |u| == 0 then [x]
    else if x < u[0] then [x] + u
    else if x == u[0] then u
    else
      var tail := Insert(u[1..], x);
      AboveHead(u, x, tail);
      [u[0]] + tail
  }

  /** Putting a value above the head of an increasing sequence into its tail keeps everything above the head. */
  lemma AboveHead(u: seq<real>, x: real, tail: seq<real>)
    requires Increasing(u) && |u| > 0 && u[0] < x
    requires Increasing(tail) && forall y :: y in tail <==> y in u[1..] || y == x
    ensures Increasing([u[0]] + tail)
  {
    forall y | y in tail ensures u[0] < y {
      if y != x {
        var k :| 0 <= k < |u[1..]| && u[1..][k] == y;
        assert u[k + 1] == y;
      }
    }
    var r := [u[0]] + tail;
    forall p, q | 0 <= p < q < |r| ensures r[p] < r[q] {
      assert r[q] == tail[q - 1] && tail[q - 1] in tail;
      if p > 0 {
        assert r[p] == tail[p - 1];
      }
    }
  }

  /** The distinct values of xs in increasing order (the first result of np.unique). */
  function SortedUnique(xs: seq<real>): (u: seq<real>)
    ensures Increasing(u)
    ensures forall y :: y in u <==> y in xs
  {
    if |xs| == 0 then [] else Insert(SortedUnique(xs[..|xs| - 1]), xs[|xs| - 1])
  }

  /** Two increasing sequences holding the same values are the same sequence: np.unique's result is determined. */
  lemma {:induction false} IncreasingListingUnique(a: seq<real>, b: seq<real>)
    requires Increasing(a) && Increasing(b)
    requires forall y :: y in a <==> y in b
    ensures a == b
    decreases |a|
  {
    if |a| > 0 {
      assert a[0] in a;
    }
    if |b| > 0 {
      assert b[0] in b;
    }
    if |a| > 0 && |b| > 0 {
      assert a[0] in b;
      assert b[0] in a;
      var p :| 0 <= p < |b| && b[p] == a[0];
      var q :| 0 <= q < |a| && a[q] == b[0];
      assert b[0] <= b[p] && a[0] <= a[q];
      assert a[0] == b[0];
      forall y ensures y in a[1..] <==> y in b[1..] {
        if y in a[1..] {
          var p :| 1 <= p < |a| && a[p] == y;
          assert a[0] < y && y in b;
        }
        if y in b[1..] {
          var p :| 1 <= p < |b| && b[p] == y;
          assert b[0] < y && y in a;
        }
      }
      IncreasingListingUnique(a[1..], b[1..]);
      assert a == [a[0]] + a[1..] && b == [b[0]] + b[1..];
    }
  }

  /** The index of x in u (an entry of np.unique's inverse). */
  function Rank(u: seq<real>, x: real): (r: nat)
    requires x in u
    ensures r < |u| && u[r] == x
  {
    if u[0] == x then 0 else 1 + Rank(u[1..], x)
  }

  /** In an increasing sequence the rank of u[k] is k: the inverse is the only index that finds the value. */
  lemma {:induction false} RankOfIndex(u: seq<real>, k: nat)
    requires Increasing(u) && k < |u|
    ensures Rank(u, u[k]) == k
  {
    var r := Rank(u, u[k]);
    assert u[r] == u[k];
  }

  /** The inverse of np.unique: the rank of each value of xs among the distinct values u. */
  function Ranks(u: seq<real>, xs: seq<real>): (rs: seq<nat>)
    requires forall k :: 0 <= k < |xs| ==> xs[k] in u
    ensures |rs| == |xs| && forall k :: 0 <= k < |xs| ==> rs[k] < |u| && u[rs[k]] == xs[k]
  {
    seq(|xs|, k requires 0 <= k < |xs| => Rank(u, xs[k]))
  }

  // ---------------------------------------------------------------------
  // reshape_var: scattering one column onto the (time, level) grid
  // ---------------------------------------------------------------------

  /** The cell (r, c) after the first n assignments out[tidx[k], lidx[k]] = values[k]: the last one that hit it, else NaN. */
  function Scattered(tidx: seq<nat>, lidx: seq<nat>, values: seq<real>, n: nat, r: nat, c: nat): (v: Option<real>)
    requires n <= |tidx| && n <= |lidx| && n <= |values|
    ensures v.None? <==> forall k :: 0 <= k < n ==> !(tidx[k] == r && lidx[k] == c)
    ensures v.Some? ==> exists k :: 0 <= k < n && tidx[k] == r && lidx[k] == c && values[k] == v.value
  {
    if n == 0 then None
    else if tidx[n - 1] == r && lidx[n - 1] == c then Some(values[n - 1])
    else Scattered(tidx, lidx, values, n - 1, r, c)
  }

  /** A record whose cell no later record hits leaves its value in that cell. */
  lemma {:induction false} ScatteredHit(tidx: seq<nat>, lidx: seq<nat>, values: seq<real>, n: nat, k: nat)
    requires n <= |tidx| && n <= |lidx| && n <= |values|
    requires k < n
    requires forall k2 :: k < k2 < n ==> !(tidx[k2] == tidx[k] && lidx[k2] == lidx[k])
    ensures Scattered(tidx, lidx, values, n, tidx[k], lidx[k]) == Some(values[k])
  {
    if k < n - 1 {
      ScatteredHit(tidx, lidx, values, n - 1, k);
    }
  }

  /** A cell stays NaN exactly when no record is assigned to it. */
  lemma {:induction false} ScatteredMissing(tidx: seq<nat>, lidx: seq<nat>, values: seq<real>, n: nat, r: nat, c: nat)
    requires n <= |tidx| && n <= |lidx| && n <= |values|
    ensures Scattered(tidx, lidx, values, n, r, c).None? <==> forall k :: 0 <= k < n ==> !(tidx[k] == r && lidx[k] == c)
  {
    if n > 0 {
      ScatteredMissing(tidx, lidx, values, n - 1, r, c);
    }
  }

  /** The reshaped variable as rows of cells: row r is time r, column c is level c. */
  function Grid(nt: nat, nl: nat, tidx: seq<nat>, lidx: seq<nat>, values: seq<real>): (g: seq<seq<Option<real>>>)
    requires |tidx| == |values| && |lidx| == |values|
    ensures |g| == nt && forall r :: 0 <= r < nt ==> |g[r]| == nl
  {
    seq(nt, r requires 0 <= r < nt =>
      seq(nl, c requires 0 <= c < nl => Scattered(tidx, lidx, values, |values|, r, c)))
  }

  /**
   * reshape_var: a fresh nt by nl array filled with NaN, then
   * out[tidx, lidx] = values, one assignment per record in record order.
   */
  method ReshapeVar(nt: nat, nl: nat, tidx: seq<nat>, lidx: seq<nat>, values: seq<real>) returns (out: array2<Option<real>>)
    requires |tidx| == |values| && |lidx| == |values|
    requires forall k :: 0 <= k < |values| ==> tidx[k] < nt && lidx[k] < nl
    ensures fresh(out) && out.Length0 == nt && out.Length1 == nl
    ensures forall r, c :: 0 <= r < nt && 0 <= c < nl ==> out[r, c] == Grid(nt, nl, tidx, lidx, values)[r][c]
  {
    out := new Option<real>[nt, nl]((r, c) => None);
    var k := 0;
    while k < |values|
      invariant 0 <= k <= |values|
      invariant forall r, c :: 0 <= r < nt && 0 <= c < nl ==> out[r, c] == Scattered(tidx, lidx, values, k, r, c)
    {
      out[tidx[k], lidx[k]] := Some(values[k]);
      k := k + 1;
    }
  }

  // ---------------------------------------------------------------------
  // round_to_the_minute
  // ---------------------------------------------------------------------

  /** 2020-01-01T00:00:00 in seconds since 1970-01-01T00:00:00, the reference round_to_the_minute counts minutes from. */
  const Reference: real := 1577836800.0

  /** np.round of a real: the nearest integer, ties going to the even one. */
  function RoundHalfEven(x: real): (n: int)
    ensures x - 0.5 <= n as real <= x + 0.5
    ensures (n as real == x - 0.5 || n as real == x + 0.5) ==> n % 2 == 0
  {
    var f := x.Floor;
    if x - f as real < 0.5 then f
    else if x - f as real > 0.5 then f + 1
    else if f % 2 == 0 then f
    else f + 1
  }

  /** Rounding to the nearest integer is monotone, ties included. */
  lemma RoundHalfEvenMonotone(a: real, b: real)
    requires a <= b
    ensures RoundHalfEven(a) <= RoundHalfEven(b)
  {
  }

  /** A time a whole number of minutes away from the reference. */
  predicate OnMinute(t: real)
  {
    ((t - Reference) / 60.0).Floor as real == (t - Reference) / 60.0
  }

  /** The time rounded to the nearest whole minute counted from the reference, ties to an even minute count. */
  function RoundToMinute(t: real): (r: real)
    ensures OnMinute(r)
    ensures t - 30.0 <= r <= t + 30.0
  {
    var m := RoundHalfEven((t - Reference) / 60.0);
    assert ((Reference + m as real * 60.0) - Reference) / 60.0 == m as real;
    Reference + m as real * 60.0
  }

  /** Rounding leaves a whole-minute time alone. */
  lemma RoundToMinuteIdempotent(t: real)
    requires OnMinute(t)
    ensures RoundToMinute(t) == t
  {
    var x := (t - Reference) / 60.0;
    assert x.Floor as real == x;
    assert RoundHalfEven(x) == x.Floor;
  }

  /** Rounding keeps the order of times (but may merge two times into one minute). */
  lemma RoundToMinuteMonotone(a: real, b: real)
    requires a <= b
    ensures RoundToMinute(a) <= RoundToMinute(b)
  {
    RoundHalfEvenMonotone((a - Reference) / 60.0, (b - Reference) / 60.0);
  }

  /** round_to_the_minute applied to each time. */
  function RoundTimes(ts: seq<real>): (rs: seq<real>)
    ensures |rs| == |ts| && forall k :: 0 <= k < |ts| ==> rs[k] == RoundToMinute(ts[k])
  {
    seq(|ts|, k requires 0 <= k < |ts| => RoundToMinute(ts[k]))
  }

  /** The rounded time axis is still sorted, though no longer necessarily free of repeats. */
  lemma RoundedTimesSorted(ts: seq<real>)
    requires Increasing(ts)
    ensures forall p, q :: 0 <= p < q < |ts| ==> RoundTimes(ts)[p] <= RoundTimes(ts)[q]
  {
    forall p, q | 0 <= p < q < |ts| ensures RoundTimes(ts)[p] <= RoundTimes(ts)[q] {
      RoundToMinuteMonotone(ts[p], ts[q]);
    }
  }

  // ---------------------------------------------------------------------
  // The dataset
  // ---------------------------------------------------------------------

  /** The dimensions of the dataset. */
  datatype Dim = TimeDim | LevelDim

  /** A data variable: its values on the (time, level) grid and its units attribute, if any. */
  datatype Variable = Variable(grid: seq<seq<Option<real>>>, units: Option<string>)

  /**
   * The dataset load_ddh returns: the dimensions that remain, the data
   * variables by name, the time coordinate (rounded), the level
   * coordinate unless it was dropped, the scalar coordinates station,
   * lat and lon, and the attributes exp, vp and ty.
   */
  datatype Dataset = Dataset(
    dims: seq<Dim>,
    vars: map<string, Variable>,
    time: seq<real>,
    level: Option<seq<real>>,
    station: int,
    lat: real,
    lon: real,
    attrs: map<string, HeaderValue>)

  /** Why load_ddh raises. */
  datatype LoadError =
    | Header(e: HeaderError)        // the header cannot be read or typed
    | UnknownKind(kind: string)     // KeyError on VARDEFS[kind]
    | MissingColumn(column: string) // KeyError on ds[oldname]
    | KeyNotFound(key: string)      // KeyError on header[k]

  /** The index of the first key that m lacks, or |keys| when it has them all. */
  function FirstAbsent<V>(keys: seq<string>, m: map<string, V>): (p: nat)
    ensures p <= |keys|
    ensures forall q :: 0 <= q < p ==> keys[q] in m
    ensures p < |keys| ==> keys[p] !in m
  {
    if |keys| == 0 then 0
    else if keys[0] !in m then 0
    else 1 + FirstAbsent(keys[1..], m)
  }

  /** The header keys copied into the dataset's attributes. */
  const AttrKeys: set<string> := {"exp", "vp", "ty"}

  /** The typed header holds an int at "i" and floats at "north" and "west". */
  predicate WellTyped(h: map<string, HeaderValue>)
  {
    && ("i" in h ==> h["i"].Int?)
    && ("north" in h ==> h["north"].Float?)
    && ("west" in h ==> h["west"].Float?)
  }

  /** The typed header has the types HEADER_TYPES names. */
  lemma ParsedHeaderWellTyped(lines: seq<string>)
    ensures ParseHeader(lines).Ok? ==> WellTyped(ParseHeader(lines).value)
  {
    if ParseHeader(lines).Ok? {
      var raw := RawHeader(lines).value;
      assert ParseHeader(lines) == TypedHeader(raw);
      assert HeaderTypes[2] == ("i", IntType) && HeaderTypes[4] == ("west", FloatType) && HeaderTypes[5] == ("north", FloatType);
      TypedHeaderKey(raw, 2);
      TypedHeaderKey(raw, 4);
      TypedHeaderKey(raw, 5);
    }
  }

  /** The data variables: the dictionary comprehension over the entries, a later entry replacing an earlier one of the same name. */
  function Variables(defs: seq<VarDef>, t: Table, nt: nat, nl: nat, tidx: seq<nat>, lidx: seq<nat>): (vs: map<string, Variable>)
    requires TableWF(t) && |tidx| == |t.vdat| && |lidx| == |t.vdat|
    requires forall p :: 0 <= p < |defs| ==> defs[p].column in t.columns
    ensures forall name :: name in vs <==> exists p :: 0 <= p < |defs| && defs[p].name == name
    decreases |defs|
  {
    if |defs| == 0 then map[]
    else
      var d := defs[|defs| - 1];
      var earlier := Variables(defs[..|defs| - 1], t, nt, nl, tidx, lidx);
      assert forall p :: 0 <= p < |defs| - 1 ==> defs[..|defs| - 1][p] == defs[p];
      earlier[d.name := Variable(Grid(nt, nl, tidx, lidx, t.columns[d.column]), d.units)]
  }

  /** With distinct names, each entry's variable is its own column reshaped, with its own units. */
  lemma {:induction false} VariablesHold(defs: seq<VarDef>, t: Table, nt: nat, nl: nat, tidx: seq<nat>, lidx: seq<nat>, p: nat)
    requires TableWF(t) && |tidx| == |t.vdat| && |lidx| == |t.vdat|
    requires forall q :: 0 <= q < |defs| ==> defs[q].column in t.columns
    requires NamesDistinct(defs) && p < |defs|
    ensures defs[p].name in Variables(defs, t, nt, nl, tidx, lidx)
    ensures Variables(defs, t, nt, nl, tidx, lidx)[defs[p].name] ==
            Variable(Grid(nt, nl, tidx, lidx, t.columns[defs[p].column]), defs[p].units)
    decreases |defs|
  {
    var init := defs[..|defs| - 1];
    if p < |defs| - 1 {
      assert init[p] == defs[p];
      assert NamesDistinct(init) by {
        forall a, b | 0 <= a < b < |init| ensures init[a].name != init[b].name {
          assert init[a] == defs[a] && init[b] == defs[b];
        }
      }
      VariablesHold(init, t, nt, nl, tidx, lidx, p);
      assert defs[p].name != defs[|defs| - 1].name;
    }
  }

  /**
   * After squeeze(): the level dimension goes when there is exactly one
   * level, and then the time dimension goes too if there is exactly one
   * time; with several levels nothing is squeezed.
   */
  function Squeezed(nt: nat, nl: nat): (dims: seq<Dim>)
    ensures LevelDim in dims <==> nl != 1
    ensures TimeDim in dims <==> !(nl == 1 && nt == 1)
    ensures |dims| <= 2 && (|dims| == 2 ==> dims == [TimeDim, LevelDim])
  {
    if nl != 1 then [TimeDim, LevelDim]
    else if nt != 1 then [TimeDim]
    else []
  }

  /** The distinct valid times of the table, ascending. */
  function Times(t: Table): (u: seq<real>)
    requires TableWF(t)
    ensures Increasing(u)
    ensures forall k :: 0 <= k < |t.vdat| ==> RecordTime(t, k) in u
    ensures forall y :: y in u ==> exists k :: 0 <= k < |t.vdat| && RecordTime(t, k) == y
  {
    var ts := RecordTimes(t);
    assert forall k :: 0 <= k < |t.vdat| ==> ts[k] == RecordTime(t, k);
    SortedUnique(RecordTimes(t))
  }

  /** The distinct levels of the table, ascending. */
  function Levels(t: Table): (u: seq<real>)
    ensures Increasing(u)
    ensures forall k :: 0 <= k < |t.lev| ==> t.lev[k] in u
    ensures forall y :: y in u ==> exists k :: 0 <= k < |t.lev| && t.lev[k] == y
  {
    SortedUnique(t.lev)
  }

  /** The row of each record: the rank of its time among the distinct times. */
  function TimeIndex(t: Table): (tidx: seq<nat>)
    requires TableWF(t)
    ensures |tidx| == |t.vdat|
  {
    var ts := RecordTimes(t);
    assert forall k :: 0 <= k < |ts| ==> ts[k] in Times(t);
    Ranks(Times(t), ts)
  }

  /** The column of each record: the rank of its level among the distinct levels. */
  function LevelIndex(t: Table): (lidx: seq<nat>)
    requires TableWF(t)
    ensures |lidx| == |t.vdat|
  {
    assert forall k :: 0 <= k < |t.lev| ==> t.lev[k] in Levels(t);
    Ranks(Levels(t), t.lev)
  }

  /** The header holds every key load_ddh reads. */
  predicate HasKeysRead(header: map<string, HeaderValue>)
  {
    "i" in header && "north" in header && "west" in header && "exp" in header && "vp" in header && "ty" in header
  }

  /** The first header key load_ddh looks up and does not find: i, north and west for the coordinates, then exp, vp and ty. */
  function MissingKey(header: map<string, HeaderValue>): (k: Option<string>)
    ensures k.None? <==> HasKeysRead(header)
    ensures k.Some? ==> k.value !in header && k.value in {"i", "north", "west", "exp", "vp", "ty"}
  {
    if "i" !in header then Some("i")
    else if "north" !in header then Some("north")
    else if "west" !in header then Some("west")
    else if "exp" !in header then Some("exp")
    else if "vp" !in header then Some("vp")
    else if "ty" !in header then Some("ty")
    else None
  }

  /** The table holds every column the entries read. */
  predicate HasColumns(defs: seq<VarDef>, t: Table)
  {
    forall p :: 0 <= p < |defs| ==> defs[p].column in t.columns
  }

  /**
   * The column the dict comprehension over the entries raises KeyError
   * on: the column of the first entry, in declaration order, that the
   * table lacks.
   */
  function FirstMissingColumn(defs: seq<VarDef>, t: Table): (c: string)
    requires !HasColumns(defs, t)
    ensures c !in t.columns
    ensures exists p :: 0 <= p < |defs| && defs[p].column == c && forall q :: 0 <= q < p ==> defs[q].column in t.columns
  {
    var p := FirstAbsent(Columns(defs), t.columns);
    assert p < |defs|;
    defs[p].column
  }

  /** The dataset load_ddh builds once every lookup has succeeded. */
  function Build(header: map<string, HeaderValue>, t: Table, defs: seq<VarDef>): (ds: Dataset)
    requires TableWF(t) && WellTyped(header) && HasKeysRead(header) && HasColumns(defs, t)
    ensures forall name :: name in ds.vars <==> exists p :: 0 <= p < |defs| && defs[p].name == name
    ensures |ds.time| == |Times(t)| && forall p, q :: 0 <= p < q < |ds.time| ==> ds.time[p] <= ds.time[q]
    ensures ds.level.None? <==> |Levels(t)| == 1
    ensures ds.attrs.Keys == AttrKeys
  {
    RoundedTimesSorted(Times(t));
    var times := Times(t);
    var levels := Levels(t);
    Dataset(
      Squeezed(|times|, |levels|),
      Variables(defs, t, |times|, |levels|, TimeIndex(t), LevelIndex(t)),
      RoundTimes(times),
      if |levels| == 1 then None else Some(levels),
      header["i"].i,
      header["north"].r,
      360.0 - header["west"].r,
      map k | k in AttrKeys :: header[k])
  }

  /**
   * The dataset built from a typed header and the records table; the
   * errors come in the order Python meets them: the kind, then each
   * column in VARDEFS order, then the header keys i, north, west, exp,
   * vp and ty.
   */
  function Assemble(header: map<string, HeaderValue>, t: Table, kind: string): (r: Result<Dataset, LoadError>)
    requires TableWF(t) && WellTyped(header)
    ensures VarDefs(kind).None? ==> r == Err(UnknownKind(kind))
    ensures r.Ok? <==> VarDefs(kind).Some? && HasColumns(VarDefs(kind).value, t) && HasKeysRead(header)
    ensures r.Err? && r.error.MissingColumn? ==> r.error.column !in t.columns
    ensures VarDefs(kind).Some? && !HasColumns(VarDefs(kind).value, t) ==>
              r == Err(MissingColumn(FirstMissingColumn(VarDefs(kind).value, t)))
    ensures r.Err? && r.error.KeyNotFound? ==> r.error.key !in header && HasColumns(VarDefs(kind).value, t)
    ensures r.Err? ==> !r.error.Header?
  {
    match VarDefs(kind)
    case None => Err(UnknownKind(kind))
    case Some(defs) =>
      if !HasColumns(defs, t) then Err(MissingColumn(FirstMissingColumn(defs, t)))
      else
        match MissingKey(header)
        case Some(k) => Err(KeyNotFound(k))
        case None => Ok(Build(header, t, defs))
  }

  /** load_ddh: the header lines first, then the records table of the given kind. */
  function LoadDdh(lines: seq<string>, t: Table, kind: string): (r: Result<Dataset, LoadError>)
    requires TableWF(t)
    ensures r.Err? && r.error.Header? <==> ParseHeader(lines).Err?
    ensures r.Ok? <==>
              ParseHeader(lines).Ok? && VarDefs(kind).Some? && HasColumns(VarDefs(kind).value, t) && HasKeysRead(ParseHeader(lines).value)
    ensures r.Err? && r.error.MissingColumn? ==> r.error.column !in t.columns
  {
    match ParseHeader(lines)
    case Err(e) => Err(Header(e))
    case Ok(header) =>
      ParsedHeaderWellTyped(lines);
      Assemble(header, t, kind)
  }

  /**
   * When load_ddh succeeds and why it fails: a header that cannot be read
   * or typed, a kind VARDEFS lacks, the first column of the kind the
   * table lacks, the first header key the header lacks, in that order;
   * otherwise it returns the dataset Build describes.
   */
  lemma LoadDdhOutcome(lines: seq<string>, t: Table, kind: string)
    requires TableWF(t)
    ensures ParseHeader(lines).Err? ==> LoadDdh(lines, t, kind) == Err(Header(ParseHeader(lines).error))
    ensures ParseHeader(lines).Ok? && VarDefs(kind).None? ==> LoadDdh(lines, t, kind) == Err(UnknownKind(kind))
    ensures ParseHeader(lines).Ok? && VarDefs(kind).Some? && !HasColumns(VarDefs(kind).value, t) ==>
              LoadDdh(lines, t, kind) == Err(MissingColumn(FirstMissingColumn(VarDefs(kind).value, t))) &&
              LoadDdh(lines, t, kind).error.column !in t.columns
    ensures ParseHeader(lines).Ok? && VarDefs(kind).Some? && HasColumns(VarDefs(kind).value, t) && !HasKeysRead(ParseHeader(lines).value) ==>
              LoadDdh(lines, t, kind) == Err(KeyNotFound(MissingKey(ParseHeader(lines).value).value)) &&
              LoadDdh(lines, t, kind).error.key !in ParseHeader(lines).value
    ensures ParseHeader(lines).Ok? ==> WellTyped(ParseHeader(lines).value)
    ensures LoadDdh(lines, t, kind).Ok? <==>
              ParseHeader(lines).Ok? && VarDefs(kind).Some? && HasColumns(VarDefs(kind).value, t) && HasKeysRead(ParseHeader(lines).value)
    ensures LoadDdh(lines, t, kind).Ok? ==>
              LoadDdh(lines, t, kind).value == Build(ParseHeader(lines).value, t, VarDefs(kind).value)
  {
    ParsedHeaderWellTyped(lines);
    var parsed := ParseHeader(lines);
    if parsed.Ok? {
      var header := parsed.value;
      assert LoadDdh(lines, t, kind) == Assemble(header, t, kind);
    }
  }

  /**
   * What the built dataset holds: one variable per entry, each on a grid
   * of one row per distinct time and one column per distinct level; the
   * time axis is the distinct times rounded to the minute; the level axis
   * goes exactly when there is one level; the station coordinates come
   * from the header, the longitude as 360 minus the west value; the
   * attributes are exactly exp, vp and ty.
   */
  lemma BuildShape(header: map<string, HeaderValue>, t: Table, defs: seq<VarDef>)
    requires TableWF(t) && WellTyped(header) && HasKeysRead(header) && HasColumns(defs, t)
    ensures var ds := Build(header, t, defs);
            && (forall name :: name in ds.vars <==> exists p :: 0 <= p < |defs| && defs[p].name == name)
            && (forall name :: name in ds.vars ==>
                  |ds.vars[name].grid| == |Times(t)| &&
                  forall r :: 0 <= r < |Times(t)| ==> |ds.vars[name].grid[r]| == |Levels(t)|)
            && ds.time == RoundTimes(Times(t))
            && (ds.level.None? <==> |Levels(t)| == 1)
            && (ds.level.Some? ==> ds.level.value == Levels(t))
            && ds.dims == Squeezed(|Times(t)|, |Levels(t)|)
  {
    var ds := Build(header, t, defs);
    forall name | name in ds.vars
      ensures |ds.vars[name].grid| == |Times(t)| && forall r :: 0 <= r < |Times(t)| ==> |ds.vars[name].grid[r]| == |Levels(t)|
    {
      VariablesShape(defs, t, |Times(t)|, |Levels(t)|, TimeIndex(t), LevelIndex(t), name);
    }
  }

  /** Every variable of the comprehension is an nt by nl grid. */
  lemma {:induction false} VariablesShape(defs: seq<VarDef>, t: Table, nt: nat, nl: nat, tidx: seq<nat>, lidx: seq<nat>, name: string)
    requires TableWF(t) && |tidx| == |t.vdat| && |lidx| == |t.vdat|
    requires HasColumns(defs, t)
    requires name in Variables(defs, t, nt, nl, tidx, lidx)
    ensures |Variables(defs, t, nt, nl, tidx, lidx)[name].grid| == nt
    ensures forall r :: 0 <= r < nt ==> |Variables(defs, t, nt, nl, tidx, lidx)[name].grid[r]| == nl
    decreases |defs|
  {
    var init := defs[..|defs| - 1];
    assert forall p :: 0 <= p < |init| ==> init[p] == defs[p];
    if name != defs[|defs| - 1].name {
      VariablesShape(init, t, nt, nl, tidx, lidx, name);
    }
  }

  /** The scalar coordinates of the built dataset: the station number, the latitude, and 360 minus the west value. */
  lemma BuildCoords(header: map<string, HeaderValue>, t: Table, defs: seq<VarDef>)
    requires TableWF(t) && WellTyped(header) && HasKeysRead(header) && HasColumns(defs, t)
    ensures var ds := Build(header, t, defs);
            && Int(ds.station) == header["i"]
            && Float(ds.lat) == header["north"]
            && Float(360.0 - ds.lon) == header["west"]
  {
  }

  /** The attributes of the built dataset are exactly exp, vp and ty, copied from the header. */
  lemma BuildAttrs(header: map<string, HeaderValue>, t: Table, defs: seq<VarDef>)
    requires TableWF(t) && WellTyped(header) && HasKeysRead(header) && HasColumns(defs, t)
    ensures var ds := Build(header, t, defs);
            && ds.attrs.Keys == AttrKeys
            && forall k :: k in AttrKeys ==> ds.attrs[k] == header[k]
  {
  }

  /** Each entry's variable is its own column reshaped onto the grid, with its own units. */
  lemma BuildVariable(header: map<string, HeaderValue>, t: Table, kind: string, p: nat)
    requires TableWF(t) && WellTyped(header) && HasKeysRead(header)
    requires VarDefs(kind).Some? && HasColumns(VarDefs(kind).value, t) && p < |VarDefs(kind).value|
    ensures var d := VarDefs(kind).value[p];
            var ds := Build(header, t, VarDefs(kind).value);
            && d.name in ds.vars
            && ds.vars[d.name].units == d.units
            && ds.vars[d.name].grid == Grid(|Times(t)|, |Levels(t)|, TimeIndex(t), LevelIndex(t), t.columns[d.column])
  {
    VarDefsNamesDistinct(kind);
    VariablesHold(VarDefs(kind).value, t, |Times(t)|, |Levels(t)|, TimeIndex(t), LevelIndex(t), p);
  }

  /**
   * A record lands in the row of its own time and the column of its own
   * level, and the reshaped grid keeps its value there unless a later
   * record has the same time and level.
   */
  lemma GridOfTable(t: Table, values: seq<real>, k: nat)
    requires TableWF(t) && |values| == |t.vdat| && k < |values|
    ensures Times(t)[TimeIndex(t)[k]] == RecordTime(t, k)
    ensures Levels(t)[LevelIndex(t)[k]] == t.lev[k]
    ensures (forall k2 :: k < k2 < |values| ==> !(RecordTime(t, k2) == RecordTime(t, k) && t.lev[k2] == t.lev[k])) ==>
              Grid(|Times(t)|, |Levels(t)|, TimeIndex(t), LevelIndex(t), values)[TimeIndex(t)[k]][LevelIndex(t)[k]] == Some(values[k])
  {
    var tidx, lidx := TimeIndex(t), LevelIndex(t);
    if forall k2 :: k < k2 < |values| ==> !(RecordTime(t, k2) == RecordTime(t, k) && t.lev[k2] == t.lev[k]) {
      forall k2 | k < k2 < |values| ensures !(tidx[k2] == tidx[k] && lidx[k2] == lidx[k]) {
        assert Times(t)[tidx[k2]] == RecordTime(t, k2) && Levels(t)[lidx[k2]] == t.lev[k2];
      }
      ScatteredHit(tidx, lidx, values, |values|, k);
    }
  }

  /** The cells of the reshaped grid that no record's time and level map to stay NaN, and only those. */
  lemma GridEmptyCells(t: Table, values: seq<real>, r: nat, c: nat)
    requires TableWF(t) && |values| == |t.vdat|
    requires r < |Times(t)| && c < |Levels(t)|
    ensures Grid(|Times(t)|, |Levels(t)|, TimeIndex(t), LevelIndex(t), values)[r][c].None? <==>
              forall k2 :: 0 <= k2 < |values| ==> !(RecordTime(t, k2) == Times(t)[r] && t.lev[k2] == Levels(t)[c])
  {
    var tidx, lidx := TimeIndex(t), LevelIndex(t);
    ScatteredMissing(tidx, lidx, values, |values|, r, c);
    forall k2 | 0 <= k2 < |values| ensures (tidx[k2] == r && lidx[k2] == c) <==> (RecordTime(t, k2) == Times(t)[r] && t.lev[k2] == Levels(t)[c]) {
      if RecordTime(t, k2) == Times(t)[r] && t.lev[k2] == Levels(t)[c] {
        RankOfIndex(Times(t), r);
        RankOfIndex(Levels(t), c);
      }
    }
  }
}
