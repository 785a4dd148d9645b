/**
 * skt_diurnal/process_ifs_skt.py: the composite for an IFS run. The
 * grid's longitudes are first brought into (-180, 180]; a slot is clear
 * at a point when its total cloud cover tcc is at most tcc_min; every
 * hour of the day is processed.
 */
module IfsSkt {
  import opened Wrappers
  import opened SktComposite

  /** tcc_min: the largest cloud cover of a clear slot. */
  const CloudCoverMax: real := 0.3

  /** np.where(lon > 180, lon - 360, lon) at one point: one turn back for longitudes east of 180. */
  function WrapLon(lon: real): (r: real)
    ensures lon <= 540.0 ==> r <= 180.0
    ensures r == lon || r == lon - 360.0
    ensures r == lon <==> lon <= 180.0
  {
    if lon > 180.0 then lon - 360.0 else lon
  }

  /** A longitude of [0, 360) lands in (-180, 180] on the same meridian. */
  lemma WrapLonRange(lon: real)
    requires 0.0 <= lon < 360.0
    ensures -180.0 < WrapLon(lon) <= 180.0
    ensures lon - WrapLon(lon) in {0.0, 360.0}
  {
  }

  /** Wrapping twice is wrapping once, for longitudes up to one and a half turns (beyond, one turn back is not enough). */
  lemma WrapLonIdempotent(lon: real)
    requires lon <= 540.0
    ensures WrapLon(WrapLon(lon)) == WrapLon(lon)
  {
  }

  /** model_lon: every longitude of the grid wrapped. */
  function WrapLons(lons: seq<real>): (r: seq<real>)
    ensures |r| == |lons| && forall k :: 0 <= k < |lons| ==> r[k] == WrapLon(lons[k])
  {
    seq(|lons|, k requires 0 <= k < |lons| => WrapLon(lons[k]))
  }

  /** range(24): every hour of the day, in order. */
  lemma IfsHours()
    ensures |Hours(1)| == 24 && forall h :: 0 <= h < 24 ==> Hours(1)[h] == h
  {
    EveryHourFrom(0);
  }

  /** range(from, 24, 1). */
  lemma EveryHourFrom(from: nat)
    requires from <= 24
    ensures |HoursFrom(from, 1)| == 24 - from
    ensures forall i :: 0 <= i < 24 - from ==> HoursFrom(from, 1)[i] == from + i
  {
    if from == 24 {
      HoursFromEnd(from, 1);
    } else {
      HoursFromStep(from, 1);
      var hs := HoursFrom(from, 1);
      Counting(hs, from);
    }
  }

  /** A sequence that starts at a, rises by one and ends at 23 is a, a + 1, …, 23. */
  lemma Counting(hs: seq<nat>, a: nat)
    requires |hs| > 0 && hs[0] == a && RisesBy(hs, 1)
    requires hs[|hs| - 1] < 24 <= hs[|hs| - 1] + 1
    ensures |hs| == 24 - a && forall i :: 0 <= i < |hs| ==> hs[i] == a + i
  {
    forall i | 0 <= i < |hs|
      ensures hs[i] == a + i
    {
      CountingAt(hs, a, i);
    }
    CountingAt(hs, a, |hs| - 1);
  }

  /** The i-th element of a sequence that starts at a and rises by one. */
  lemma {:induction false} CountingAt(hs: seq<nat>, a: nat, i: nat)
    requires |hs| > 0 && hs[0] == a && RisesBy(hs, 1) && i < |hs|
    ensures hs[i] == a + i
  {
    if i > 0 {
      CountingAt(hs, a, i - 1);
    }
  }

  /** The region's points of a slot, with skt in kelvin and tcc as the cloud measure. */
  lemma IfsClear(skt: seq<real>, tcc: seq<real>, idx: seq<nat>, p: nat)
    requires |skt| == |tcc| && forall i :: 0 <= i < |idx| ==> idx[i] < |skt|
    requires p < |idx|
    ensures ClearAt(SelectSlot(SlotData(skt, tcc), idx), p, CloudCoverMax) <==> tcc[idx[p]] <= 0.3
  {
  }

  /**
   * The script's main work for the month YM: the region of the grid with
   * its longitudes wrapped, ndays, and for every hour of the day the mean
   * clear-sky temperature and the fraction of clear slots at each point
   * of the region.
   */
  method ProcessIfs(year: int, month: int, lat: seq<real>, lon: seq<real>, fields: seq<seq<SlotData>>)
    returns (r: Result<Composite, CompositeError>)
    requires |lat| == |lon|
    requires 1 <= year <= 9999 && 1 <= month <= 12
    requires FieldsCover(fields, MonthLength(year, month), |lat|)
    ensures r.Err? <==> year == 1 && month == 12
    ensures r.Ok? ==>
              && r.value.npp == CountInRegion(lat, WrapLons(lon))
              && r.value.ndays == MonthLength(year, month)
              && |r.value.hours| == 24
              && forall i :: 0 <= i < 24 ==> r.value.hours[i].hour == i && r.value.hours[i].nslot == MonthLength(year, month)
    ensures r.Ok? ==>
              var idx, ndays := RegionIndices(lat, WrapLons(lon)), MonthLength(year, month);
              && r.value.npp == |idx|
              && forall h :: 0 <= h < 24 ==>
                   var slots := HourSlots(fields[h], idx, ndays);
                   && |r.value.hours[h].lst| == |idx| && |r.value.hours[h].fvalid| == |idx|
                   && forall p :: 0 <= p < |idx| ==>
                        && r.value.hours[h].lst[p] == Average(ClearSum(slots, |idx|, p, ndays, CloudCoverMax), ClearCount(slots, |idx|, p, ndays, CloudCoverMax))
                        && r.value.hours[h].fvalid[p] == Fraction(ClearCount(slots, |idx|, p, ndays, CloudCoverMax), ndays)
  {
    IfsHours();
    r := CompositeMonth(lat, WrapLons(lon), year, month, fields, Hours(1), CloudCoverMax);
  }
}
