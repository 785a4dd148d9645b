/**
 * skt_diurnal/process_icon_skt.py: the composite for an ICON run. A slot
 * is clear at a point when the liquid and the ice water paths together,
 * cllvi + clivi, are at most tcw_min; the 3-hourly run ngc2012 is
 * processed every third hour, the others every hour.
 */
module IconSkt {
  import opened Wrappers
  import opened SktComposite

  /** tcw_min: the largest cloud water path of a clear slot. */
  const CloudWaterMax: real := 0.005

  /** freq: the step between the hours processed for an experiment. */
  function Freq(resol: string): (f: nat)
    ensures f >= 1
  {
    if resol == "ngc2012" then 3 else 1
  }

  /** The run ngc2012 is processed at the hours divisible by 3, every other run at every hour of the day. */
  lemma IconHours(resol: string, h: nat)
    ensures resol == "ngc2012" ==> (h in Hours(Freq(resol)) <==> h < 24 && h % 3 == 0)
    ensures resol != "ngc2012" ==> (h in Hours(Freq(resol)) <==> h < 24)
  {
    HoursSpec(Freq(resol), h);
  }

  /** One slot of the ICON output on the whole grid: ts in kelvin, cllvi and clivi. */
  datatype IconSlot = IconSlot(ts: seq<real>, cllvi: seq<real>, clivi: seq<real>)

  /** The slot's three fields cover n points. */
  predicate SlotCovers(s: IconSlot, n: nat)
  {
    |s.ts| == n && |s.cllvi| == n && |s.clivi| == n
  }

  /** The slot with tcw = cllvi + clivi as its cloud measure. */
  function CloudWater(s: IconSlot): (r: SlotData)
    requires |s.cllvi| == |s.clivi|
    ensures r.temperature == s.ts && |r.cloud| == |s.cllvi|
    ensures forall k :: 0 <= k < |s.cllvi| ==> r.cloud[k] == s.cllvi[k] + s.clivi[k]
  {
    SlotData(s.ts, seq(|s.cllvi|, k requires 0 <= k < |s.cllvi| => s.cllvi[k] + s.clivi[k]))
  }

  /** A point of the region is clear in a slot exactly when its cloud water path is at most tcw_min. */
  lemma IconClear(s: IconSlot, idx: seq<nat>, p: nat)
    requires SlotCovers(s, |s.ts|) && forall i :: 0 <= i < |idx| ==> idx[i] < |s.ts|
    requires p < |idx|
    ensures ClearAt(SelectSlot(CloudWater(s), idx), p, CloudWaterMax) <==> s.cllvi[idx[p]] + s.clivi[idx[p]] <= 0.005
  {
  }

  /** Every slot of each hour of the month covers the n points of the grid. */
  predicate IconFieldsCover(fields: seq<seq<IconSlot>>, ndays: nat, n: nat)
  {
    && |fields| == 24
    && forall h :: 0 <= h < 24 ==> ndays <= |fields[h]| && forall d :: 0 <= d < ndays ==> SlotCovers(fields[h][d], n)
  }

  /** The first ndays slots of every hour with tcw as their cloud measure; later slots are never read. */
  function IconSlots(fields: seq<seq<IconSlot>>, ndays: nat): (slots: seq<seq<SlotData>>)
    requires forall h :: 0 <= h < |fields| ==> ndays <= |fields[h]| && forall d :: 0 <= d < ndays ==> |fields[h][d].cllvi| == |fields[h][d].clivi|
    ensures |slots| == |fields|
    ensures forall h :: 0 <= h < |fields| ==> |slots[h]| == |fields[h]|
    ensures forall h, d :: 0 <= h < |fields| && 0 <= d < ndays ==> slots[h][d] == CloudWater(fields[h][d])
    ensures forall n :: IconFieldsCover(fields, ndays, n) ==> FieldsCover(slots, ndays, n)
  {
    seq(|fields|, h requires 0 <= h < |fields| =>
      seq(|fields[h]|, d requires 0 <= d < |fields[h]| =>
        if d < ndays then CloudWater(fields[h][d]) else SlotData([], [])))
  }

  /** Each hour of the composite holds the means and fractions of the month's slots, clear where tcw is at most tcw_min. */
  predicate IconMonthHolds(c: Composite, resol: string, year: int, month: int, lat: seq<real>, lon: seq<real>, fields: seq<seq<IconSlot>>)
    requires |lat| == |lon| && 1 <= month <= 12
    requires IconFieldsCover(fields, MonthLength(year, month), |lat|)
  {
    var ndays := MonthLength(year, month);
    MonthHolds(c, lat, lon, IconSlots(fields, ndays), ndays, Hours(Freq(resol)), CloudWaterMax)
  }

  /**
   * The script's main work for the experiment resol and the month YM:
   * the region of the grid, ndays, and for each hour processed the mean
   * clear-sky temperature and the fraction of clear slots at each
   * point of the region.
   */
  method ProcessIcon(resol: string, year: int, month: int, lat: seq<real>, lon: seq<real>, fields: seq<seq<IconSlot>>)
    returns (r: Result<Composite, CompositeError>)
    requires |lat| == |lon|
    requires 1 <= year <= 9999 && 1 <= month <= 12
    requires IconFieldsCover(fields, MonthLength(year, month), |lat|)
    ensures r.Err? <==> year == 1 && month == 12
    ensures r.Ok? ==>
              && r.value.npp == CountInRegion(lat, lon)
              && r.value.ndays == MonthLength(year, month)
              && |r.value.hours| == |Hours(Freq(resol))|
              && forall i :: 0 <= i < |r.value.hours| ==>
                   r.value.hours[i].hour == Hours(Freq(resol))[i] && r.value.hours[i].nslot == MonthLength(year, month)
    ensures r.Ok? ==> IconMonthHolds(r.value, resol, year, month, lat, lon, fields)
  {
    var ndays := MonthLength(year, month);
    var slots := IconSlots(fields, ndays);
    var hours := Hours(Freq(resol));
    r := CompositeMonth(lat, lon, year, month, slots, hours, CloudWaterMax);
  }
}
