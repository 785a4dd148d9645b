/**
 * The clear-sky diurnal composite of skin temperature shared by
 * skt_diurnal/process_icon_skt.py and skt_diurnal/process_ifs_skt.py:
 * the model points inside the region are kept; for each hour of the day
 * every day of the month is visited, and each point sums its temperature
 * (in degrees Celsius) and counts the slot when the slot is clear there;
 * the hour's LST is then the mean over the clear slots (ZFILL where there
 * were none) and FVALID the fraction of slots that were clear.
 */
module SktComposite {
  import opened Wrappers

  /** The fill value ZFILL written where a point had no clear slot. */
  const ZFill: real := -999.0

  /** The offset the scripts subtract to turn kelvin into degrees Celsius. */
  const KelvinOffset: real := 273.16

  /** A temperature in kelvin, in degrees Celsius as the scripts compute it. */
  function Celsius(kelvin: real): (celsius: real)
    ensures celsius + KelvinOffset == kelvin
    ensures celsius > 0.0 <==> kelvin > KelvinOffset
  {
    kelvin - KelvinOffset
  }

  // ---------------------------------------------------------------------
  // Region of interest
  // ---------------------------------------------------------------------

  /** The size of a real number. */
  function Abs(x: real): real
  {
    if x < 0.0 then -x else x
  }

  /** The mask reg: strictly inside 81 degrees of latitude and of longitude. */
  function InRegion(lat: real, lon: real): (inside: bool)
    ensures inside <==> Abs(lat) < 81.0 && Abs(lon) < 81.0
  {
    -81.0 < lat < 81.0 && -81.0 < lon < 81.0
  }

  /**
   * The indices of the points reg keeps, in grid order: indexing an array
   * with the boolean mask keeps exactly these elements, in this order.
   */
  function RegionIndices(lat: seq<real>, lon: seq<real>): (idx: seq<nat>)
    requires |lat| == |lon|
    ensures forall i :: 0 <= i < |idx| ==> idx[i] < |lat| && InRegion(lat[idx[i]], lon[idx[i]])
    ensures forall i, j :: 0 <= i < j < |idx| ==> idx[i] < idx[j]
    ensures forall k :: 0 <= k < |lat| && InRegion(lat[k], lon[k]) ==> k in idx
    decreases |lat|
  {
    if |lat| == 0 then []
    else
      var n := |lat| - 1;
      var rest := RegionIndices(lat[..n], lon[..n]);
      if InRegion(lat[n], lon[n]) then rest + [n] else rest
  }

  /** The number of points the mask keeps (np.sum of the mask). */
  function CountInRegion(lat: seq<real>, lon: seq<real>): (n: nat)
    requires |lat| == |lon|
    ensures n <= |lat|
    decreases |lat|
  {
    if |lat| == 0 then 0
    else
      var n := |lat| - 1;
      CountInRegion(lat[..n], lon[..n]) + (if InRegion(lat[n], lon[n]) then 1 else 0)
  }

  /** The mask's sum is 0 exactly when no point is in the region, and the number of points exactly when all are. */
  lemma {:induction false} CountInRegionExtremes(lat: seq<real>, lon: seq<real>)
    requires |lat| == |lon|
    ensures CountInRegion(lat, lon) == 0 <==> forall k :: 0 <= k < |lat| ==> !InRegion(lat[k], lon[k])
    ensures CountInRegion(lat, lon) == |lat| <==> forall k :: 0 <= k < |lat| ==> InRegion(lat[k], lon[k])
    decreases |lat|
  {
    if |lat| > 0 {
      var n := |lat| - 1;
      CountInRegionExtremes(lat[..n], lon[..n]);
      assert forall k :: 0 <= k < n ==> lat[..n][k] == lat[k] && lon[..n][k] == lon[k];
    }
  }

  /** npp, the mask's sum, is the number of points selected. */
  lemma {:induction false} RegionSize(lat: seq<real>, lon: seq<real>)
    requires |lat| == |lon|
    ensures |RegionIndices(lat, lon)| == CountInRegion(lat, lon)
    decreases |lat|
  {
    if |lat| > 0 {
      var n := |lat| - 1;
      RegionSize(lat[..n], lon[..n]);
    }
  }

  /** x[reg]: the elements at the selected indices, in order. */
  function Select(xs: seq<real>, idx: seq<nat>): (ys: seq<real>)
    requires forall i :: 0 <= i < |idx| ==> idx[i] < |xs|
    ensures |ys| == |idx| && forall i :: 0 <= i < |idx| ==> ys[i] == xs[idx[i]]
  {
    seq(|idx|, i requires 0 <= i < |idx| => xs[idx[i]])
  }

  // ---------------------------------------------------------------------
  // Calendar
  // ---------------------------------------------------------------------

  predicate IsLeapYear(year: int)
  {
    year % 4 == 0 && (year % 100 != 0 || year % 400 == 0)
  }

  /** The number of days of a month of the (proleptic) Gregorian calendar. */
  function MonthLength(year: int, month: int): (n: nat)
    requires 1 <= month <= 12
    ensures 28 <= n <= 31
    ensures n == 31 <==> month in {1, 3, 5, 7, 8, 10, 12}
    ensures n == 29 <==> month == 2 && IsLeapYear(year)
  {
    if month == 2 then (if IsLeapYear(year) then 29 else 28)
    else if month in {4, 6, 9, 11} then 30
    else 31
  }

  /** A calendar date as Python's datetime.date holds it. */
  datatype Date = Date(year: int, month: int, day: int)

  /** A date datetime accepts: year 1 to 9999, a real month, a day of that month. */
  predicate ValidDate(d: Date)
  {
    1 <= d.year <= 9999 && 1 <= d.month <= 12 && 1 <= d.day <= MonthLength(d.year, d.month)
  }

  /** The date minus one day; None where Python raises OverflowError (before 0001-01-01). */
  function DayBefore(d: Date): (r: Option<Date>)
    requires ValidDate(d)
    ensures r.Some? ==> ValidDate(r.value)
    ensures r.None? <==> d == Date(1, 1, 1)
    ensures r.Some? && d.day == 1 ==> r.value.day == MonthLength(r.value.year, r.value.month)
  {
    if d.day > 1 then Some(Date(d.year, d.month, d.day - 1))
    else if d.month > 1 then Some(Date(d.year, d.month - 1, MonthLength(d.year, d.month - 1)))
    else if d.year > 1 then Some(Date(d.year - 1, 12, 31))
    else None
  }

  /** month % 12 + 1 is the month after, January after December. */
  lemma NextMonth(month: int)
    requires 1 <= month <= 12
    ensures month % 12 + 1 == if month == 12 then 1 else month + 1
  {
  }

  /**
   * ndays as the scripts compute it: the first of the month after, written
   * YM.replace(month = YM.month % 12 + 1, day = 1), which keeps the year,
   * minus one day; the day of that date.
   */
  function DaysInMonthAsWritten(year: int, month: int): (r: Option<nat>)
    requires 1 <= year <= 9999 && 1 <= month <= 12
    ensures r.None? <==> year == 1 && month == 12
    ensures r.Some? ==> 28 <= r.value <= 31
  {
    NextMonth(month);
    match DayBefore(Date(year, month % 12 + 1, 1))
    case None => None
    case Some(d) => Some(d.day)
  }

  /**
   * The computation gives the length of the month for every month,
   * December included: there the replaced date is January of the SAME
   * year, and the day before it is 31 December of the year before, which
   * has 31 days like every December. Only December of year 1 has no day
   * before and raises.
   */
  lemma DaysInMonthIsMonthLength(year: int, month: int)
    requires 1 <= year <= 9999 && 1 <= month <= 12
    ensures DaysInMonthAsWritten(year, month).None? <==> year == 1 && month == 12
    ensures DaysInMonthAsWritten(year, month).Some? ==> DaysInMonthAsWritten(year, month).value == MonthLength(year, month)
  {
    if month < 12 {
      assert month % 12 + 1 == month + 1;
    }
  }

  // ---------------------------------------------------------------------
  // Hours of the diurnal cycle
  // ---------------------------------------------------------------------

  /** range(from, 24, step). */
  function HoursFrom(from: nat, step: nat): (hs: seq<nat>)
    requires step >= 1
    ensures from < 24 ==> |hs| > 0 && hs[0] == from
    ensures forall i :: 0 <= i < |hs| ==> from <= hs[i] < 24
    ensures |hs| > 0 ==> 24 <= hs[|hs| - 1] + step
    ensures forall i, j :: 0 <= i < j < |hs| ==> hs[i] < hs[j]
    decreases 24 - from
  {
    if from >= 24 then [] else [from] + HoursFrom(from + step, step)
  }

  /** range(0, 24, step): the hours processed. */
  function Hours(step: nat): (hs: seq<nat>)
    requires step >= 1
    ensures |hs| > 0 && hs[0] == 0
    ensures forall i :: 0 <= i < |hs| ==> hs[i] < 24
    ensures forall i, j :: 0 <= i < j < |hs| ==> hs[i] < hs[j]
    ensures hs[|hs| - 1] < 24 <= hs[|hs| - 1] + step
  {
    HoursFrom(0, step)
  }

  /** Each element is the one before it plus step. */
  predicate RisesBy(hs: seq<nat>, step: nat)
  {
    forall i :: 0 <= i < |hs| - 1 ==> hs[i + 1] == hs[i] + step
  }

  /** range(from, 24, step) rises by step from one hour to the next. */
  lemma {:induction false} HoursFromStep(from: nat, step: nat)
    requires step >= 1
    ensures RisesBy(HoursFrom(from, step), step)
    decreases 24 - from
  {
    if from < 24 {
      HoursFromStep(from + step, step);
      var rest := HoursFrom(from + step, step);
      if |rest| > 0 {
        assert from + step <= rest[0] < 24;
      }
      assert HoursFrom(from, step) == [from] + rest;
      ConsRises(from, rest, step);
    }
  }

  /** Putting x in front of a sequence rising by step that starts at x + step keeps it rising by step. */
  lemma ConsRises(x: nat, rest: seq<nat>, step: nat)
    requires RisesBy(rest, step) && (|rest| > 0 ==> rest[0] == x + step)
    ensures RisesBy([x] + rest, step)
  {
    var hs := [x] + rest;
    forall i | 0 <= i < |hs| - 1
      ensures hs[i + 1] == hs[i] + step
    {
      if i > 0 {
        assert hs[i + 1] == rest[i] && hs[i] == rest[i - 1];
        assert rest[(i - 1) + 1] == rest[i - 1] + step;
      }
    }
  }

  /** range(0, 24, step) rises by step from one hour to the next. */
  lemma HoursStep(step: nat)
    requires step >= 1
    ensures RisesBy(Hours(step), step)
  {
    HoursFromStep(0, step);
  }

  /** A positive multiple of a positive number is at least that number. */
  lemma ProductAtLeast(k: int, s: int)
    requires s >= 1
    ensures k >= 1 ==> k * s >= s
  {
  }

  /** Euclidean division is unique: a quotient and a remainder in [0, s) that give a are a's. */
  lemma RemainderUnique(a: int, s: int, q: int, r: int)
    requires s >= 1 && a == q * s + r && 0 <= r < s
    ensures a % s == r
  {
    var q', r' := a / s, a % s;
    assert a == q' * s + r' && 0 <= r' < s;
    assert (q - q') * s == r' - r;
    ProductAtLeast(q - q', s);
    ProductAtLeast(q' - q, s);
    assert (q' - q) * s == r - r';
  }

  /** Taking one step off a number at least one step long keeps its remainder. */
  lemma RemainderLessStep(x: int, step: int)
    requires step >= 1 && x >= step
    ensures x % step == (x - step) % step
  {
    var q, r := (x - step) / step, (x - step) % step;
    assert x - step == q * step + r && 0 <= r < step;
    assert x == (q + 1) * step + r;
    RemainderUnique(x, step, q + 1, r);
  }

  /** The remainder of x by step, by repeated subtraction. */
  function StepRemainder(x: nat, step: nat): nat
    requires step >= 1
    decreases x
  {
    if x < step then x else StepRemainder(x - step, step)
  }

  /** Repeated subtraction gives Euclidean remainder. */
  lemma {:induction false} StepRemainderIsRemainder(x: nat, step: nat)
    requires step >= 1
    ensures StepRemainder(x, step) == x % step
    decreases x
  {
    if x < step {
      RemainderUnique(x, step, 0, x);
    } else {
      StepRemainderIsRemainder(x - step, step);
      RemainderLessStep(x, step);
    }
  }

  /** The hours from `from` on are exactly the later hours of the day a whole number of steps away. */
  lemma {:induction false} HoursFromSpec(from: nat, step: nat, h: nat)
    requires step >= 1
    ensures h in HoursFrom(from, step) <==> from <= h < 24 && StepRemainder(h - from, step) == 0
    decreases 24 - from
  {
    if from < 24 {
      HoursFromSpec(from + step, step, h);
      HoursFromFirst(from, step, h);
      StepBack(from, step, h);
    } else {
      HoursFromEnd(from, step);
    }
  }

  /** range(from, 24, step) is empty from 24 on. */
  lemma HoursFromEnd(from: nat, step: nat)
    requires step >= 1 && from >= 24
    ensures HoursFrom(from, step) == []
  {
  }

  /** h is a whole number of steps from `from` exactly when it is `from` or a whole number of steps from from + step. */
  lemma StepBack(from: nat, step: nat, h: nat)
    requires step >= 1 && from < 24
    ensures (from <= h < 24 && StepRemainder(h - from, step) == 0) <==>
            (h == from || (from + step <= h < 24 && StepRemainder(h - (from + step), step) == 0))
  {
    if h >= from + step {
      assert StepRemainder(h - from, step) == StepRemainder(h - (from + step), step);
    } else if h >= from {
      assert StepRemainder(h - from, step) == h - from;
    }
  }

  /** range(from, 24, step) starts at from and goes on from from + step. */
  lemma HoursFromFirst(from: nat, step: nat, h: nat)
    requires step >= 1 && from < 24
    ensures h in HoursFrom(from, step) <==> h == from || h in HoursFrom(from + step, step)
  {
    assert HoursFrom(from, step) == [from] + HoursFrom(from + step, step);
  }

  /** An hour is processed exactly when it is a multiple of the step below 24. */
  lemma HoursSpec(step: nat, h: nat)
    requires step >= 1
    ensures h in Hours(step) <==> h < 24 && h % step == 0
  {
    HoursFromSpec(0, step, h);
    StepRemainderIsRemainder(h, step);
  }

  // ---------------------------------------------------------------------
  // Accumulation over the days of one hour
  // ---------------------------------------------------------------------

  /** One slot of the region's points: temperature in kelvin and the cloud measure of each point. */
  datatype SlotData = SlotData(temperature: seq<real>, cloud: seq<real>)

  /** The region's points of one slot of the whole grid. */
  function SelectSlot(s: SlotData, idx: seq<nat>): (r: SlotData)
    requires forall i :: 0 <= i < |idx| ==> idx[i] < |s.temperature| && idx[i] < |s.cloud|
    ensures |r.temperature| == |idx| && |r.cloud| == |idx|
  {
    SlotData(Select(s.temperature, idx), Select(s.cloud, idx))
  }

  /** Every slot has a value for each of the npp points. */
  predicate SlotsHave(slots: seq<SlotData>, npp: nat)
  {
    forall d :: 0 <= d < |slots| ==> |slots[d].temperature| == npp && |slots[d].cloud| == npp
  }

  /** xOK at point p: the slot is clear there, its cloud measure at most the threshold. */
  predicate ClearAt(s: SlotData, p: nat, threshold: real)
    requires p < |s.cloud|
  {
    s.cloud[p] <= threshold
  }

  /** zVAL at point p after the first n slots: how many of them were clear there. */
  function ClearCount(slots: seq<SlotData>, npp: nat, p: nat, n: nat, threshold: real): (c: nat)
    requires SlotsHave(slots, npp) && p < npp && n <= |slots|
    ensures c <= n
  {
    if n == 0 then 0
    else ClearCount(slots, npp, p, n - 1, threshold) + (if ClearAt(slots[n - 1], p, threshold) then 1 else 0)
  }

  /** One more slot: the count and the sum at p grow by the slot's contribution when it is clear there, and stay otherwise. */
  lemma ClearStep(slots: seq<SlotData>, npp: nat, p: nat, n: nat, threshold: real)
    requires SlotsHave(slots, npp) && p < npp && n < |slots|
    ensures ClearAt(slots[n], p, threshold) ==>
              && ClearCount(slots, npp, p, n + 1, threshold) == ClearCount(slots, npp, p, n, threshold) + 1
              && ClearSum(slots, npp, p, n + 1, threshold) == ClearSum(slots, npp, p, n, threshold) + Celsius(slots[n].temperature[p])
    ensures !ClearAt(slots[n], p, threshold) ==>
              && ClearCount(slots, npp, p, n + 1, threshold) == ClearCount(slots, npp, p, n, threshold)
              && ClearSum(slots, npp, p, n + 1, threshold) == ClearSum(slots, npp, p, n, threshold)
  {
  }

  /** zAVG at point p after the first n slots: the sum of its Celsius temperatures over the clear ones. */
  function ClearSum(slots: seq<SlotData>, npp: nat, p: nat, n: nat, threshold: real): (sum: real)
    requires SlotsHave(slots, npp) && p < npp && n <= |slots|
    ensures (forall d :: 0 <= d < n ==> !ClearAt(slots[d], p, threshold)) ==> sum == 0.0
    ensures (forall d :: 0 <= d < n && ClearAt(slots[d], p, threshold) ==> slots[d].temperature[p] >= KelvinOffset) ==> sum >= 0.0
  {
    if n == 0 then 0.0
    else ClearSum(slots, npp, p, n - 1, threshold) + (if ClearAt(slots[n - 1], p, threshold) then Celsius(slots[n - 1].temperature[p]) else 0.0)
  }

  /** np.where(zVAL > 0, zAVG / zVAL, ZFILL) at one point. */
  function Average(sum: real, count: nat): (mean: real)
    ensures count > 0 ==> mean * count as real == sum
    ensures count == 0 ==> mean == ZFill
  {
    if count > 0 then sum / count as real else ZFill
  }

  /** np.where(zVAL > 0, zVAL / nslotSTP, 0) at one point. */
  function Fraction(count: nat, nslot: nat): (f: real)
    ensures f == 0.0 <==> count == 0 || nslot == 0
    ensures count > 0 && nslot > 0 ==> f * nslot as real == count as real
    ensures count <= nslot ==> 0.0 <= f <= 1.0
  {
    if count > 0 && nslot > 0 then count as real / nslot as real else 0.0
  }

  /**
   * One hour of the composite: zAVG and zVAL start at zero; for each day
   * the slot counter rises and, at every point where the slot is clear,
   * the count rises by one and the sum by the Celsius temperature; then
   * the mean and the fraction of clear slots are formed point by point.
   */
  method AccumulateHour(slots: seq<SlotData>, npp: nat, threshold: real) returns (lst: seq<real>, fvalid: seq<real>, nslot: nat)
    requires SlotsHave(slots, npp)
    ensures nslot == |slots|
    ensures |lst| == npp && |fvalid| == npp
    ensures forall p :: 0 <= p < npp ==>
              lst[p] == Average(ClearSum(slots, npp, p, nslot, threshold), ClearCount(slots, npp, p, nslot, threshold))
    ensures forall p :: 0 <= p < npp ==> fvalid[p] == Fraction(ClearCount(slots, npp, p, nslot, threshold), nslot)
  {
    var sum := new real[npp](_ => 0.0);
    var count := new nat[npp](_ => 0);
    nslot := 0;
    var day := 0;
    while day < |slots|
      invariant day <= |slots| && nslot == day
      invariant forall p :: 0 <= p < npp ==>
                  sum[p] == ClearSum(slots, npp, p, day, threshold) && count[p] == ClearCount(slots, npp, p, day, threshold)
    {
      nslot := nslot + 1;
      var q := 0;
      while q < npp
        invariant q <= npp
        invariant forall p :: 0 <= p < q ==>
                    sum[p] == ClearSum(slots, npp, p, day + 1, threshold) && count[p] == ClearCount(slots, npp, p, day + 1, threshold)
        invariant forall p :: q <= p < npp ==>
                    sum[p] == ClearSum(slots, npp, p, day, threshold) && count[p] == ClearCount(slots, npp, p, day, threshold)
      {
        ClearStep(slots, npp, q, day, threshold);
        if slots[day].cloud[q] <= threshold {
          count[q] := count[q] + 1;
          sum[q] := sum[q] + Celsius(slots[day].temperature[q]);
        }
        q := q + 1;
      }
      day := day + 1;
    }
    lst := [];
    fvalid := [];
    var p := 0;
    while p < npp
      invariant p <= npp && |lst| == p && |fvalid| == p
      invariant forall k :: 0 <= k < p ==> lst[k] == Average(sum[k], count[k]) && fvalid[k] == Fraction(count[k], nslot)
    {
      lst := lst + [Average(sum[p], count[p])];
      fvalid := fvalid + [Fraction(count[p], nslot)];
      p := p + 1;
    }
  }

  /** No point is counted clear more often than there were slots: zVAL <= nslotSTP, so FVALID lies in [0, 1]. */
  lemma FractionInUnit(count: nat, nslot: nat)
    requires count <= nslot
    ensures 0.0 <= Fraction(count, nslot) <= 1.0
    ensures Fraction(count, nslot) == 0.0 <==> count == 0
    ensures Fraction(count, nslot) == 1.0 <==> count == nslot && nslot > 0
  {
    if count > 0 {
      var f := count as real / nslot as real;
      assert f * nslot as real == count as real;
    }
  }

  /** A point has a zero count exactly when every slot was cloudy there; its LST is then ZFILL. */
  lemma {:induction false} NoClearSlot(slots: seq<SlotData>, npp: nat, p: nat, n: nat, threshold: real)
    requires SlotsHave(slots, npp) && p < npp && n <= |slots|
    ensures ClearCount(slots, npp, p, n, threshold) == 0 <==> forall d :: 0 <= d < n ==> !ClearAt(slots[d], p, threshold)
    ensures ClearCount(slots, npp, p, n, threshold) == 0 ==> Average(ClearSum(slots, npp, p, n, threshold), 0) == ZFill
  {
    if n > 0 {
      NoClearSlot(slots, npp, p, n - 1, threshold);
    }
  }

  /** A point's FVALID is 1 exactly when every slot was clear there. */
  lemma {:induction false} AllClearSlots(slots: seq<SlotData>, npp: nat, p: nat, n: nat, threshold: real)
    requires SlotsHave(slots, npp) && p < npp && n <= |slots|
    ensures ClearCount(slots, npp, p, n, threshold) == n <==> forall d :: 0 <= d < n ==> ClearAt(slots[d], p, threshold)
  {
    if n > 0 {
      AllClearSlots(slots, npp, p, n - 1, threshold);
    }
  }

  /**
   * Cloudy slots never reach the sums: two runs whose slots are clear at
   * the same places and agree on the temperature wherever clear give the
   * same count and the same sum.
   */
  lemma {:induction false} CloudySlotsIgnored(a: seq<SlotData>, b: seq<SlotData>, npp: nat, p: nat, n: nat, threshold: real)
    requires SlotsHave(a, npp) && SlotsHave(b, npp) && p < npp && n <= |a| && n <= |b|
    requires forall d :: 0 <= d < n ==> (ClearAt(a[d], p, threshold) <==> ClearAt(b[d], p, threshold))
    requires forall d :: 0 <= d < n && ClearAt(a[d], p, threshold) ==> a[d].temperature[p] == b[d].temperature[p]
    ensures ClearCount(a, npp, p, n, threshold) == ClearCount(b, npp, p, n, threshold)
    ensures ClearSum(a, npp, p, n, threshold) == ClearSum(b, npp, p, n, threshold)
  {
    if n > 0 {
      CloudySlotsIgnored(a, b, npp, p, n - 1, threshold);
    }
  }

  /** c copies of x added up: c * x, without a product. */
  function Scaled(c: nat, x: real): real
  {
    if c == 0 then 0.0 else Scaled(c - 1, x) + x
  }

  /** Adding up c copies of x is multiplying x by c. */
  lemma {:induction false} ScaledIsProduct(c: nat, x: real)
    ensures Scaled(c, x) == c as real * x
  {
    if c > 0 {
      ScaledIsProduct(c - 1, x);
      assert c as real * x == (c - 1) as real * x + x;
    }
  }

  /** The sum lies between count times the least and count times the greatest clear temperature. */
  lemma {:induction false} ClearSumBetween(slots: seq<SlotData>, npp: nat, p: nat, n: nat, threshold: real, lo: real, hi: real)
    requires SlotsHave(slots, npp) && p < npp && n <= |slots|
    requires forall d :: 0 <= d < n && ClearAt(slots[d], p, threshold) ==> lo <= Celsius(slots[d].temperature[p]) <= hi
    ensures Scaled(ClearCount(slots, npp, p, n, threshold), lo) <= ClearSum(slots, npp, p, n, threshold)
    ensures ClearSum(slots, npp, p, n, threshold) <= Scaled(ClearCount(slots, npp, p, n, threshold), hi)
  {
    if n > 0 {
      ClearSumBetween(slots, npp, p, n - 1, threshold, lo, hi);
    }
  }

  /** A quotient by a positive count of a sum between count * lo and count * hi lies between lo and hi. */
  lemma QuotientBetween(s: real, c: real, lo: real, hi: real)
    requires c > 0.0 && c * lo <= s <= c * hi
    ensures lo <= s / c <= hi
  {
    var m := s / c;
    assert m * c == s;
    assert (m - lo) * c >= 0.0;
    assert (hi - m) * c >= 0.0;
  }

  /** LST at a point with a clear slot is a mean: it lies between the least and the greatest clear temperature. */
  lemma MeanBetween(slots: seq<SlotData>, npp: nat, p: nat, n: nat, threshold: real, lo: real, hi: real)
    requires SlotsHave(slots, npp) && p < npp && n <= |slots|
    requires forall d :: 0 <= d < n && ClearAt(slots[d], p, threshold) ==> lo <= Celsius(slots[d].temperature[p]) <= hi
    requires ClearCount(slots, npp, p, n, threshold) > 0
    ensures lo <= Average(ClearSum(slots, npp, p, n, threshold), ClearCount(slots, npp, p, n, threshold)) <= hi
  {
    var sum, count := ClearSum(slots, npp, p, n, threshold), ClearCount(slots, npp, p, n, threshold);
    ClearSumBetween(slots, npp, p, n, threshold, lo, hi);
    ScaledIsProduct(count, lo);
    ScaledIsProduct(count, hi);
    AverageBetween(sum, count, lo, hi);
  }

  /** The mean of a sum between count * lo and count * hi lies between lo and hi. */
  lemma AverageBetween(sum: real, count: nat, lo: real, hi: real)
    requires count > 0 && count as real * lo <= sum <= count as real * hi
    ensures lo <= Average(sum, count) <= hi
  {
    QuotientBetween(sum, count as real, lo, hi);
  }

  // ---------------------------------------------------------------------
  // The month
  // ---------------------------------------------------------------------

  /** What one hour of the composite writes: the hour, NSLOT, LST and FVALID at the region's points. */
  datatype HourResult = HourResult(hour: nat, nslot: nat, lst: seq<real>, fvalid: seq<real>)

  /** The region's points of the first ndays slots of one hour. */
  function HourSlots(day: seq<SlotData>, idx: seq<nat>, ndays: nat): (slots: seq<SlotData>)
    requires ndays <= |day|
    requires forall d, i :: 0 <= d < ndays && 0 <= i < |idx| ==> idx[i] < |day[d].temperature| && idx[i] < |day[d].cloud|
    ensures |slots| == ndays && SlotsHave(slots, |idx|)
  {
    seq(ndays, d requires 0 <= d < ndays => SelectSlot(day[d], idx))
  }

  /** An hour's LST and FVALID at each of the npp points: the mean over the clear slots and the fraction of slots that were clear. */
  predicate HourHolds(out: HourResult, slots: seq<SlotData>, npp: nat, threshold: real)
    requires SlotsHave(slots, npp)
  {
    && |out.lst| == npp && |out.fvalid| == npp
    && forall p :: 0 <= p < npp ==>
         && out.lst[p] == Average(ClearSum(slots, npp, p, |slots|, threshold), ClearCount(slots, npp, p, |slots|, threshold))
         && out.fvalid[p] == Fraction(ClearCount(slots, npp, p, |slots|, threshold), |slots|)
  }

  /** Every slot the month needs exists and covers the whole grid of n points. */
  predicate FieldsCover(fields: seq<seq<SlotData>>, ndays: nat, n: nat)
  {
    && |fields| == 24
    && forall h :: 0 <= h < 24 ==>
         ndays <= |fields[h]| &&
         forall d :: 0 <= d < ndays ==> |fields[h][d].temperature| == n && |fields[h][d].cloud| == n
  }

  /**
   * The loop on hours: each hour's slots over the ndays days, at the
   * region's points, accumulated and averaged.
   */
  method DiurnalCycle(fields: seq<seq<SlotData>>, n: nat, idx: seq<nat>, ndays: nat, hours: seq<nat>, threshold: real)
    returns (out: seq<HourResult>)
    requires FieldsCover(fields, ndays, n)
    requires forall i :: 0 <= i < |idx| ==> idx[i] < n
    requires forall i :: 0 <= i < |hours| ==> hours[i] < 24
    ensures |out| == |hours|
    ensures forall i :: 0 <= i < |hours| ==>
              var slots := HourSlots(fields[hours[i]], idx, ndays);
              && out[i].hour == hours[i]
              && out[i].nslot == ndays
              && |out[i].lst| == |idx| && |out[i].fvalid| == |idx|
              && forall p :: 0 <= p < |idx| ==>
                   out[i].lst[p] == Average(ClearSum(slots, |idx|, p, ndays, threshold), ClearCount(slots, |idx|, p, ndays, threshold))
                   && out[i].fvalid[p] == Fraction(ClearCount(slots, |idx|, p, ndays, threshold), ndays)
  {
    out := [];
    var i := 0;
    while i < |hours|
      invariant i <= |hours| && |out| == i
      invariant forall j :: 0 <= j < i ==>
                  var slots := HourSlots(fields[hours[j]], idx, ndays);
                  && out[j].hour == hours[j]
                  && out[j].nslot == ndays
                  && |out[j].lst| == |idx| && |out[j].fvalid| == |idx|
                  && forall p :: 0 <= p < |idx| ==>
                       out[j].lst[p] == Average(ClearSum(slots, |idx|, p, ndays, threshold), ClearCount(slots, |idx|, p, ndays, threshold))
                       && out[j].fvalid[p] == Fraction(ClearCount(slots, |idx|, p, ndays, threshold), ndays)
    {
      var slots := HourSlots(fields[hours[i]], idx, ndays);
      var lst, fvalid, nslot := AccumulateHour(slots, |idx|, threshold);
      out := out + [HourResult(hours[i], nslot, lst, fvalid)];
      i := i + 1;
    }
  }

  /**
   * A month's composite over the region of (lat, lon): npp points, and for
   * each hour processed its NSLOT = ndays and the values HourHolds gives
   * over that hour's slots.
   */
  predicate MonthHolds(c: Composite, lat: seq<real>, lon: seq<real>, fields: seq<seq<SlotData>>, ndays: nat, hours: seq<nat>, threshold: real)
    requires |lat| == |lon| && FieldsCover(fields, ndays, |lat|)
    requires forall i :: 0 <= i < |hours| ==> hours[i] < 24
  {
    var idx := RegionIndices(lat, lon);
    && c.npp == |idx| && c.ndays == ndays && |c.hours| == |hours|
    && forall i :: 0 <= i < |hours| ==>
         && c.hours[i].hour == hours[i] && c.hours[i].nslot == ndays
         && HourHolds(c.hours[i], HourSlots(fields[hours[i]], idx, ndays), |idx|, threshold)
  }

  /** Why a script stops before the loop on hours. */
  datatype CompositeError = NoDayBefore // OverflowError computing ndays for December of year 1

  /** What a script computes for a month: npp, ndays and the results of each hour processed. */
  datatype Composite = Composite(npp: nat, ndays: nat, hours: seq<HourResult>)

  /**
   * Both scripts' main work for the month YM: select the region, compute
   * ndays, then run the loop on the given hours with the given clear-sky
   * threshold.
   */
  method CompositeMonth(lat: seq<real>, lon: seq<real>, year: int, month: int, fields: seq<seq<SlotData>>, hours: seq<nat>, threshold: real)
    returns (r: Result<Composite, CompositeError>)
    requires |lat| == |lon|
    requires 1 <= year <= 9999 && 1 <= month <= 12
    requires FieldsCover(fields, MonthLength(year, month), |lat|)
    requires forall i :: 0 <= i < |hours| ==> hours[i] < 24
    ensures r.Err? <==> year == 1 && month == 12
    ensures r.Ok? ==>
              && r.value.npp == CountInRegion(lat, lon) == |RegionIndices(lat, lon)|
              && r.value.ndays == MonthLength(year, month)
              && |r.value.hours| == |hours|
              && forall i :: 0 <= i < |hours| ==>
                   r.value.hours[i].hour == hours[i] && r.value.hours[i].nslot == MonthLength(year, month) &&
                   |r.value.hours[i].lst| == r.value.npp && |r.value.hours[i].fvalid| == r.value.npp
    ensures r.Ok? ==>
              var idx, ndays := RegionIndices(lat, lon), MonthLength(year, month);
              forall i :: 0 <= i < |hours| ==>
                var slots := HourSlots(fields[hours[i]], idx, ndays);
                forall p :: 0 <= p < |idx| ==>
                  && r.value.hours[i].lst[p] == Average(ClearSum(slots, |idx|, p, ndays, threshold), ClearCount(slots, |idx|, p, ndays, threshold))
                  && r.value.hours[i].fvalid[p] == Fraction(ClearCount(slots, |idx|, p, ndays, threshold), ndays)
    ensures r.Ok? ==> MonthHolds(r.value, lat, lon, fields, MonthLength(year, month), hours, threshold)
  {
    var idx := RegionIndices(lat, lon);
    RegionSize(lat, lon);
    DaysInMonthIsMonthLength(year, month);
    match DaysInMonthAsWritten(year, month)
    case None =>
      r := Err(NoDayBefore);
    case Some(ndays) =>
      var out := DiurnalCycle(fields, |lat|, idx, ndays, hours, threshold);
      r := Ok(Composite(|idx|, ndays, out));
  }
}
