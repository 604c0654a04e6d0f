/**
 * `calculate_time_based_toll_rates`: every time window of the weekday table and of the
 * weekend table is tried on every day of a fixed seven-day range that starts at
 * datetime.min (a Monday). A row matches a (day, window) pair when its start is at or after
 * the window's start on that day and its end at or before the window's end on that day;
 * every vehicle column of the matching rows is then multiplied by the factor of that day
 * and window. Timestamps are whole seconds since datetime.min.
 *
 * Because all four windows are tried on every day, a row that lies inside a weekday window
 * also lies inside the all-day window of the weekend table on the same day, and its amounts
 * are multiplied twice; `Compounded` states the product a row actually receives.
 */
module TimeDiscount {
  import opened Wrappers
  import opened TollRates
  import opened Clock

  /** A time window of a day, in seconds after midnight; both ends are inclusive when matching. */
  datatype TimeRange = TimeRange(start: int, end: int)

  const WeekdayTimeRanges: seq<TimeRange> :=
    [TimeRange(0, 36000), TimeRange(36000, 64800), TimeRange(64800, 86399)]
  const WeekendTimeRanges: seq<TimeRange> := [TimeRange(0, 86399)]
  const WeekdayDiscountFactors: seq<real> := [0.8, 1.2, 0.8]
  const WeekendDiscountFactor: real := 0.7

  /** The windows in the order the outer loop tries them. */
  const TimeRanges: seq<TimeRange> := WeekdayTimeRanges + WeekendTimeRanges

  /** `pd.date_range(datetime.min, datetime.min + timedelta(days=6), freq='D')` has seven days. */
  const DayCount: nat := 7

  /** The weekday (Monday = 0) of the day `day` days after datetime.min, which is a Monday. */
  function Weekday(day: int): int {
    day % 7
  }

  /** A row matches the window on the given day when its whole span lies inside it. */
  predicate Matches(r: TollRow, day: int, range: TimeRange) {
    r.startTime >= day * SecondsPerDay + range.start && r.endTime <= day * SecondsPerDay + range.end
  }

  /**
   * The factor used for window `w` on day `day`: the weekday factor of that window on
   * Monday to Friday, and the weekend factor otherwise. The weekend table's all-day window
   * has no weekday factor of its own; it takes its table's factor on every day.
   */
  function StepFactor(day: int, w: nat): real
    requires w < |TimeRanges|
  {
    if Weekday(day) < 5 && w < |WeekdayDiscountFactors| then WeekdayDiscountFactors[w]
    else WeekendDiscountFactor
  }

  /** One amount multiplied by a factor. */
  function Discounted(amount: real, factor: real): real {
    amount * factor
  }

  /** Every vehicle column of the row multiplied by `f`. */
  function Scale(r: TollRow, f: real): TollRow {
    r.(amounts := map v | v in r.amounts :: Discounted(r.amounts[v], f))
  }

  /** The row once the first `k` vehicle columns have been multiplied by `f`. */
  function ScaledUpTo(r: TollRow, f: real, k: nat): TollRow
    requires k <= |VehicleTypes|
  {
    r.(amounts := map v | v in r.amounts :: if v in VehicleTypes[..k] then Discounted(r.amounts[v], f) else r.amounts[v])
  }

  /** Multiplying column `k` of a row whose first `k` columns are done leaves the first `k + 1` done. */
  lemma ScaledNextColumn(r: TollRow, f: real, k: nat)
    requires HasAllAmounts(r)
    requires k < |VehicleTypes|
    ensures VehicleTypes[k] in ScaledUpTo(r, f, k).amounts
    ensures ScaledUpTo(r, f, k).(amounts := ScaledUpTo(r, f, k).amounts[VehicleTypes[k] :=
              Discounted(ScaledUpTo(r, f, k).amounts[VehicleTypes[k]], f)]) == ScaledUpTo(r, f, k + 1)
  {
    var p, v := ScaledUpTo(r, f, k), VehicleTypes[k];
    var a, b := p.amounts[v := Discounted(p.amounts[v], f)], ScaledUpTo(r, f, k + 1).amounts;
    assert v !in VehicleTypes[..k];
    assert a.Keys == b.Keys;
    forall u | u in a ensures a[u] == b[u] {
      if u != v {
        assert VehicleTypes[..k + 1] == VehicleTypes[..k] + [v];
        assert (u in VehicleTypes[..k + 1]) == (u in VehicleTypes[..k]);
      }
    }
    assert a == b;
    assert p.(amounts := a) == ScaledUpTo(r, f, k + 1);
  }

  /** Multiplying the five vehicle columns one after the other scales the whole row. */
  lemma ScaledAllColumns(r: TollRow, f: real)
    ensures ScaledUpTo(r, f, |VehicleTypes|) == Scale(r, f)
  {
    forall v: Vehicle ensures v in VehicleTypes[..|VehicleTypes|] {
      assert v.Moto? || v.Car? || v.Rv? || v.Bus? || v.Truck?;
      assert VehicleTypes[..|VehicleTypes|] == [Moto, Car, Rv, Bus, Truck];
    }
    var a, b := ScaledUpTo(r, f, |VehicleTypes|).amounts, Scale(r, f).amounts;
    assert a == b;
  }

  /** Scaling by `f` and then by `g` is scaling by `f * g`; scaling by 1 changes nothing. */
  lemma ScaleCompose(r: TollRow, f: real, g: real)
    ensures Scale(Scale(r, f), g) == Scale(r, f * g)
    ensures Scale(r, 1.0) == r
  {
    var a, b := Scale(Scale(r, f), g).amounts, Scale(r, f * g).amounts;
    forall v | v in a ensures a[v] == b[v] {
      assert a[v] == (r.amounts[v] * f) * g;
      assert b[v] == r.amounts[v] * (f * g);
    }
    assert a == b;
    assert Scale(r, 1.0).amounts == r.amounts;
  }

  /**
   * One (day, window, factor) step: the mask is computed once; when no row matches nothing
   * changes; otherwise every vehicle column of every matching row is multiplied by the
   * factor, and the other rows and the other columns stay as they were.
   */
  method ApplyDiscountStep(rows: array<TollRow>, day: int, range: TimeRange, factor: real)
    requires forall i :: 0 <= i < rows.Length ==> HasAllAmounts(rows[i])
    modifies rows
    ensures forall i :: 0 <= i < rows.Length ==>
              rows[i] == if Matches(old(rows[i]), day, range) then Scale(old(rows[i]), factor) else old(rows[i])
    ensures forall i :: 0 <= i < rows.Length ==> HasAllAmounts(rows[i])
  {
    assert forall i :: 0 <= i < rows.Length ==> rows[i] == ScaledUpTo(rows[i], factor, 0) by {
      forall i | 0 <= i < rows.Length ensures rows[i] == ScaledUpTo(rows[i], factor, 0) {
        assert rows[i].amounts == ScaledUpTo(rows[i], factor, 0).amounts;
      }
    }
    var mask := seq(rows.Length, i reads rows requires 0 <= i < rows.Length => Matches(rows[i], day, range));
    assert forall i :: 0 <= i < rows.Length ==> mask[i] == Matches(rows[i], day, range);
    if true !in mask {
      assert forall i :: 0 <= i < rows.Length ==> !mask[i];
      return;
    }
    for k := 0 to |VehicleTypes|
      invariant forall j :: 0 <= j < rows.Length ==>
                  rows[j] == if mask[j] then ScaledUpTo(old(rows[j]), factor, k) else old(rows[j])
    {
      var vehicleType := VehicleTypes[k];
      for i := 0 to rows.Length
        invariant forall j :: 0 <= j < rows.Length ==>
                    rows[j] == if mask[j] then ScaledUpTo(old(rows[j]), factor, if j < i then k + 1 else k)
                               else old(rows[j])
      {
        if mask[i] {
          ScaledNextColumn(old(rows[i]), factor, k);
          var row := rows[i];
          rows[i] := row.(amounts := row.amounts[vehicleType := Discounted(row.amounts[vehicleType], factor)]);
        }
      }
    }
    forall i | 0 <= i < rows.Length
      ensures rows[i] == if Matches(old(rows[i]), day, range) then Scale(old(rows[i]), factor) else old(rows[i])
      ensures HasAllAmounts(rows[i])
    {
      if mask[i] {
        ScaledAllColumns(old(rows[i]), factor);
      }
    }
  }

  /** The factors of the steps before (window `w`, day `d`) whose window holds the row, in loop order. */
  function Applied(r: TollRow, w: nat, d: nat): seq<real>
    requires (w < |TimeRanges| && d <= DayCount) || (w == |TimeRanges| && d == 0)
    decreases w, d
  {
    if d > 0 then
      Applied(r, w, d - 1) + (if Matches(r, d - 1, TimeRanges[w]) then [StepFactor(d - 1, w)] else [])
    else if w > 0 then Applied(r, w - 1, DayCount)
    else []
  }

  /** Every factor the double loop applies to the row, in the order it applies them. */
  function AppliedFactors(r: TollRow): seq<real> {
    Applied(r, |TimeRanges|, 0)
  }

  function Product(fs: seq<real>): real {
    if fs == [] then 1.0 else Product(fs[..|fs| - 1]) * fs[|fs| - 1]
  }

  /** The factor the whole double loop leaves on a row's vehicle columns. */
  function Compounded(r: TollRow): real {
    Product(AppliedFactors(r))
  }

  /**
   * The double loop over windows and days. Each row ends with every vehicle column
   * multiplied by the product of the factors of ALL the (day, window) pairs it matches.
   */
  method CalculateTimeBasedTollRates(rows: array<TollRow>)
    requires forall i :: 0 <= i < rows.Length ==> HasAllAmounts(rows[i])
    modifies rows
    ensures forall i :: 0 <= i < rows.Length ==> rows[i] == Scale(old(rows[i]), Compounded(old(rows[i])))
  {
    forall i | 0 <= i < rows.Length ensures rows[i] == Scale(rows[i], 1.0) {
      ScaleCompose(rows[i], 1.0, 1.0);
    }
    for w := 0 to |TimeRanges|
      invariant forall i :: 0 <= i < rows.Length ==> HasAllAmounts(rows[i])
      invariant forall i :: 0 <= i < rows.Length ==> rows[i] == Scale(old(rows[i]), Product(Applied(old(rows[i]), w, 0)))
    {
      var range := TimeRanges[w];
      for day := 0 to DayCount
        invariant forall i :: 0 <= i < rows.Length ==> HasAllAmounts(rows[i])
        invariant forall i :: 0 <= i < rows.Length ==> rows[i] == Scale(old(rows[i]), Product(Applied(old(rows[i]), w, day)))
      {
        var discountFactor := StepFactor(day, w);
        ghost var before := rows[..];
        ApplyDiscountStep(rows, day, range, discountFactor);
        forall i | 0 <= i < rows.Length
          ensures rows[i] == Scale(old(rows[i]), Product(Applied(old(rows[i]), w, day + 1)))
        {
          StepExtendsApplied(old(rows[i]), before[i], rows[i], w, day);
        }
      }
    }
  }

  /** One step of the loop adds the step's factor to what the row has received exactly when it matches. */
  lemma StepExtendsApplied(original: TollRow, before: TollRow, after: TollRow, w: nat, day: nat)
    requires w < |TimeRanges| && day < DayCount
    requires before == Scale(original, Product(Applied(original, w, day)))
    requires after == if Matches(before, day, TimeRanges[w]) then Scale(before, StepFactor(day, w)) else before
    ensures after == Scale(original, Product(Applied(original, w, day + 1)))
  {
    var applied := Applied(original, w, day);
    assert Matches(before, day, TimeRanges[w]) == Matches(original, day, TimeRanges[w]);
    var f := StepFactor(day, w);
    if Matches(original, day, TimeRanges[w]) {
      assert Applied(original, w, day + 1) == applied + [f];
      calc {
        after;
        Scale(Scale(original, Product(applied)), f);
        { ScaleCompose(original, Product(applied), f); }
        Scale(original, Product(applied) * f);
        { ProductSnoc(applied, f); }
        Scale(original, Product(applied + [f]));
      }
    } else {
      assert Applied(original, w, day + 1) == applied + [];
      assert applied + [] == applied;
    }
  }

  lemma ProductSnoc(fs: seq<real>, f: real)
    ensures Product(fs + [f]) == Product(fs) * f
  {
    assert (fs + [f])[..|fs|] == fs;
  }

  /**
   * The weekday windows are contiguous and together span the whole day, the weekend table
   * has one all-day window, and the seven reference days are Monday to Sunday.
   */
  lemma RuleTablesWellFormed()
    ensures |WeekdayTimeRanges| == |WeekdayDiscountFactors| == 3
    ensures WeekdayTimeRanges[0].start == 0 && WeekdayTimeRanges[2].end == SecondsPerDay - 1
    ensures forall i :: 0 <= i < 2 ==> WeekdayTimeRanges[i].end == WeekdayTimeRanges[i + 1].start
    ensures |WeekendTimeRanges| == 1
    ensures WeekendTimeRanges[0].start == 0 && WeekendTimeRanges[0].end == SecondsPerDay - 1
    ensures forall k :: 0 <= k < DayCount ==> Weekday(k) == k
    ensures forall k :: 0 <= k < DayCount ==> (Weekday(k) < 5 <==> k < 5)
  {
  }

  /**
   * Every second of a day lies in a weekday window, and in exactly one of them unless it is
   * 10:00:00 or 18:00:00, where two windows meet and both contain it.
   */
  lemma WeekdayWindowsCoverTheDay(t: int)
    requires 0 <= t < SecondsPerDay
    ensures exists w :: 0 <= w < |WeekdayTimeRanges| &&
              WeekdayTimeRanges[w].start <= t <= WeekdayTimeRanges[w].end
    ensures t != 36000 && t != 64800 ==>
              forall w, w' :: 0 <= w < w' < |WeekdayTimeRanges| ==>
                !(WeekdayTimeRanges[w].start <= t <= WeekdayTimeRanges[w].end &&
                  WeekdayTimeRanges[w'].start <= t <= WeekdayTimeRanges[w'].end)
  {
    if t <= 36000 {
      assert WeekdayTimeRanges[0].start <= t <= WeekdayTimeRanges[0].end;
    } else if t <= 64800 {
      assert WeekdayTimeRanges[1].start <= t <= WeekdayTimeRanges[1].end;
    } else {
      assert WeekdayTimeRanges[2].start <= t <= WeekdayTimeRanges[2].end;
    }
  }

  /** A row whose whole span lies within day `day`. */
  predicate WithinDay(r: TollRow, day: int) {
    day * SecondsPerDay <= r.startTime <= r.endTime <= day * SecondsPerDay + SecondsPerDay - 1
  }

  /**
   * On the row's own day, the mask compares times of day: the window holds the row exactly
   * when the row starts at or after the window's start time and ends at or before its end time.
   */
  lemma MatchesOnOwnDay(r: TollRow, range: TimeRange)
    requires WithinDay(r, DayOf(r.startTime))
    requires 0 <= range.start && range.end < SecondsPerDay
    ensures Matches(r, DayOf(r.startTime), range) <==>
              range.start <= TimeOfDay(r.startTime) && TimeOfDay(r.endTime) <= range.end
  {
    var day := DayOf(r.startTime);
    DayAndTimeOfDay(r.startTime);
    DayAndTimeOfDay(r.endTime);
    assert DayOf(r.endTime) == day;
  }

  /** Every window lies inside a day, so a row within day `day` matches no window of another day. */
  lemma OtherDaysDoNotMatch(r: TollRow, day: int, d: int, w: nat)
    requires WithinDay(r, day)
    requires w < |TimeRanges| && d != day
    ensures !Matches(r, d, TimeRanges[w])
  {
    assert 0 <= TimeRanges[w].start && TimeRanges[w].end <= SecondsPerDay - 1;
    if d < day {
      assert d * SecondsPerDay + SecondsPerDay <= day * SecondsPerDay;
    } else {
      assert day * SecondsPerDay + SecondsPerDay <= d * SecondsPerDay;
    }
  }

  /** What window `w` contributes on day `day`: its factor when it holds the row on that day of the reference week. */
  function OwnDayFactors(r: TollRow, day: int, w: nat): seq<real>
    requires w < |TimeRanges|
  {
    if 0 <= day < DayCount && Matches(r, day, TimeRanges[w]) then [StepFactor(day, w)] else []
  }

  /** Over the days of window `w`, only the row's own day can contribute a factor. */
  lemma {:induction false} DaysApplied(r: TollRow, day: int, w: nat, d: nat)
    requires WithinDay(r, day)
    requires w < |TimeRanges| && d <= DayCount
    ensures Applied(r, w, d) == Applied(r, w, 0) + (if day < d then OwnDayFactors(r, day, w) else [])
  {
    if d > 0 {
      DaysApplied(r, day, w, d - 1);
      if d - 1 != day {
        OtherDaysDoNotMatch(r, day, d - 1, w);
      }
    }
  }

  /** The factors of the first `w` windows on day `day`, in window order. */
  function DayFactors(r: TollRow, day: int, w: nat): seq<real>
    requires w <= |TimeRanges|
  {
    if w == 0 then [] else DayFactors(r, day, w - 1) + OwnDayFactors(r, day, w - 1)
  }

  lemma {:induction false} WindowsApplied(r: TollRow, day: int, w: nat)
    requires WithinDay(r, day)
    requires w <= |TimeRanges|
    ensures Applied(r, w, 0) == DayFactors(r, day, w)
  {
    if w > 0 {
      WindowsApplied(r, day, w - 1);
      DaysApplied(r, day, w - 1, DayCount);
      if day >= DayCount {
        assert OwnDayFactors(r, day, w - 1) == [];
      }
    }
  }

  /**
   * For a row within one day, the double loop applies the factor of EVERY window that holds
   * its span on that day, one after the other in window order, and nothing when the day is
   * outside the seven reference days.
   */
  lemma CompoundedWithinOneDay(r: TollRow, day: int)
    requires WithinDay(r, day)
    ensures AppliedFactors(r) ==
              OwnDayFactors(r, day, 0) + OwnDayFactors(r, day, 1) + OwnDayFactors(r, day, 2) + OwnDayFactors(r, day, 3)
  {
    WindowsApplied(r, day, |TimeRanges|);
    assert DayFactors(r, day, 1) == OwnDayFactors(r, day, 0);
    assert DayFactors(r, day, 2) == OwnDayFactors(r, day, 0) + OwnDayFactors(r, day, 1);
    assert DayFactors(r, day, 3) == OwnDayFactors(r, day, 0) + OwnDayFactors(r, day, 1) + OwnDayFactors(r, day, 2);
  }

  /** The product of two factors applied one after the other. */
  lemma ProductOfTwo(a: real, b: real)
    ensures Product([a, b]) == a * b
  {
    assert [a, b][..1] == [a];
    assert [a][..0] == [];
    assert Product([a]) == 1.0 * a;
    assert Product([a, b]) == Product([a]) * b;
  }

  /**
   * A row inside exactly one weekday window on Monday to Friday is multiplied by that
   * window's factor AND THEN by the weekend table's factor, because it also lies in the
   * all-day window of the weekend table on the same day.
   */
  lemma WeekdayRowIsDiscountedTwice(r: TollRow, day: int, w: nat)
    requires 0 <= day < 5 && WithinDay(r, day)
    requires w < |WeekdayTimeRanges| && Matches(r, day, WeekdayTimeRanges[w])
    requires forall w' :: 0 <= w' < |WeekdayTimeRanges| && w' != w ==> !Matches(r, day, WeekdayTimeRanges[w'])
    ensures AppliedFactors(r) == [WeekdayDiscountFactors[w], WeekendDiscountFactor]
    ensures Compounded(r) == WeekdayDiscountFactors[w] * WeekendDiscountFactor
  {
    CompoundedWithinOneDay(r, day);
    assert OwnDayFactors(r, day, 3) == [WeekendDiscountFactor];
    assert TimeRanges[w] == WeekdayTimeRanges[w];
    assert OwnDayFactors(r, day, w) == [WeekdayDiscountFactors[w]];
    assert forall w' :: 0 <= w' < 3 && w' != w ==> TimeRanges[w'] == WeekdayTimeRanges[w'] && OwnDayFactors(r, day, w') == [];
    ProductOfTwo(WeekdayDiscountFactors[w], WeekendDiscountFactor);
  }

  /** Tuesday 09:00:00 to 09:30:00: the weekday factor 0.8 and then the weekend factor 0.7. */
  lemma TuesdayMorningCompounds(r: TollRow)
    requires r.startTime == SecondsPerDay + 32400 && r.endTime == SecondsPerDay + 34200
    ensures AppliedFactors(r) == [0.8, 0.7]
    ensures Compounded(r) == 0.56
  {
    WeekdayRowIsDiscountedTwice(r, 1, 0);
  }

  /** Saturday 09:00:00 to 09:30:00: the weekend factor twice, from the morning window and the all-day window. */
  lemma SaturdayMorningCompounds(r: TollRow)
    requires r.startTime == 5 * SecondsPerDay + 32400 && r.endTime == 5 * SecondsPerDay + 34200
    ensures AppliedFactors(r) == [0.7, 0.7]
    ensures Compounded(r) == 0.49
  {
    CompoundedWithinOneDay(r, 5);
    assert OwnDayFactors(r, 5, 0) == [0.7];
    assert OwnDayFactors(r, 5, 1) == [] && OwnDayFactors(r, 5, 2) == [];
    assert OwnDayFactors(r, 5, 3) == [0.7];
    ProductOfTwo(0.7, 0.7);
  }

  /**
   * Tuesday 09:30:00 to 10:30:00 crosses the boundary between the first two weekday windows,
   * so neither holds it and only the all-day window of the weekend table does: the loop
   * applies the weekend factor alone.
   */
  lemma TuesdaySpanAcrossTenGetsAllDayFactorOnly(r: TollRow)
    requires r.startTime == SecondsPerDay + 34200 && r.endTime == SecondsPerDay + 37800
    ensures AppliedFactors(r) == [0.7]
    ensures Compounded(r) == 0.7
  {
    CompoundedWithinOneDay(r, 1);
    assert OwnDayFactors(r, 1, 0) == [] && OwnDayFactors(r, 1, 1) == [] && OwnDayFactors(r, 1, 2) == [];
    assert OwnDayFactors(r, 1, 3) == [0.7];
    assert AppliedFactors(r) == [0.7];
    assert [0.7][..0] == [];
  }

  /** A row within a day outside the seven reference days matches nothing and is left as it is. */
  lemma RowOutsideReferenceWeekUnchanged(r: TollRow, day: int)
    requires WithinDay(r, day) && (day < 0 || day >= DayCount)
    ensures AppliedFactors(r) == []
    ensures Compounded(r) == 1.0
  {
    CompoundedWithinOneDay(r, day);
  }

  // The evident intent, which the loop above does not meet: each row gets the factor of ONE
  // rule, chosen by the row's own day class, and a row whose span fits no window of that
  // class is reported instead of being left undiscounted.

  function ClassRanges(day: int): seq<TimeRange> {
    if Weekday(day) < 5 then WeekdayTimeRanges else WeekendTimeRanges
  }

  function ClassFactors(day: int): (fs: seq<real>)
    ensures |fs| == |ClassRanges(day)|
  {
    if Weekday(day) < 5 then WeekdayDiscountFactors else [WeekendDiscountFactor]
  }

  /** The factor of the first window from index `w` on that holds the row's span on `day`. */
  function FirstMatchingFactor(r: TollRow, day: int, w: nat): (f: Option<real>)
    requires w <= |ClassRanges(day)|
    ensures f.Some? ==> exists i :: w <= i < |ClassRanges(day)| &&
                          Matches(r, day, ClassRanges(day)[i]) && f.value == ClassFactors(day)[i]
    ensures f.None? ==> forall i :: w <= i < |ClassRanges(day)| ==> !Matches(r, day, ClassRanges(day)[i])
    decreases |ClassRanges(day)| - w
  {
    if w == |ClassRanges(day)| then None
    else if Matches(r, day, ClassRanges(day)[w]) then Some(ClassFactors(day)[w])
    else FirstMatchingFactor(r, day, w + 1)
  }

  /**
   * The single factor the row should receive: that of the first window of its day class
   * holding its span on the day it starts; None marks a malformed time window (a span
   * crossing a window boundary or midnight).
   */
  function IntendedFactor(r: TollRow): (f: Option<real>)
    ensures f.Some? ==> exists i :: 0 <= i < |ClassRanges(DayOf(r.startTime))| &&
                          Matches(r, DayOf(r.startTime), ClassRanges(DayOf(r.startTime))[i]) &&
                          f.value == ClassFactors(DayOf(r.startTime))[i]
    ensures f.None? <==> forall i :: 0 <= i < |ClassRanges(DayOf(r.startTime))| ==>
              !Matches(r, DayOf(r.startTime), ClassRanges(DayOf(r.startTime))[i])
  {
    FirstMatchingFactor(r, DayOf(r.startTime), 0)
  }

  /** The intended rule gives the Tuesday morning row 0.8 and the Saturday morning row 0.7. */
  lemma IntendedScenarios(tuesday: TollRow, saturday: TollRow)
    requires tuesday.startTime == SecondsPerDay + 32400 && tuesday.endTime == SecondsPerDay + 34200
    requires saturday.startTime == 5 * SecondsPerDay + 32400 && saturday.endTime == 5 * SecondsPerDay + 34200
    ensures IntendedFactor(tuesday) == Some(0.8)
    ensures IntendedFactor(saturday) == Some(0.7)
  {
    assert DayOf(tuesday.startTime) == 1;
    assert DayOf(saturday.startTime) == 5;
  }

  /** On a weekday, what the loop applies is the intended factor times the weekend factor. */
  lemma CompoundedVersusIntended(r: TollRow, day: int, w: nat)
    requires 0 <= day < 5 && WithinDay(r, day)
    requires w < |WeekdayTimeRanges| && Matches(r, day, WeekdayTimeRanges[w])
    requires forall w' :: 0 <= w' < |WeekdayTimeRanges| && w' != w ==> !Matches(r, day, WeekdayTimeRanges[w'])
    ensures IntendedFactor(r) == Some(WeekdayDiscountFactors[w])
    ensures Compounded(r) == IntendedFactor(r).value * WeekendDiscountFactor
  {
    assert DayOf(r.startTime) == day;
    assert ClassRanges(day) == WeekdayTimeRanges;
    WeekdayRowIsDiscountedTwice(r, day, w);
  }

  /**
   * The intended engine: one pass over the rows; a row with a matching rule has every vehicle
   * column multiplied once by that rule's factor, and the positions of the rows that fit no
   * window are returned, in row order, instead of being discounted.
   */
  method ApplyIntendedDiscount(rows: array<TollRow>) returns (malformed: seq<int>)
    modifies rows
    ensures forall i :: 0 <= i < rows.Length ==>
              rows[i] == match IntendedFactor(old(rows[i]))
                         case Some(f) => Scale(old(rows[i]), f)
                         case None => old(rows[i])
    ensures forall i :: i in malformed <==> 0 <= i < rows.Length && IntendedFactor(old(rows[i])).None?
    ensures forall i, j :: 0 <= i < j < |malformed| ==> malformed[i] < malformed[j]
  {
    malformed := [];
    for i := 0 to rows.Length
      invariant forall j :: 0 <= j < i ==>
                  rows[j] == match IntendedFactor(old(rows[j]))
                             case Some(f) => Scale(old(rows[j]), f)
                             case None => old(rows[j])
      invariant forall j :: i <= j < rows.Length ==> rows[j] == old(rows[j])
      invariant forall j :: j in malformed <==> 0 <= j < i && IntendedFactor(old(rows[j])).None?
      invariant forall j, k :: 0 <= j < k < |malformed| ==> malformed[j] < malformed[k]
      invariant forall j :: 0 <= j < |malformed| ==> malformed[j] < i
    {
      match IntendedFactor(rows[i])
      case Some(f) =>
        rows[i] := Scale(rows[i], f);
      case None =>
        malformed := malformed + [i];
    }
  }
}
