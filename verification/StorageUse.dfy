/** Monthly storage use of one user: GB-hours accumulated from measurements of the size stored. */
module StorageUse {
  import opened Calendar

  datatype Use = Use(gbHours: real, gb: real, updateTime: Instant)

  /** A measured size at an instant. */
  datatype Measurement = Measurement(gb: real, now: Instant)

  function Later(a: Instant, b: Instant): Instant {
    if a >= b then a else b
  }

  function DetermineCurrentStorageUse(last: Use, gbUsed: real, now: Instant): Use {
    var useStart := Later(Start(MonthOf(now)), last.updateTime);
    var hoursUsed := HoursBetween(useStart, now);
    var averageUsed := (last.gb + gbUsed) / 2.0;
    Use(Carried(last, now) + averageUsed * hoursUsed, gbUsed, now)
  }

  /** GB-hours are counted from zero every month. */
  function Carried(last: Use, now: Instant): real {
    if MonthOf(now) == MonthOf(last.updateTime) then last.gbHours else 0.0
  }

  function CalculateSpending(use: Use, costPerGbMonth: real, now: Instant): real {
    use.gbHours * costPerGbMonth / Days(MonthOf(now)) as real / 24.0
  }

  // ---- Whole runs

  ghost predicate InOrder(ms: seq<Measurement>) {
    && (forall i :: 0 <= i < |ms| ==> 0.0 <= ms[i].gb)
    && (forall i, j :: 0 <= i < j < |ms| ==> ms[i].now <= ms[j].now)
  }

  ghost predicate AtMost(ms: seq<Measurement>, bound: real) {
    forall i :: 0 <= i < |ms| ==> ms[i].gb <= bound
  }

  function Front(ms: seq<Measurement>): seq<Measurement>
    requires ms != []
  {
    ms[..|ms| - 1]
  }

  function Last(ms: seq<Measurement>): Measurement
    requires ms != []
  {
    ms[|ms| - 1]
  }

  /**
   * The use that the next measurement is added to. Without a row the repository answers zeros at its own clock
   * reading, taken delay after the reading that dates the first measurement.
   */
  function Before(ms: seq<Measurement>, delay: nat): (use: Use)
    requires ms != []
    ensures 2 <= |ms| ==> use.gb == ms[|ms| - 2].gb && use.updateTime == ms[|ms| - 2].now
    decreases |ms|, 0
  {
    if |ms| == 1 then Use(0.0, 0.0, ms[0].now + delay) else Accumulated(Front(ms), delay)
  }

  /** The stored use after a non-empty run. */
  function Accumulated(ms: seq<Measurement>, delay: nat): (use: Use)
    requires ms != []
    ensures use.gb == Last(ms).gb && use.updateTime == Last(ms).now
    decreases |ms|, 1
  {
    DetermineCurrentStorageUse(Before(ms, delay), Last(ms).gb, Last(ms).now)
  }

  lemma ProductBounds(a: real, bound: real, h: real)
    requires 0.0 <= a <= bound && 0.0 <= h
    ensures 0.0 <= a * h <= bound * h
  {}

  lemma Distribute(a: real, x: real, y: real)
    ensures a * x + a * y == a * (x + y)
  {}

  lemma MinusProduct(a: real, b: real)
    ensures a * -b == -(a * b)
  {}

  /** What one update adds when the clock does not run backwards. */
  lemma Increment(last: Use, gbUsed: real, now: Instant, bound: real)
    requires last.updateTime <= now && 0.0 <= last.gb <= bound && 0.0 <= gbUsed <= bound
    ensures var from := Later(Start(MonthOf(now)), last.updateTime);
      && from <= now
      && Carried(last, now) <= DetermineCurrentStorageUse(last, gbUsed, now).gbHours
      && DetermineCurrentStorageUse(last, gbUsed, now).gbHours <= Carried(last, now) + bound * HoursBetween(from, now)
  {
    hide Start, MonthOf, MonthFrom, HoursBetween, Carried;
    var from := Later(Start(MonthOf(now)), last.updateTime);
    HoursAdd(from, now, now);
    ProductBounds((last.gb + gbUsed) / 2.0, bound, HoursBetween(from, now));
  }

  lemma {:induction false} EqualReadingsBound(ms: seq<Measurement>, bound: real)
    requires ms != [] && InOrder(ms) && AtMost(ms, bound)
    ensures var now := Last(ms).now;
      0.0 <= Accumulated(ms, 0).gbHours <= bound * HoursBetween(Start(MonthOf(now)), now)
  {
    hide Start, MonthOf, MonthFrom, HoursBetween, DetermineCurrentStorageUse;
    var now, last := Last(ms).now, Before(ms, 0);
    assert 0.0 <= Last(ms).gb <= bound;
    HoursOfMonth(now);
    ProductBounds(0.0, bound, HoursBetween(Start(MonthOf(now)), now));
    Increment(last, Last(ms).gb, now, bound);
    MonthMonotone(last.updateTime, now);
    if |ms| == 1 {
      SameMonthHours(bound, now, now);
    } else {
      EqualReadingsBound(Front(ms), bound);
      if MonthOf(now) == MonthOf(last.updateTime) {
        SameMonthHours(bound, last.updateTime, now);
      }
    }
  }

  /** A size over the month so far is that size over its two parts. */
  lemma SameMonthHours(gb: real, middle: Instant, now: Instant)
    requires MonthOf(middle) == MonthOf(now) && middle <= now
    ensures var month := Start(MonthOf(now));
      && Later(month, middle) == middle
      && gb * HoursBetween(month, middle) + gb * HoursBetween(middle, now) == gb * HoursBetween(month, now)
  {
    hide Start, MonthOf, MonthFrom, HoursBetween;
    HasStarted(middle);
    var month := Start(MonthOf(now));
    HoursAdd(month, middle, now);
    Distribute(gb, HoursBetween(month, middle), HoursBetween(middle, now));
  }

  /** Within a month the GB-hours never decrease. */
  lemma NeverDecreases(ms: seq<Measurement>, delay: nat)
    requires 2 <= |ms| && InOrder(ms)
    requires MonthOf(ms[|ms| - 2].now) == MonthOf(Last(ms).now)
    ensures Accumulated(Front(ms), delay).gbHours <= Accumulated(ms, delay).gbHours
  {
    hide Start, MonthOf, MonthFrom, HoursBetween, DetermineCurrentStorageUse;
    var last := Accumulated(Front(ms), delay);
    assert 0.0 <= ms[|ms| - 2].gb && 0.0 <= Last(ms).gb && ms[|ms| - 2].now <= Last(ms).now;
    Increment(last, Last(ms).gb, Last(ms).now, last.gb + Last(ms).gb);
  }

  /** With a constant size the GB-hours are exactly the size times the hours since the first measurement or the month's first. */
  lemma {:induction false} ConstantSize(ms: seq<Measurement>, gb: real)
    requires ms != [] && InOrder(ms) && forall i :: 0 <= i < |ms| ==> ms[i].gb == gb
    ensures var now := Last(ms).now;
      Accumulated(ms, 0).gbHours == gb * HoursBetween(Later(Start(MonthOf(now)), ms[0].now), now)
  {
    hide Start, MonthOf, MonthFrom, HoursBetween, DetermineCurrentStorageUse;
    var now := Last(ms).now;
    if |ms| == 1 {
      FirstUse(ms[0], 0);
      FromNow(gb, now);
    } else {
      ConstantSize(Front(ms), gb);
      var last := ms[|ms| - 2].now;
      assert Last(Front(ms)) == ms[|ms| - 2] && Front(ms)[0] == ms[0];
      assert ms[0].now <= last <= now;
      NextUse(Before(ms, 0), gb, now, gb);
      ConstantStep(gb, ms[0].now, last, now);
    }
  }

  lemma NextUse(last: Use, gbUsed: real, now: Instant, average: real)
    requires last.gb + gbUsed == average + average
    ensures DetermineCurrentStorageUse(last, gbUsed, now).gbHours ==
              Carried(last, now) + average * HoursBetween(Later(Start(MonthOf(now)), last.updateTime), now)
  {
    hide Start, MonthOf, MonthFrom, HoursBetween, Carried;
    assert (last.gb + gbUsed) / 2.0 == average;
  }

  lemma FromNow(gb: real, now: Instant)
    ensures gb * HoursBetween(Later(Start(MonthOf(now)), now), now) == 0.0
  {
    hide Start, MonthOf, MonthFrom;
    HasStarted(now);
    assert HoursBetween(now, now) == 0.0;
  }

  /** With no row the first increment runs backwards, over the time between the two clock readings. */
  lemma FirstIncrement(gb: real, now: Instant, delay: nat)
    ensures DetermineCurrentStorageUse(Use(0.0, 0.0, now + delay), gb, now).gbHours == -(gb / 2.0 * HoursBetween(0, delay))
  {
    hide Start, MonthOf, MonthFrom, HoursBetween, DetermineCurrentStorageUse;
    var last := Use(0.0, 0.0, now + delay);
    HasStarted(now);
    NextUse(last, gb, now, gb / 2.0);
    Backwards(now, delay);
    MinusProduct(gb / 2.0, HoursBetween(0, delay));
  }

  lemma FirstUse(m: Measurement, delay: nat)
    ensures Accumulated([m], delay).gbHours == -(m.gb / 2.0 * HoursBetween(0, delay))
    ensures delay == 0 ==> Accumulated([m], delay).gbHours == 0.0
  {
    hide Start, MonthOf, MonthFrom, HoursBetween, DetermineCurrentStorageUse;
    FirstIncrement(m.gb, m.now, delay);
    Backwards(m.now, delay);
  }

  lemma Backwards(now: Instant, delay: nat)
    ensures HoursBetween(now + delay, now) == -HoursBetween(0, delay)
    ensures delay == 0 <==> HoursBetween(0, delay) == 0.0
  {}

  lemma ConstantStep(gb: real, first: Instant, last: Instant, now: Instant)
    requires first <= last <= now
    ensures var month := Start(MonthOf(now));
      var carried := if MonthOf(now) == MonthOf(last) then gb * HoursBetween(Later(Start(MonthOf(last)), first), last) else 0.0;
      carried + gb * HoursBetween(Later(month, last), now) == gb * HoursBetween(Later(month, first), now)
  {
    hide Start, MonthFrom;
    MonthMonotone(last, now);
    MonthMonotone(first, last);
    if MonthOf(now) == MonthOf(last) {
      SameMonthHours(gb, last, now);
      hide MonthOf, HoursBetween;
      var from := Later(Start(MonthOf(now)), first);
      HoursAdd(from, last, now);
      Distribute(gb, HoursBetween(from, last), HoursBetween(last, now));
    }
  }

  /** Half the first size times the hours between the two clock readings of the first measurement, in its month only. */
  function Shortfall(ms: seq<Measurement>, delay: nat): real
    requires ms != []
  {
    if MonthOf(Last(ms).now) == MonthOf(ms[0].now) then ms[0].gb / 2.0 * HoursBetween(0, delay) else 0.0
  }

  /** The GB-hours are short by exactly that of what they are for equal readings. */
  lemma {:induction false} FirstReadingDelay(ms: seq<Measurement>, delay: nat)
    requires ms != [] && InOrder(ms)
    ensures Accumulated(ms, delay).gbHours == Accumulated(ms, 0).gbHours -
              Shortfall(ms, delay)
  {
    hide Start, MonthOf, MonthFrom, HoursBetween, DetermineCurrentStorageUse;
    var now := Last(ms).now;
    if |ms| == 1 {
      assert ms == [ms[0]];
      FirstUse(ms[0], delay);
      FirstUse(ms[0], 0);
    } else {
      FirstReadingDelay(Front(ms), delay);
      SameIncrement(Before(ms, delay), Before(ms, 0), Last(ms).gb, now);
      MonthMonotone(ms[0].now, ms[|ms| - 2].now);
      MonthMonotone(ms[|ms| - 2].now, now);
      assert Last(Front(ms)) == ms[|ms| - 2] && Front(ms)[0] == ms[0];
    }
  }

  lemma SameIncrement(a: Use, b: Use, gbUsed: real, now: Instant)
    requires a.gb == b.gb && a.updateTime == b.updateTime
    ensures DetermineCurrentStorageUse(a, gbUsed, now).gbHours - Carried(a, now) ==
            DetermineCurrentStorageUse(b, gbUsed, now).gbHours - Carried(b, now)
  {
    hide Start, MonthOf, MonthFrom, HoursBetween, Carried;
  }

  /**
   * For every run of measurements in time order: the GB-hours are at most the largest size measured times the hours
   * since the first of the month, and at least zero but for the shortfall of the first readings.
   */
  lemma AccumulationBound(ms: seq<Measurement>, delay: nat, bound: real)
    requires ms != [] && InOrder(ms) && AtMost(ms, bound)
    ensures var now := Last(ms).now;
      -Shortfall(ms, delay) <= Accumulated(ms, delay).gbHours <= bound * HoursBetween(Start(MonthOf(now)), now)
    ensures 0.0 <= Shortfall(ms, delay)
  {
    EqualReadingsBound(ms, bound);
    FirstReadingDelay(ms, delay);
    assert 0.0 <= ms[0].gb && 0.0 <= HoursBetween(0, delay);
    hide Start, MonthOf, MonthFrom, HoursBetween, Accumulated;
    ProductBounds(ms[0].gb / 2.0, ms[0].gb, HoursBetween(0, delay));
  }

  /** So a month never costs more than keeping the largest size measured for the whole month, and only the shortfall less than nothing. */
  lemma SpendingBound(ms: seq<Measurement>, delay: nat, bound: real, cost: real)
    requires ms != [] && InOrder(ms) && AtMost(ms, bound) && 0.0 <= cost
    ensures var now := Last(ms).now;
      && CalculateSpending(Accumulated(ms, delay), cost, now) <= bound * cost
      && CalculateSpending(Accumulated(ms, delay).(gbHours := -Shortfall(ms, delay)), cost, now)
           <= CalculateSpending(Accumulated(ms, delay), cost, now)
  {
    hide Start, MonthOf, MonthFrom, HoursBetween, Days, Accumulated, Shortfall;
    var now := Last(ms).now;
    AccumulationBound(ms, delay, bound);
    HoursOfMonth(now);
    var days, hours := Days(MonthOf(now)) as real, HoursBetween(Start(MonthOf(now)), now);
    assert 0.0 <= Last(ms).gb <= bound;
    ProductBounds(hours, days * 24.0, bound);
    ScaledOrder(Accumulated(ms, delay).gbHours, bound * (days * 24.0), days, cost);
    ScaledOrder(-Shortfall(ms, delay), Accumulated(ms, delay).gbHours, days, cost);
    FullMonth(bound, days, cost);
  }

  lemma ScaledOrder(x: real, y: real, days: real, cost: real)
    requires x <= y && 0.0 < days && 0.0 <= cost
    ensures x * cost / days / 24.0 <= y * cost / days / 24.0
  {
    ProductBounds(0.0, y - x, cost);
    assert (y - x) * cost == y * cost - x * cost;
    QuotientOrder(x * cost, y * cost, days);
  }

  lemma QuotientOrder(x: real, y: real, days: real)
    requires x <= y && 0.0 < days
    ensures x / days <= y / days
  {
    var a, b := x / days, y / days;
    assert a * days == x && b * days == y;
    assert a <= b || (a - b) * days > 0.0;
  }

  lemma FullMonth(bound: real, days: real, cost: real)
    requires 0.0 < days
    ensures bound * (days * 24.0) * cost / days / 24.0 == bound * cost
  {
    var q := bound * cost;
    assert bound * (days * 24.0) * cost == (q * 24.0) * days;
  }

  /** The first row of a user is negative exactly when something is stored and the second reading is later. */
  lemma FirstRowNegative(m: Measurement, delay: nat)
    requires 0.0 <= m.gb
    ensures Accumulated([m], delay).gbHours < 0.0 <==> 0.0 < m.gb && 0 < delay
  {
    FirstUse(m, delay);
    hide Start, MonthOf, MonthFrom, Accumulated;
    if 0.0 < m.gb && 0 < delay {
      assert 0.0 < HoursBetween(0, delay);
      PositiveProduct(m.gb / 2.0, HoursBetween(0, delay));
    }
  }

  lemma PositiveProduct(a: real, b: real)
    requires 0.0 < a && 0.0 < b
    ensures 0.0 < a * b
  {}

  /** Two measurements in one month: the average of the sizes for the hours between them. */
  lemma Trapezoid(a: Measurement, b: Measurement)
    requires a.now <= b.now && MonthOf(a.now) == MonthOf(b.now)
    ensures Accumulated([a, b], 0).gbHours == (a.gb + b.gb) / 2.0 * HoursBetween(a.now, b.now)
  {
    hide Start, MonthOf, MonthFrom, HoursBetween, DetermineCurrentStorageUse;
    assert Front([a, b]) == [a];
    FirstUse(a, 0);
    NextUse(Before([a, b], 0), b.gb, b.now, (a.gb + b.gb) / 2.0);
    HasStarted(a.now);
  }

  /** A size kept for a whole month costs that size times the monthly cost of a gigabyte. */
  lemma WholeMonthCosts(gb: real, cost: real, use: Use, now: Instant)
    requires use.gbHours == gb * HoursBetween(Start(MonthOf(now)), Start(MonthOf(now) + 1))
    ensures CalculateSpending(use, cost, now) == gb * cost
  {
    hide Start, MonthOf, MonthFrom, HoursBetween, Days;
    HoursTold(0, MonthOf(now));
    DaysPositive(MonthOf(now));
    FullMonth(gb, Days(MonthOf(now)) as real, cost);
  }

  lemma DaysPositive(k: Month)
    ensures 0 < Days(k)
  {}

  /** And costs are in proportion to the GB-hours. */
  lemma SpendingScales(use: Use, cost: real, now: Instant, factor: real)
    ensures CalculateSpending(use.(gbHours := factor * use.gbHours), cost, now) == factor * CalculateSpending(use, cost, now)
  {
    hide MonthOf, Days;
    var days := Days(MonthOf(now)) as real;
    DaysPositive(MonthOf(now));
    assert factor * use.gbHours * cost == factor * (use.gbHours * cost);
    ScaledQuotient(use.gbHours * cost, days, factor);
  }

  lemma ScaledQuotient(x: real, days: real, factor: real)
    requires 0.0 < days
    ensures factor * x / days / 24.0 == factor * (x / days / 24.0)
  {
    var q := x / days;
    assert q * days == x;
    assert factor * x == (factor * q) * days;
  }

  // ---- The stored rows, one per month

  /** The rows a run leaves: each month keeps the use at its last measurement. */
  function Rows(ms: seq<Measurement>, delay: nat): map<Month, Use> {
    if ms == [] then map[] else Rows(Front(ms), delay)[MonthOf(Last(ms).now) := Accumulated(ms, delay)]
  }

  /** The row with the highest month is the one just written. */
  lemma {:induction false} LatestRow(ms: seq<Measurement>, delay: nat)
    requires InOrder(ms)
    ensures Rows(ms, delay) == map[] <==> ms == []
    ensures ms != [] ==>
      && MonthOf(Last(ms).now) in Rows(ms, delay)
      && Rows(ms, delay)[MonthOf(Last(ms).now)] == Accumulated(ms, delay)
      && forall k <- Rows(ms, delay) :: k <= MonthOf(Last(ms).now)
  {
    hide Start, MonthOf, MonthFrom, Accumulated;
    if 2 <= |ms| {
      LatestRow(Front(ms), delay);
      MonthMonotone(ms[|ms| - 2].now, Last(ms).now);
      assert Last(Front(ms)) == ms[|ms| - 2];
    } else if ms != [] {
      assert MonthOf(Last(ms).now) in Rows(ms, delay);
      assert Rows(Front(ms), delay) == map[];
    }
  }

  ghost predicate IsLatest(month: Month, months: set<Month>) {
    month in months && forall k <- months :: k <= month
  }

  lemma {:induction false} HasLatest(months: set<Month>)
    requires months != {}
    ensures exists latest :: IsLatest(latest, months)
  {
    var m :| m in months;
    var rest := months - {m};
    assert forall k <- months :: k == m || k in rest;
    if rest == {} {
      assert IsLatest(m, months);
    } else {
      HasLatest(rest);
      var latest :| IsLatest(latest, rest);
      if m <= latest {
        assert IsLatest(latest, months);
      } else {
        assert IsLatest(m, months);
      }
    }
  }

  class StorageRepository {
    var rows: map<Month, Use>

    constructor ()
      ensures rows == map[]
    {
      rows := map[];
    }

    /** The row of the latest month, or zeros at the repository's own clock reading. */
    method LastUserStorageUse(reading: Instant) returns (use: Use)
      ensures rows == map[] ==> use == Use(0.0, 0.0, reading)
      ensures forall k <- rows :: (forall j <- rows :: j <= k) ==> use == rows[k]
    {
      if rows == map[] {
        use := Use(0.0, 0.0, reading);
      } else {
        HasLatest(rows.Keys);
        ghost var month :| IsLatest(month, rows.Keys);
        var latest :| latest in rows.Keys && forall k <- rows.Keys :: k <= latest;
        use := rows[latest];
      }
    }

    method UpdateUserStorageUse(use: Use)
      modifies this
      ensures rows == old(rows)[MonthOf(use.updateTime) := use]
    {
      rows := rows[MonthOf(use.updateTime) := use];
    }
  }

  /**
   * One update through the repository is one more measurement of the run. The reading is the repository's clock,
   * consulted only when there is no row; delay is how far it was behind the first measurement's.
   */
  method UpdateStorageUseForThisMonth(repository: StorageRepository, gbUsed: real, now: Instant, reading: Instant,
                                      ghost ms: seq<Measurement>, ghost delay: nat)
    returns (use: Use)
    requires InOrder(ms + [Measurement(gbUsed, now)])
    requires repository.rows == Rows(ms, delay) && (ms == [] ==> reading == now + delay)
    modifies repository
    ensures use == Accumulated(ms + [Measurement(gbUsed, now)], delay)
    ensures repository.rows == Rows(ms + [Measurement(gbUsed, now)], delay)
  {
    hide Start, MonthOf, MonthFrom, DetermineCurrentStorageUse;
    ghost var next := ms + [Measurement(gbUsed, now)];
    FrontOf(ms, Measurement(gbUsed, now));
    LatestRow(ms, delay);
    var last := repository.LastUserStorageUse(reading);
    use := DetermineCurrentStorageUse(last, gbUsed, now);
    repository.UpdateUserStorageUse(use);
  }

  /** Reading the month so far is the same as measuring the size last seen again, and stores nothing. */
  method StorageUseForThisMonth(repository: StorageRepository, now: Instant, reading: Instant,
                                ghost ms: seq<Measurement>, ghost delay: nat)
    returns (use: Use)
    requires InOrder(ms) && (ms != [] ==> Last(ms).now <= now)
    requires repository.rows == Rows(ms, delay) && (ms == [] ==> reading == now + delay)
    ensures ms == [] ==> use == Use(0.0, 0.0, now)
    ensures ms != [] ==> use == Accumulated(ms + [Measurement(Last(ms).gb, now)], delay)
  {
    hide Start, MonthOf, MonthFrom;
    LatestRow(ms, delay);
    var last := repository.LastUserStorageUse(reading);
    if ms != [] {
      FrontOf(ms, Measurement(Last(ms).gb, now));
    }
    use := DetermineCurrentStorageUse(last, last.gb, now);
  }

  lemma FrontOf(ms: seq<Measurement>, m: Measurement)
    ensures Front(ms + [m]) == ms && Last(ms + [m]) == m
    ensures InOrder(ms + [m]) ==> InOrder(ms)
  {
    if InOrder(ms + [m]) {
      forall i, j | 0 <= i < j < |ms| ensures ms[i].now <= ms[j].now {
        assert (ms + [m])[i].now <= (ms + [m])[j].now;
      }
      forall i | 0 <= i < |ms| ensures 0.0 <= ms[i].gb {
        assert 0.0 <= (ms + [m])[i].gb;
      }
    }
  }
}
