/** Instants in milliseconds since 1970 and the UTC months they fall in, counted from January 1970. */
module Calendar {
  type Instant = nat
  /** Months since January 1970. */
  type Month = nat

  function YearOf(k: Month): nat {
    1970 + k / 12
  }

  function MonthOfYear(k: Month): nat {
    k % 12 + 1
  }

  predicate LeapYear(year: nat) {
    year % 4 == 0 && (year % 100 != 0 || year % 400 == 0)
  }

  function DaysInMonth(year: nat, month: nat): (d: nat)
    requires 1 <= month <= 12
    ensures 28 <= d <= 31
  {
    if month == 2 then (if LeapYear(year) then 29 else 28)
    else if month in {4, 6, 9, 11} then 30
    else 31
  }

  function Days(k: Month): nat {
    DaysInMonth(YearOf(k), MonthOfYear(k))
  }

  /** The length of a month in milliseconds. */
  function Length(k: Month): (ms: nat)
    ensures 28 * 86_400_000 <= ms
  {
    Days(k) * 86_400_000
  }

  /** The first instant of a month. */
  function Start(k: Month): Instant {
    if k == 0 then 0 else Start(k - 1) + Length(k - 1)
  }

  lemma {:induction false} StartIncreases(j: Month, k: Month)
    requires j < k
    ensures Start(j) < Start(j) + Length(j) == Start(j + 1) <= Start(k)
  {
    hide Length;
    if j < k - 1 {
      StartIncreases(j, k - 1);
    }
  }

  function MonthFrom(t: Instant, k: Month): (r: Month)
    requires Start(k) <= t
    ensures Start(r) <= t < Start(r + 1)
    decreases t - Start(k)
  {
    if t < Start(k + 1) then k else MonthFrom(t, k + 1)
  }

  function MonthOf(t: Instant): (r: Month)
    ensures Start(r) <= t < Start(r + 1)
  {
    MonthFrom(t, 0)
  }

  lemma HasStarted(t: Instant)
    ensures Start(MonthOf(t)) <= t < Start(MonthOf(t) + 1)
  {
    hide Start;
  }

  lemma MonthMonotone(a: Instant, b: Instant)
    requires a <= b
    ensures MonthOf(a) <= MonthOf(b) && Start(MonthOf(a)) <= Start(MonthOf(b))
    ensures MonthOf(a) < MonthOf(b) ==> a < Start(MonthOf(b))
  {
    hide Start, MonthFrom, Length;
    var j, k := MonthOf(a), MonthOf(b);
    if k < j {
      StartIncreases(k, j);
    }
    if j < k {
      StartIncreases(j, k);
    }
  }

  // ---- Against the civil calendar

  /** Days from 1970-01-01 to the first of a month of the Gregorian calendar, counting years from their first of March. */
  function CivilDays(year: nat, month: nat): int
    requires 1970 <= year && 1 <= month <= 12
  {
    var y := if month <= 2 then year - 1 else year;
    var sinceMarch := if month <= 2 then month + 9 else month - 3;
    365 * y + y / 4 - y / 100 + y / 400 + (153 * sinceMarch + 2) / 5 - 719_468
  }

  function CivilFirst(k: Month): int {
    CivilDays(1970 + k / 12, k % 12 + 1)
  }

  /** The months start where the civil calendar says, so they are as long as it says. */
  lemma {:induction false} StartIsCivil(k: Month)
    ensures Start(k) == 86_400_000 * CivilFirst(k)
    ensures Start(k + 1) - Start(k) == 86_400_000 * Days(k)
  {
    hide CivilFirst, Days;
    if k == 0 {
      FirstOfAll();
    } else {
      StartIsCivil(k - 1);
      OneMonthOn(k - 1);
    }
  }

  lemma FirstOfAll()
    ensures CivilFirst(0) == 0
  {}

  lemma OneMonthOn(k: Month)
    ensures CivilFirst(k + 1) == CivilFirst(k) + Days(k)
  {
    hide CivilDays, DaysInMonth;
    var year, month := 1970 + k / 12, k % 12 + 1;
    NextMonth(k);
    CivilMonth(year, month);
    assert Days(k) == DaysInMonth(year, month);
    assert CivilFirst(k + 1) == if month < 12 then CivilDays(year, month + 1) else CivilDays(year + 1, 1);
  }

  lemma NextMonth(k: Month)
    ensures if k % 12 < 11 then (k + 1) / 12 == k / 12 && (k + 1) % 12 == k % 12 + 1
            else (k + 1) / 12 == k / 12 + 1 && (k + 1) % 12 == 0
  {}

  lemma CivilMonth(year: nat, month: nat)
    requires 1970 <= year && 1 <= month <= 12
    ensures DaysInMonth(year, month) ==
              (if month < 12 then CivilDays(year, month + 1) else CivilDays(year + 1, 1)) - CivilDays(year, month)
  {
    hide LeapYear;
    if month == 2 {
      LeapDays(year);
    }
  }

  lemma LeapDays(year: nat)
    requires 0 < year
    ensures (year / 4 - year / 100 + year / 400) - ((year - 1) / 4 - (year - 1) / 100 + (year - 1) / 400) ==
            if LeapYear(year) then 1 else 0
  {
    By4(year);
    By100(year);
    By400(year);
  }

  lemma By4(n: nat)
    requires 0 < n
    ensures n / 4 - (n - 1) / 4 == if n % 4 == 0 then 1 else 0
  {}

  lemma By100(n: nat)
    requires 0 < n
    ensures n / 100 - (n - 1) / 100 == if n % 100 == 0 then 1 else 0
    ensures n % 100 == 0 ==> n % 4 == 0
  {
    var q, r := (n - 1) / 100, (n - 1) % 100;
    assert n == 100 * q + (r + 1) && 100 * q == 4 * (25 * q);
    assert r == 99 ==> n == 100 * (q + 1) && n == 4 * (25 * (q + 1));
  }

  lemma By400(n: nat)
    requires 0 < n
    ensures n / 400 - (n - 1) / 400 == if n % 400 == 0 then 1 else 0
    ensures n % 400 == 0 ==> n % 100 == 0
  {
    var q, r := (n - 1) / 400, (n - 1) % 400;
    assert n == 400 * q + (r + 1) && 400 * q == 100 * (4 * q);
    assert r == 399 ==> n == 400 * (q + 1) && n == 100 * (4 * (q + 1));
  }

  function HoursBetween(from: int, to: int): real {
    (to - from) as real / 3_600_000.0
  }

  /** The hours since the first of the month never exceed the hours of the month. */
  lemma HoursOfMonth(t: Instant)
    ensures 0.0 <= HoursBetween(Start(MonthOf(t)), t) < Days(MonthOf(t)) as real * 24.0
  {
    var k := MonthOf(t);
    StartIncreases(k, k + 1);
    hide Start, MonthOf, Days;
    assert t - Start(k) < Days(k) * 86_400_000;
  }

  lemma HoursAdd(a: int, b: int, c: int)
    ensures HoursBetween(a, b) + HoursBetween(b, c) == HoursBetween(a, c)
    ensures a <= b ==> 0.0 <= HoursBetween(a, b)
  {}

  /** An hour is one, and a month has twenty-four for each of its days. */
  lemma HoursTold(a: int, k: Month)
    ensures HoursBetween(a, a + 3_600_000) == 1.0
    ensures HoursBetween(Start(k), Start(k + 1)) == Days(k) as real * 24.0
  {
    StartIsCivil(k);
    hide Start, Days;
  }
}
