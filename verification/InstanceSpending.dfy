/** What a month of instance use costs, and why only the rows overlapping the month need to be read. */
module InstanceSpending {
  import opened Options
  import opened Calendar
  import opened SessionUse

  datatype InstanceUse = InstanceUse(instanceType: string, from: int, to: int)

  /** The hourly costs by instance type; a type without one is free. */
  type Costs = map<string, real>

  function HourlyCost(costs: Costs, instanceType: string): real {
    if instanceType in costs then costs[instanceType] else 0.0
  }

  function Max(a: int, b: int): int {
    if a >= b then a else b
  }

  function Min(a: int, b: int): int {
    if a <= b then a else b
  }

  /** Whole hours, rounded up. */
  function HoursToCharge(use: InstanceUse, firstOfMonth: int, endOfMonth: int): nat {
    var from, to := Max(use.from, firstOfMonth), Min(use.to, endOfMonth);
    if from > to then 0 else (to - from + 3_599_999) / 3_600_000
  }

  function Charge(use: InstanceUse, k: Month, costs: Costs): real {
    HoursToCharge(use, Start(k), Start(k + 1)) as real * HourlyCost(costs, use.instanceType)
  }

  function Calculate(k: Month, uses: seq<InstanceUse>, costs: Costs): real {
    if uses == [] then 0.0
    else Calculate(k, uses[..|uses| - 1], costs) + Charge(uses[|uses| - 1], k, costs)
  }

  // ---- The query

  predicate Overlaps(row: Use, k: Month) {
    row.payload.from <= Start(k + 1) && (row.to == None || row.to.value >= Start(k))
  }

  function Where(rows: seq<Use>, username: string, k: Month): seq<Use> {
    if rows == [] then []
    else
      var rest := Where(rows[..|rows| - 1], username, k);
      var row := rows[|rows| - 1];
      if row.payload.username == username && Overlaps(row, k) then rest + [row] else rest
  }

  function OfUser(rows: seq<Use>, username: string): seq<Use> {
    if rows == [] then []
    else
      var rest := OfUser(rows[..|rows| - 1], username);
      var row := rows[|rows| - 1];
      if row.payload.username == username then rest + [row] else rest
  }

  /** A session without an end is charged up to now. */
  function Resolved(row: Use, now: int): InstanceUse {
    InstanceUse(row.payload.instanceType, row.payload.from, if row.to.Some? then row.to.value else now)
  }

  function Resolve(rows: seq<Use>, now: int): (uses: seq<InstanceUse>)
    ensures |uses| == |rows|
    ensures forall i :: 0 <= i < |rows| ==> uses[i] == Resolved(rows[i], now)
  {
    seq(|rows|, i requires 0 <= i < |rows| => Resolved(rows[i], now))
  }

  lemma OutsideIsFree(row: Use, k: Month, now: int, costs: Costs)
    requires !Overlaps(row, k)
    ensures Charge(Resolved(row, now), k, costs) == 0.0
  {
    hide Start, HoursToCharge;
    StartIncreases(k, k + 1);
    NothingToCharge(Resolved(row, now), Start(k), Start(k + 1));
  }

  lemma NothingToCharge(use: InstanceUse, firstOfMonth: int, endOfMonth: int)
    requires firstOfMonth < endOfMonth && (endOfMonth < use.from || use.to < firstOfMonth)
    ensures HoursToCharge(use, firstOfMonth, endOfMonth) == 0
  {}

  lemma {:induction false} FilterCharges(rows: seq<Use>, username: string, k: Month, now: int, costs: Costs)
    ensures Calculate(k, Resolve(Where(rows, username, k), now), costs) == Calculate(k, Resolve(OfUser(rows, username), now), costs)
  {
    hide Overlaps, Charge;
    if rows != [] {
      var front, row := rows[..|rows| - 1], rows[|rows| - 1];
      FilterCharges(front, username, k, now, costs);
      if row.payload.username == username {
        Append(OfUser(front, username), row, k, now, costs);
        Append(Where(front, username, k), row, k, now, costs);
        if !Overlaps(row, k) {
          OutsideIsFree(row, k, now, costs);
        }
      }
    }
  }

  lemma Append(rows: seq<Use>, row: Use, k: Month, now: int, costs: Costs)
    ensures Calculate(k, Resolve(rows + [row], now), costs) ==
            Calculate(k, Resolve(rows, now), costs) + Charge(Resolved(row, now), k, costs)
  {
    hide Charge, Resolved;
    var uses := Resolve(rows + [row], now);
    assert uses[..|uses| - 1] == Resolve(rows, now);
  }

  function Without<T>(s: seq<T>, i: nat): seq<T>
    requires i < |s|
  {
    s[..i] + s[i + 1..]
  }

  lemma {:induction false} TakeOut(uses: seq<InstanceUse>, i: nat, k: Month, costs: Costs)
    requires i < |uses|
    ensures Calculate(k, uses, costs) == Calculate(k, Without(uses, i), costs) + Charge(uses[i], k, costs)
  {
    hide Charge;
    var n := |uses| - 1;
    if i == n {
      assert uses[..i] + uses[i + 1..] == uses[..n];
    } else {
      var front, without := uses[..n], uses[..i] + uses[i + 1..];
      TakeOut(front, i, k, costs);
      assert without[..n - 1] == front[..i] + front[i + 1..];
      assert without[n - 1] == uses[n];
    }
  }

  lemma WithoutOne<T>(s: seq<T>, i: nat)
    requires i < |s|
    ensures multiset(Without(s, i)) == multiset(s) - multiset{s[i]}
  {
    assert s == s[..i] + [s[i]] + s[i + 1..];
  }

  lemma ResolveWithout(rows: seq<Use>, i: nat, now: int)
    requires i < |rows|
    ensures Resolve(Without(rows, i), now) == Without(Resolve(rows, now), i)
  {
    hide Resolved;
  }

  /** The order in which rows are read does not matter. */
  lemma {:induction false} OrderFree(a: seq<Use>, b: seq<Use>, k: Month, now: int, costs: Costs)
    requires multiset(a) == multiset(b)
    ensures Calculate(k, Resolve(a, now), costs) == Calculate(k, Resolve(b, now), costs)
    decreases |a|
  {
    hide Charge, Resolved, Without, Calculate;
    if a == [] {
      assert |multiset(b)| == 0;
    } else {
      assert a[0] in multiset(b);
      var i: nat :| i < |b| && b[i] == a[0];
      WithoutOne(a, 0);
      WithoutOne(b, i);
      assert |Without(a, 0)| == |multiset(a)| - 1;
      OrderFree(Without(a, 0), Without(b, i), k, now, costs);
      TakeOut(Resolve(a, now), 0, k, costs);
      TakeOut(Resolve(b, now), i, k, costs);
      ResolveWithout(a, 0, now);
      ResolveWithout(b, i, now);
    }
  }

  /**
   * The month predicate only saves reading: however the selected rows are ordered, they cost what all rows of the
   * user, of whatever month, cost.
   */
  lemma MonthPredicateIsExact(rows: seq<Use>, found: seq<Use>, username: string, k: Month, now: int, costs: Costs)
    requires multiset(found) == multiset(Where(rows, username, k))
    ensures Calculate(k, Resolve(found, now), costs) == Calculate(k, Resolve(OfUser(rows, username), now), costs)
  {
    OrderFree(found, Where(rows, username, k), k, now, costs);
    FilterCharges(rows, username, k, now, costs);
  }

  // ---- Charged hours against the exact overlap

  /** The milliseconds of the month during which the instance was in use, counted one by one. */
  ghost function InUse(use: InstanceUse, firstOfMonth: int, endOfMonth: int): nat
    decreases endOfMonth - firstOfMonth
  {
    if endOfMonth <= firstOfMonth then 0
    else InUse(use, firstOfMonth, endOfMonth - 1) + if use.from <= endOfMonth - 1 < use.to then 1 else 0
  }

  lemma {:induction false} Counted(use: InstanceUse, firstOfMonth: int, endOfMonth: int)
    ensures InUse(use, firstOfMonth, endOfMonth) ==
              Max(0, Min(use.to, endOfMonth) - Max(use.from, firstOfMonth))
    decreases endOfMonth - firstOfMonth
  {
    if firstOfMonth < endOfMonth {
      Counted(use, firstOfMonth, endOfMonth - 1);
    }
  }

  /** The charge covers the exact time in use and exceeds it by less than an hour. */
  lemma ChargedHours(use: InstanceUse, firstOfMonth: int, endOfMonth: int)
    ensures var hours := HoursToCharge(use, firstOfMonth, endOfMonth);
      && InUse(use, firstOfMonth, endOfMonth) <= hours * 3_600_000
      && hours * 3_600_000 < InUse(use, firstOfMonth, endOfMonth) + 3_600_000
  {
    Counted(use, firstOfMonth, endOfMonth);
  }

  /** One use costs the price of its type for each hour begun of its time in the month; a type without a price is free. */
  lemma OneUseCosts(use: InstanceUse, k: Month, costs: Costs, hours: nat)
    requires InUse(use, Start(k), Start(k + 1)) <= hours * 3_600_000 < InUse(use, Start(k), Start(k + 1)) + 3_600_000
    ensures use.instanceType in costs ==> Calculate(k, [use], costs) == hours as real * costs[use.instanceType]
    ensures use.instanceType !in costs ==> Calculate(k, [use], costs) == 0.0
  {
    ChargedHours(use, Start(k), Start(k + 1));
    SameHours(InUse(use, Start(k), Start(k + 1)), hours, HoursToCharge(use, Start(k), Start(k + 1)));
    hide Start, InUse, HoursToCharge, Charge, Calculate;
    CalculateOne(use, k, costs);
    ChargeTold(use, k, costs);
  }

  lemma ChargeTold(use: InstanceUse, k: Month, costs: Costs)
    ensures use.instanceType in costs ==>
              Charge(use, k, costs) == HoursToCharge(use, Start(k), Start(k + 1)) as real * costs[use.instanceType]
    ensures use.instanceType !in costs ==> Charge(use, k, costs) == 0.0
  {
    hide Start, HoursToCharge;
  }

  lemma SameHours(ms: nat, a: nat, b: nat)
    requires ms <= a * 3_600_000 < ms + 3_600_000 && ms <= b * 3_600_000 < ms + 3_600_000
    ensures a == b
  {}

  lemma CalculateOne(use: InstanceUse, k: Month, costs: Costs)
    ensures Calculate(k, [use], costs) == Charge(use, k, costs)
  {
    hide Charge;
    assert [use][..0] == [];
  }

  /** Uses are charged each for itself. */
  lemma {:induction false} UsesAdd(a: seq<InstanceUse>, b: seq<InstanceUse>, k: Month, costs: Costs)
    ensures Calculate(k, a + b, costs) == Calculate(k, a, costs) + Calculate(k, b, costs)
    decreases |b|
  {
    hide Charge;
    if b == [] {
      assert a + b == a;
    } else {
      var front := b[..|b| - 1];
      UsesAdd(a, front, k, costs);
      assert (a + b)[..|a + b| - 1] == a + front;
    }
  }

  /** The query selects the rows of the user that begin by the end of the month and have not ended before it. */
  lemma {:induction false} WhereTold(rows: seq<Use>, username: string, k: Month, row: Use)
    ensures row in Where(rows, username, k) <==>
            && row in rows && row.payload.username == username && row.payload.from <= Start(k + 1)
            && (row.to.Some? ==> Start(k) <= row.to.value)
  {
    hide Start;
    if rows != [] {
      WhereTold(rows[..|rows| - 1], username, k, row);
      assert rows == rows[..|rows| - 1] + [rows[|rows| - 1]];
    }
  }

  /** Nothing charged goes down as the clock advances. */
  lemma ChargeGrows(row: Use, k: Month, now: int, later: int, costs: Costs)
    requires now <= later && forall t <- costs :: 0.0 <= costs[t]
    ensures Charge(Resolved(row, now), k, costs) <= Charge(Resolved(row, later), k, costs)
  {
    hide Start;
    var a, b := Resolved(row, now), Resolved(row, later);
    HoursGrow(a, b, Start(k), Start(k + 1));
    hide HoursToCharge;
    ScaleUp(HoursToCharge(a, Start(k), Start(k + 1)), HoursToCharge(b, Start(k), Start(k + 1)), HourlyCost(costs, a.instanceType));
  }

  lemma HoursGrow(a: InstanceUse, b: InstanceUse, firstOfMonth: int, endOfMonth: int)
    requires a.from == b.from && a.to <= b.to
    ensures HoursToCharge(a, firstOfMonth, endOfMonth) <= HoursToCharge(b, firstOfMonth, endOfMonth)
  {}

  lemma ScaleUp(m: nat, n: nat, cost: real)
    requires m <= n && 0.0 <= cost
    ensures m as real * cost <= n as real * cost
  {}

  lemma {:induction false} SpendingGrows(rows: seq<Use>, k: Month, now: int, later: int, costs: Costs)
    requires now <= later && forall t <- costs :: 0.0 <= costs[t]
    ensures Calculate(k, Resolve(rows, now), costs) <= Calculate(k, Resolve(rows, later), costs)
  {
    hide Charge, Resolved;
    if rows != [] {
      var n := |rows| - 1;
      SpendingGrows(rows[..n], k, now, later, costs);
      ChargeGrows(rows[n], k, now, later, costs);
      assert rows == rows[..n] + [rows[n]];
      Append(rows[..n], rows[n], k, now, costs);
      Append(rows[..n], rows[n], k, later, costs);
    }
  }
}
