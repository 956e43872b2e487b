/** The employee table the handler reads: rows `Name, Department, Join Date,
    Exit Date?, Salary?`, kept in file order. Dates are whole days; the instants
    the date parser and the clock produce carry a time of day as well. */
module Records {
  import opened Options

  /** A calendar day, counted from 1 January 1970. */
  type Date = int

  /** A point in time in microseconds from 1 January 1970, 00:00 (the
      resolution of Python's `datetime`). */
  type Instant = int

  const MicrosPerDay: int := 86_400_000_000

  /** The instant a date column value stands for: the day's midnight. */
  function Midnight(d: Date): Instant { d * MicrosPerDay }

  /** The calendar day an instant falls on. */
  function DayOf(t: Instant): Date { t / MicrosPerDay }

  /** The time elapsed since that day's midnight. */
  function TimeOfDay(t: Instant): nat { t % MicrosPerDay }

  /** One row. An absent Exit Date means the employee is still active. */
  datatype Employee = Employee(
    name: string,
    department: string,
    joined: Date,
    exited: Option<Date>,
    salary: Option<real>)

  predicate IsActive(e: Employee) { e.exited.None? }
  predicate HasExited(e: Employee) { e.exited.Some? }
  predicate HasSalary(e: Employee) { e.salary.Some? }

  /** The proleptic Gregorian year of a day (what pandas' `.dt.year` reads). */
  function YearOfDay(d: Date): int {
    var z := d + 719468;                 // days since 1 March of year 0
    var (k, doy) := CycleDate(z % 146097);
    var y := 400 * (z / 146097) + k;     // the year whose 1 March starts the span
    if doy >= 306 then y + 1 else y      // 306 days after 1 March is 1 January
  }

  /** A day of a 400-year cycle as the year of the cycle whose March-to-February
      span holds it and the day of that span, counted in centuries, 4-year
      blocks and years. */
  function CycleDate(doe: int): (int, int)
    requires 0 <= doe < 146097
  {
    var century := if doe / 36524 < 4 then doe / 36524 else 3;
    var doc := doe - 36524 * century;
    var quad := doc / 1461;
    var doq := doc % 1461;
    var yiq := if doq / 365 < 4 then doq / 365 else 3;
    (100 * century + 4 * quad + yiq, doq - 365 * yiq)
  }

  /** The Gregorian leap-year rule. */
  predicate IsLeapYear(y: int) { y % 4 == 0 && (y % 100 != 0 || y % 400 == 0) }

  /** How many leap years come before year `y`, counted from year 1 (a
      relative count below year 1, which is all differences need). */
  function LeapYearsBefore(y: int): int { (y - 1) / 4 - (y - 1) / 100 + (y - 1) / 400 }

  /** The day number of 1 January of year `y`: a reference for `YearOfDay`
      built by counting whole years and leap days from 1970. */
  function NewYear(y: int): Date {
    365 * (y - 1970) + LeapYearsBefore(y) - LeapYearsBefore(1970)
  }

  /** Moving `y` down by one lowers `y / n` exactly when `n` divides `y`. */
  lemma StepDiv(y: int, n: int)
    requires n > 0
    ensures y / n - (y - 1) / n == if y % n == 0 then 1 else 0
  {
    var q, r := y / n, y % n;
    assert y == n * q + r;
    if r == 0 {
      assert y - 1 == n * (q - 1) + (n - 1);
      DivUnique(y - 1, n, q - 1, n - 1);
    } else {
      assert y - 1 == n * q + (r - 1);
      DivUnique(y - 1, n, q, r - 1);
    }
  }

  /** Quotient and remainder are unique. */
  lemma DivUnique(x: int, n: int, q: int, r: int)
    requires n > 0 && 0 <= r < n && x == n * q + r
    ensures x / n == q
  {
    var k := x / n - q;
    assert n * k == r - x % n;
    MulBound(n, k);
  }

  lemma MulBound(n: int, k: int)
    requires n > 0
    ensures k >= 1 ==> n * k >= n
    ensures k <= -1 ==> n * k <= -n
  {
  }

  /** A year has 366 days exactly when it is a leap year, otherwise 365. */
  lemma YearLength(y: int)
    ensures NewYear(y + 1) - NewYear(y) == if IsLeapYear(y) then 366 else 365
  {
    StepDiv(y, 4); StepDiv(y, 100); StepDiv(y, 400);
    assert y % 100 == 0 ==> y % 4 == 0;
    assert y % 400 == 0 ==> y % 100 == 0;
  }

  /** Days from 1 March of year 0 to 1 March of year k. */
  function MarchFirst(k: int): int { 365 * k + k / 4 - k / 100 + k / 400 }

  /** 1 January of year `y + 1` is 306 days after 1 March of year `y`. */
  lemma NewYearMarch(y: int)
    ensures NewYear(y + 1) == MarchFirst(y) - 719162
  {
  }

  /** Whole multiples of `n` pass through division by `n`. */
  lemma DivShift(x: int, n: int, m: int)
    requires n > 0
    ensures (n * m + x) / n == m + x / n
  {
    assert n * m + x == n * (m + x / n) + x % n;
    DivUnique(n * m + x, n, m + x / n, x % n);
  }

  /** Whole 400-year cycles shift March firsts by 146097 days. */
  lemma MarchFirstCycle(era: int, k: int)
    ensures MarchFirst(400 * era + k) == 146097 * era + MarchFirst(k)
  {
    DivShift(k, 4, 100 * era);
    DivShift(k, 100, 4 * era);
    DivShift(k, 400, era);
  }

  /** Inside one cycle, a year is counted by centuries, 4-year blocks and years. */
  lemma MarchFirstInCycle(c: int, q: int, yi: int)
    requires 0 <= c < 4 && 0 <= q < 25 && 0 <= yi < 4
    ensures MarchFirst(100 * c + 4 * q + yi) == 36524 * c + 1461 * q + 365 * yi
  {
    var k := 100 * c + 4 * q + yi;
    DivUnique(k, 4, 25 * c + q, yi);
    DivUnique(k, 100, c, 4 * q + yi);
    DivUnique(k, 400, 0, k);
  }

  /** The year `CycleDate` picks is the one whose March-to-February span in
      the cycle holds the day, and the day of the span is the offset into it. */
  lemma CycleDateSpec(doe: int)
    requires 0 <= doe < 146097
    ensures var (k, doy) := CycleDate(doe);
      0 <= k < 400 && 0 <= doy && MarchFirst(k) + doy == doe && doe < MarchFirst(k + 1)
  {
    var century := if doe / 36524 < 4 then doe / 36524 else 3;
    var doc := doe - 36524 * century;
    var quad := doc / 1461;
    var doq := doc % 1461;
    var yiq := if doq / 365 < 4 then doq / 365 else 3;
    MarchFirstInCycle(century, quad, yiq);
    if yiq < 3 {
      MarchFirstInCycle(century, quad, yiq + 1);
    } else if quad < 24 {
      MarchFirstInCycle(century, quad + 1, 0);
    } else if century < 3 {
      MarchFirstInCycle(century + 1, 0, 0);
    } else {
      MarchFirstCycle(1, 0);
    }
  }

  /** A day falls `doy` days after 1 March of some year `y` and before 1 March
      of the next; its year is `y`, or `y + 1` from 1 January (306 days on). */
  lemma MarchYear(d: Date) returns (y: int, doy: int)
    ensures 0 <= doy && MarchFirst(y) + doy == d + 719468 < MarchFirst(y + 1)
    ensures YearOfDay(d) == if doy >= 306 then y + 1 else y
  {
    var z := d + 719468;
    var c := CycleDate(z % 146097);
    YearOfCycleDate(d);
    MarchYearSpec(z);
    y, doy := 400 * (z / 146097) + c.0, c.1;
  }

  /** `YearOfDay` read through `CycleDate`. */
  lemma YearOfCycleDate(d: Date)
    ensures var z := d + 719468;
      var c := CycleDate(z % 146097);
      YearOfDay(d) == 400 * (z / 146097) + c.0 + (if c.1 >= 306 then 1 else 0)
  {
  }

  /** The March-to-February span a day count `z` from 1 March of year 0 falls in. */
  lemma MarchYearSpec(z: int)
    ensures var (k, doy) := CycleDate(z % 146097);
      var y := 400 * (z / 146097) + k;
      0 <= doy && MarchFirst(y) + doy == z < MarchFirst(y + 1)
  {
    var era := z / 146097;
    var (k, doy) := CycleDate(z % 146097);
    CycleDateSpec(z % 146097);
    MarchFirstCycle(era, k);
    MarchFirstCycle(era, k + 1);
  }

  /** A day falls between 1 January of its year and 1 January of the next. */
  lemma YearOfDaySpec(d: Date)
    ensures NewYear(YearOfDay(d)) <= d < NewYear(YearOfDay(d) + 1)
  {
    var y, doy := MarchYear(d);
    YearOfSpan(d, YearOfDay(d), y, doy);
  }

  /** The year of a day `doy` days into the span starting 1 March of `y`. */
  lemma YearOfSpan(d: Date, year: int, y: int, doy: int)
    requires 0 <= doy && MarchFirst(y) + doy == d + 719468 < MarchFirst(y + 1)
    requires year == if doy >= 306 then y + 1 else y
    ensures NewYear(year) <= d < NewYear(year + 1)
  {
    if doy >= 306 {
      JanuaryToFebruary(y, d, doy);
    } else {
      MarchToDecember(y, d, doy);
    }
  }

  /** From 1 January on, a day of the span starting 1 March of `y` is in year `y + 1`. */
  lemma JanuaryToFebruary(y: int, d: Date, doy: int)
    requires 306 <= doy && MarchFirst(y) + doy == d + 719468 < MarchFirst(y + 1)
    ensures NewYear(y + 1) <= d < NewYear(y + 2)
  {
    NewYearMarch(y);
    NewYearMarch(y + 1);
  }

  /** Before 1 January, a day of the span starting 1 March of `y` is in year `y`. */
  lemma MarchToDecember(y: int, d: Date, doy: int)
    requires 0 <= doy < 306 && MarchFirst(y) + doy == d + 719468
    ensures NewYear(y) <= d < NewYear(y + 1)
  {
    NewYearMarch(y - 1);
    NewYearMarch(y);
    YearLength(y);
  }

  /** Later years start later. */
  lemma {:induction false} NewYearIncreasing(a: int, b: int)
    requires a < b
    ensures NewYear(a + 1) <= NewYear(b)
    decreases b - a
  {
    if a + 1 < b {
      YearLength(a + 1);
      NewYearIncreasing(a + 1, b);
    }
  }

  /** `.dt.year == y` holds exactly for the days from 1 January of `y` up to,
      and not including, 1 January of `y + 1`. */
  lemma YearOfDaySpan(d: Date, y: int)
    ensures YearOfDay(d) == y <==> NewYear(y) <= d < NewYear(y + 1)
  {
    YearOfDaySpec(d);
    var year := YearOfDay(d);
    if y < year {
      NewYearIncreasing(y, year);
    } else if y > year {
      NewYearIncreasing(year, y);
    }
  }

  /** `a` is `b` with some elements left out and the rest in their order. */
  predicate SubsequenceOf<T(==)>(a: seq<T>, b: seq<T>) {
    if a == [] then true
    else if b == [] then false
    else if a[0] == b[0] then SubsequenceOf(a[1..], b[1..])
    else SubsequenceOf(a, b[1..])
  }

  /** A boolean-mask selection `df[mask]`: the rows satisfying `p`, each of
      them, and in table order. */
  function Filter<T>(s: seq<T>, p: T -> bool): (r: seq<T>)
    ensures |r| <= |s|
    ensures forall k :: 0 <= k < |r| ==> p(r[k]) && r[k] in s
    ensures forall k :: 0 <= k < |s| && p(s[k]) ==> s[k] in r
    ensures SubsequenceOf(r, s)
  {
    if s == [] then []
    else if p(s[0]) then [s[0]] + Filter(s[1..], p)
    else Filter(s[1..], p)
  }

  /** What a selection from the table is, stated without `Filter`: the rows
      satisfying `p`, each as often as in the table, in table order. */
  ghost predicate Selects(rows: seq<Employee>, table: seq<Employee>, p: Employee -> bool) {
    && SubsequenceOf(rows, table)
    && forall e :: multiset(rows)[e] == if p(e) then multiset(table)[e] else 0
  }

  lemma {:induction false} FilterSelects(table: seq<Employee>, p: Employee -> bool)
    ensures Selects(Filter(table, p), table, p)
  {
    if table != [] {
      FilterSelects(table[1..], p);
      assert table == [table[0]] + table[1..];
    }
  }

  /** A selection by `p` is a selection by any predicate that agrees with `p`. */
  lemma SelectsAgree(rows: seq<Employee>, table: seq<Employee>, p: Employee -> bool, q: Employee -> bool)
    requires Selects(rows, table, p)
    requires forall e :: p(e) == q(e)
    ensures Selects(rows, table, q)
  {
  }

  /** A row is selected iff it is in the table and satisfies the predicate. */
  lemma SelectsMembers(rows: seq<Employee>, table: seq<Employee>, p: Employee -> bool)
    requires Selects(rows, table, p)
    ensures forall e :: e in rows <==> e in table && p(e)
  {
    forall e ensures e in rows <==> e in table && p(e) {
      assert e in rows <==> multiset(rows)[e] > 0;
      assert e in table <==> multiset(table)[e] > 0;
    }
  }

  /** The selection is determined by the table and the predicate: it is the
      boolean-mask result and nothing else. */
  lemma {:induction false} SelectsIsFilter(rows: seq<Employee>, table: seq<Employee>, p: Employee -> bool)
    requires Selects(rows, table, p)
    ensures rows == Filter(table, p)
  {
    if table == [] {
      assert |rows| == |multiset(rows)| == 0;
    } else {
      var x := table[0];
      var tail := table[1..];
      assert table == [x] + tail;
      if p(x) {
        assert multiset(rows)[x] > 0;
        assert rows != [];
        if rows[0] != x {
          SubsequenceCount(rows, tail, x);
        }
        assert rows[0] == x;
        assert rows == [x] + rows[1..];
        SelectsIsFilter(rows[1..], tail, p);
      } else {
        if rows != [] {
          assert multiset(rows)[rows[0]] > 0;
          assert rows[0] != x;
        }
        assert SubsequenceOf(rows, tail);
        SelectsIsFilter(rows, tail, p);
      }
    }
  }

  /** A subsequence holds each element at most as often as the sequence. */
  lemma {:induction false} SubsequenceCount(a: seq<Employee>, b: seq<Employee>, x: Employee)
    requires SubsequenceOf(a, b)
    ensures multiset(a)[x] <= multiset(b)[x]
  {
    if a != [] && b != [] {
      assert b == [b[0]] + b[1..];
      if a[0] == b[0] {
        assert a == [a[0]] + a[1..];
        SubsequenceCount(a[1..], b[1..], x);
      } else {
        SubsequenceCount(a, b[1..], x);
      }
    }
  }

  /** The rows `p` selects and the rows it rejects together make up the table. */
  lemma {:induction false} FilterPartition<T>(s: seq<T>, p: T -> bool, q: T -> bool)
    requires forall x :: q(x) == !p(x)
    ensures |Filter(s, p)| + |Filter(s, q)| == |s|
  {
    if s != [] {
      FilterPartition(s[1..], p, q);
    }
  }

  /** A stronger mask selects no more rows. */
  lemma {:induction false} FilterImplies<T>(s: seq<T>, p: T -> bool, q: T -> bool)
    requires forall e :: p(e) ==> q(e)
    ensures |Filter(s, p)| <= |Filter(s, q)|
  {
    if s != [] {
      FilterImplies(s[1..], p, q);
    }
  }

  /** A pairwise relation that holds along `s` still holds along any selection
      from it. */
  lemma {:induction false} FilterPairwise<T>(s: seq<T>, p: T -> bool, rel: (T, T) -> bool)
    requires forall i, j :: 0 <= i < j < |s| ==> rel(s[i], s[j])
    ensures var r := Filter(s, p); forall i, j :: 0 <= i < j < |r| ==> rel(r[i], r[j])
  {
    if s != [] {
      var tail := s[1..];
      assert forall i, j :: 0 <= i < j < |tail| ==> rel(tail[i], tail[j]);
      FilterPairwise(tail, p, rel);
      assert forall i, j :: 0 <= i < j < |Filter(tail, p)| ==> rel(Filter(tail, p)[i], Filter(tail, p)[j]);
      if p(s[0]) {
        forall y | y in tail ensures rel(s[0], y) {
          var k :| 0 <= k < |tail| && tail[k] == y;
          assert s[k + 1] == y;
        }
        assert forall j :: 0 <= j < |Filter(tail, p)| ==> rel(s[0], Filter(tail, p)[j]);
        assert Filter(s, p) == [s[0]] + Filter(tail, p);
      }
    }
  }

  /** The salaries pandas averages: the present ones, in table order. */
  function SalaryValues(rows: seq<Employee>): (r: seq<real>)
    ensures |r| <= |rows|
    ensures |r| == |Filter(rows, HasSalary)|
  {
    if rows == [] then []
    else match rows[0].salary
      case Some(x) => [x] + SalaryValues(rows[1..])
      case None => SalaryValues(rows[1..])
  }

  function Sum(xs: seq<real>): real {
    if xs == [] then 0.0 else xs[0] + Sum(xs[1..])
  }

  /** `Series.mean()` with missing values skipped; `None` where pandas gives NaN. */
  function MeanSalary(rows: seq<Employee>): (r: Option<real>)
    ensures r.None? <==> forall e :: e in rows ==> !HasSalary(e)
  {
    var xs := SalaryValues(rows);
    if xs == [] then None else Some(Sum(xs) / (|xs| as real))
  }

  /** Every instant is its day's midnight plus its time of day. */
  lemma DayDecomposition(t: Instant)
    ensures t == Midnight(DayOf(t)) + TimeOfDay(t)
    ensures 0 <= TimeOfDay(t) < MicrosPerDay
  {
  }

  /** Midnights are ordered as their days are. */
  lemma MidnightOrder(i: Date, j: Date)
    ensures Midnight(i) < Midnight(j) <==> i < j
  {
    if i < j {
      assert Midnight(j) - Midnight(i) == (j - i) * MicrosPerDay;
    } else {
      assert Midnight(i) - Midnight(j) == (i - j) * MicrosPerDay;
    }
  }

  /** A date's midnight is before an instant exactly when the date is an
      earlier day, or the same day and the instant is past midnight. */
  lemma MidnightBefore(j: Date, at: Instant)
    ensures Midnight(j) < at <==> j < DayOf(at) || (j == DayOf(at) && TimeOfDay(at) > 0)
  {
    DayDecomposition(at);
    MidnightOrder(j, DayOf(at));
    MidnightOrder(DayOf(at), j);
    if DayOf(at) < j {
      MidnightOrder(DayOf(at) + 1, j);
      MidnightOrder(DayOf(at), DayOf(at) + 1);
      assert Midnight(DayOf(at) + 1) == Midnight(DayOf(at)) + MicrosPerDay;
    }
  }

  /** A date's midnight is after an instant exactly when the date is a later day. */
  lemma MidnightAfter(j: Date, at: Instant)
    ensures Midnight(j) > at <==> j > DayOf(at)
  {
    DayDecomposition(at);
    MidnightOrder(j, DayOf(at));
    MidnightOrder(DayOf(at), j);
    if DayOf(at) < j {
      MidnightOrder(DayOf(at) + 1, j);
      assert Midnight(DayOf(at) + 1) == Midnight(DayOf(at)) + MicrosPerDay;
    }
  }

  /** The window `[now - 365 days, now]` over midnights, in days: the 365 days
      ending today, plus the day 365 days back only when `now` is a midnight. */
  lemma LastYearWindow(x: Date, now: Instant)
    ensures now - 365 * MicrosPerDay <= Midnight(x) <= now
        <==> DayOf(now) - 365 < x <= DayOf(now) || (x == DayOf(now) - 365 && TimeOfDay(now) == 0)
  {
    var from := now - 365 * MicrosPerDay;
    DayDecomposition(now);
    assert DayOf(from) == DayOf(now) - 365 && TimeOfDay(from) == TimeOfDay(now) by {
      DayShift(now, -365);
    }
    MidnightBefore(x, from);
    MidnightAfter(x, now);
  }

  /** Moving an instant by whole days moves its day and keeps its time of day. */
  lemma DayShift(t: Instant, k: int)
    ensures DayOf(t + k * MicrosPerDay) == DayOf(t) + k
    ensures TimeOfDay(t + k * MicrosPerDay) == TimeOfDay(t)
  {
    DayDecomposition(t);
    var u := t + k * MicrosPerDay;
    assert u == (DayOf(t) + k) * MicrosPerDay + TimeOfDay(t);
  }
}
