/** The Gregorian calendar from 1601 on, by its rules alone. */
module Calendar {

  predicate Leap(y: nat) {
    y % 4 == 0 && (y % 100 != 0 || y % 400 == 0)
  }

  function DaysInMonth(y: nat, m: nat): nat {
    if m == 2 then (if Leap(y) then 29 else 28)
    else if m in {4, 6, 9, 11} then 30 else 31
  }

  function DaysInYear(y: nat): nat {
    if Leap(y) then 366 else 365
  }

  /** Days from the first of January 1601 to the first of January of year y. */
  ghost function DaysBeforeYear(y: nat): nat {
    if y <= 1601 then 0 else DaysBeforeYear(y - 1) + DaysInYear(y - 1)
  }

  ghost function DaysBeforeMonth(y: nat, m: nat): nat {
    if m <= 1 then 0 else DaysBeforeMonth(y, m - 1) + DaysInMonth(y, m - 1)
  }

  ghost predicate ValidDate(y: nat, m: nat, d: nat) {
    1601 <= y && 1 <= m <= 12 && 1 <= d <= DaysInMonth(y, m)
  }

  ghost function DayNumber(y: nat, m: nat, d: nat): int {
    DaysBeforeYear(y) + DaysBeforeMonth(y, m) + d - 1
  }

  lemma {:induction false} YearsGrow(y: nat, z: nat)
    requires 1601 <= y < z
    ensures DaysBeforeYear(y) + DaysInYear(y) <= DaysBeforeYear(z)
    decreases z
  {
    if y + 1 < z {
      YearsGrow(y, z - 1);
    }
  }

  lemma {:induction false} MonthsGrow(y: nat, m: nat, n: nat)
    requires 1 <= m < n
    ensures DaysBeforeMonth(y, m) + DaysInMonth(y, m) <= DaysBeforeMonth(y, n)
    decreases n
  {
    if m + 1 < n {
      MonthsGrow(y, m, n - 1);
    }
  }

  lemma MonthStarts(y: nat)
    ensures var leap := if Leap(y) then 1 else 0;
      && DaysBeforeMonth(y, 1) == 0 && DaysBeforeMonth(y, 2) == 31 && DaysBeforeMonth(y, 3) == 59 + leap
      && DaysBeforeMonth(y, 4) == 90 + leap && DaysBeforeMonth(y, 5) == 120 + leap
      && DaysBeforeMonth(y, 6) == 151 + leap && DaysBeforeMonth(y, 7) == 181 + leap
      && DaysBeforeMonth(y, 8) == 212 + leap && DaysBeforeMonth(y, 9) == 243 + leap
      && DaysBeforeMonth(y, 10) == 273 + leap && DaysBeforeMonth(y, 11) == 304 + leap
      && DaysBeforeMonth(y, 12) == 334 + leap && DaysBeforeMonth(y, 13) == DaysInYear(y)
  {
  }

  lemma DayOfYear(y: nat, m: nat, d: nat)
    requires ValidDate(y, m, d)
    ensures 0 <= DaysBeforeMonth(y, m) + d - 1 < DaysInYear(y)
  {
    MonthsGrow(y, m, 13);
    MonthStarts(y);
  }

  /** Every day has one date only. */
  lemma DatesDiffer(y: nat, m: nat, d: nat, y': nat, m': nat, d': nat)
    requires ValidDate(y, m, d) && ValidDate(y', m', d') && DayNumber(y, m, d) == DayNumber(y', m', d')
    ensures y == y' && m == m' && d == d'
  {
    DayOfYear(y, m, d);
    DayOfYear(y', m', d');
    if y < y' {
      YearsGrow(y, y');
    } else if y' < y {
      YearsGrow(y', y);
    } else if m < m' {
      MonthsGrow(y, m, m');
    } else if m' < m {
      MonthsGrow(y, m', m);
    }
  }

  // ---------------------------------------------------------------- years that start in March

  /** Days from the first of January 1601 to the first of March of year n. */
  function March(n: nat): int {
    365 * (n - 1601) + n / 4 - n / 100 + n / 400 - 329
  }

  lemma {:induction false} MarchIs(n: nat)
    requires n >= 1601
    ensures March(n) == DayNumber(n, 3, 1) && March(n) + 306 == DayNumber(n + 1, 1, 1)
    decreases n
  {
    MonthStarts(n);
    if n > 1601 {
      MarchIs(n - 1);
      LeapCount(n);
    }
  }

  lemma LeapCount(n: nat)
    requires n > 0
    ensures n / 4 - n / 100 + n / 400
         == (n - 1) / 4 - (n - 1) / 100 + (n - 1) / 400 + if Leap(n) then 1 else 0
  {
    assert n / 4 == (n - 1) / 4 + if n % 4 == 0 then 1 else 0;
    assert n / 100 == (n - 1) / 100 + if n % 100 == 0 then 1 else 0;
    assert n / 400 == (n - 1) / 400 + if n % 400 == 0 then 1 else 0;
    Multiples(n);
  }

  lemma Multiples(n: nat)
    ensures n % 400 == 0 ==> n % 100 == 0
    ensures n % 100 == 0 ==> n % 4 == 0
  {
    var q := n / 400;
    if n % 400 == 0 {
      assert n == 100 * (4 * q);
      assert n / 100 == 4 * q;
    }
    var p := n / 100;
    if n % 100 == 0 {
      assert n == 4 * (25 * p);
      assert n / 4 == 25 * p;
    }
  }
}
