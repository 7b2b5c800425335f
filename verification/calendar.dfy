/** Integer calendar arithmetic on the proleptic Gregorian calendar: the
    leap rule, month lengths, and the day count from the Unix epoch
    (1970-01-01) that Go's time package computes when it turns a parsed
    date into Unix seconds. Years are the 4-digit years a layout can
    parse, so they are never negative. */
module Calendar {

  const SecondsPerDay: int := 86400

  /** The Gregorian leap rule: every 4th year, except centuries, except
      every 4th century. */
  predicate IsLeap(y: int) {
    y % 4 == 0 && (y % 100 != 0 || y % 400 == 0)
  }

  function YearLength(y: int): int {
    if IsLeap(y) then 366 else 365
  }

  function DaysInMonth(y: int, m: int): (n: int)
    requires 1 <= m <= 12
    ensures 28 <= n <= 31
  {
    if m == 2 then (if IsLeap(y) then 29 else 28)
    else if m == 4 || m == 6 || m == 9 || m == 11 then 30
    else 31
  }

  /** A year, month and day that Go's date parser accepts. */
  predicate ValidDate(y: int, m: int, d: int) {
    0 <= y && 1 <= m <= 12 && 1 <= d <= DaysInMonth(y, m)
  }

  /** Days of year `y` that lie before the first of month `m`. */
  function DaysBeforeMonth(y: int, m: int): int
    requires 1 <= m <= 13
  {
    if m == 1 then 0 else DaysBeforeMonth(y, m - 1) + DaysInMonth(y, m - 1)
  }

  /** Days from 0000-01-01 to y-01-01, in closed form: `(y+3)/4` and its
      two companions count the multiples of 4, 100 and 400 below `y`. */
  function DaysBeforeYear(y: int): int
    requires 0 <= y
  {
    365 * y + (y + 3) / 4 - (y + 99) / 100 + (y + 399) / 400
  }

  /** The Unix day number of a date: 0 for 1970-01-01. */
  function DaysFromEpoch(y: int, m: int, d: int): int
    requires 0 <= y && 1 <= m <= 12
  {
    DaysBeforeYear(y) - DaysBeforeYear(1970) + DaysBeforeMonth(y, m) + d - 1
  }

  /** Unix seconds of second `secOfDay` of a date, read on a clock that is
      `offset` seconds ahead of UTC. */
  function UnixSeconds(y: int, m: int, d: int, secOfDay: int, offset: int): int
    requires 0 <= y && 1 <= m <= 12
  {
    DaysFromEpoch(y, m, d) * SecondsPerDay + secOfDay - offset
  }

  /** The twelve month lengths add up to the length of the year. */
  lemma MonthsFillYear(y: int)
    ensures DaysBeforeMonth(y, 13) == YearLength(y)
  {
    assert DaysBeforeMonth(y, 2) == 31;
    assert DaysBeforeMonth(y, 3) == 31 + DaysInMonth(y, 2);
    assert DaysBeforeMonth(y, 4) == DaysBeforeMonth(y, 3) + 31;
    assert DaysBeforeMonth(y, 5) == DaysBeforeMonth(y, 4) + 30;
    assert DaysBeforeMonth(y, 6) == DaysBeforeMonth(y, 5) + 31;
    assert DaysBeforeMonth(y, 7) == DaysBeforeMonth(y, 6) + 30;
    assert DaysBeforeMonth(y, 8) == DaysBeforeMonth(y, 7) + 31;
    assert DaysBeforeMonth(y, 9) == DaysBeforeMonth(y, 8) + 31;
    assert DaysBeforeMonth(y, 10) == DaysBeforeMonth(y, 9) + 30;
    assert DaysBeforeMonth(y, 11) == DaysBeforeMonth(y, 10) + 31;
    assert DaysBeforeMonth(y, 12) == DaysBeforeMonth(y, 11) + 30;
    assert DaysBeforeMonth(y, 13) == DaysBeforeMonth(y, 12) + 31;
  }

  /** The closed form agrees with the leap rule: consecutive years are
      YearLength apart. */
  lemma YearStep(y: int)
    requires 0 <= y
    ensures DaysBeforeYear(y + 1) == DaysBeforeYear(y) + YearLength(y)
  {
    MultiplesStep(y, 4);
    MultiplesStep(y, 100);
    MultiplesStep(y, 400);
    var fours := (y + 4) / 4 - (y + 3) / 4;
    var centuries := (y + 100) / 100 - (y + 99) / 100;
    var quads := (y + 400) / 400 - (y + 399) / 400;
    assert DaysBeforeYear(y + 1) - DaysBeforeYear(y) == 365 + fours - centuries + quads;
    assert fours == (if y % 4 == 0 then 1 else 0);
    assert centuries == (if y % 100 == 0 then 1 else 0);
    assert quads == (if y % 400 == 0 then 1 else 0);
    LeapCounts(y);
  }

  /** The leap rule as a sum of the three divisibility tests. */
  lemma LeapCounts(y: int)
    ensures YearLength(y) == 365 + (if y % 4 == 0 then 1 else 0)
      - (if y % 100 == 0 then 1 else 0) + (if y % 400 == 0 then 1 else 0)
  {
    if y % 100 == 0 {
      assert y == (25 * (y / 100)) * 4;
      MultipleMod(25 * (y / 100), 4);
    }
    if y % 400 == 0 {
      assert y == (4 * (y / 400)) * 100;
      MultipleMod(4 * (y / 400), 100);
    }
  }

  lemma MultipleMod(m: int, k: int)
    requires 0 < k
    ensures (m * k) % k == 0
  {
    DivUnique(m * k, k, m, 0);
  }

  /** `(y + k - 1) / k` counts the multiples of `k` in [0, y); one more
      year adds one exactly when `y` itself is a multiple. */
  lemma MultiplesStep(y: int, k: int)
    requires 0 <= y && 0 < k
    ensures (y + k) / k - (y + k - 1) / k == if y % k == 0 then 1 else 0
  {
    var q, r := y / k, y % k;
    assert y == q * k + r;
    DivUnique(y + k, k, q + 1, r);
    if r == 0 {
      DivUnique(y + k - 1, k, q, k - 1);
    } else {
      DivUnique(y + k - 1, k, q + 1, r - 1);
    }
  }

  /** Division is determined by any quotient and in-range remainder. */
  lemma DivUnique(a: int, k: int, q: int, r: int)
    requires 0 < k && 0 <= r < k && a == q * k + r
    ensures a / k == q
  {
    var q', r' := a / k, a % k;
    var d := q - q';
    assert d * k == q * k - q' * k;
    MulAwayFromZero(d, k);
  }

  lemma MulAwayFromZero(d: int, k: int)
    requires 0 < k
    ensures d >= 1 ==> d * k >= k
    ensures d <= -1 ==> d * k <= -k
  {
    if d >= 1 {
      assert d * k == (d - 1) * k + k;
    } else if d <= -1 {
      assert d * k == (d + 1) * k - k;
    }
  }

  /** Day numbers are consecutive across every day, month and year
      boundary: the successor of a valid date is one day later. */
  lemma NextDay(y: int, m: int, d: int)
    requires ValidDate(y, m, d)
    ensures d < DaysInMonth(y, m) ==> DaysFromEpoch(y, m, d + 1) == DaysFromEpoch(y, m, d) + 1
    ensures d == DaysInMonth(y, m) && m < 12 ==> DaysFromEpoch(y, m + 1, 1) == DaysFromEpoch(y, m, d) + 1
    ensures d == DaysInMonth(y, m) && m == 12 ==> DaysFromEpoch(y + 1, 1, 1) == DaysFromEpoch(y, m, d) + 1
  {
    if d == DaysInMonth(y, m) && m == 12 {
      MonthsFillYear(y);
      YearStep(y);
    }
  }
}
