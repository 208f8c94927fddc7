/**
 * The proleptic Gregorian calendar in UTC, as far as the research year
 * filter needs it: the instant a date string `YYYY-01-01` or `YYYY-12-31`
 * denotes, in seconds since 1970-01-01T00:00:00Z.
 */
module Calendar {
  const SECONDS_PER_DAY := 86400

  predicate IsLeapYear(y: int) {
    y % 4 == 0 && (y % 100 != 0 || y % 400 == 0)
  }

  function DaysInYear(y: int): (r: int)
    ensures r == 365 || r == 366
    ensures r == 366 <==> IsLeapYear(y)
  {
    if IsLeapYear(y) then 366 else 365
  }

  /** The leap years among 1 .. y-1 (counted with floor division, so the
      differences are right for every y). */
  function LeapsBefore(y: int): int {
    (y - 1) / 4 - (y - 1) / 100 + (y - 1) / 400
  }

  /** Days from 1970-01-01 to January 1 of year y. */
  function DaysBeforeYear(y: int): int {
    365 * (y - 1970) + LeapsBefore(y) - LeapsBefore(1970)
  }

  /** `new Date('YYYY-01-01')`: midnight UTC at the start of the year. */
  function YearStart(y: int): int {
    DaysBeforeYear(y) * SECONDS_PER_DAY
  }

  /** `new Date('YYYY-12-31')`: midnight UTC at the start of the year's last day. */
  function LastDayStart(y: int): int {
    (DaysBeforeYear(y) + DaysInYear(y) - 1) * SECONDS_PER_DAY
  }

  /** An instant falls in year y: from its first second up to, not including, the next year's. */
  predicate InYear(t: int, y: int) {
    YearStart(y) <= t < YearStart(y + 1)
  }

  /** The epoch and two known New Year instants of the Unix clock. */
  lemma KnownYearStarts()
    ensures YearStart(1970) == 0
    ensures YearStart(2000) == 946684800
    ensures YearStart(2024) == 1704067200
    ensures LastDayStart(2024) == 1735603200
  {
  }

  /** Stepping over year y counts one more leap year exactly when y is one. */
  lemma LeapsStep(y: int)
    ensures LeapsBefore(y + 1) == LeapsBefore(y) + (if IsLeapYear(y) then 1 else 0)
  {
    var a := if y % 4 == 0 then 1 else 0;
    var b := if y % 100 == 0 then 1 else 0;
    var c := if y % 400 == 0 then 1 else 0;
    assert y / 4 - (y - 1) / 4 == a by { DivStep(y, 4); }
    assert y / 100 - (y - 1) / 100 == b by { DivStep(y, 100); }
    assert y / 400 - (y - 1) / 400 == c by { DivStep(y, 400); }
    assert c == 1 ==> b == 1 by { if y % 400 == 0 { MultipleDivides(y, 4, 100); } }
    assert b == 1 ==> a == 1 by { if y % 100 == 0 { MultipleDivides(y, 25, 4); } }
  }

  /** `y / d` goes up by one from `(y - 1) / d` exactly when d divides y. */
  lemma DivStep(y: int, d: int)
    requires d == 4 || d == 100 || d == 400
    ensures y / d - (y - 1) / d == if y % d == 0 then 1 else 0
  {
    if d == 4 {
      assert y / 4 - (y - 1) / 4 == if y % 4 == 0 then 1 else 0;
    } else if d == 100 {
      assert y / 100 - (y - 1) / 100 == if y % 100 == 0 then 1 else 0;
    } else {
      assert y / 400 - (y - 1) / 400 == if y % 400 == 0 then 1 else 0;
    }
  }

  /** A multiple of `k * d` is a multiple of `d`. */
  lemma MultipleDivides(y: int, k: int, d: int)
    requires d > 0 && k > 0 && y % (k * d) == 0
    ensures y % d == 0
  {
    var q := y / (k * d);
    assert y == (k * d) * q;
    assert y == d * (k * q);
  }

  /** Consecutive years follow each other without gap or overlap. */
  lemma NextYearStart(y: int)
    ensures YearStart(y + 1) == YearStart(y) + DaysInYear(y) * SECONDS_PER_DAY
    ensures LastDayStart(y) + SECONDS_PER_DAY == YearStart(y + 1)
  {
    LeapsStep(y);
  }

  /** Later years start later. */
  lemma {:induction false} YearStartMonotone(y: int, z: int)
    requires y < z
    ensures YearStart(y) < YearStart(z)
    decreases z - y
  {
    NextYearStart(y);
    if y + 1 < z {
      YearStartMonotone(y + 1, z);
    }
  }

  /** An instant falls in at most one year. */
  lemma InOneYear(t: int, y: int, z: int)
    requires InYear(t, y) && InYear(t, z)
    ensures y == z
  {
    if y < z {
      if y + 1 < z { YearStartMonotone(y + 1, z); }
    } else if z < y {
      if z + 1 < y { YearStartMonotone(z + 1, y); }
    }
  }
}
