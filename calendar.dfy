/**
  The proleptic Gregorian calendar on a time value in milliseconds since
  1970-01-01T00:00:00Z, in the terms ECMAScript uses for Date.UTC and the
  getUTCFullYear / getUTCMonth / getUTCDate accessors (DayFromYear, MakeDay,
  Day(t) = floor(t / msPerDay)).
 */
module Calendar {

  const MsPerDay: int := 86400000

  predicate IsLeap(y: int) {
    y % 4 == 0 && (y % 100 != 0 || y % 400 == 0)
  }

  function DaysInYear(y: int): int {
    if IsLeap(y) then 366 else 365
  }

  /** Day number of 1 January of year y (ECMAScript DayFromYear). */
  function DayFromYear(y: int): int {
    365 * (y - 1970) + (y - 1969) / 4 - (y - 1901) / 100 + (y - 1601) / 400
  }

  /** Consecutive years are DaysInYear apart. */
  lemma NextYear(y: int)
    ensures DayFromYear(y + 1) == DayFromYear(y) + DaysInYear(y)
  {
    Step4(y);
    Step100(y);
    Step400(y);
    CenturyDivides(y);
  }

  /** A multiple of 400 is a multiple of 100, and a multiple of 100 one of 4. */
  lemma CenturyDivides(y: int)
    ensures y % 400 == 0 ==> y % 100 == 0
    ensures y % 100 == 0 ==> y % 4 == 0
  {
    Multiple400(y);
    Multiple100(y);
  }

  lemma Multiple400(y: int)
    ensures y % 400 == 0 ==> y % 100 == 0
  {
    if y % 400 == 0 {
      var q := y / 400;
      assert y == 400 * q;
      assert y / 100 == 4 * q;
    }
  }

  lemma Multiple100(y: int)
    ensures y % 100 == 0 ==> y % 4 == 0
  {
    if y % 100 == 0 {
      var q := y / 100;
      assert y == 100 * q;
      assert y / 4 == 25 * q;
    }
  }

  /** The count of years divisible by 4 grows by one exactly at such a year. */
  lemma Step4(y: int)
    ensures (y + 1 - 1969) / 4 == (y - 1969) / 4 + (if y % 4 == 0 then 1 else 0)
  {
  }

  /** The count of years divisible by 100 grows by one exactly at such a year. */
  lemma Step100(y: int)
    ensures (y + 1 - 1901) / 100 == (y - 1901) / 100 + (if y % 100 == 0 then 1 else 0)
  {
  }

  /** The count of years divisible by 400 grows by one exactly at such a year. */
  lemma Step400(y: int)
    ensures (y + 1 - 1601) / 400 == (y - 1601) / 400 + (if y % 400 == 0 then 1 else 0)
  {
  }

  /** Days of the year before month m (0-based), for 0 <= m <= 12. */
  function DaysBeforeMonth(y: int, m: int): (d: int)
    requires 0 <= m <= 12
    ensures m == 12 ==> d == DaysInYear(y)
    ensures 0 < m ==> d > DaysBeforeMonth(y, m - 1)
  {
    [0, 31, 59, 90, 120, 151, 181, 212, 243, 273, 304, 334, 365][m]
      + (if IsLeap(y) && m >= 2 then 1 else 0)
  }

  /**
    ECMAScript MakeDay(year, month, date): the day number of the given date,
    where month is 0-based and may lie outside 0..11 and date outside the month.
   */
  function MakeDay(year: int, month: int, date: int): int {
    var ym := year + month / 12;
    var mn := month % 12;
    DayFromYear(ym) + DaysBeforeMonth(ym, mn) + date - 1
  }

  /**
    The year containing day z, searched from year y. The search direction and
    the distance to z measure the recursion.
   */
  function FindYear(z: int, y: int): (r: int)
    ensures DayFromYear(r) <= z < DayFromYear(r + 1)
    decreases if z < DayFromYear(y) then 1 else 0,
              if z < DayFromYear(y) then DayFromYear(y) - z else z - DayFromYear(y)
  {
    if z < DayFromYear(y) then
      NextYear(y - 1);
      FindYear(z, y - 1)
    else if z >= DayFromYear(y + 1) then
      NextYear(y);
      FindYear(z, y + 1)
    else y
  }

  /** The 0-based month of day-of-year doy, searched from month m. */
  function FindMonth(y: int, doy: int, m: int): (r: int)
    requires 0 <= m < 12 && DaysBeforeMonth(y, m) <= doy < DaysInYear(y)
    ensures m <= r < 12 && DaysBeforeMonth(y, r) <= doy < DaysBeforeMonth(y, r + 1)
    decreases 12 - m
  {
    if doy < DaysBeforeMonth(y, m + 1) then m else FindMonth(y, doy, m + 1)
  }

  /** No month has more than 31 days. */
  lemma MonthLength(y: int, m: int)
    requires 0 <= m < 12
    ensures DaysBeforeMonth(y, m + 1) - DaysBeforeMonth(y, m) <= 31
  {
  }

  /** A calendar date with a 1-based month and a 1-based day of the month. */
  datatype Civil = Civil(year: int, month: int, day: int)

  /**
    The UTC calendar date of day number z (what getUTCFullYear,
    getUTCMonth() + 1 and getUTCDate report). Its partner is MakeDay:
    the date it gives is a valid date that MakeDay maps back to z.
   */
  function CivilOfDay(z: int): (c: Civil)
    ensures 1 <= c.month <= 12
    ensures 1 <= c.day <= DaysBeforeMonth(c.year, c.month) - DaysBeforeMonth(c.year, c.month - 1)
    ensures c.day <= 31
    ensures MakeDay(c.year, c.month - 1, c.day) == z
  {
    var y := FindYear(z, 1970);
    var doy := z - DayFromYear(y);
    var m := YearDayMonth(y, doy);
    var day := doy - DaysBeforeMonth(y, m) + 1;
    MonthLength(y, m);
    MakeDayOfMonth(y, m, day);
    Civil(y, m + 1, day)
  }

  /** The 0-based month holding day doy of year y. */
  function YearDayMonth(y: int, doy: int): (m: int)
    requires DayFromYear(y) + doy < DayFromYear(y + 1) && 0 <= doy
    ensures 0 <= m < 12 && DaysBeforeMonth(y, m) <= doy < DaysBeforeMonth(y, m + 1)
  {
    NextYear(y);
    FindMonth(y, doy, 0)
  }

  /** MakeDay of a month in 0..11 needs no carry into the year. */
  lemma MakeDayOfMonth(y: int, m: int, day: int)
    requires 0 <= m < 12
    ensures MakeDay(y, m, day) == DayFromYear(y) + DaysBeforeMonth(y, m) + day - 1
  {
    MonthInYear(m);
    assert y + m / 12 == y;
    assert MakeDay(y, m, day) == DayFromYear(y + m / 12) + DaysBeforeMonth(y + m / 12, m % 12) + day - 1;
  }

  /** A month in 0..11 is its own remainder and carries nothing. */
  lemma MonthInYear(m: int)
    requires 0 <= m < 12
    ensures m / 12 == 0 && m % 12 == m
  {
  }

  /** The calendar date of a time value, in UTC. */
  function UtcCivil(t: int): Civil {
    CivilOfDay(t / MsPerDay)
  }
}
