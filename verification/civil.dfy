/**
 * Instants are integers: milliseconds since 1970-01-01T00:00:00Z. A wall-clock
 * date and time in a zone with a known UTC offset names one instant; this is
 * what `DateTime.fromObject({...}, { zone })` yields once the offset the zone
 * has on that date is known.
 */
module Civil {

  const MsPerSecond: int := 1000
  const MsPerMinute: int := 60 * MsPerSecond
  const MsPerHour: int := 60 * MsPerMinute
  /** Days are taken as fixed 24-hour spans. */
  const MsPerDay: int := 24 * MsPerHour

  /** A wall-clock reading in some zone, to the minute. */
  datatype LocalDateTime = LocalDateTime(year: int, month: int, day: int, hour: int, minute: int)

  predicate IsLeapYear(y: int) {
    y % 4 == 0 && (y % 100 != 0 || y % 400 == 0)
  }

  function DaysInMonth(y: int, m: int): int
    requires 1 <= m <= 12
  {
    if m == 2 then (if IsLeapYear(y) then 29 else 28)
    else if m == 4 || m == 6 || m == 9 || m == 11 then 30
    else 31
  }

  predicate ValidLocal(t: LocalDateTime) {
    && 1 <= t.month <= 12
    && 1 <= t.day <= DaysInMonth(t.year, t.month)
    && 0 <= t.hour < 24
    && 0 <= t.minute < 60
  }

  /**
   * The number of days from 1970-01-01 to the given proleptic Gregorian date,
   * counting years from March so that a leap day ends its year.
   */
  function DaysFromCivil(y: int, m: int, d: int): int
    requires 1 <= m <= 12
  {
    var y' := if m <= 2 then y - 1 else y;
    var era := y' / 400;
    var yearOfEra := y' - era * 400;
    var monthFromMarch := if m > 2 then m - 3 else m + 9;
    var dayOfYear := (153 * monthFromMarch + 2) / 5 + d - 1;
    var dayOfEra := yearOfEra * 365 + yearOfEra / 4 - yearOfEra / 100 + dayOfYear;
    era * 146097 + dayOfEra - 719468
  }

  lemma MulAtLeast(k: int, b: int)
    requires k >= 1 && b > 0
    ensures k * b >= b
  {
  }

  /** Division by a positive number is fixed by quotient and remainder. */
  lemma DivModUnique(a: int, b: int, q: int, r: int)
    requires b > 0 && 0 <= r < b && a == q * b + r
    ensures a / b == q && a % b == r
  {
    var q', r' := a / b, a % b;
    assert a == q' * b + r';
    assert q * b - q' * b == r' - r;
    assert (q - q') * b == q * b - q' * b;
    if q > q' {
      MulAtLeast(q - q', b);
    } else if q < q' {
      MulAtLeast(q' - q, b);
    }
  }

  /** The instant a wall-clock reading names in a zone that is offsetMinutes ahead of UTC. */
  function InstantOf(t: LocalDateTime, offsetMinutes: int): int
    requires 1 <= t.month <= 12
  {
    DaysFromCivil(t.year, t.month, t.day) * MsPerDay
      + t.hour * MsPerHour + t.minute * MsPerMinute - offsetMinutes * MsPerMinute
  }

  /**
   * Shifted back by the zone's offset, the instant of a wall-clock reading
   * falls on the reading's day, at the reading's time of day.
   */
  lemma InstantOfReadsBack(t: LocalDateTime, offsetMinutes: int)
    requires ValidLocal(t)
    ensures (InstantOf(t, offsetMinutes) + offsetMinutes * MsPerMinute) / MsPerDay
            == DaysFromCivil(t.year, t.month, t.day)
    ensures (InstantOf(t, offsetMinutes) + offsetMinutes * MsPerMinute) % MsPerDay
            == t.hour * MsPerHour + t.minute * MsPerMinute
  {
    DivModUnique(InstantOf(t, offsetMinutes) + offsetMinutes * MsPerMinute, MsPerDay,
                 DaysFromCivil(t.year, t.month, t.day), t.hour * MsPerHour + t.minute * MsPerMinute);
  }

  /** The day count starts at the epoch and steps by one from day to day within a month. */
  lemma CivilDayCount(y: int, m: int, d: int)
    requires 1 <= m <= 12 && 1 <= d < DaysInMonth(y, m)
    ensures DaysFromCivil(1970, 1, 1) == 0
    ensures DaysFromCivil(y, m, d + 1) == DaysFromCivil(y, m, d) + 1
  {
  }
}
