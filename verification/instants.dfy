/** Instants are whole milliseconds since 1970-01-01T00:00:00Z, the value a
    JavaScript `Date` holds. This module fixes the unit constants and the
    reading of an ISO-8601 date-time with an explicit UTC offset, which is
    how every calendar boundary in the schedule table is written. */
module Instants {

  const MsPerSecond: int := 1000
  const MsPerMinute: int := 60_000
  const MsPerHour: int := 3_600_000
  const MsPerDay: int := 86_400_000

  /** The units nest as seconds, minutes, hours and days. */
  lemma UnitsNest()
    ensures MsPerMinute == 60 * MsPerSecond
    ensures MsPerHour == 60 * MsPerMinute
    ensures MsPerDay == 24 * MsPerHour
  {
  }

  /** Number of days from 1970-01-01 to the proleptic Gregorian date
      (y, m, d); negative before the epoch. Era-based day count: March is
      month 0 of the computational year so that the leap day comes last. */
  function DaysFromCivil(y: int, m: int, d: int): int
    requires 1 <= m <= 12 && 1 <= d <= 31
  {
    var y' := if m <= 2 then y - 1 else y;
    var era := y' / 400;
    var yoe := y' - era * 400;
    var mp := if m > 2 then m - 3 else m + 9;
    var doy := (153 * mp + 2) / 5 + d - 1;
    var doe := yoe * 365 + yoe / 4 - yoe / 100 + doy;
    era * 146097 + doe - 719468
  }

  /** The instant whose wall-clock reading, in a zone `offsetHours` east of
      UTC, is `h:mi:s` on epoch day `day`: the UTC value is the wall-clock
      value minus the offset. */
  function InstantAt(day: int, h: int, mi: int, s: int, offsetHours: int): int
  {
    day * MsPerDay + h * MsPerHour + mi * MsPerMinute + s * MsPerSecond - offsetHours * MsPerHour
  }

  /** The instant denoted by `YYYY-MM-DDThh:mm:ss±HH:00`. */
  function IsoInstant(y: int, mo: int, d: int, h: int, mi: int, s: int, offsetHours: int): int
    requires 1 <= mo <= 12 && 1 <= d <= 31
  {
    InstantAt(DaysFromCivil(y, mo, d), h, mi, s, offsetHours)
  }

  /** The epoch itself and the anchors the calendar relies on: 2025-01-01 is
      epoch day 20089, 2025-12-24 is day 20446, and the year turns over
      between 2025-12-31 and 2026-01-01 without a gap. */
  lemma CivilAnchors()
    ensures DaysFromCivil(1970, 1, 1) == 0
    ensures DaysFromCivil(2025, 1, 1) == 20089
    ensures DaysFromCivil(2025, 12, 24) == 20446
    ensures DaysFromCivil(2025, 12, 25) == DaysFromCivil(2025, 12, 24) + 1
    ensures DaysFromCivil(2026, 1, 1) == DaysFromCivil(2025, 12, 31) + 1
    ensures DaysFromCivil(2025, 12, 31) == DaysFromCivil(2025, 12, 24) + 7
  {
  }
}
