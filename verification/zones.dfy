/** Fixed-offset time zones (`OFFSETS` and `getZoneTime`). A zone view of an
    instant is the instant shifted by the zone's offset and then read as if
    it were UTC; that is the net effect of the source's correction by the
    host's own offset followed by a host-local reading. No daylight saving. */
module Zones {
  import opened Instants

  /** The three zones the tool displays. */
  datatype Zone = Panama | Taiwan | GMT

  /** Whole-hour UTC offset of each zone. */
  function Offset(z: Zone): int
  {
    match z
    case Panama => -5
    case Taiwan => 8
    case GMT => 0
  }

  /** The wall-clock view of instant `t` in a zone `offsetHours` east of UTC. */
  function ZoneTime(t: int, offsetHours: int): int
  {
    t + MsPerHour * offsetHours
  }

  /** Day of the week of a wall-clock view, 0 = Sunday ... 6 = Saturday.
      1970-01-01 was a Thursday; `/` rounds towards negative infinity here,
      which matches the calendar before the epoch as well. */
  function Weekday(local: int): (r: int)
    ensures 0 <= r < 7
  {
    (local / MsPerDay + 4) % 7
  }

  /** Shifting into a zone and back by the opposite offset recovers the
      instant, and shifts compose additively. */
  lemma ZoneTimeRoundTrip(t: int, o: int, p: int)
    ensures ZoneTime(ZoneTime(t, o), -o) == t
    ensures ZoneTime(ZoneTime(t, o), p) == ZoneTime(t, o + p)
  {
  }

  /** The offsets are exactly Panama -5, Taiwan +8 and GMT 0, so the Taiwan
      view of any instant is 13 hours ahead of its Panama view. */
  lemma OffsetsTable(t: int)
    ensures Offset(Panama) == -5 && Offset(Taiwan) == 8 && Offset(GMT) == 0
    ensures ZoneTime(t, Offset(Taiwan)) - ZoneTime(t, Offset(Panama)) == 13 * MsPerHour
    ensures ZoneTime(t, Offset(GMT)) == t
  {
  }

  /** Consecutive days have consecutive weekdays, Saturday wrapping to Sunday. */
  lemma {:induction false} WeekdayNextDay(local: int)
    ensures Weekday(local + MsPerDay) == (Weekday(local) + 1) % 7
  {
    assert (local + MsPerDay) / MsPerDay == local / MsPerDay + 1;
  }

  /** A weekday depends only on the day: every instant of one day shares it. */
  lemma {:induction false} WeekdaySameDay(day: int, ms: int)
    requires 0 <= ms < MsPerDay
    ensures Weekday(day * MsPerDay + ms) == (day + 4) % 7
  {
    assert (day * MsPerDay + ms) / MsPerDay == day;
  }
}
