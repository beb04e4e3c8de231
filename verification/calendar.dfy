/** The static ruleset (`HOLIDAY_WINDOWS`): twelve windows for the two
    holiday seasons of 2025/26, each boundary written as a Panama wall-clock
    time with a `-05:00` suffix, listed in the order the classifier scans
    them. */
module Calendar {
  import opened Wrappers
  import opened Instants
  import opened Zones
  import opened Schedule

  /** Epoch days of the four calendar days the table mentions. */
  const Dec24: int := 20446
  const Dec25: int := 20447
  const Dec31: int := 20453
  const Jan01: int := 20454

  /** A boundary written `YYYY-MM-DDThh:mm:ss-05:00`, for the epoch day of
      `YYYY-MM-DD`. */
  function PanamaAt(day: int, h: int, mi: int, s: int): int
  {
    InstantAt(day, h, mi, s, Offset(Panama))
  }

  const HolidayWindows: seq<Window> := [
    // Dec 24: partial working day
    Window(NonWorking, PanamaAt(Dec24, 0, 0, 0), PanamaAt(Dec24, 6, 0, 0), Some("Early Morning")),
    Window(Working, PanamaAt(Dec24, 6, 0, 0), PanamaAt(Dec24, 13, 30, 0), Some("Shift 1")),
    Window(NonWorking, PanamaAt(Dec24, 13, 30, 0), PanamaAt(Dec24, 14, 0, 0), Some("Break")),
    Window(Working, PanamaAt(Dec24, 14, 0, 0), PanamaAt(Dec24, 21, 0, 0), Some("Shift 2")),
    Window(NonWorking, PanamaAt(Dec24, 21, 0, 0), PanamaAt(Dec24, 23, 59, 59), Some("Late Night")),
    // Dec 25 holiday
    Window(Holiday, PanamaAt(Dec25, 0, 0, 0), PanamaAt(Dec25, 23, 59, 59), Some("Full Holiday")),
    // Dec 31: partial working day
    Window(NonWorking, PanamaAt(Dec31, 0, 0, 0), PanamaAt(Dec31, 6, 0, 0), Some("Early Morning")),
    Window(Working, PanamaAt(Dec31, 6, 0, 0), PanamaAt(Dec31, 13, 30, 0), Some("Shift 1")),
    Window(NonWorking, PanamaAt(Dec31, 13, 30, 0), PanamaAt(Dec31, 14, 0, 0), Some("Break")),
    Window(Working, PanamaAt(Dec31, 14, 0, 0), PanamaAt(Dec31, 21, 0, 0), Some("Shift 2")),
    Window(NonWorking, PanamaAt(Dec31, 21, 0, 0), PanamaAt(Dec31, 23, 59, 59), Some("Late Night")),
    // Jan 1 holiday
    Window(Holiday, PanamaAt(Jan01, 0, 0, 0), PanamaAt(Jan01, 23, 59, 59), Some("Full Holiday"))
  ]

  /** The day constants are the calendar dates they are named after, so
      `PanamaAt(Dec24, h, mi, s)` is the instant written
      `2025-12-24Thh:mm:ss-05:00`. */
  lemma {:induction false} DaysAreCivilDates(h: int, mi: int, s: int)
    ensures Dec24 == DaysFromCivil(2025, 12, 24) && Dec25 == DaysFromCivil(2025, 12, 25)
    ensures Dec31 == DaysFromCivil(2025, 12, 31) && Jan01 == DaysFromCivil(2026, 1, 1)
    ensures PanamaAt(Dec24, h, mi, s) == IsoInstant(2025, 12, 24, h, mi, s, -5)
    ensures PanamaAt(Dec25, h, mi, s) == IsoInstant(2025, 12, 25, h, mi, s, -5)
    ensures PanamaAt(Dec31, h, mi, s) == IsoInstant(2025, 12, 31, h, mi, s, -5)
    ensures PanamaAt(Jan01, h, mi, s) == IsoInstant(2026, 1, 1, h, mi, s, -5)
  {
    CivilAnchors();
  }

  /** Panama wall-clock view of an instant. */
  function PanamaView(t: int): int
  {
    ZoneTime(t, Offset(Panama))
  }

  /** Milliseconds since Panama-local midnight. */
  function PanamaTimeOfDay(t: int): int
  {
    PanamaView(t) % MsPerDay
  }

  /** Panama-local epoch day. */
  function PanamaDay(t: int): int
  {
    PanamaView(t) / MsPerDay
  }

  /** A `-05:00` boundary is, read back in the Panama zone, exactly the
      wall-clock time it was written with. */
  lemma {:induction false} PanamaAtReadsBack(day: int, h: int, mi: int, s: int)
    requires 0 <= h < 24 && 0 <= mi < 60 && 0 <= s < 60
    ensures PanamaDay(PanamaAt(day, h, mi, s)) == day
    ensures PanamaTimeOfDay(PanamaAt(day, h, mi, s)) == h * MsPerHour + mi * MsPerMinute + s * MsPerSecond
  {
    var ms := h * MsPerHour + mi * MsPerMinute + s * MsPerSecond;
    assert 0 <= ms < MsPerDay;
    assert PanamaView(PanamaAt(day, h, mi, s)) == day * MsPerDay + ms;
  }

  /** Every window is non-empty: its start lies strictly before its end. */
  lemma WindowsNonEmpty()
    ensures forall i :: 0 <= i < |HolidayWindows| ==> HolidayWindows[i].start < HolidayWindows[i].end
  {
  }

  /** The twelve windows are listed in strictly ascending order of start. */
  lemma {:induction false} WindowsAscending()
    ensures |HolidayWindows| == 12
    ensures StartsAscending(HolidayWindows)
  {
    var ws := HolidayWindows;
    assert forall i :: 0 <= i < |ws| - 1 ==> ws[i].start < ws[i + 1].start;
    AdjacentAscendingIsAscending(ws);
  }

  /** Every window begins and ends on the same Panama-local day. */
  lemma WindowsWithinPanamaDays()
    ensures forall i :: 0 <= i < |HolidayWindows| ==> PanamaDay(HolidayWindows[i].start) == PanamaDay(HolidayWindows[i].end)
  {
  }

  /** Within Dec 24 and within Dec 31 consecutive windows touch: each end is
      the next start, at 06:00, 13:30, 14:00 and 21:00 Panama time. */
  lemma SameDayWindowsTouch()
    ensures forall i :: (0 <= i < 4 || 6 <= i < 10) ==> HolidayWindows[i].end == HolidayWindows[i + 1].start
  {
  }

  /** Each Late Night and each Holiday window ends at 23:59:59 Panama time
      and every window that follows one starts at 00:00:00; ends are
      inclusive, so only the 999 ms after 23:59:59 before each of those
      midnights are covered by no window. */
  lemma DaysEndOneSecondEarly()
    ensures forall i :: i in {4, 5, 10, 11} ==> PanamaTimeOfDay(HolidayWindows[i].end) == MsPerDay - MsPerSecond
    ensures forall i :: i in {5, 6, 11} ==> PanamaTimeOfDay(HolidayWindows[i].start) == 0
  {
  }

  /** Exactly two windows are Holiday: Dec 25 and Jan 1, each from 00:00:00
      to 23:59:59 Panama time, with note "Full Holiday". */
  lemma HolidaysAreWholeDays()
    ensures forall i :: 0 <= i < |HolidayWindows| ==> (HolidayWindows[i].status == Holiday <==> i == 5 || i == 11)
    ensures HolidayWindows[5].start == PanamaAt(Dec25, 0, 0, 0) && HolidayWindows[5].end == PanamaAt(Dec25, 23, 59, 59)
    ensures HolidayWindows[11].start == PanamaAt(Jan01, 0, 0, 0) && HolidayWindows[11].end == PanamaAt(Jan01, 23, 59, 59)
    ensures HolidayWindows[5].note == HolidayWindows[11].note == Some("Full Holiday")
  {
  }

  /** Exactly four windows are Working: "Shift 1" from 06:00 to 13:30 and
      "Shift 2" from 14:00 to 21:00, on Dec 24 and on Dec 31. */
  lemma WorkingShifts()
    ensures forall i :: 0 <= i < |HolidayWindows| ==> (HolidayWindows[i].status == Working <==> i in {1, 3, 7, 9})
    ensures HolidayWindows[1] == Window(Working, PanamaAt(Dec24, 6, 0, 0), PanamaAt(Dec24, 13, 30, 0), Some("Shift 1"))
    ensures HolidayWindows[3] == Window(Working, PanamaAt(Dec24, 14, 0, 0), PanamaAt(Dec24, 21, 0, 0), Some("Shift 2"))
    ensures HolidayWindows[7] == Window(Working, PanamaAt(Dec31, 6, 0, 0), PanamaAt(Dec31, 13, 30, 0), Some("Shift 1"))
    ensures HolidayWindows[9] == Window(Working, PanamaAt(Dec31, 14, 0, 0), PanamaAt(Dec31, 21, 0, 0), Some("Shift 2"))
  {
  }
}
