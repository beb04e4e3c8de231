/** The engine applied to the static table, as the application calls it:
    `getFMCStatus` is `Classify(HolidayWindows, ·)`, `getUpcomingHolidayInfo`
    is `UpcomingHolidayInfo(HolidayWindows, ·)` and `calculateSafeDeadline`
    is `SafeDeadline(HolidayWindows, ·)`. The lemmas pin down how the table's
    shared boundaries, gaps and holidays play out. */
module FmcSchedule {
  import opened Wrappers
  import opened Instants
  import opened Zones
  import opened Schedule
  import opened Calendar
  import opened TimeUtils

  /** Where two windows of one day touch, the earlier-listed one wins: the
      boundary instant belongs to the window that ends there. */
  lemma {:induction false} SharedBoundariesGoToEarlierWindow()
    ensures Classify(HolidayWindows, PanamaAt(Dec24, 6, 0, 0)) == StatusInfo(NonWorking, Some("Early Morning"))
    ensures Classify(HolidayWindows, PanamaAt(Dec24, 13, 30, 0)) == StatusInfo(Working, Some("Shift 1"))
    ensures Classify(HolidayWindows, PanamaAt(Dec24, 14, 0, 0)) == StatusInfo(NonWorking, Some("Break"))
    ensures Classify(HolidayWindows, PanamaAt(Dec24, 21, 0, 0)) == StatusInfo(Working, Some("Shift 2"))
    ensures Classify(HolidayWindows, PanamaAt(Dec31, 6, 0, 0)) == StatusInfo(NonWorking, Some("Early Morning"))
    ensures Classify(HolidayWindows, PanamaAt(Dec31, 13, 30, 0)) == StatusInfo(Working, Some("Shift 1"))
    ensures Classify(HolidayWindows, PanamaAt(Dec31, 14, 0, 0)) == StatusInfo(NonWorking, Some("Break"))
    ensures Classify(HolidayWindows, PanamaAt(Dec31, 21, 0, 0)) == StatusInfo(Working, Some("Shift 2"))
  {
    var ws := HolidayWindows;
    assert IsFirstMatch(ws, PanamaAt(Dec24, 6, 0, 0), 0) && IsFirstMatch(ws, PanamaAt(Dec24, 13, 30, 0), 1);
    assert IsFirstMatch(ws, PanamaAt(Dec24, 14, 0, 0), 2) && IsFirstMatch(ws, PanamaAt(Dec24, 21, 0, 0), 3);
    assert IsFirstMatch(ws, PanamaAt(Dec31, 6, 0, 0), 6) && IsFirstMatch(ws, PanamaAt(Dec31, 13, 30, 0), 7);
    assert IsFirstMatch(ws, PanamaAt(Dec31, 14, 0, 0), 8) && IsFirstMatch(ws, PanamaAt(Dec31, 21, 0, 0), 9);
  }

  /** Every instant of Dec 25 and Jan 1 up to 23:59:59 Panama time is a
      Holiday with note "Full Holiday". */
  lemma {:induction false} HolidaysClassified(t: int)
    requires PanamaAt(Dec25, 0, 0, 0) <= t <= PanamaAt(Dec25, 23, 59, 59)
          || PanamaAt(Jan01, 0, 0, 0) <= t <= PanamaAt(Jan01, 23, 59, 59)
    ensures Classify(HolidayWindows, t) == StatusInfo(Holiday, Some("Full Holiday"))
  {
    if t <= PanamaAt(Dec25, 23, 59, 59) {
      assert IsFirstMatch(HolidayWindows, t, 5);
    } else {
      assert IsFirstMatch(HolidayWindows, t, 11);
    }
  }

  /** The sub-second interval after 23:59:59 on each of the four listed
      days lies in no window and falls to the weekday rule; all four days
      are weekdays (Wednesday or Thursday), so it is Working with no note. */
  lemma {:induction false} MidnightGapIsWorking(day: int, t: int)
    requires day in {Dec24, Dec25, Dec31, Jan01}
    requires PanamaAt(day, 23, 59, 59) < t < PanamaAt(day + 1, 0, 0, 0)
    ensures Uncovered(HolidayWindows, t)
    ensures Classify(HolidayWindows, t) == StatusInfo(Working, None)
  {
    assert ZoneTime(t, Offset(Panama)) / MsPerDay == day;
  }

  /** Outside the table the weekly rule applies: the Saturday and Sunday
      after Christmas 2025 are Non-Working "Weekend", the Monday after is
      Working. */
  lemma {:induction false} WeekendAfterChristmas(t: int)
    requires PanamaAt(Dec24 + 3, 0, 0, 0) <= t < PanamaAt(Dec24 + 6, 0, 0, 0)
    ensures Uncovered(HolidayWindows, t)
    ensures t < PanamaAt(Dec24 + 5, 0, 0, 0) ==> Classify(HolidayWindows, t) == StatusInfo(NonWorking, Some("Weekend"))
    ensures t >= PanamaAt(Dec24 + 5, 0, 0, 0) ==> Classify(HolidayWindows, t) == StatusInfo(Working, None)
  {
    var day := ZoneTime(t, Offset(Panama)) / MsPerDay;
    assert Dec24 + 3 <= day < Dec24 + 6;
    assert Weekday(ZoneTime(t, Offset(Panama))) == (day + 4) % 7;
  }

  /** A target of 2025-12-28 12:00 Panama time gives 2025-12-24 12:00: four
      days back is inside Shift 1, so no step is taken. */
  lemma {:induction false} DeadlineAlreadyWorking()
    ensures SafeDeadline(HolidayWindows, PanamaAt(Dec24 + 4, 12, 0, 0)) == PanamaAt(Dec24, 12, 0, 0)
  {
    var target := PanamaAt(Dec24 + 4, 12, 0, 0);
    assert NaiveDeadline(target) == PanamaAt(Dec24, 12, 0, 0);
    assert IsFirstMatch(HolidayWindows, NaiveDeadline(target), 1);
    SafeDeadlineKeepsWorking(HolidayWindows, target);
  }

  /** A target of 2026-01-05 12:00 Panama time walks back from 2026-01-01
      12:00 through thirteen Holiday hours and two Late Night hours and
      stops after 15 steps at 2025-12-31 21:00, the inclusive end of Shift 2. */
  lemma {:induction false} DeadlineWalksOutOfNewYear()
    ensures SafeDeadline(HolidayWindows, PanamaAt(Jan01 + 4, 12, 0, 0)) == PanamaAt(Dec31, 21, 0, 0)
  {
    var ws := HolidayWindows;
    var target := PanamaAt(Jan01 + 4, 12, 0, 0);
    var base := NaiveDeadline(target);
    assert base == PanamaAt(Jan01, 12, 0, 0);
    forall j | 0 <= j < 15
      ensures !IsWorking(ws, HoursBefore(base, j))
    {
      var t := HoursBefore(base, j);
      if j <= 12 {
        assert IsFirstMatch(ws, t, 11);
      } else {
        assert IsFirstMatch(ws, t, 10);
      }
    }
    assert HoursBefore(base, 15) == PanamaAt(Dec31, 21, 0, 0);
    assert IsFirstMatch(ws, HoursBefore(base, 15), 9);
    assert IsStoppingStep(ws, base, StepCap, 15);
    SafeDeadlineCharacterised(ws, target, 15);
  }

  /** At 2025-12-24 20:00 Panama time the next non-Working window is Late
      Night at 21:00, one hour away. */
  lemma {:induction false} LateNightAnnounced()
    ensures UpcomingHolidayInfo(HolidayWindows, PanamaAt(Dec24, 20, 0, 0))
         == Some(UpcomingHoliday(1, PanamaAt(Dec24, 21, 0, 0), NonWorking))
  {
    var ws := HolidayWindows;
    var now := PanamaAt(Dec24, 20, 0, 0);
    var r := UpcomingHolidayInfo(ws, now);
    assert IsCandidate(ws, now, 4);
    assert r.Some?;
    var i :| IsCandidate(ws, now, i) && ws[i].start == r.value.startTime && ws[i].status == r.value.status;
    WindowsAscending();
    assert i == 4;
  }

  /** At 2025-12-20 00:00 Panama time the next non-Working window starts four
      days later, so nothing is announced. */
  lemma NothingAnnouncedFourDaysAhead()
    ensures UpcomingHolidayInfo(HolidayWindows, PanamaAt(Dec24 - 4, 0, 0, 0)).None?
  {
  }

  /** A window starting exactly at `now` is not announced: at 21:00 on
      Dec 24 the Late Night window is skipped and the Dec 25 holiday,
      three hours away, is reported instead. */
  lemma {:induction false} WindowStartingNowSkipped()
    ensures UpcomingHolidayInfo(HolidayWindows, PanamaAt(Dec24, 21, 0, 0))
         == Some(UpcomingHoliday(3, PanamaAt(Dec25, 0, 0, 0), Holiday))
  {
    var ws := HolidayWindows;
    var now := PanamaAt(Dec24, 21, 0, 0);
    var r := UpcomingHolidayInfo(ws, now);
    assert IsCandidate(ws, now, 5);
    assert r.Some?;
    var i :| IsCandidate(ws, now, i) && ws[i].start == r.value.startTime && ws[i].status == r.value.status;
    WindowsAscending();
    assert i == 5;
  }

  /** The hours are rounded down: at 13:00 on Dec 24 the half-hour Break at
      13:30 is announced as starting in 0 hours. */
  lemma {:induction false} BreakAnnouncedInZeroHours()
    ensures UpcomingHolidayInfo(HolidayWindows, PanamaAt(Dec24, 13, 0, 0))
         == Some(UpcomingHoliday(0, PanamaAt(Dec24, 13, 30, 0), NonWorking))
  {
    var ws := HolidayWindows;
    var now := PanamaAt(Dec24, 13, 0, 0);
    var r := UpcomingHolidayInfo(ws, now);
    assert IsCandidate(ws, now, 2);
    assert r.Some?;
    var i :| IsCandidate(ws, now, i) && ws[i].start == r.value.startTime && ws[i].status == r.value.status;
    WindowsAscending();
    assert i == 2;
  }
}
