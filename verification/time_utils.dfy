/** The time-status engine (`utils/timeUtils.ts`): the classifier, the
    upcoming-transition finder and the safe-deadline search. Each takes the
    ordered window list as a parameter; the application binds it to the
    static table in `Calendar`. */
module TimeUtils {
  import opened Wrappers
  import opened Instants
  import opened Zones
  import opened Schedule

  // ---------------------------------------------------------------------
  // Classification (`getFMCStatus`)
  // ---------------------------------------------------------------------

  /** What the classifier returns: a status and an optional note. */
  datatype StatusInfo = StatusInfo(status: Status, note: Option<string>)

  /** `i` is the first window, in list order, whose closed interval holds `t`. */
  ghost predicate IsFirstMatch(ws: seq<Window>, t: int, i: int)
  {
    && 0 <= i < |ws|
    && Contains(ws[i], t)
    && forall j :: 0 <= j < i ==> !Contains(ws[j], t)
  }

  /** No window of the list holds `t`. */
  ghost predicate Uncovered(ws: seq<Window>, t: int)
  {
    forall j :: 0 <= j < |ws| ==> !Contains(ws[j], t)
  }

  /** The Panama-local weekday of `t` is Sunday or Saturday. */
  predicate IsPanamaWeekend(t: int)
  {
    var day := Weekday(ZoneTime(t, Offset(Panama)));
    day == 0 || day == 6
  }

  /** Linear scan from position `i`: the index of the first window at or
      after `i` that holds `t`. */
  function FirstMatchFrom(ws: seq<Window>, t: int, i: nat): (r: Option<nat>)
    requires i <= |ws|
    ensures r.Some? ==> i <= r.value < |ws| && Contains(ws[r.value], t)
    ensures r.Some? ==> forall j :: i <= j < r.value ==> !Contains(ws[j], t)
    ensures r.None? ==> forall j :: i <= j < |ws| ==> !Contains(ws[j], t)
    decreases |ws| - i
  {
    if i == |ws| then None
    else if Contains(ws[i], t) then Some(i)
    else FirstMatchFrom(ws, t, i + 1)
  }

  /** The classifier: the status and note of the first window holding `t`;
      for an instant no window holds, Non-Working with note "Weekend" on a
      Panama Saturday or Sunday and Working with no note on any other day. */
  function Classify(ws: seq<Window>, t: int): (r: StatusInfo)
    ensures forall i :: IsFirstMatch(ws, t, i) ==> r == StatusInfo(ws[i].status, ws[i].note)
    ensures Uncovered(ws, t) && IsPanamaWeekend(t) ==> r == StatusInfo(NonWorking, Some("Weekend"))
    ensures Uncovered(ws, t) && !IsPanamaWeekend(t) ==> r == StatusInfo(Working, None)
  {
    match FirstMatchFrom(ws, t, 0)
    case Some(i) => StatusInfo(ws[i].status, ws[i].note)
    case None =>
      if IsPanamaWeekend(t) then StatusInfo(NonWorking, Some("Weekend"))
      else StatusInfo(Working, None)
  }

  predicate IsWorking(ws: seq<Window>, t: int)
  {
    Classify(ws, t).status == Working
  }

  /** Exactly one of the two cases of the classifier applies: some window is
      the first match, or none covers the instant. */
  lemma {:induction false} ClassifyCases(ws: seq<Window>, t: int)
    ensures Uncovered(ws, t) || exists i :: IsFirstMatch(ws, t, i)
    ensures Uncovered(ws, t) ==> forall i :: !IsFirstMatch(ws, t, i)
  {
    var m := FirstMatchFrom(ws, t, 0);
    if m.Some? {
      assert IsFirstMatch(ws, t, m.value);
    }
  }

  /** An uncovered instant is Working exactly when it does not fall on a
      Panama weekend, and a non-Working uncovered instant carries the note
      "Weekend". */
  lemma {:induction false} FallbackIff(ws: seq<Window>, t: int)
    requires Uncovered(ws, t)
    ensures IsWorking(ws, t) <==> !IsPanamaWeekend(t)
    ensures !IsWorking(ws, t) ==> Classify(ws, t).note == Some("Weekend")
  {
  }

  // ---------------------------------------------------------------------
  // Upcoming transition (`getUpcomingHolidayInfo`)
  // ---------------------------------------------------------------------

  /** The finder's result: whole hours until the start, the start instant,
      and the status that will become active. */
  datatype UpcomingHoliday = UpcomingHoliday(startsInHours: int, startTime: int, status: Status)

  /** Window `i` passes the finder's filter: not Working and starting
      strictly after `now`. */
  ghost predicate IsCandidate(ws: seq<Window>, now: int, i: int)
  {
    0 <= i < |ws| && ws[i].status != Working && ws[i].start > now
  }

  /** Index of the candidate at or after `i` with the least start; among
      equal starts the one listed first, as a stable sort puts it first. */
  function EarliestFrom(ws: seq<Window>, now: int, i: nat): (r: Option<nat>)
    requires i <= |ws|
    ensures r.Some? ==> i <= r.value && IsCandidate(ws, now, r.value)
    ensures r.Some? ==> forall j :: i <= j && IsCandidate(ws, now, j) ==> ws[r.value].start <= ws[j].start
    ensures r.Some? ==> forall j :: i <= j < r.value && IsCandidate(ws, now, j) ==> ws[r.value].start < ws[j].start
    ensures r.None? ==> forall j :: i <= j ==> !IsCandidate(ws, now, j)
    decreases |ws| - i
  {
    if i == |ws| then None
    else
      var rest := EarliestFrom(ws, now, i + 1);
      if ws[i].status != Working && ws[i].start > now
         && (rest.None? || ws[i].start <= ws[rest.value].start)
      then Some(i)
      else rest
  }

  /** The finder: the earliest candidate window, reported only if it starts
      at most 24 hours after `now`, with the whole hours until it starts. */
  function UpcomingHolidayInfo(ws: seq<Window>, now: int): (r: Option<UpcomingHoliday>)
    ensures r.Some? ==> now < r.value.startTime <= now + MsPerDay
    ensures r.Some? ==> 0 <= r.value.startsInHours <= 24
    ensures r.Some? ==> r.value.startsInHours * MsPerHour <= r.value.startTime - now
                                                          < (r.value.startsInHours + 1) * MsPerHour
    ensures r.Some? ==> r.value.status != Working
    ensures r.Some? ==> exists i :: IsCandidate(ws, now, i) && ws[i].start == r.value.startTime
                                    && ws[i].status == r.value.status
                                    && forall j :: 0 <= j < i && IsCandidate(ws, now, j) ==> ws[j].start != ws[i].start
    ensures r.Some? ==> forall j :: IsCandidate(ws, now, j) ==> r.value.startTime <= ws[j].start
    ensures r.None? <==> forall j :: IsCandidate(ws, now, j) ==> ws[j].start - now > MsPerDay
  {
    match EarliestFrom(ws, now, 0)
    case None => None
    case Some(i) =>
      var diff := ws[i].start - now;
      if diff <= MsPerDay then
        assert IsCandidate(ws, now, i);
        Some(UpcomingHoliday(diff / MsPerHour, ws[i].start, ws[i].status))
      else None
  }

  // ---------------------------------------------------------------------
  // Safe deadline (`calculateSafeDeadline`)
  // ---------------------------------------------------------------------

  /** The fixed lead time of four days. */
  const LeadTime: int := 4 * MsPerDay

  /** The walk gives up after this many one-hour steps. */
  const StepCap: nat := 500

  /** The candidate `k` one-hour steps before `base`. */
  function HoursBefore(base: int, k: int): int
  {
    base - k * MsPerHour
  }

  /** `k` is where a walk from `base` allowed `budget` steps stops: every
      earlier step is non-Working, and unless the budget is spent, step `k`
      is Working. */
  ghost predicate IsStoppingStep(ws: seq<Window>, base: int, budget: nat, k: nat)
  {
    && k <= budget
    && (forall j :: 0 <= j < k ==> !IsWorking(ws, HoursBefore(base, j)))
    && (k < budget ==> IsWorking(ws, HoursBefore(base, k)))
  }

  /** The backward walk from candidate `deadline` with `counter` steps
      already taken: the number of further one-hour steps the loop takes. */
  function WalkSteps(ws: seq<Window>, deadline: int, counter: nat): (k: nat)
    requires counter <= StepCap
    ensures IsStoppingStep(ws, deadline, StepCap - counter, k)
    decreases StepCap - counter
  {
    if !IsWorking(ws, deadline) && counter < StepCap then
      var k' := WalkSteps(ws, deadline - MsPerHour, counter + 1);
      StoppingStepAfterOneStep(ws, deadline, StepCap - counter, k');
      k' + 1
    else 0
  }

  /** A walk that takes one non-Working step and then stops after `k`
      further steps stops after `k + 1` steps. */
  lemma {:induction false} StoppingStepAfterOneStep(ws: seq<Window>, deadline: int, budget: nat, k: nat)
    requires budget > 0 && !IsWorking(ws, deadline)
    requires IsStoppingStep(ws, deadline - MsPerHour, budget - 1, k)
    ensures IsStoppingStep(ws, deadline, budget, k + 1)
  {
    forall j | 0 <= j < k + 1
      ensures !IsWorking(ws, HoursBefore(deadline, j))
    {
      if j > 0 {
        assert HoursBefore(deadline, j) == HoursBefore(deadline - MsPerHour, j - 1);
      }
    }
    assert HoursBefore(deadline, k + 1) == HoursBefore(deadline - MsPerHour, k);
  }

  /** The naive deadline: the target minus the lead time. */
  function NaiveDeadline(target: int): int
  {
    target - LeadTime
  }

  /** The safe deadline: four days before the target, moved back an hour at
      a time while the classifier does not say Working, at most 500 times.
      The result is a whole number of hours, at most 500, before the naive
      deadline; before the cap it is Working and every later hour step is
      not, so it is the latest Working hour step; at the cap it is the 500th
      step, whatever its status. */
  function SafeDeadline(ws: seq<Window>, target: int): (r: int)
    ensures exists k :: 0 <= k <= StepCap && r == HoursBefore(NaiveDeadline(target), k)
    ensures HoursBefore(NaiveDeadline(target), StepCap) <= r <= NaiveDeadline(target)
    ensures r > HoursBefore(NaiveDeadline(target), StepCap) ==> IsWorking(ws, r)
    ensures forall j :: 0 <= j && HoursBefore(NaiveDeadline(target), j) > r
                        ==> !IsWorking(ws, HoursBefore(NaiveDeadline(target), j))
  {
    var k := WalkSteps(ws, NaiveDeadline(target), 0);
    StoppingStepFacts(ws, NaiveDeadline(target), k);
    HoursBefore(NaiveDeadline(target), k)
  }

  /** What stopping at step `k` of a walk from `base` means for the
      instant reached. */
  lemma {:induction false} StoppingStepFacts(ws: seq<Window>, base: int, k: nat)
    requires IsStoppingStep(ws, base, StepCap, k)
    ensures (base - HoursBefore(base, k)) % MsPerHour == 0
    ensures HoursBefore(base, StepCap) <= HoursBefore(base, k) <= base
    ensures HoursBefore(base, k) > HoursBefore(base, StepCap) ==> IsWorking(ws, HoursBefore(base, k))
    ensures forall j :: 0 <= j && HoursBefore(base, j) > HoursBefore(base, k)
                        ==> !IsWorking(ws, HoursBefore(base, j))
  {
    assert base - HoursBefore(base, k) == k * MsPerHour;
  }

  /** There is only one stopping step: the walk's result is determined by
      the classifier alone. */
  lemma {:induction false} StoppingStepUnique(ws: seq<Window>, base: int, budget: nat, k1: nat, k2: nat)
    requires IsStoppingStep(ws, base, budget, k1)
    requires IsStoppingStep(ws, base, budget, k2)
    ensures k1 == k2
  {
  }

  /** The deadline equals the `k`-th hour step exactly when `k` is the
      stopping step of a walk of at most 500 steps. */
  lemma {:induction false} SafeDeadlineCharacterised(ws: seq<Window>, target: int, k: nat)
    ensures SafeDeadline(ws, target) == HoursBefore(NaiveDeadline(target), k)
        <==> IsStoppingStep(ws, NaiveDeadline(target), StepCap, k)
  {
    var base := NaiveDeadline(target);
    var k0 := WalkSteps(ws, base, 0);
    assert SafeDeadline(ws, target) == HoursBefore(base, k0);
    if IsStoppingStep(ws, base, StepCap, k) {
      StoppingStepUnique(ws, base, StepCap, k, k0);
    }
  }

  /** A naive deadline that is already Working is returned unchanged. */
  lemma {:induction false} SafeDeadlineKeepsWorking(ws: seq<Window>, target: int)
    requires IsWorking(ws, NaiveDeadline(target))
    ensures SafeDeadline(ws, target) == NaiveDeadline(target)
  {
    assert HoursBefore(NaiveDeadline(target), 0) == NaiveDeadline(target);
    SafeDeadlineCharacterised(ws, target, 0);
  }

  /** There is no failure path: when no hour step within the cap is
      Working, the walk returns the 500th step although it is not Working. */
  lemma {:induction false} SafeDeadlineCapUnchecked(ws: seq<Window>, target: int)
    requires forall j :: 0 <= j <= StepCap ==> !IsWorking(ws, HoursBefore(NaiveDeadline(target), j))
    ensures SafeDeadline(ws, target) == HoursBefore(NaiveDeadline(target), StepCap)
    ensures !IsWorking(ws, SafeDeadline(ws, target))
  {
    assert IsStoppingStep(ws, NaiveDeadline(target), StepCap, StepCap);
    SafeDeadlineCharacterised(ws, target, StepCap);
  }

  /** Such a list exists: a single Non-Working window covering the whole
      search range makes the walk return its unchecked 500th step. */
  lemma {:induction false} SafeDeadlineCapExample(target: int)
    ensures var ws := [Window(NonWorking, HoursBefore(NaiveDeadline(target), 1000), NaiveDeadline(target), None)];
            && SafeDeadline(ws, target) == HoursBefore(NaiveDeadline(target), StepCap)
            && !IsWorking(ws, SafeDeadline(ws, target))
  {
    var base := NaiveDeadline(target);
    var ws := [Window(NonWorking, HoursBefore(base, 1000), base, None)];
    forall j | 0 <= j <= StepCap
      ensures !IsWorking(ws, HoursBefore(base, j))
    {
      assert IsFirstMatch(ws, HoursBefore(base, j), 0);
    }
    SafeDeadlineCapUnchecked(ws, target);
  }
}
