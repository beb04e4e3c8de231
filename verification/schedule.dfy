/** The schedule record (`ScheduleEntry`): one explicit calendar window with
    a status, closed bounds given as absolute instants and an optional note. */
module Schedule {
  import opened Wrappers

  /** `'Working' | 'Non-Working' | 'Holiday'`. */
  datatype Status = Working | NonWorking | Holiday

  /** A window `[start, end]`, both bounds inclusive, in epoch milliseconds. */
  datatype Window = Window(status: Status, start: int, end: int, note: Option<string>)

  /** The closed-interval membership test used by the classifier. */
  predicate Contains(w: Window, t: int)
  {
    w.start <= t <= w.end
  }

  /** Starts strictly increase along the list, pairwise. */
  ghost predicate StartsAscending(ws: seq<Window>)
  {
    forall i, j :: 0 <= i < j < |ws| ==> ws[i].start < ws[j].start
  }

  /** Strict increase between neighbours is enough for strict increase
      between any two positions. */
  lemma {:induction false} AdjacentAscendingIsAscending(ws: seq<Window>)
    requires forall i :: 0 <= i < |ws| - 1 ==> ws[i].start < ws[i + 1].start
    ensures StartsAscending(ws)
  {
    if |ws| > 1 {
      var tail := ws[1..];
      assert forall i :: 0 <= i < |tail| - 1 ==> tail[i].start < tail[i + 1].start by {
        forall i | 0 <= i < |tail| - 1
          ensures tail[i].start < tail[i + 1].start
        {
          assert tail[i] == ws[i + 1] && tail[i + 1] == ws[i + 2];
        }
      }
      AdjacentAscendingIsAscending(tail);
      forall i, j | 0 <= i < j < |ws|
        ensures ws[i].start < ws[j].start
      {
        if i > 0 {
          assert ws[i] == tail[i - 1] && ws[j] == tail[j - 1];
        } else if j > 1 {
          assert ws[1] == tail[0] && ws[j] == tail[j - 1];
        }
      }
    }
  }
}
