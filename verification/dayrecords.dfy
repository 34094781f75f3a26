/** Rules that adding and deleting an absence or a delegation share: the day's work times
    are found by user and date part, the first of them decides whether the day already
    holds hours, a zero-hour placeholder is created when the day has no work time at all,
    and deleting removes the first zero-total work time of the day. */
module DayRecords {
  import opened Wrappers
  import opened Calendar
  import opened TimeOfDay
  import opened WorkTimes
  import opened Seqs

  /** `w.UserId == userId && w.Date.Date == date`. */
  predicate OnDay(w: WorkTime, u: int, d: DateTime) {
    w.userId == u && DatePart(w.date) == d
  }

  /** `... && w.Total == 0`, the query that picks the work time to delete. */
  predicate ZeroOnDay(w: WorkTime, u: int, d: DateTime) {
    OnDay(w, u, d) && w.total == 0.0
  }

  ghost predicate HasWorkOn(ws: seq<WorkTime>, u: int, d: DateTime) {
    exists i :: 0 <= i < |ws| && OnDay(ws[i], u, d)
  }

  ghost predicate HasZeroOn(ws: seq<WorkTime>, u: int, d: DateTime) {
    exists i :: 0 <= i < |ws| && ZeroOnDay(ws[i], u, d)
  }

  /** `i` is the first work time of `u` on day `d`. */
  ghost predicate IsFirstOn(ws: seq<WorkTime>, u: int, d: DateTime, i: int) {
    0 <= i < |ws| && OnDay(ws[i], u, d) && forall j :: 0 <= j < i ==> !OnDay(ws[j], u, d)
  }

  /** `i` is the first zero-total work time of `u` on day `d`. */
  ghost predicate IsFirstZeroOn(ws: seq<WorkTime>, u: int, d: DateTime, i: int) {
    0 <= i < |ws| && ZeroOnDay(ws[i], u, d) && forall j :: 0 <= j < i ==> !ZeroOnDay(ws[j], u, d)
  }

  /** The first work time of the day already carries hours. Only the first one is looked at:
      a positive-hour row behind a zero-hour row of the same day does not count. */
  ghost predicate FirstHasHours(ws: seq<WorkTime>, u: int, d: DateTime) {
    exists i :: IsFirstOn(ws, u, d, i) && ws[i].total > 0.0
  }

  function FirstWorkTimeOn(ws: seq<WorkTime>, u: int, d: DateTime): (r: Option<nat>)
    ensures r.Some? ==> IsFirstOn(ws, u, d, r.value)
    ensures r.None? <==> !HasWorkOn(ws, u, d)
  {
    FirstIndex(ws, (w: WorkTime) => OnDay(w, u, d))
  }

  function FirstZeroOn(ws: seq<WorkTime>, u: int, d: DateTime): (r: Option<nat>)
    ensures r.Some? ==> IsFirstZeroOn(ws, u, d, r.value)
    ensures r.None? <==> !HasZeroOn(ws, u, d)
  {
    FirstIndex(ws, (w: WorkTime) => ZeroOnDay(w, u, d))
  }

  /** `existingWorkTime != null && existingWorkTime.Total > 0`. */
  function BlockedByHours(ws: seq<WorkTime>, u: int, d: DateTime): (b: bool)
    ensures b <==> FirstHasHours(ws, u, d)
  {
    match FirstWorkTimeOn(ws, u, d)
    case None => false
    case Some(i) => ws[i].total > 0.0
  }

  /** The zero-hour work time created with an absence or delegation: "00:00" to "00:00". */
  function Placeholder(id: int, u: int, d: DateTime): (w: WorkTime)
    ensures w.total == 0.0 && w.id == id && w.userId == u && w.date == d && !w.isRemote
    ensures w.startTime == Midnight && w.endTime == Midnight
    ensures TotalMatchesTimes(w)
  {
    var w := WorkTime(id, u, d, Midnight, Midnight, false, 0.0);
    MidnightIsZero();
    SetTotalFromTexts(w, 0, 0);
    SetTotal(w, 0, 0)
  }

  /** The day's work times after adding an absence or delegation: a placeholder is appended
      exactly when the user has no work time on that day. */
  function WithPlaceholder(ws: seq<WorkTime>, id: int, u: int, d: DateTime): (r: seq<WorkTime>)
    ensures !HasWorkOn(ws, u, d) ==> r == ws + [Placeholder(id, u, d)]
    ensures HasWorkOn(ws, u, d) ==> r == ws
  {
    if FirstWorkTimeOn(ws, u, d).None? then ws + [Placeholder(id, u, d)] else ws
  }

  /** The work times after deleting an absence or delegation: the first zero-total work time
      of that user and day is removed, if there is one. Work times with hours all stay. */
  function WithoutPlaceholder(ws: seq<WorkTime>, u: int, d: DateTime): (r: seq<WorkTime>)
    ensures HasZeroOn(ws, u, d) ==> exists j :: IsFirstZeroOn(ws, u, d, j) && r == RemoveAt(ws, j)
    ensures !HasZeroOn(ws, u, d) ==> r == ws
    ensures forall i :: 0 <= i < |ws| && !ZeroOnDay(ws[i], u, d) ==> ws[i] in r
  {
    match FirstZeroOn(ws, u, d)
    case None => ws
    case Some(j) =>
      var r := RemoveAt(ws, j);
      assert forall i :: 0 <= i < |ws| && i != j ==> ws[i] in r by {
        forall i | 0 <= i < |ws| && i != j ensures ws[i] in r {
          if i < j { assert r[i] == ws[i]; } else { assert r[i - 1] == ws[i]; }
        }
      }
      r
  }

  /** The placeholder appended on a day without work times is the day's first zero row. */
  lemma AppendedPlaceholderIsFirstZero(ws: seq<WorkTime>, p: WorkTime, u: int, d: DateTime, j: int)
    requires !HasWorkOn(ws, u, d) && IsFirstZeroOn(ws + [p], u, d, j)
    ensures j == |ws| && RemoveAt(ws + [p], j) == ws
  {
  }
}
