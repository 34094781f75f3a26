/** One row of the work-time table. `Total` has a private setter in the source: `SetTotal`
    is the only writer, so every total in the store is derived from two parsed times. */
module WorkTimes {
  import opened Wrappers
  import opened Calendar
  import opened TimeOfDay

  datatype WorkTime = WorkTime(
    id: int,
    userId: int,
    date: DateTime,
    startTime: string,
    endTime: string,
    isRemote: bool,
    total: real)

  /** `SetTotal(start, end)`: the total becomes the signed span from `start` to `end` in
      hours; the stored start and end texts are not consulted and nothing else changes. */
  function SetTotal(w: WorkTime, start: Minutes, end: Minutes): (r: WorkTime)
    ensures r.total * 60.0 == (end - start) as real
    ensures r.total < 0.0 <==> end < start
    ensures r.total == 0.0 <==> start == end
    ensures r.(total := w.total) == w
  {
    w.(total := HoursBetween(start, end))
  }

  /** The total of `w` is the span between its own stored start and end texts. This is what
      the private setter guarantees as long as every writer parses the texts it stores. */
  ghost predicate TotalMatchesTimes(w: WorkTime) {
    exists start: Minutes, end: Minutes ::
      && ParseTime(w.startTime) == Some(start)
      && ParseTime(w.endTime) == Some(end)
      && w.total == HoursBetween(start, end)
  }

  /** Setting the total from the parsed stored texts establishes `TotalMatchesTimes`. */
  lemma SetTotalFromTexts(w: WorkTime, start: Minutes, end: Minutes)
    requires ParseTime(w.startTime) == Some(start) && ParseTime(w.endTime) == Some(end)
    ensures TotalMatchesTimes(SetTotal(w, start, end))
  {
    var r := SetTotal(w, start, end);
    assert ParseTime(r.startTime) == Some(start) && ParseTime(r.endTime) == Some(end);
  }
}
