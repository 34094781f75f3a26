/** The work-time endpoints: list the caller's work times by date, insert one, overwrite one,
    delete one. A work time is only ever read or changed by its owner; inserting checks
    neither absences, delegations nor other work times of the same day. */
module WorkTimeController {
  import opened Wrappers
  import opened Calendar
  import opened TimeOfDay
  import opened WorkTimes
  import opened Seqs
  import opened Sorting
  import opened Store

  /** The request body of `PostWorkTime` and `PutWorkTime`. */
  datatype WorkTimeDto = WorkTimeDto(id: int, date: DateTime, startTime: string, endTime: string)

  /** `OrderBy(w => w.Date)`. */
  predicate ByDate(a: WorkTime, b: WorkTime) {
    Le(a.date, b.date)
  }

  lemma ByDateIsTotalPreorder()
    ensures TotalPreorder(ByDate)
  {
    forall a: WorkTime, b: WorkTime, c: WorkTime ensures (ByDate(a, b) || ByDate(b, a)) && (ByDate(a, b) && ByDate(b, c) ==> ByDate(a, c)) {
      LeIsTotalOrder(a.date, b.date, c.date);
    }
  }

  /** The caller owns a work time with primary key `id`. */
  predicate Owns(ws: seq<WorkTime>, u: int, id: int) {
    exists j :: 0 <= j < |ws| && ws[j].id == id && ws[j].userId == u
  }

  /** Under unique keys, a row found by key that belongs to someone else means the caller
      owns no row with that key. */
  lemma OtherOwnerMeansNotOwned(s: Store, u: int, id: int, j: nat)
    requires FindWorkTime(s.workTimes, id) == Some(j) && s.workTimes[j].userId != u
    ensures Wf(s) ==> !Owns(s.workTimes, u, id)
  {
    if Wf(s) && Owns(s.workTimes, u, id) {
      var k :| 0 <= k < |s.workTimes| && s.workTimes[k].id == id && s.workTimes[k].userId == u;
      FindWorkTimeUnique(s.workTimes, id, s.nextId, k);
    }
  }

  /** `GetWorkTimes`: all of the caller's work times and nothing else, each as often as it is
      stored, ordered by date; `NotFound` when the caller has none. */
  function GetWorkTimes(s: Store, caller: Option<int>): (r: Reply<seq<WorkTime>>)
    ensures r.Ok? || r.Unauthorized? || r.NotFound?
    ensures r.Unauthorized? <==> caller.None?
    ensures r.NotFound? <==>
      caller.Some? && forall i :: 0 <= i < |s.workTimes| ==> s.workTimes[i].userId != caller.value
    ensures r.Ok? ==> SortedBy(r.value, ByDate)
    ensures r.Ok? ==> forall w :: multiset(r.value)[w] == if w.userId == caller.value then multiset(s.workTimes)[w] else 0
  {
    if caller.None? then Unauthorized
    else
      var u := caller.value;
      var mine := Filter(s.workTimes, (w: WorkTime) => w.userId == u);
      assert forall w :: multiset(mine)[w] == if w.userId == u then multiset(s.workTimes)[w] else 0 by {
        forall w ensures multiset(mine)[w] == if w.userId == u then multiset(s.workTimes)[w] else 0 {
          FilterCount(s.workTimes, (w: WorkTime) => w.userId == u, w);
        }
      }
      ByDateIsTotalPreorder();
      var sorted := SortBy(mine, ByDate);
      if |sorted| == 0 then
        NotFound
      else
        assert sorted[0] in multiset(mine);
        Ok(sorted)
  }

  /** `PostWorkTime`. `Unauthorized` without a caller and `BadRequest` when either time does
      not parse, both leaving the store unchanged. Otherwise exactly one row is appended: owned
      by the caller, holding the request's date and time texts, not remote, with the total
      spanned by those texts. */
  function PostWorkTime(s: Store, caller: Option<int>, dto: WorkTimeDto): (r: Step<WorkTime>)
    ensures r.reply.Ok? || r.reply.Unauthorized? || r.reply.BadRequest?
    ensures !r.reply.Ok? ==> r.store == s
    ensures r.reply.Unauthorized? <==> caller.None?
    ensures r.reply.BadRequest? <==>
      caller.Some? && (ParseTime(dto.startTime).None? || ParseTime(dto.endTime).None?)
    ensures r.reply.Ok? ==>
      var w := r.reply.value;
      && w.id == s.nextId && w.userId == caller.value && w.date == dto.date && !w.isRemote
      && w.startTime == dto.startTime && w.endTime == dto.endTime
      && TotalMatchesTimes(w)
      && r.store == s.(workTimes := s.workTimes + [w], nextId := s.nextId + 1)
  {
    if caller.None? then Step(Unauthorized, s)
    else match (ParseTime(dto.startTime), ParseTime(dto.endTime))
      case (Some(start), Some(end)) =>
        var row := WorkTime(s.nextId, caller.value, dto.date, dto.startTime, dto.endTime, false, 0.0);
        SetTotalFromTexts(row, start, end);
        var w := SetTotal(row, start, end);
        Step(Ok(w), s.(workTimes := s.workTimes + [w], nextId := s.nextId + 1))
      case _ => Step(BadRequest, s)
  }

  /** `PutWorkTime(id)`. `Unauthorized` without a caller; `BadRequest` when the route id and
      the body id differ, before any lookup; `NotFound` when the row with that key is missing
      or belongs to someone else; `BadRequest` when a time does not parse. All of these leave
      the store unchanged. On success only that row changes: its date and time texts are the
      request's and its total is recomputed, while key, owner and remote flag stay. An edit
      of an owned row with matching ids succeeds exactly when both times parse. */
  function PutWorkTime(s: Store, caller: Option<int>, id: int, dto: WorkTimeDto): (r: Step<()>)
    ensures r.reply.NoContent? || r.reply.Unauthorized? || r.reply.BadRequest? || r.reply.NotFound?
    ensures !r.reply.NoContent? ==> r.store == s
    ensures r.reply.Unauthorized? <==> caller.None?
    ensures caller.Some? && dto.id != id ==> r.reply.BadRequest?
    ensures Wf(s) ==>
      (r.reply.NotFound? <==> caller.Some? && dto.id == id && !Owns(s.workTimes, caller.value, id))
    ensures Wf(s) && caller.Some? && dto.id == id && Owns(s.workTimes, caller.value, id) ==>
      (r.reply.BadRequest? <==> ParseTime(dto.startTime).None? || ParseTime(dto.endTime).None?)
    ensures r.reply.NoContent? ==>
      |r.store.workTimes| == |s.workTimes| && r.store == s.(workTimes := r.store.workTimes)
    ensures r.reply.NoContent? ==>
      exists j :: 0 <= j < |s.workTimes| && s.workTimes[j].id == id && s.workTimes[j].userId == caller.value &&
        var w, w' := s.workTimes[j], r.store.workTimes[j];
        && r.store.workTimes == s.workTimes[j := w']
        && w'.id == w.id && w'.userId == w.userId && w'.isRemote == w.isRemote
        && w'.date == dto.date && w'.startTime == dto.startTime && w'.endTime == dto.endTime
        && TotalMatchesTimes(w')
  {
    if caller.None? then Step(Unauthorized, s)
    else if dto.id != id then Step(BadRequest, s)
    else match FindWorkTime(s.workTimes, id)
      case None => Step(NotFound, s)
      case Some(j) =>
        if s.workTimes[j].userId != caller.value then
          OtherOwnerMeansNotOwned(s, caller.value, id, j);
          Step(NotFound, s)
        else
          var edited := s.workTimes[j].(date := dto.date, startTime := dto.startTime, endTime := dto.endTime);
          match (ParseTime(dto.startTime), ParseTime(dto.endTime))
          case (Some(start), Some(end)) =>
            SetTotalFromTexts(edited, start, end);
            Step(NoContent, s.(workTimes := s.workTimes[j := SetTotal(edited, start, end)]))
          case _ => Step(BadRequest, s)
  }

  /** `DeleteWorkTime(id)`. `Unauthorized` without a caller and `NotFound` when the row with
      that key is missing or belongs to someone else, both leaving the store unchanged. On
      success exactly that row is removed and nothing else changes. */
  function DeleteWorkTime(s: Store, caller: Option<int>, id: int): (r: Step<()>)
    ensures r.reply.NoContent? || r.reply.Unauthorized? || r.reply.NotFound?
    ensures !r.reply.NoContent? ==> r.store == s
    ensures r.reply.Unauthorized? <==> caller.None?
    ensures Wf(s) ==> (r.reply.NotFound? <==> caller.Some? && !Owns(s.workTimes, caller.value, id))
    ensures r.reply.NoContent? ==>
      exists j :: 0 <= j < |s.workTimes| && s.workTimes[j].id == id && s.workTimes[j].userId == caller.value
        && r.store == s.(workTimes := RemoveAt(s.workTimes, j))
  {
    if caller.None? then Step(Unauthorized, s)
    else match FindWorkTime(s.workTimes, id)
      case None => Step(NotFound, s)
      case Some(j) =>
        if s.workTimes[j].userId != caller.value then
          OtherOwnerMeansNotOwned(s, caller.value, id, j);
          Step(NotFound, s)
        else
          Step(NoContent, s.(workTimes := RemoveAt(s.workTimes, j)))
  }
}

/** Laws of the work-time endpoints. */
module WorkTimeLaws {
  import opened Wrappers
  import opened Calendar
  import opened TimeOfDay
  import opened WorkTimes
  import opened Seqs
  import opened Store
  import opened WorkTimeController

  /** Inserting, overwriting and deleting work times keep keys unique and every total equal
      to the span of its stored times. */
  lemma PostWorkTimeKeepsInvariants(s: Store, caller: Option<int>, dto: WorkTimeDto)
    requires Wf(s) && TotalsMatchTimes(s)
    ensures var s' := PostWorkTime(s, caller, dto).store; Wf(s') && TotalsMatchTimes(s')
  {
    var r := PostWorkTime(s, caller, dto);
    if r.reply.Ok? {
      WfGrow(s, s.nextId + 1);
      KeyedAppend(s.workTimes, WorkTimeKey, s.nextId, r.reply.value, s.nextId + 1);
      var ws := r.store.workTimes;
      forall i | 0 <= i < |ws| ensures TotalMatchesTimes(ws[i]) {
        if i < |s.workTimes| { assert ws[i] == s.workTimes[i]; }
      }
    }
  }

  lemma PutWorkTimeKeepsInvariants(s: Store, caller: Option<int>, id: int, dto: WorkTimeDto)
    requires Wf(s) && TotalsMatchTimes(s)
    ensures var s' := PutWorkTime(s, caller, id, dto).store; Wf(s') && TotalsMatchTimes(s')
  {
    var r := PutWorkTime(s, caller, id, dto);
    if r.reply.NoContent? {
      var j :| 0 <= j < |s.workTimes| && s.workTimes[j].id == id && s.workTimes[j].userId == caller.value
        && r.store.workTimes == s.workTimes[j := r.store.workTimes[j]]
        && r.store.workTimes[j].id == s.workTimes[j].id
        && TotalMatchesTimes(r.store.workTimes[j]);
      KeyedReplace(s.workTimes, WorkTimeKey, s.nextId, j, r.store.workTimes[j]);
      var ws := r.store.workTimes;
      forall i | 0 <= i < |ws| ensures TotalMatchesTimes(ws[i]) {
        if i != j { assert ws[i] == s.workTimes[i]; }
      }
    }
  }

  lemma DeleteWorkTimeKeepsInvariants(s: Store, caller: Option<int>, id: int)
    requires Wf(s) && TotalsMatchTimes(s)
    ensures var s' := DeleteWorkTime(s, caller, id).store; Wf(s') && TotalsMatchTimes(s')
  {
    var r := DeleteWorkTime(s, caller, id);
    if r.reply.NoContent? {
      var j :| 0 <= j < |s.workTimes| && s.workTimes[j].id == id && r.store == s.(workTimes := RemoveAt(s.workTimes, j));
      KeyedRemove(s.workTimes, WorkTimeKey, s.nextId, j);
      TotalsRemove(s, j);
    }
  }

  /** Inserting a work time never looks at absences, delegations or the day's other work
      times: replacing those tables changes neither the reply nor the inserted row. */
  lemma PostWorkTimeIgnoresDayRecords(s: Store, caller: Option<int>, dto: WorkTimeDto,
                                      rows: seq<AbsenceDate>, gs: seq<DelegationDate>, ws: seq<WorkTime>)
    ensures var r, r' := PostWorkTime(s, caller, dto),
                        PostWorkTime(s.(absences := rows, delegations := gs, workTimes := ws), caller, dto);
      r'.reply == r.reply
  {
  }

  /** A well-formed store: deleting the row just inserted, by the key the reply carries,
      restores the work-time table. */
  lemma PostThenDelete(s: Store, u: int, dto: WorkTimeDto)
    requires Wf(s)
    requires PostWorkTime(s, Some(u), dto).reply.Ok?
    ensures var r := PostWorkTime(s, Some(u), dto);
      var r2 := DeleteWorkTime(r.store, Some(u), r.reply.value.id);
      r2.reply.NoContent? && r2.store == s.(nextId := s.nextId + 1)
  {
    var r := PostWorkTime(s, Some(u), dto);
    var w := r.reply.value;
    WfGrow(s, s.nextId + 1);
    KeyedAppend(s.workTimes, WorkTimeKey, s.nextId, w, s.nextId + 1);
    var n := |s.workTimes|;
    assert r.store.workTimes[n] == w;
    FindWorkTimeUnique(r.store.workTimes, w.id, r.store.nextId, n);
    assert RemoveAt(r.store.workTimes, n) == s.workTimes;
  }

  /** Totals are signed: an end before the start is stored as a negative total. */
  lemma EndBeforeStartIsNegative(s: Store, u: int, dto: WorkTimeDto, start: Minutes, end: Minutes)
    requires ParseTime(dto.startTime) == Some(start) && ParseTime(dto.endTime) == Some(end)
    requires end < start
    ensures PostWorkTime(s, Some(u), dto).reply.Ok?
    ensures PostWorkTime(s, Some(u), dto).reply.value.total < 0.0
  {
  }
}
