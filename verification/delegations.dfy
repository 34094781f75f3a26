/** The delegation endpoints: the same day rules as absences without a type, so only the
    default date is rejected as input. */
module DelegationsController {
  import opened Wrappers
  import opened Calendar
  import opened WorkTimes
  import opened Seqs
  import opened Store
  import opened DayRecords

  /** The request body of `AddDelegation`. */
  datatype AddDelegationDto = AddDelegationDto(date: DateTime)

  predicate DelegationOn(g: DelegationDate, u: int, d: DateTime) {
    g.userId == u && DatePart(g.date) == d
  }

  predicate HasDelegationOn(rows: seq<DelegationDate>, u: int, d: DateTime) {
    exists i :: 0 <= i < |rows| && DelegationOn(rows[i], u, d)
  }

  ghost predicate IsFirstDelegationOn(rows: seq<DelegationDate>, u: int, d: DateTime, i: int) {
    0 <= i < |rows| && DelegationOn(rows[i], u, d) && forall j :: 0 <= j < i ==> !DelegationOn(rows[j], u, d)
  }

  /** No user has two delegations on one day. */
  ghost predicate OneDelegationPerDay(rows: seq<DelegationDate>) {
    forall i, j :: 0 <= i < j < |rows| && rows[i].userId == rows[j].userId ==>
      DatePart(rows[i].date) != DatePart(rows[j].date)
  }

  /** `GetUserDelegations`: the "yyyy-MM-dd" dates of the caller's delegations, in table
      order; every one of them is listed and nothing else is. */
  function GetUserDelegations(s: Store, caller: Option<int>): (r: Reply<seq<string>>)
    ensures r.Unauthorized? <==> caller.None?
    ensures caller.Some? ==> r.Ok?
    ensures r.Ok? ==> forall k :: 0 <= k < |r.value| ==>
      exists g :: g in s.delegations && g.userId == caller.value && r.value[k] == FormatDate(g.date)
    ensures r.Ok? ==> forall g :: g in s.delegations && g.userId == caller.value ==> FormatDate(g.date) in r.value
  {
    if caller.None? then Unauthorized
    else
      var mine := Filter(s.delegations, (g: DelegationDate) => g.userId == caller.value);
      var dates := seq(|mine|, i requires 0 <= i < |mine| => FormatDate(mine[i].date));
      DatesComplete(mine, dates);
      assert forall k :: 0 <= k < |dates| ==> mine[k] in s.delegations && mine[k].userId == caller.value;
      Ok(dates)
  }

  lemma DatesComplete(mine: seq<DelegationDate>, dates: seq<string>)
    requires |dates| == |mine| && forall i :: 0 <= i < |mine| ==> dates[i] == FormatDate(mine[i].date)
    ensures forall g :: g in mine ==> FormatDate(g.date) in dates
  {
    forall g | g in mine ensures FormatDate(g.date) in dates {
      var i :| 0 <= i < |mine| && mine[i] == g;
      assert dates[i] == FormatDate(g.date);
    }
  }

  /** `AddDelegation`. Errors leave the store unchanged: `Unauthorized` without a caller,
      `BadRequest` for the default date only, `Conflict` when the caller already has a
      delegation that day or the day's first work time has hours. Absences are never
      consulted. On success one delegation is added, and a placeholder work time exactly when
      the caller has no work time that day. */
  function AddDelegation(s: Store, caller: Option<int>, dto: AddDelegationDto): (r: Step<()>)
    ensures r.reply.Ok? || r.reply.Unauthorized? || r.reply.BadRequest? || r.reply.Conflict?
    ensures !r.reply.Ok? ==> r.store == s
    ensures r.reply.Unauthorized? <==> caller.None?
    ensures r.reply.BadRequest? <==> caller.Some? && DatePart(dto.date) == MinValue
    ensures r.reply.Conflict? <==>
      && caller.Some? && DatePart(dto.date) != MinValue
      && (HasDelegationOn(s.delegations, caller.value, DatePart(dto.date))
          || FirstHasHours(s.workTimes, caller.value, DatePart(dto.date)))
    ensures r.reply.Ok? ==>
      var u, d := caller.value, DatePart(dto.date);
      && r.store.delegations == s.delegations + [DelegationDate(s.nextId, u, d)]
      && (HasWorkOn(s.workTimes, u, d) ==> r.store.workTimes == s.workTimes)
      && (!HasWorkOn(s.workTimes, u, d) ==>
            r.store.workTimes == s.workTimes + [Placeholder(s.nextId + 1, u, d)])
      && r.store == s.(delegations := r.store.delegations, workTimes := r.store.workTimes,
                       nextId := s.nextId + 2)
  {
    if caller.None? then Step(Unauthorized, s)
    else
      var u, d := caller.value, DatePart(dto.date);
      if d == MinValue then Step(BadRequest, s)
      else if HasDelegationOn(s.delegations, u, d) then Step(Conflict, s)
      else if BlockedByHours(s.workTimes, u, d) then Step(Conflict, s)
      else
        var record := DelegationDate(s.nextId, u, d);
        Step(Ok(()), s.(delegations := s.delegations + [record],
                        workTimes := WithPlaceholder(s.workTimes, s.nextId + 1, u, d),
                        nextId := s.nextId + 2))
  }

  /** `DeleteDelegation(date)`. Errors leave the store unchanged: `Unauthorized` without a
      caller, `BadRequest` when the text is not a date, `NotFound` when the caller has no
      delegation that day. On success the day's first delegation is removed, together with
      the first zero-total work time of that day if there is one; nothing else changes. */
  function DeleteDelegation(s: Store, caller: Option<int>, date: string): (r: Step<()>)
    ensures r.reply.NoContent? || r.reply.Unauthorized? || r.reply.BadRequest? || r.reply.NotFound?
    ensures !r.reply.NoContent? ==> r.store == s
    ensures r.reply.Unauthorized? <==> caller.None?
    ensures r.reply.BadRequest? <==> caller.Some? && ParseDate(date).None?
    ensures r.reply.NotFound? <==>
      caller.Some? && ParseDate(date).Some? && !HasDelegationOn(s.delegations, caller.value, ParseDate(date).value)
    ensures r.reply.NoContent? ==>
      var u, d := caller.value, ParseDate(date).value;
      && (exists i :: IsFirstDelegationOn(s.delegations, u, d, i) && r.store.delegations == RemoveAt(s.delegations, i))
      && (HasZeroOn(s.workTimes, u, d) ==>
            exists j :: IsFirstZeroOn(s.workTimes, u, d, j) && r.store.workTimes == RemoveAt(s.workTimes, j))
      && (!HasZeroOn(s.workTimes, u, d) ==> r.store.workTimes == s.workTimes)
      && r.store == s.(delegations := r.store.delegations, workTimes := r.store.workTimes)
  {
    if caller.None? then Step(Unauthorized, s)
    else match ParseDate(date)
      case None => Step(BadRequest, s)
      case Some(parsed) =>
        var u, d := caller.value, DatePart(parsed);
        match FirstIndex(s.delegations, (g: DelegationDate) => DelegationOn(g, u, d))
        case None => Step(NotFound, s)
        case Some(i) =>
          assert IsFirstDelegationOn(s.delegations, u, d, i);
          Step(NoContent, s.(delegations := RemoveAt(s.delegations, i),
                             workTimes := WithoutPlaceholder(s.workTimes, u, d)))
  }
}

/** Laws of the delegation endpoints. */
module DelegationLaws {
  import opened Wrappers
  import opened Calendar
  import opened WorkTimes
  import opened Seqs
  import opened Store
  import opened DayRecords
  import opened DelegationsController

  /** Adding a delegation keeps keys unique, at most one delegation per user and day, and
      every work-time total equal to the span of its stored times. */
  lemma AddDelegationKeepsInvariants(s: Store, caller: Option<int>, dto: AddDelegationDto)
    requires Wf(s) && OneDelegationPerDay(s.delegations) && TotalsMatchTimes(s)
    ensures var s' := AddDelegation(s, caller, dto).store;
      Wf(s') && OneDelegationPerDay(s'.delegations) && TotalsMatchTimes(s')
  {
    var r := AddDelegation(s, caller, dto);
    if r.reply.Ok? {
      var u, d := caller.value, DatePart(dto.date);
      var s' := r.store;
      WfGrow(s, s.nextId + 2);
      KeyedAppend(s.delegations, DelegationKey, s.nextId, DelegationDate(s.nextId, u, d), s.nextId + 2);
      if !HasWorkOn(s.workTimes, u, d) {
        KeyedGrow(s.workTimes, WorkTimeKey, s.nextId, s.nextId + 1);
        KeyedAppend(s.workTimes, WorkTimeKey, s.nextId + 1, Placeholder(s.nextId + 1, u, d), s.nextId + 2);
      }
      forall i, j | 0 <= i < j < |s'.delegations| && s'.delegations[i].userId == s'.delegations[j].userId
        ensures DatePart(s'.delegations[i].date) != DatePart(s'.delegations[j].date)
      {
        if j == |s.delegations| {
          assert !DelegationOn(s.delegations[i], u, d);
        } else {
          assert s'.delegations[i] == s.delegations[i] && s'.delegations[j] == s.delegations[j];
        }
      }
      forall i | 0 <= i < |s'.workTimes| ensures TotalMatchesTimes(s'.workTimes[i]) {
        if i < |s.workTimes| {
          assert s'.workTimes[i] == s.workTimes[i];
        }
      }
    }
  }

  lemma OneDelegationPerDayRemove(rows: seq<DelegationDate>, i: nat)
    requires OneDelegationPerDay(rows) && i < |rows|
    ensures OneDelegationPerDay(RemoveAt(rows, i))
  {
    var r := RemoveAt(rows, i);
    forall a, b | 0 <= a < b < |r| && r[a].userId == r[b].userId
      ensures DatePart(r[a].date) != DatePart(r[b].date)
    {
      var a', b' := if a < i then a else a + 1, if b < i then b else b + 1;
      assert r[a] == rows[a'] && r[b] == rows[b'];
    }
  }

  /** Deleting a delegation keeps the same invariants. */
  lemma DeleteDelegationKeepsInvariants(s: Store, caller: Option<int>, date: string)
    requires Wf(s) && OneDelegationPerDay(s.delegations) && TotalsMatchTimes(s)
    ensures var s' := DeleteDelegation(s, caller, date).store;
      Wf(s') && OneDelegationPerDay(s'.delegations) && TotalsMatchTimes(s')
  {
    var r := DeleteDelegation(s, caller, date);
    if r.reply.NoContent? {
      var u, d := caller.value, ParseDate(date).value;
      var s' := r.store;
      var i :| IsFirstDelegationOn(s.delegations, u, d, i) && s'.delegations == RemoveAt(s.delegations, i);
      KeyedRemove(s.delegations, DelegationKey, s.nextId, i);
      OneDelegationPerDayRemove(s.delegations, i);
      if HasZeroOn(s.workTimes, u, d) {
        var j :| IsFirstZeroOn(s.workTimes, u, d, j) && s'.workTimes == RemoveAt(s.workTimes, j);
        KeyedRemove(s.workTimes, WorkTimeKey, s.nextId, j);
        TotalsRemove(s, j);
      }
    }
  }

  /** With at most one delegation per day, deleting the same day twice gives `NotFound` the
      second time. */
  lemma DeleteDelegationTwice(s: Store, caller: Option<int>, date: string)
    requires OneDelegationPerDay(s.delegations)
    requires DeleteDelegation(s, caller, date).reply.NoContent?
    ensures DeleteDelegation(DeleteDelegation(s, caller, date).store, caller, date).reply.NotFound?
  {
    var u, d := caller.value, ParseDate(date).value;
    var s' := DeleteDelegation(s, caller, date).store;
    var i :| IsFirstDelegationOn(s.delegations, u, d, i) && s'.delegations == RemoveAt(s.delegations, i);
    forall k | 0 <= k < |s'.delegations| ensures !DelegationOn(s'.delegations[k], u, d) {
      var k' := if k < i then k else k + 1;
      assert s'.delegations[k] == s.delegations[k'] && k' != i;
    }
  }

  /** Every listed date can be passed back to delete that delegation. */
  lemma ListedDelegationCanBeDeleted(s: Store, u: int, date: string)
    requires GetUserDelegations(s, Some(u)).Ok?
    requires date in GetUserDelegations(s, Some(u)).value
    ensures DeleteDelegation(s, Some(u), date).reply.NoContent?
  {
    var listed := GetUserDelegations(s, Some(u)).value;
    var k :| 0 <= k < |listed| && listed[k] == date;
    assert exists g :: g in s.delegations && g.userId == u && listed[k] == FormatDate(g.date);
    var g :| g in s.delegations && g.userId == u && date == FormatDate(g.date);
    StoredDelegationCanBeDeleted(s, u, g);
  }

  /** A delegation of the caller is deleted by its own date text. */
  lemma StoredDelegationCanBeDeleted(s: Store, u: int, g: DelegationDate)
    requires g in s.delegations && g.userId == u
    ensures DeleteDelegation(s, Some(u), FormatDate(g.date)).reply.NoContent?
  {
    FormatThenParse(g.date);
    var i :| 0 <= i < |s.delegations| && s.delegations[i] == g;
    assert DelegationOn(s.delegations[i], u, DatePart(g.date));
  }

  /** Adding a delegation never looks at absences. */
  lemma AddDelegationIgnoresAbsences(s: Store, caller: Option<int>, dto: AddDelegationDto, rows: seq<AbsenceDate>)
    ensures var r, r' := AddDelegation(s, caller, dto), AddDelegation(s.(absences := rows), caller, dto);
      r'.reply == r.reply && r'.store == r.store.(absences := rows)
  {
  }
}
