/** The absence endpoints: list the caller's absences, add one for a day, delete the one of
    a day. Adding also creates the day's zero-hour placeholder work time when the day has
    none; deleting also removes the day's first zero-total work time. */
module AbsenceController {
  import opened Wrappers
  import opened Calendar
  import opened WorkTimes
  import opened Seqs
  import opened Store
  import opened DayRecords

  /** The request body of `AddAbsence`; an absent or null `Type` is `None`. */
  datatype AddAbsenceDto = AddAbsenceDto(date: DateTime, kind: Option<string>)

  /** One listed absence: its date as "yyyy-MM-dd" and its type. */
  datatype AbsenceView = AbsenceView(date: string, kind: string)

  /** `d.UserId == userId && d.Date.Date == date`. */
  predicate AbsenceOn(a: AbsenceDate, u: int, d: DateTime) {
    a.userId == u && DatePart(a.date) == d
  }

  predicate HasAbsenceOn(rows: seq<AbsenceDate>, u: int, d: DateTime) {
    exists i :: 0 <= i < |rows| && AbsenceOn(rows[i], u, d)
  }

  ghost predicate IsFirstAbsenceOn(rows: seq<AbsenceDate>, u: int, d: DateTime, i: int) {
    0 <= i < |rows| && AbsenceOn(rows[i], u, d) && forall j :: 0 <= j < i ==> !AbsenceOn(rows[j], u, d)
  }

  /** No user has two absences on one day. */
  ghost predicate OneAbsencePerDay(rows: seq<AbsenceDate>) {
    forall i, j :: 0 <= i < j < |rows| && rows[i].userId == rows[j].userId ==>
      DatePart(rows[i].date) != DatePart(rows[j].date)
  }

  function View(a: AbsenceDate): AbsenceView {
    AbsenceView(FormatDate(a.date), a.kind)
  }

  /** `GetUserAbsences`: the caller's absences, in table order, each shown as its date text
      and type; every one of them is listed and nothing else is. */
  function GetUserAbsences(s: Store, caller: Option<int>): (r: Reply<seq<AbsenceView>>)
    ensures r.Unauthorized? <==> caller.None?
    ensures caller.Some? ==> r.Ok?
    ensures r.Ok? ==> forall k :: 0 <= k < |r.value| ==>
      exists a :: a in s.absences && a.userId == caller.value && r.value[k] == View(a)
    ensures r.Ok? ==> forall a :: a in s.absences && a.userId == caller.value ==> View(a) in r.value
  {
    if caller.None? then Unauthorized
    else
      var mine := Filter(s.absences, (a: AbsenceDate) => a.userId == caller.value);
      var views := seq(|mine|, i requires 0 <= i < |mine| => View(mine[i]));
      ViewsComplete(mine, views);
      assert forall k :: 0 <= k < |views| ==> mine[k] in s.absences && mine[k].userId == caller.value;
      Ok(views)
  }

  lemma ViewsComplete(mine: seq<AbsenceDate>, views: seq<AbsenceView>)
    requires |views| == |mine| && forall i :: 0 <= i < |mine| ==> views[i] == View(mine[i])
    ensures forall a :: a in mine ==> View(a) in views
  {
    forall a | a in mine ensures View(a) in views {
      var i :| 0 <= i < |mine| && mine[i] == a;
      assert views[i] == View(a);
    }
  }

  /** `AddAbsence`. Errors leave the store unchanged: `Unauthorized` without a caller,
      `BadRequest` for the default date or an empty type, `Conflict` when the caller already
      has an absence that day or the day's first work time has hours. Delegations are never
      consulted. On success one absence is added, and a placeholder work time exactly when the
      caller has no work time that day. */
  function AddAbsence(s: Store, caller: Option<int>, dto: AddAbsenceDto): (r: Step<()>)
    ensures r.reply.Ok? || r.reply.Unauthorized? || r.reply.BadRequest? || r.reply.Conflict?
    ensures !r.reply.Ok? ==> r.store == s
    ensures r.reply.Unauthorized? <==> caller.None?
    ensures r.reply.BadRequest? <==>
      caller.Some? && (DatePart(dto.date) == MinValue || IsNullOrEmpty(dto.kind))
    ensures r.reply.Conflict? <==>
      && caller.Some? && DatePart(dto.date) != MinValue && !IsNullOrEmpty(dto.kind)
      && (HasAbsenceOn(s.absences, caller.value, DatePart(dto.date))
          || FirstHasHours(s.workTimes, caller.value, DatePart(dto.date)))
    ensures r.reply.Ok? ==>
      var u, d := caller.value, DatePart(dto.date);
      && r.store.absences == s.absences + [AbsenceDate(s.nextId, u, d, dto.kind.value)]
      && (HasWorkOn(s.workTimes, u, d) ==> r.store.workTimes == s.workTimes)
      && (!HasWorkOn(s.workTimes, u, d) ==>
            r.store.workTimes == s.workTimes + [Placeholder(s.nextId + 1, u, d)])
      && r.store == s.(absences := r.store.absences, workTimes := r.store.workTimes,
                       nextId := s.nextId + 2)
  {
    if caller.None? then Step(Unauthorized, s)
    else
      var u, d := caller.value, DatePart(dto.date);
      if d == MinValue || IsNullOrEmpty(dto.kind) then Step(BadRequest, s)
      else if HasAbsenceOn(s.absences, u, d) then Step(Conflict, s)
      else if BlockedByHours(s.workTimes, u, d) then Step(Conflict, s)
      else
        var record := AbsenceDate(s.nextId, u, d, dto.kind.value);
        Step(Ok(()), s.(absences := s.absences + [record],
                        workTimes := WithPlaceholder(s.workTimes, s.nextId + 1, u, d),
                        nextId := s.nextId + 2))
  }

  /** `DeleteAbsence(date)`. Errors leave the store unchanged: `Unauthorized` without a
      caller, `BadRequest` when the text is not a date, `NotFound` when the caller has no
      absence that day. On success the day's first absence is removed, together with the
      first zero-total work time of that day if there is one; nothing else changes. */
  function DeleteAbsence(s: Store, caller: Option<int>, date: string): (r: Step<()>)
    ensures r.reply.NoContent? || r.reply.Unauthorized? || r.reply.BadRequest? || r.reply.NotFound?
    ensures !r.reply.NoContent? ==> r.store == s
    ensures r.reply.Unauthorized? <==> caller.None?
    ensures r.reply.BadRequest? <==> caller.Some? && ParseDate(date).None?
    ensures r.reply.NotFound? <==>
      caller.Some? && ParseDate(date).Some? && !HasAbsenceOn(s.absences, caller.value, ParseDate(date).value)
    ensures r.reply.NoContent? ==>
      var u, d := caller.value, ParseDate(date).value;
      && (exists i :: IsFirstAbsenceOn(s.absences, u, d, i) && r.store.absences == RemoveAt(s.absences, i))
      && (HasZeroOn(s.workTimes, u, d) ==>
            exists j :: IsFirstZeroOn(s.workTimes, u, d, j) && r.store.workTimes == RemoveAt(s.workTimes, j))
      && (!HasZeroOn(s.workTimes, u, d) ==> r.store.workTimes == s.workTimes)
      && r.store == s.(absences := r.store.absences, workTimes := r.store.workTimes)
  {
    if caller.None? then Step(Unauthorized, s)
    else match ParseDate(date)
      case None => Step(BadRequest, s)
      case Some(parsed) =>
        var u, d := caller.value, DatePart(parsed);
        match FirstIndex(s.absences, (a: AbsenceDate) => AbsenceOn(a, u, d))
        case None => Step(NotFound, s)
        case Some(i) =>
          assert IsFirstAbsenceOn(s.absences, u, d, i);
          Step(NoContent, s.(absences := RemoveAt(s.absences, i),
                             workTimes := WithoutPlaceholder(s.workTimes, u, d)))
  }
}

/** Laws of the absence endpoints. */
module AbsenceLaws {
  import opened Wrappers
  import opened Calendar
  import opened WorkTimes
  import opened Seqs
  import opened Store
  import opened DayRecords
  import opened AbsenceController

  /** Adding an absence keeps keys unique, at most one absence per user and day, and every
      work-time total equal to the span of its stored times. */
  lemma AddAbsenceKeepsInvariants(s: Store, caller: Option<int>, dto: AddAbsenceDto)
    requires Wf(s) && OneAbsencePerDay(s.absences) && TotalsMatchTimes(s)
    ensures var s' := AddAbsence(s, caller, dto).store;
      Wf(s') && OneAbsencePerDay(s'.absences) && TotalsMatchTimes(s')
  {
    var r := AddAbsence(s, caller, dto);
    if r.reply.Ok? {
      var u, d := caller.value, DatePart(dto.date);
      var s' := r.store;
      WfGrow(s, s.nextId + 2);
      KeyedAppend(s.absences, AbsenceKey, s.nextId, AbsenceDate(s.nextId, u, d, dto.kind.value), s.nextId + 2);
      if !HasWorkOn(s.workTimes, u, d) {
        KeyedGrow(s.workTimes, WorkTimeKey, s.nextId, s.nextId + 1);
        KeyedAppend(s.workTimes, WorkTimeKey, s.nextId + 1, Placeholder(s.nextId + 1, u, d), s.nextId + 2);
      }
      forall i, j | 0 <= i < j < |s'.absences| && s'.absences[i].userId == s'.absences[j].userId
        ensures DatePart(s'.absences[i].date) != DatePart(s'.absences[j].date)
      {
        if j == |s.absences| {
          assert !AbsenceOn(s.absences[i], u, d);
        } else {
          assert s'.absences[i] == s.absences[i] && s'.absences[j] == s.absences[j];
        }
      }
      forall i | 0 <= i < |s'.workTimes| ensures TotalMatchesTimes(s'.workTimes[i]) {
        if i < |s.workTimes| {
          assert s'.workTimes[i] == s.workTimes[i];
        }
      }
    }
  }

  lemma OneAbsencePerDayRemove(rows: seq<AbsenceDate>, i: nat)
    requires OneAbsencePerDay(rows) && i < |rows|
    ensures OneAbsencePerDay(RemoveAt(rows, i))
  {
    var r := RemoveAt(rows, i);
    forall a, b | 0 <= a < b < |r| && r[a].userId == r[b].userId
      ensures DatePart(r[a].date) != DatePart(r[b].date)
    {
      var a', b' := if a < i then a else a + 1, if b < i then b else b + 1;
      assert r[a] == rows[a'] && r[b] == rows[b'];
    }
  }

  /** Deleting an absence keeps the same invariants. */
  lemma DeleteAbsenceKeepsInvariants(s: Store, caller: Option<int>, date: string)
    requires Wf(s) && OneAbsencePerDay(s.absences) && TotalsMatchTimes(s)
    ensures var s' := DeleteAbsence(s, caller, date).store;
      Wf(s') && OneAbsencePerDay(s'.absences) && TotalsMatchTimes(s')
  {
    var r := DeleteAbsence(s, caller, date);
    if r.reply.NoContent? {
      var u, d := caller.value, ParseDate(date).value;
      var s' := r.store;
      var i :| IsFirstAbsenceOn(s.absences, u, d, i) && s'.absences == RemoveAt(s.absences, i);
      KeyedRemove(s.absences, AbsenceKey, s.nextId, i);
      OneAbsencePerDayRemove(s.absences, i);
      if HasZeroOn(s.workTimes, u, d) {
        var j :| IsFirstZeroOn(s.workTimes, u, d, j) && s'.workTimes == RemoveAt(s.workTimes, j);
        KeyedRemove(s.workTimes, WorkTimeKey, s.nextId, j);
        TotalsRemove(s, j);
      }
    }
  }

  /** With at most one absence per day, deleting the same day twice gives `NotFound` the
      second time. */
  lemma DeleteAbsenceTwice(s: Store, caller: Option<int>, date: string)
    requires OneAbsencePerDay(s.absences)
    requires DeleteAbsence(s, caller, date).reply.NoContent?
    ensures DeleteAbsence(DeleteAbsence(s, caller, date).store, caller, date).reply.NotFound?
  {
    var u, d := caller.value, ParseDate(date).value;
    var s' := DeleteAbsence(s, caller, date).store;
    var i :| IsFirstAbsenceOn(s.absences, u, d, i) && s'.absences == RemoveAt(s.absences, i);
    forall k | 0 <= k < |s'.absences| ensures !AbsenceOn(s'.absences[k], u, d) {
      var k' := if k < i then k else k + 1;
      assert s'.absences[k] == s.absences[k'] && k' != i;
    }
  }

  /** Every listed absence can be deleted with the date text the listing shows. */
  lemma ListedAbsenceCanBeDeleted(s: Store, u: int, v: AbsenceView)
    requires GetUserAbsences(s, Some(u)).Ok?
    requires v in GetUserAbsences(s, Some(u)).value
    ensures DeleteAbsence(s, Some(u), v.date).reply.NoContent?
  {
    var k :| 0 <= k < |GetUserAbsences(s, Some(u)).value| && GetUserAbsences(s, Some(u)).value[k] == v;
    var a :| a in s.absences && a.userId == u && v == View(a);
    FormatThenParse(a.date);
    var i :| 0 <= i < |s.absences| && s.absences[i] == a;
    assert AbsenceOn(s.absences[i], u, DatePart(a.date));
  }

  /** The absence appended on a day that had none is the first of that day. */
  lemma AppendedAbsenceIsFirst(rows: seq<AbsenceDate>, x: AbsenceDate, u: int, d: DateTime, i: int)
    requires !HasAbsenceOn(rows, u, d) && IsFirstAbsenceOn(rows + [x], u, d, i)
    ensures i == |rows| && RemoveAt(rows + [x], i) == rows
  {
  }

  /** On a day with no absence and no work time, adding an absence and then deleting it by
      its date text restores every table; only identity values have been used up. */
  lemma AddThenDeleteAbsence(s: Store, u: int, dto: AddAbsenceDto)
    requires DatePart(dto.date) != MinValue && !IsNullOrEmpty(dto.kind)
    requires !HasAbsenceOn(s.absences, u, DatePart(dto.date))
    requires !HasWorkOn(s.workTimes, u, DatePart(dto.date))
    ensures AddAbsence(s, Some(u), dto).reply.Ok?
    ensures var s1 := AddAbsence(s, Some(u), dto).store;
      var r2 := DeleteAbsence(s1, Some(u), FormatDate(dto.date));
      r2.reply.NoContent? && r2.store == s.(nextId := s.nextId + 2)
  {
    var d := DatePart(dto.date);
    assert !FirstHasHours(s.workTimes, u, d);
    var s1 := AddAbsence(s, Some(u), dto).store;
    var x := AbsenceDate(s.nextId, u, d, dto.kind.value);
    var p := Placeholder(s.nextId + 1, u, d);
    assert s1 == s.(absences := s.absences + [x], workTimes := s.workTimes + [p], nextId := s.nextId + 2);
    FormatThenParse(dto.date);
    DeleteAppended(s.(nextId := s.nextId + 2), u, FormatDate(dto.date), d, x, p);
  }

  /** Deleting the day of an absence `x` and a placeholder `p` appended to tables without a
      row of that day removes exactly those two rows. */
  lemma DeleteAppended(s: Store, u: int, date: string, d: DateTime, x: AbsenceDate, p: WorkTime)
    requires ParseDate(date) == Some(d)
    requires AbsenceOn(x, u, d) && ZeroOnDay(p, u, d)
    requires !HasAbsenceOn(s.absences, u, d) && !HasWorkOn(s.workTimes, u, d)
    ensures var r := DeleteAbsence(s.(absences := s.absences + [x], workTimes := s.workTimes + [p]), Some(u), date);
      r.reply.NoContent? && r.store == s
  {
    var s1 := s.(absences := s.absences + [x], workTimes := s.workTimes + [p]);
    assert AbsenceOn(s1.absences[|s.absences|], u, d);
    var r2 := DeleteAbsence(s1, Some(u), date);
    var i :| IsFirstAbsenceOn(s1.absences, u, d, i) && r2.store.absences == RemoveAt(s1.absences, i);
    AppendedAbsenceIsFirst(s.absences, x, u, d, i);
    assert ZeroOnDay(s1.workTimes[|s.workTimes|], u, d);
    var j :| IsFirstZeroOn(s1.workTimes, u, d, j) && r2.store.workTimes == RemoveAt(s1.workTimes, j);
    AppendedPlaceholderIsFirstZero(s.workTimes, p, u, d, j);
  }

  /** Adding an absence never looks at delegations: replacing the delegation table changes
      neither the reply nor any other table. */
  lemma AddAbsenceIgnoresDelegations(s: Store, caller: Option<int>, dto: AddAbsenceDto, ds: seq<DelegationDate>)
    ensures var r, r' := AddAbsence(s, caller, dto), AddAbsence(s.(delegations := ds), caller, dto);
      r'.reply == r.reply && r'.store == r.store.(delegations := ds)
  {
  }

  /** Only the first work time of the day is checked for hours: behind a zero-hour row, a
      row with hours on the same day does not block a new absence. */
  lemma HoursBehindZeroRowDoNotBlock(s: Store, u: int, dto: AddAbsenceDto, i: nat, j: nat)
    requires DatePart(dto.date) != MinValue && !IsNullOrEmpty(dto.kind)
    requires !HasAbsenceOn(s.absences, u, DatePart(dto.date))
    requires IsFirstOn(s.workTimes, u, DatePart(dto.date), i) && s.workTimes[i].total == 0.0
    requires i < j < |s.workTimes| && OnDay(s.workTimes[j], u, DatePart(dto.date)) && s.workTimes[j].total > 0.0
    ensures AddAbsence(s, Some(u), dto).reply.Ok?
    ensures s.workTimes[j] in AddAbsence(s, Some(u), dto).store.workTimes
  {
    var d := DatePart(dto.date);
    assert !FirstHasHours(s.workTimes, u, d) by {
      forall k | IsFirstOn(s.workTimes, u, d, k) ensures s.workTimes[k].total <= 0.0 {
        assert k == i;
      }
    }
    assert HasWorkOn(s.workTimes, u, d);
  }
}
