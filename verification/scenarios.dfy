/** Laws that span controllers: how attendance records, logged hours and payroll interact.
    Absences and delegations do not exclude each other; logged hours on a day block both;
    the zero-hour placeholders that absences and delegations create and remove never move a
    month's hours, so they never move an hourly wage; a posted work time adds exactly its
    total to its month. */
module Scenarios {
  import opened Wrappers
  import opened Calendar
  import opened TimeOfDay
  import opened WorkTimes
  import opened Seqs
  import opened Store
  import opened DayRecords
  import opened Money
  import opened SalaryController
  import opened SalaryLaws
  import AbsenceController
  import DelegationsController
  import WorkTimeController

  /** A day that had no work time of the user gets only a zero-hour row from a placeholder,
      so its first work time carries no hours. */
  lemma PlaceholderCarriesNoHours(ws: seq<WorkTime>, id: int, u: int, d: DateTime)
    requires !HasWorkOn(ws, u, d)
    ensures !FirstHasHours(ws + [Placeholder(id, u, d)], u, d)
  {
    var ws' := ws + [Placeholder(id, u, d)];
    forall i | IsFirstOn(ws', u, d, i) ensures ws'[i].total <= 0.0 {
      assert i == |ws|;
    }
  }

  /** After a successful absence the same day still accepts a delegation unless one is
      already recorded: the day's first work time carries no hours either way, and absences
      are not consulted. */
  lemma AbsenceThenDelegation(s: Store, caller: Option<int>, dto: AbsenceController.AddAbsenceDto)
    requires AbsenceController.AddAbsence(s, caller, dto).reply.Ok?
    ensures var s1 := AbsenceController.AddAbsence(s, caller, dto).store;
      var r := DelegationsController.AddDelegation(s1, caller, DelegationsController.AddDelegationDto(dto.date));
      r.reply.Ok? <==> !DelegationsController.HasDelegationOn(s.delegations, caller.value, DatePart(dto.date))
  {
    var u, d := caller.value, DatePart(dto.date);
    if !HasWorkOn(s.workTimes, u, d) {
      PlaceholderCarriesNoHours(s.workTimes, s.nextId + 1, u, d);
    }
  }

  /** After a successful delegation the same day still accepts an absence of a non-empty
      type unless one is already recorded. */
  lemma DelegationThenAbsence(s: Store, caller: Option<int>, dto: DelegationsController.AddDelegationDto, kind: string)
    requires DelegationsController.AddDelegation(s, caller, dto).reply.Ok?
    requires |kind| > 0
    ensures var s1 := DelegationsController.AddDelegation(s, caller, dto).store;
      var r := AbsenceController.AddAbsence(s1, caller, AbsenceController.AddAbsenceDto(dto.date, Some(kind)));
      r.reply.Ok? <==> !AbsenceController.HasAbsenceOn(s.absences, caller.value, DatePart(dto.date))
  {
    var u, d := caller.value, DatePart(dto.date);
    if !HasWorkOn(s.workTimes, u, d) {
      PlaceholderCarriesNoHours(s.workTimes, s.nextId + 1, u, d);
    }
  }

  /** A work time posted from an earlier to a later time on a day without other work times
      of the caller makes a later absence on that day a conflict. */
  lemma PostedHoursBlockAbsence(s: Store, caller: Option<int>, w: WorkTimeController.WorkTimeDto,
                                a: AbsenceController.AddAbsenceDto, start: Minutes, end: Minutes)
    requires caller.Some?
    requires ParseTime(w.startTime) == Some(start) && ParseTime(w.endTime) == Some(end) && start < end
    requires !HasWorkOn(s.workTimes, caller.value, DatePart(w.date))
    requires DatePart(a.date) == DatePart(w.date) != MinValue && !IsNullOrEmpty(a.kind)
    ensures var s1 := WorkTimeController.PostWorkTime(s, caller, w).store;
      AbsenceController.AddAbsence(s1, caller, a).reply.Conflict?
  {
    var p := WorkTimeController.PostWorkTime(s, caller, w);
    var row := p.reply.value;
    var u, d := caller.value, DatePart(w.date);
    assert row.total > 0.0;
    assert IsFirstOn(p.store.workTimes, u, d, |s.workTimes|);
  }

  /** A placeholder adds nothing to any month's hours. */
  lemma PlaceholderAddsNoHours(ws: seq<WorkTime>, id: int, u: int, d: DateTime, v: int, year: int, month: int)
    ensures MonthHours(ws + [Placeholder(id, u, d)], v, year, month) == MonthHours(ws, v, year, month)
  {
    MonthHoursAppend(ws, Placeholder(id, u, d), v, year, month);
  }

  /** Removing the day's first zero-total row takes nothing from any month's hours. */
  lemma ZeroRowRemovalKeepsHours(ws: seq<WorkTime>, u: int, d: DateTime, j: nat, v: int, year: int, month: int)
    requires IsFirstZeroOn(ws, u, d, j)
    ensures MonthHours(RemoveAt(ws, j), v, year, month) == MonthHours(ws, v, year, month)
  {
    MonthHoursRemove(ws, j, v, year, month);
  }

  /** Adding an absence never changes how many hours anyone logged in any month. */
  lemma AddAbsenceKeepsMonthHours(s: Store, caller: Option<int>, dto: AbsenceController.AddAbsenceDto,
                                  v: int, year: int, month: int)
    ensures MonthHours(AbsenceController.AddAbsence(s, caller, dto).store.workTimes, v, year, month) ==
            MonthHours(s.workTimes, v, year, month)
  {
    var r := AbsenceController.AddAbsence(s, caller, dto);
    if r.reply.Ok? && !HasWorkOn(s.workTimes, caller.value, DatePart(dto.date)) {
      PlaceholderAddsNoHours(s.workTimes, s.nextId + 1, caller.value, DatePart(dto.date), v, year, month);
    }
  }

  /** Deleting an absence never changes how many hours anyone logged in any month. */
  lemma DeleteAbsenceKeepsMonthHours(s: Store, caller: Option<int>, date: string, v: int, year: int, month: int)
    ensures MonthHours(AbsenceController.DeleteAbsence(s, caller, date).store.workTimes, v, year, month) ==
            MonthHours(s.workTimes, v, year, month)
  {
    var r := AbsenceController.DeleteAbsence(s, caller, date);
    if r.reply.NoContent? {
      var u, d := caller.value, ParseDate(date).value;
      if HasZeroOn(s.workTimes, u, d) {
        var j :| IsFirstZeroOn(s.workTimes, u, d, j) && r.store.workTimes == RemoveAt(s.workTimes, j);
        ZeroRowRemovalKeepsHours(s.workTimes, u, d, j, v, year, month);
      }
    }
  }

  /** Adding a delegation never changes how many hours anyone logged in any month. */
  lemma AddDelegationKeepsMonthHours(s: Store, caller: Option<int>, dto: DelegationsController.AddDelegationDto,
                                     v: int, year: int, month: int)
    ensures MonthHours(DelegationsController.AddDelegation(s, caller, dto).store.workTimes, v, year, month) ==
            MonthHours(s.workTimes, v, year, month)
  {
    var r := DelegationsController.AddDelegation(s, caller, dto);
    if r.reply.Ok? && !HasWorkOn(s.workTimes, caller.value, DatePart(dto.date)) {
      PlaceholderAddsNoHours(s.workTimes, s.nextId + 1, caller.value, DatePart(dto.date), v, year, month);
    }
  }

  /** Deleting a delegation never changes how many hours anyone logged in any month. */
  lemma DeleteDelegationKeepsMonthHours(s: Store, caller: Option<int>, date: string, v: int, year: int, month: int)
    ensures MonthHours(DelegationsController.DeleteDelegation(s, caller, date).store.workTimes, v, year, month) ==
            MonthHours(s.workTimes, v, year, month)
  {
    var r := DelegationsController.DeleteDelegation(s, caller, date);
    if r.reply.NoContent? {
      var u, d := caller.value, ParseDate(date).value;
      if HasZeroOn(s.workTimes, u, d) {
        var j :| IsFirstZeroOn(s.workTimes, u, d, j) && r.store.workTimes == RemoveAt(s.workTimes, j);
        ZeroRowRemovalKeepsHours(s.workTimes, u, d, j, v, year, month);
      }
    }
  }

  /** Recording an absence leaves the amount that generating the caller's salary for any
      month would produce unchanged, whatever the contract. */
  lemma AbsenceKeepsPay(s: Store, caller: Option<int>, dto: AbsenceController.AddAbsenceDto,
                        p: UserSalary, v: int, year: int, month: int)
    ensures var s1 := AbsenceController.AddAbsence(s, caller, dto).store;
      ExpectedAmount(p, MonthHours(s1.workTimes, v, year, month)) == ExpectedAmount(p, MonthHours(s.workTimes, v, year, month))
  {
    AddAbsenceKeepsMonthHours(s, caller, dto, v, year, month);
  }

  /** A posted work time adds its total to the hours of its own month and of no other. */
  lemma PostWorkTimeAddsHours(s: Store, caller: Option<int>, dto: WorkTimeController.WorkTimeDto,
                              v: int, year: int, month: int)
    ensures var r := WorkTimeController.PostWorkTime(s, caller, dto);
      r.reply.Ok? ==>
        MonthHours(r.store.workTimes, v, year, month) ==
        MonthHours(s.workTimes, v, year, month) + (if InMonth(r.reply.value, v, year, month) then r.reply.value.total else 0.0)
  {
    var r := WorkTimeController.PostWorkTime(s, caller, dto);
    if r.reply.Ok? {
      MonthHoursAppend(s.workTimes, r.reply.value, v, year, month);
    }
  }

  /** A deleted work time takes its total out of the hours of its own month. */
  lemma DeleteWorkTimeRemovesHours(s: Store, caller: Option<int>, id: int, v: int, year: int, month: int)
    ensures var r := WorkTimeController.DeleteWorkTime(s, caller, id);
      r.reply.NoContent? ==>
        exists j :: (0 <= j < |s.workTimes| && s.workTimes[j].id == id &&
                     MonthHours(r.store.workTimes, v, year, month) ==
                     MonthHours(s.workTimes, v, year, month) - (if InMonth(s.workTimes[j], v, year, month) then s.workTimes[j].total else 0.0))
  {
    var r := WorkTimeController.DeleteWorkTime(s, caller, id);
    if r.reply.NoContent? {
      var j :| 0 <= j < |s.workTimes| && s.workTimes[j].id == id && s.workTimes[j].userId == caller.value
        && r.store == s.(workTimes := RemoveAt(s.workTimes, j));
      MonthHoursRemove(s.workTimes, j, v, year, month);
    }
  }

  /** 160 hours at a rate of 25 pay exactly 4000. */
  lemma HourlyExample()
    ensures ExpectedAmount(UserSalary(1, 7, HourlyContract, Some(25.0), None), 160.0) == 4000.0
  {
    Round2OfCents(4000.0);
  }

  /** An hourly contract without a rate pays nothing, however many hours were logged. */
  lemma HourlyWithoutRatePaysNothing(p: UserSalary, hours: real)
    requires p.contractType == HourlyContract && p.hourlyRate.None?
    ensures ExpectedAmount(p, hours) == 0.0
  {
    Round2OfCents(0.0);
  }

  /** A monthly contract pays its rounded salary whatever the hours, a missing salary
      paying nothing. */
  lemma MonthlyPay(p: UserSalary, hours: real)
    requires p.contractType == MonthlyContract
    ensures p.monthlySalary.Some? && IsCents(p.monthlySalary.value) ==> ExpectedAmount(p, hours) == p.monthlySalary.value
    ensures p.monthlySalary.None? ==> ExpectedAmount(p, hours) == 0.0
  {
    if p.monthlySalary.Some? && IsCents(p.monthlySalary.value) {
      Round2OfCents(p.monthlySalary.value);
    }
    Round2OfCents(0.0);
  }
}
