/** Money arithmetic of payroll generation: `Math.Round(amount, 2)` on exact reals. */
module Money {

  /** The integer nearest to `x`, halves going to the even neighbour (`MidpointRounding.ToEven`,
      the default of `Math.Round`). */
  function RoundHalfEven(x: real): (n: int)
    ensures x - 0.5 <= n as real <= x + 0.5
    ensures (n as real - x == 0.5 || x - n as real == 0.5) ==> n % 2 == 0
  {
    var f := x.Floor;
    var frac := x - f as real;
    if frac < 0.5 then f
    else if frac > 0.5 then f + 1
    else if f % 2 == 0 then f
    else f + 1
  }

  /** Has at most two decimal places. */
  predicate IsCents(x: real) {
    (x * 100.0).Floor as real == x * 100.0
  }

  /** `Math.Round(x, 2)`: the nearest amount in whole cents, within half a cent of `x`; at
      exactly half a cent, the neighbour with an even number of cents. */
  function Round2(x: real): (r: real)
    ensures -0.005 <= r - x <= 0.005
    ensures IsCents(r)
    ensures (r - x == 0.005 || x - r == 0.005) ==> (r * 100.0).Floor % 2 == 0
  {
    var n := RoundHalfEven(x * 100.0);
    var r := n as real / 100.0;
    assert r * 100.0 == n as real;
    assert r - x == 0.005 ==> n as real - x * 100.0 == 0.5;
    assert x - r == 0.005 ==> x * 100.0 - n as real == 0.5;
    r
  }

  /** An amount already in whole cents is left as it is. */
  lemma Round2OfCents(x: real)
    requires IsCents(x)
    ensures Round2(x) == x
  {
    var n := (x * 100.0).Floor;
    assert RoundHalfEven(x * 100.0) == n;
  }

  /** Rounding twice is rounding once. */
  lemma Round2Idempotent(x: real)
    ensures Round2(Round2(x)) == Round2(x)
  {
    Round2OfCents(Round2(x));
  }
}

/** The salary endpoints: the caller's profile, the caller's payroll history, generating the
    expected amount of a month from the contract, and the employee's manual reconciliation of
    a record. */
module SalaryController {
  import opened Wrappers
  import opened Calendar
  import opened WorkTimes
  import opened Seqs
  import opened Sorting
  import opened Store
  import opened Money

  /** The contract type paid by the hour. */
  const HourlyContract: string := "Umowa zlecenie"
  /** The contract type paid a fixed monthly salary. */
  const MonthlyContract: string := "Umowa o prace"

  datatype GenerateSalaryDto = GenerateSalaryDto(year: int, month: int)

  datatype UpdateSalaryRecordDto = UpdateSalaryRecordDto(
    receivedAmount: real,
    isConfirmed: bool,
    hasBonus: bool,
    notes: Option<string>)

  /** `w.UserId == userId && w.Date.Year == year && w.Date.Month == month`. */
  predicate InMonth(w: WorkTime, u: int, year: int, month: int) {
    w.userId == u && w.date.year == year && w.date.month == month
  }

  /** The query `Where(w => w.UserId == userId && w.Date.Year == year && w.Date.Month == month)`. */
  function InMonthOf(u: int, year: int, month: int): WorkTime -> bool {
    (w: WorkTime) => InMonth(w, u, year, month)
  }

  /** The hours `u` logged in a month: the sum of the totals of the month's work times. */
  function MonthHours(ws: seq<WorkTime>, u: int, year: int, month: int): real {
    if |ws| == 0 then 0.0
    else (if InMonth(ws[0], u, year, month) then ws[0].total else 0.0) + MonthHours(ws[1..], u, year, month)
  }

  /** `SumAsync(w => w.Total)`. */
  function SumTotals(ws: seq<WorkTime>): real {
    if |ws| == 0 then 0.0 else ws[0].total + SumTotals(ws[1..])
  }

  /** Summing the filtered work times is the month's hours. */
  lemma {:induction false} SumOfMonthIsMonthHours(ws: seq<WorkTime>, u: int, year: int, month: int)
    ensures SumTotals(Filter(ws, InMonthOf(u, year, month))) == MonthHours(ws, u, year, month)
  {
    if |ws| > 0 {
      SumOfMonthIsMonthHours(ws[1..], u, year, month);
    }
  }

  /** The record generated for a month: the expected amount, and every field the employee
      fills in by hand back at its default. This is the reset applied on every regeneration. */
  function Generated(id: int, u: int, year: int, month: int, amount: real): SalaryRecord {
    SalaryRecord(id, u, year, month, amount, 0.0, false, false, None)
  }

  predicate RecordFor(r: SalaryRecord, u: int, year: int, month: int) {
    r.userId == u && r.year == year && r.month == month
  }

  ghost predicate IsFirstRecordFor(rs: seq<SalaryRecord>, u: int, year: int, month: int, i: int) {
    0 <= i < |rs| && RecordFor(rs[i], u, year, month) && forall j :: 0 <= j < i ==> !RecordFor(rs[j], u, year, month)
  }

  ghost predicate HasRecordFor(rs: seq<SalaryRecord>, u: int, year: int, month: int) {
    exists i :: 0 <= i < |rs| && RecordFor(rs[i], u, year, month)
  }

  /** No user has two records for one month. */
  ghost predicate OneRecordPerMonth(rs: seq<SalaryRecord>) {
    forall i, j :: 0 <= i < j < |rs| && rs[i].userId == rs[j].userId && rs[i].year == rs[j].year ==>
      rs[i].month != rs[j].month
  }

  ghost predicate IsFirstProfileOf(ps: seq<UserSalary>, u: int, i: int) {
    0 <= i < |ps| && ps[i].userId == u && forall j :: 0 <= j < i ==> ps[j].userId != u
  }

  function FirstProfileOf(ps: seq<UserSalary>, u: int): (r: Option<nat>)
    ensures r.Some? ==> IsFirstProfileOf(ps, u, r.value)
    ensures r.None? <==> forall j :: 0 <= j < |ps| ==> ps[j].userId != u
  {
    FirstIndex(ps, (p: UserSalary) => p.userId == u)
  }

  /** The amount a profile earns for a month in which `hours` were logged, before rounding;
      `None` for an unsupported contract type. */
  function ContractAmount(p: UserSalary, hours: real): Option<real> {
    if p.contractType == HourlyContract then Some(p.hourlyRate.GetOr(0.0) * hours)
    else if p.contractType == MonthlyContract then Some(p.monthlySalary.GetOr(0.0))
    else None
  }

  /** `GetSalaryProfile`: the caller's (first) salary profile, or `NotFound`. */
  function GetSalaryProfile(s: Store, caller: Option<int>): (r: Reply<UserSalary>)
    ensures r.Ok? || r.Unauthorized? || r.NotFound?
    ensures r.Unauthorized? <==> caller.None?
    ensures r.NotFound? <==> caller.Some? && forall j :: 0 <= j < |s.salaries| ==> s.salaries[j].userId != caller.value
    ensures r.Ok? ==> exists i :: IsFirstProfileOf(s.salaries, caller.value, i) && r.value == s.salaries[i]
  {
    if caller.None? then Unauthorized
    else match FirstProfileOf(s.salaries, caller.value)
      case None => NotFound
      case Some(i) => Ok(s.salaries[i])
  }

  /** `OrderByDescending(s => s.Year).ThenByDescending(s => s.Month)`. */
  predicate NewestFirst(a: SalaryRecord, b: SalaryRecord) {
    a.year > b.year || (a.year == b.year && a.month >= b.month)
  }

  lemma NewestFirstIsTotalPreorder()
    ensures TotalPreorder(NewestFirst)
  {
  }

  /** `GetSalaryHistory`: all of the caller's records and nothing else, each as often as it
      is stored, newest year first and, within a year, newest month first. */
  function GetSalaryHistory(s: Store, caller: Option<int>): (r: Reply<seq<SalaryRecord>>)
    ensures r.Ok? || r.Unauthorized?
    ensures r.Unauthorized? <==> caller.None?
    ensures r.Ok? ==> forall i, j :: 0 <= i < j < |r.value| ==>
      r.value[i].year > r.value[j].year || (r.value[i].year == r.value[j].year && r.value[i].month >= r.value[j].month)
    ensures r.Ok? ==> forall x :: multiset(r.value)[x] == if x.userId == caller.value then multiset(s.salaryRecords)[x] else 0
  {
    if caller.None? then Unauthorized
    else
      var u := caller.value;
      var mine := Filter(s.salaryRecords, (x: SalaryRecord) => x.userId == u);
      assert forall x :: multiset(mine)[x] == if x.userId == u then multiset(s.salaryRecords)[x] else 0 by {
        forall x ensures multiset(mine)[x] == if x.userId == u then multiset(s.salaryRecords)[x] else 0 {
          FilterCount(s.salaryRecords, (x: SalaryRecord) => x.userId == u, x);
        }
      }
      NewestFirstIsTotalPreorder();
      var sorted := SortBy(mine, NewestFirst);
      assert forall i, j :: 0 <= i < j < |sorted| ==> NewestFirst(sorted[i], sorted[j]);
      Ok(sorted)
  }

  /** The rounded amount a supported profile earns for a month: the hourly rate (0 if unset)
      times the month's logged hours, or the monthly salary (0 if unset). */
  function ExpectedAmount(p: UserSalary, hours: real): real {
    Round2(if p.contractType == HourlyContract then p.hourlyRate.GetOr(0.0) * hours
           else p.monthlySalary.GetOr(0.0))
  }

  /** The destructive upsert of the month's record: the first record of the month is replaced
      by a freshly generated one under the same key; without one, a record is appended under
      the next key. */
  function UpsertRecord(s: Store, u: int, year: int, month: int, amount: real): (s': Store)
    ensures forall k :: IsFirstRecordFor(s.salaryRecords, u, year, month, k) ==>
      s' == s.(salaryRecords := s.salaryRecords[k := Generated(s.salaryRecords[k].id, u, year, month, amount)])
    ensures !HasRecordFor(s.salaryRecords, u, year, month) ==>
      s' == s.(salaryRecords := s.salaryRecords + [Generated(s.nextId, u, year, month, amount)], nextId := s.nextId + 1)
  {
    var rs := s.salaryRecords;
    match FirstIndex(rs, (x: SalaryRecord) => RecordFor(x, u, year, month))
    case Some(k) =>
      var existing := rs[k].(expectedAmount := amount, receivedAmount := 0.0,
                             isConfirmed := false, hasBonus := false, notes := None);
      assert existing == Generated(rs[k].id, u, year, month, amount);
      assert forall k' :: IsFirstRecordFor(rs, u, year, month, k') ==> k' == k;
      s.(salaryRecords := rs[k := existing])
    case None =>
      s.(salaryRecords := rs + [Generated(s.nextId, u, year, month, amount)], nextId := s.nextId + 1)
  }

  /** `GenerateSalary`. `Unauthorized` without a caller, `NotFound` without a salary profile,
      `BadRequest` for a contract type other than the two supported ones; these leave the
      store unchanged. Otherwise the month's record is upserted with the profile's expected
      amount and its manual fields reset; nothing else changes. */
  function GenerateSalary(s: Store, caller: Option<int>, dto: GenerateSalaryDto): (r: Step<()>)
    ensures r.reply.Ok? || r.reply.Unauthorized? || r.reply.NotFound? || r.reply.BadRequest?
    ensures !r.reply.Ok? ==> r.store == s
    ensures r.reply.Unauthorized? <==> caller.None?
    ensures r.reply.NotFound? <==>
      caller.Some? && forall j :: 0 <= j < |s.salaries| ==> s.salaries[j].userId != caller.value
    ensures r.reply.BadRequest? <==>
      caller.Some? &&
      (exists i :: IsFirstProfileOf(s.salaries, caller.value, i) &&
        s.salaries[i].contractType != HourlyContract && s.salaries[i].contractType != MonthlyContract)
    ensures r.reply.Ok? ==>
      exists i :: IsFirstProfileOf(s.salaries, caller.value, i) &&
        (s.salaries[i].contractType == HourlyContract || s.salaries[i].contractType == MonthlyContract) &&
        r.store == UpsertRecord(s, caller.value, dto.year, dto.month,
                                ExpectedAmount(s.salaries[i], MonthHours(s.workTimes, caller.value, dto.year, dto.month)))
  {
    if caller.None? then Step(Unauthorized, s)
    else
      var u, y, m := caller.value, dto.year, dto.month;
      match FirstProfileOf(s.salaries, u)
      case None => Step(NotFound, s)
      case Some(i) =>
        var p := s.salaries[i];
        var hours := if p.contractType == HourlyContract
                     then SumTotals(Filter(s.workTimes, InMonthOf(u, y, m)))
                     else 0.0;
        SumOfMonthIsMonthHours(s.workTimes, u, y, m);
        assert forall i' :: IsFirstProfileOf(s.salaries, u, i') ==> i' == i;
        match ContractAmount(p, hours)
        case None => Step(BadRequest, s)
        case Some(amount) =>
          assert Round2(amount) == ExpectedAmount(p, hours);
          assert ExpectedAmount(p, hours) == ExpectedAmount(p, MonthHours(s.workTimes, u, y, m));
          Step(Ok(()), UpsertRecord(s, u, y, m, Round2(amount)))
  }

  ghost predicate IsFirstOwnedRecord(rs: seq<SalaryRecord>, u: int, id: int, i: int) {
    0 <= i < |rs| && rs[i].id == id && rs[i].userId == u &&
    forall j :: 0 <= j < i ==> !(rs[j].id == id && rs[j].userId == u)
  }

  /** `UpdateSalaryRecord(id)`. `Unauthorized` without a caller and `NotFound` unless a record
      with that key belongs to the caller, both leaving the store unchanged. On success that
      record's received amount, confirmation, bonus flag and notes become the request's; its
      key, owner, period and expected amount stay, and nothing else changes. */
  function UpdateSalaryRecord(s: Store, caller: Option<int>, id: int, dto: UpdateSalaryRecordDto): (r: Step<()>)
    ensures r.reply.NoContent? || r.reply.Unauthorized? || r.reply.NotFound?
    ensures !r.reply.NoContent? ==> r.store == s
    ensures r.reply.Unauthorized? <==> caller.None?
    ensures r.reply.NotFound? <==>
      caller.Some? && forall j :: 0 <= j < |s.salaryRecords| ==> !(s.salaryRecords[j].id == id && s.salaryRecords[j].userId == caller.value)
    ensures r.reply.NoContent? ==>
      |r.store.salaryRecords| == |s.salaryRecords| && r.store == s.(salaryRecords := r.store.salaryRecords)
    ensures r.reply.NoContent? ==>
      exists i :: IsFirstOwnedRecord(s.salaryRecords, caller.value, id, i) &&
        var old_, new_ := s.salaryRecords[i], r.store.salaryRecords[i];
        && r.store.salaryRecords == s.salaryRecords[i := new_]
        && new_.id == old_.id && new_.userId == old_.userId && new_.year == old_.year && new_.month == old_.month
        && new_.expectedAmount == old_.expectedAmount
        && new_.receivedAmount == dto.receivedAmount && new_.isConfirmed == dto.isConfirmed
        && new_.hasBonus == dto.hasBonus && new_.notes == dto.notes
  {
    if caller.None? then Step(Unauthorized, s)
    else
      var u := caller.value;
      match FirstIndex(s.salaryRecords, (x: SalaryRecord) => x.id == id && x.userId == u)
      case None => Step(NotFound, s)
      case Some(i) =>
        var edited := s.salaryRecords[i].(receivedAmount := dto.receivedAmount, isConfirmed := dto.isConfirmed,
                                          hasBonus := dto.hasBonus, notes := dto.notes);
        assert IsFirstOwnedRecord(s.salaryRecords, u, id, i);
        Step(NoContent, s.(salaryRecords := s.salaryRecords[i := edited]))
  }
}
