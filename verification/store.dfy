/** The persistent state the controllers share, as one immutable value: a sequence per
    table in primary-key order (so LINQ's `FirstOrDefault` is the first match), and the
    next identity value the database will hand out. Each request is one atomic transition
    from a store to a reply and a new store. */
module Store {
  import opened Wrappers
  import opened Calendar
  import opened WorkTimes
  import opened Seqs

  /** A row of the absence table (`AbsenceDate`); `kind` is its free-form `Type`. */
  datatype AbsenceDate = AbsenceDate(id: int, userId: int, date: DateTime, kind: string)

  /** A row of the delegation table (`DelegationDate`). */
  datatype DelegationDate = DelegationDate(id: int, userId: int, date: DateTime)

  /** A row of the user table (`Login`); `password` is an opaque hash. */
  datatype User = User(
    id: int,
    username: string,
    name: string,
    surname: string,
    password: string,
    isAdmin: bool)

  /** A row of the task table (`UserTask`). */
  datatype UserTask = UserTask(
    id: int,
    text: string,
    dueDate: Option<DateTime>,
    completed: bool,
    userId: int)

  /** A salary profile (`UserSalary`). */
  datatype UserSalary = UserSalary(
    id: int,
    userId: int,
    contractType: string,
    hourlyRate: Option<real>,
    monthlySalary: Option<real>)

  /** A payroll record (`SalaryRecord`): one generated amount per user and month plus the
      four fields the employee fills in by hand. */
  datatype SalaryRecord = SalaryRecord(
    id: int,
    userId: int,
    year: int,
    month: int,
    expectedAmount: real,
    receivedAmount: real,
    isConfirmed: bool,
    hasBonus: bool,
    notes: Option<string>)

  datatype Store = Store(
    users: seq<User>,
    workTimes: seq<WorkTime>,
    absences: seq<AbsenceDate>,
    delegations: seq<DelegationDate>,
    salaries: seq<UserSalary>,
    salaryRecords: seq<SalaryRecord>,
    tasks: seq<UserTask>,
    nextId: int)

  /** The HTTP outcome of an action: `Ok` with a body, `NoContent`, or one of the error
      results. */
  datatype Reply<+T> =
    | Ok(value: T)
    | NoContent
    | Unauthorized
    | BadRequest
    | Conflict
    | NotFound
    | Forbid
  {
    predicate IsSuccess() {
      Ok? || NoContent?
    }
  }

  /** The reply to one request together with the store it leaves behind. */
  datatype Step<+T> = Step(reply: Reply<T>, store: Store)

  /** `string.IsNullOrEmpty`. */
  predicate IsNullOrEmpty(s: Option<string>) {
    s.None? || |s.value| == 0
  }

  function UserKey(u: User): int { u.id }
  function WorkTimeKey(w: WorkTime): int { w.id }
  function AbsenceKey(a: AbsenceDate): int { a.id }
  function DelegationKey(d: DelegationDate): int { d.id }
  function SalaryKey(p: UserSalary): int { p.id }
  function RecordKey(r: SalaryRecord): int { r.id }
  function TaskKey(t: UserTask): int { t.id }

  /** Primary keys are unique in every table and below the next identity value. */
  ghost predicate Wf(s: Store) {
    && WellKeyed(s.users, UserKey, s.nextId)
    && WellKeyed(s.workTimes, WorkTimeKey, s.nextId)
    && WellKeyed(s.absences, AbsenceKey, s.nextId)
    && WellKeyed(s.delegations, DelegationKey, s.nextId)
    && WellKeyed(s.salaries, SalaryKey, s.nextId)
    && WellKeyed(s.salaryRecords, RecordKey, s.nextId)
    && WellKeyed(s.tasks, TaskKey, s.nextId)
  }

  /** Every stored work-time total is the span between its stored times. */
  ghost predicate TotalsMatchTimes(s: Store) {
    forall i :: 0 <= i < |s.workTimes| ==> TotalMatchesTimes(s.workTimes[i])
  }

  /** Raising the next identity value keeps the store well formed. */
  lemma WfGrow(s: Store, next: int)
    requires Wf(s) && s.nextId <= next
    ensures Wf(s.(nextId := next))
  {
    KeyedGrow(s.users, UserKey, s.nextId, next);
    KeyedGrow(s.workTimes, WorkTimeKey, s.nextId, next);
    KeyedGrow(s.absences, AbsenceKey, s.nextId, next);
    KeyedGrow(s.delegations, DelegationKey, s.nextId, next);
    KeyedGrow(s.salaries, SalaryKey, s.nextId, next);
    KeyedGrow(s.salaryRecords, RecordKey, s.nextId, next);
    KeyedGrow(s.tasks, TaskKey, s.nextId, next);
  }

  /** The row with primary key `id` (`FindAsync(id)`). */
  function FindWorkTime(ws: seq<WorkTime>, id: int): (r: Option<nat>)
    ensures r.Some? ==> r.value < |ws| && ws[r.value].id == id
    ensures r.None? <==> forall j :: 0 <= j < |ws| ==> ws[j].id != id
  {
    FirstIndex(ws, (w: WorkTime) => w.id == id)
  }

  function FindUser(us: seq<User>, id: int): (r: Option<nat>)
    ensures r.Some? ==> r.value < |us| && us[r.value].id == id
    ensures r.None? <==> forall j :: 0 <= j < |us| ==> us[j].id != id
  {
    FirstIndex(us, (u: User) => u.id == id)
  }

  function FindTask(ts: seq<UserTask>, id: int): (r: Option<nat>)
    ensures r.Some? ==> r.value < |ts| && ts[r.value].id == id
    ensures r.None? <==> forall j :: 0 <= j < |ts| ==> ts[j].id != id
  {
    FirstIndex(ts, (t: UserTask) => t.id == id)
  }

  /** Under unique keys the row found by key is the only row with that key. */
  lemma FindWorkTimeUnique(ws: seq<WorkTime>, id: int, bound: int, j: nat)
    requires WellKeyed(ws, WorkTimeKey, bound) && j < |ws| && ws[j].id == id
    ensures FindWorkTime(ws, id) == Some(j)
  {
    var r := FindWorkTime(ws, id);
    assert WorkTimeKey(ws[r.value]) == WorkTimeKey(ws[j]);
  }

  /** Removing a work time keeps every remaining total matched to its times. */
  lemma TotalsRemove(s: Store, j: nat)
    requires TotalsMatchTimes(s) && j < |s.workTimes|
    ensures TotalsMatchTimes(s.(workTimes := RemoveAt(s.workTimes, j)))
  {
    var ws := RemoveAt(s.workTimes, j);
    forall k | 0 <= k < |ws| ensures TotalMatchesTimes(ws[k]) {
      assert ws[k] == s.workTimes[if k < j then k else k + 1];
    }
  }
}
