/** The administrator's endpoints. Every one of them first checks that the caller is a stored
    user with the admin flag set and answers `Forbid`, changing nothing, otherwise. Behind
    that gate: listing users with their salary profile, creating, editing and deleting users,
    setting a user's salary profile, assigning, listing and deleting tasks, and a filtered,
    ordered listing of one user's work times. Password hashing is an opaque function passed
    in by the caller of the model. */
module AdminController {
  import opened Wrappers
  import opened Calendar
  import opened WorkTimes
  import opened Seqs
  import opened Sorting
  import opened Store
  import opened SalaryController

  datatype CreateUserDto = CreateUserDto(
    username: string,
    name: string,
    surname: string,
    password: string,
    isAdmin: bool)

  datatype UpdateUserSalaryDto = UpdateUserSalaryDto(
    contractType: string,
    hourlyRate: Option<real>,
    monthlySalary: Option<real>)

  datatype CreateTaskDto = CreateTaskDto(text: string, dueDate: Option<DateTime>)

  /** Every field may be absent; `None` stands for a JSON null. */
  datatype UpdateUserAdminDto = UpdateUserAdminDto(
    username: Option<string>,
    name: Option<string>,
    surname: Option<string>,
    password: Option<string>,
    isAdmin: Option<bool>)

  /** A user as `GetAllUsers` lists it: no password, and the first salary profile if any. */
  datatype UserView = UserView(
    id: int,
    username: string,
    name: string,
    surname: string,
    isAdmin: bool,
    salary: Option<UserSalary>)

  /** A task as `GetUserTasks` lists it, the due date as "yyyy-MM-dd". */
  datatype TaskView = TaskView(id: int, text: string, dueDate: Option<string>, completed: bool)

  /** A work time as `GetUserWorkTimes` lists it, the date as "yyyy-MM-dd". */
  datatype WorkTimeRow = WorkTimeRow(id: int, date: string, startTime: string, endTime: string, total: real)

  /** `IsAdmin()`: the caller is known and some stored user with the caller's key has the
      admin flag set. */
  predicate IsAdmin(s: Store, caller: Option<int>) {
    caller.Some? && exists i :: 0 <= i < |s.users| && s.users[i].id == caller.value && s.users[i].isAdmin
  }

  ghost predicate IsFirstUser(us: seq<User>, id: int, j: int) {
    0 <= j < |us| && us[j].id == id && forall k :: 0 <= k < j ==> us[k].id != id
  }

  ghost predicate HasUser(us: seq<User>, id: int) {
    exists j :: 0 <= j < |us| && us[j].id == id
  }

  /** The row found by `FindUser` is the first with that key. */
  lemma FoundUserIsFirst(us: seq<User>, id: int, j: nat)
    requires FindUser(us, id) == Some(j)
    ensures IsFirstUser(us, id, j)
    ensures forall j' :: IsFirstUser(us, id, j') ==> j' == j
  {
    var p := (u: User) => u.id == id;
    assert FirstIndex(us, p) == Some(j);
  }

  function View(s: Store, u: User): (v: UserView)
    ensures v.id == u.id && v.username == u.username && v.name == u.name && v.surname == u.surname
    ensures v.isAdmin == u.isAdmin
    ensures v.salary.None? <==> forall j :: 0 <= j < |s.salaries| ==> s.salaries[j].userId != u.id
    ensures v.salary.Some? ==> exists j :: IsFirstProfileOf(s.salaries, u.id, j) && v.salary.value == s.salaries[j]
  {
    var salary := match FirstProfileOf(s.salaries, u.id)
      case None => None
      case Some(j) => Some(s.salaries[j]);
    UserView(u.id, u.username, u.name, u.surname, u.isAdmin, salary)
  }

  /** `GetAllUsers`: every user in order, without the password, each with the profile that
      `GetSalaryProfile` would show that user. */
  function GetAllUsers(s: Store, caller: Option<int>): (r: Reply<seq<UserView>>)
    ensures r.Ok? || r.Forbid?
    ensures r.Forbid? <==> !IsAdmin(s, caller)
    ensures r.Ok? ==> |r.value| == |s.users|
    ensures r.Ok? ==> forall i :: 0 <= i < |s.users| ==>
      var u, v := s.users[i], r.value[i];
      && v.id == u.id && v.username == u.username && v.name == u.name && v.surname == u.surname
      && v.isAdmin == u.isAdmin
      && (v.salary.None? <==> forall j :: 0 <= j < |s.salaries| ==> s.salaries[j].userId != u.id)
      && (v.salary.Some? ==> exists j :: IsFirstProfileOf(s.salaries, u.id, j) && v.salary.value == s.salaries[j])
  {
    if !IsAdmin(s, caller) then Forbid
    else Ok(seq(|s.users|, i requires 0 <= i < |s.users| => View(s, s.users[i])))
  }

  /** `CreateUser`: one user appended under the next key, holding the request's names and
      admin flag and the hash of its password. */
  function CreateUser(s: Store, caller: Option<int>, dto: CreateUserDto, hash: string -> string): (r: Step<User>)
    ensures r.reply.Ok? || r.reply.Forbid?
    ensures r.reply.Forbid? <==> !IsAdmin(s, caller)
    ensures r.reply.Forbid? ==> r.store == s
    ensures r.reply.Ok? ==>
      var u := r.reply.value;
      && u.id == s.nextId
      && u.username == dto.username && u.name == dto.name && u.surname == dto.surname
      && u.password == hash(dto.password) && u.isAdmin == dto.isAdmin
      && r.store == s.(users := s.users + [u], nextId := s.nextId + 1)
  {
    if !IsAdmin(s, caller) then Step(Forbid, s)
    else
      var u := User(s.nextId, dto.username, dto.name, dto.surname, hash(dto.password), dto.isAdmin);
      Step(Ok(u), s.(users := s.users + [u], nextId := s.nextId + 1))
  }

  /** The rows that survive deleting user `id`: work times by the configured cascade, and
      absences, delegations, salary profiles and payroll records by the cascade of their
      required `User` relationship. */
  function NotOwnedBy(id: int): WorkTime -> bool {
    (w: WorkTime) => w.userId != id
  }

  function DelegationNotOwnedBy(id: int): DelegationDate -> bool {
    (g: DelegationDate) => g.userId != id
  }

  function ProfileNotOwnedBy(id: int): UserSalary -> bool {
    (p: UserSalary) => p.userId != id
  }

  function RecordNotOwnedBy(id: int): SalaryRecord -> bool {
    (x: SalaryRecord) => x.userId != id
  }

  function AbsenceNotOwnedBy(id: int): AbsenceDate -> bool {
    (a: AbsenceDate) => a.userId != id
  }

  /** `DeleteUser(id)`. `Forbid` for a non-admin, `NotFound` without a user of that key,
      both leaving the store unchanged. Otherwise that user row is removed, and with it
      every work time, absence, delegation, salary profile and payroll record of that user;
      the other rows of those tables stay in their order, each as often as it was stored.
      Tasks stay, as does everything else. */
  function DeleteUser(s: Store, caller: Option<int>, id: int): (r: Step<()>)
    ensures r.reply.NoContent? || r.reply.Forbid? || r.reply.NotFound?
    ensures !r.reply.NoContent? ==> r.store == s
    ensures r.reply.Forbid? <==> !IsAdmin(s, caller)
    ensures r.reply.NotFound? <==> IsAdmin(s, caller) && !HasUser(s.users, id)
    ensures r.reply.NoContent? ==>
      exists j :: IsFirstUser(s.users, id, j) &&
        r.store == s.(users := RemoveAt(s.users, j), workTimes := r.store.workTimes,
                      absences := r.store.absences, delegations := r.store.delegations,
                      salaries := r.store.salaries, salaryRecords := r.store.salaryRecords)
    ensures r.reply.NoContent? ==>
      && r.store.workTimes == Filter(s.workTimes, NotOwnedBy(id))
      && r.store.absences == Filter(s.absences, AbsenceNotOwnedBy(id))
      && r.store.delegations == Filter(s.delegations, DelegationNotOwnedBy(id))
      && r.store.salaries == Filter(s.salaries, ProfileNotOwnedBy(id))
      && r.store.salaryRecords == Filter(s.salaryRecords, RecordNotOwnedBy(id))
    ensures r.reply.NoContent? ==>
      forall w :: multiset(r.store.workTimes)[w] == if w.userId == id then 0 else multiset(s.workTimes)[w]
    ensures r.reply.NoContent? ==>
      forall a :: multiset(r.store.absences)[a] == if a.userId == id then 0 else multiset(s.absences)[a]
    ensures r.reply.NoContent? ==>
      forall g :: multiset(r.store.delegations)[g] == if g.userId == id then 0 else multiset(s.delegations)[g]
    ensures r.reply.NoContent? ==>
      forall p :: multiset(r.store.salaries)[p] == if p.userId == id then 0 else multiset(s.salaries)[p]
    ensures r.reply.NoContent? ==>
      forall x :: multiset(r.store.salaryRecords)[x] == if x.userId == id then 0 else multiset(s.salaryRecords)[x]
  {
    if !IsAdmin(s, caller) then Step(Forbid, s)
    else match FindUser(s.users, id)
      case None => Step(NotFound, s)
      case Some(j) =>
        FoundUserIsFirst(s.users, id, j);
        FilterMultiset(s.workTimes, NotOwnedBy(id));
        FilterMultiset(s.absences, AbsenceNotOwnedBy(id));
        FilterMultiset(s.delegations, DelegationNotOwnedBy(id));
        FilterMultiset(s.salaries, ProfileNotOwnedBy(id));
        FilterMultiset(s.salaryRecords, RecordNotOwnedBy(id));
        Step(NoContent, s.(users := RemoveAt(s.users, j),
                           workTimes := Filter(s.workTimes, NotOwnedBy(id)),
                           absences := Filter(s.absences, AbsenceNotOwnedBy(id)),
                           delegations := Filter(s.delegations, DelegationNotOwnedBy(id)),
                           salaries := Filter(s.salaries, ProfileNotOwnedBy(id)),
                           salaryRecords := Filter(s.salaryRecords, RecordNotOwnedBy(id))))
  }

  /** `UpdateUserSalary(id)`: the user's first salary profile, or a new one appended under the
      next key when there is none, gets exactly the request's contract type, hourly rate and
      monthly salary. Whether a user `id` exists is not checked. */
  function UpdateUserSalary(s: Store, caller: Option<int>, id: int, dto: UpdateUserSalaryDto): (r: Step<UserSalary>)
    ensures r.reply.Ok? || r.reply.Forbid?
    ensures r.reply.Forbid? <==> !IsAdmin(s, caller)
    ensures r.reply.Forbid? ==> r.store == s
    ensures r.reply.Ok? ==>
      var p := r.reply.value;
      p.userId == id && p.contractType == dto.contractType && p.hourlyRate == dto.hourlyRate &&
      p.monthlySalary == dto.monthlySalary
    ensures r.reply.Ok? ==> forall i :: IsFirstProfileOf(s.salaries, id, i) ==>
      r.reply.value.id == s.salaries[i].id && r.store == s.(salaries := s.salaries[i := r.reply.value])
    ensures r.reply.Ok? && (forall j :: 0 <= j < |s.salaries| ==> s.salaries[j].userId != id) ==>
      r.reply.value.id == s.nextId && r.store == s.(salaries := s.salaries + [r.reply.value], nextId := s.nextId + 1)
  {
    if !IsAdmin(s, caller) then Step(Forbid, s)
    else match FirstProfileOf(s.salaries, id)
      case Some(i) =>
        var p := s.salaries[i].(contractType := dto.contractType, hourlyRate := dto.hourlyRate,
                                monthlySalary := dto.monthlySalary);
        assert forall i' :: IsFirstProfileOf(s.salaries, id, i') ==> i' == i;
        Step(Ok(p), s.(salaries := s.salaries[i := p]))
      case None =>
        var p := UserSalary(s.nextId, id, dto.contractType, dto.hourlyRate, dto.monthlySalary);
        Step(Ok(p), s.(salaries := s.salaries + [p], nextId := s.nextId + 1))
  }

  /** `AddTaskToUser(userId)`: `NotFound` for an unknown user, otherwise one open task for
      that user appended under the next key. */
  function AddTaskToUser(s: Store, caller: Option<int>, userId: int, dto: CreateTaskDto): (r: Step<UserTask>)
    ensures r.reply.Ok? || r.reply.Forbid? || r.reply.NotFound?
    ensures !r.reply.Ok? ==> r.store == s
    ensures r.reply.Forbid? <==> !IsAdmin(s, caller)
    ensures r.reply.NotFound? <==> IsAdmin(s, caller) && !HasUser(s.users, userId)
    ensures r.reply.Ok? ==>
      var t := r.reply.value;
      && t.id == s.nextId && t.userId == userId && t.text == dto.text && t.dueDate == dto.dueDate && !t.completed
      && r.store == s.(tasks := s.tasks + [t], nextId := s.nextId + 1)
  {
    if !IsAdmin(s, caller) then Step(Forbid, s)
    else match FindUser(s.users, userId)
      case None => Step(NotFound, s)
      case Some(_) =>
        var t := UserTask(s.nextId, dto.text, dto.dueDate, false, userId);
        Step(Ok(t), s.(tasks := s.tasks + [t], nextId := s.nextId + 1))
  }

  ghost predicate IsFirstTask(ts: seq<UserTask>, id: int, j: int) {
    0 <= j < |ts| && ts[j].id == id && forall k :: 0 <= k < j ==> ts[k].id != id
  }

  /** `DeleteTask(taskId)`: `NotFound` without a task of that key, otherwise exactly that
      task is removed. */
  function DeleteTask(s: Store, caller: Option<int>, taskId: int): (r: Step<()>)
    ensures r.reply.NoContent? || r.reply.Forbid? || r.reply.NotFound?
    ensures !r.reply.NoContent? ==> r.store == s
    ensures r.reply.Forbid? <==> !IsAdmin(s, caller)
    ensures r.reply.NotFound? <==> IsAdmin(s, caller) && forall j :: 0 <= j < |s.tasks| ==> s.tasks[j].id != taskId
    ensures r.reply.NoContent? ==>
      exists j :: IsFirstTask(s.tasks, taskId, j) && r.store == s.(tasks := RemoveAt(s.tasks, j))
  {
    if !IsAdmin(s, caller) then Step(Forbid, s)
    else match FindTask(s.tasks, taskId)
      case None => Step(NotFound, s)
      case Some(j) =>
        var p := (t: UserTask) => t.id == taskId;
        assert FirstIndex(s.tasks, p) == Some(j);
        Step(NoContent, s.(tasks := RemoveAt(s.tasks, j)))
  }

  function ViewTask(t: UserTask): (v: TaskView)
    ensures v.id == t.id && v.text == t.text && v.completed == t.completed
    ensures v.dueDate.Some? <==> t.dueDate.Some?
    ensures v.dueDate.Some? ==> ParseDate(v.dueDate.value) == Some(DatePart(t.dueDate.value))
  {
    match t.dueDate
    case None => TaskView(t.id, t.text, None, t.completed)
    case Some(d) =>
      FormatThenParse(d);
      TaskView(t.id, t.text, Some(FormatDate(d)), t.completed)
  }

  function OwnedBy(userId: int): UserTask -> bool {
    (t: UserTask) => t.userId == userId
  }

  /** `GetUserTasks(userId)`: a view of every task of that user and of no other, in stored
      order. An unknown user gets an empty list, not `NotFound`. */
  function GetUserTasks(s: Store, caller: Option<int>, userId: int): (r: Reply<seq<TaskView>>)
    ensures r.Ok? || r.Forbid?
    ensures r.Forbid? <==> !IsAdmin(s, caller)
    ensures r.Ok? ==> forall v :: v in r.value ==> exists t :: t in s.tasks && t.userId == userId && v == ViewTask(t)
    ensures r.Ok? ==> forall t :: t in s.tasks && t.userId == userId ==> ViewTask(t) in r.value
  {
    if !IsAdmin(s, caller) then Forbid
    else
      var mine := Filter(s.tasks, OwnedBy(userId));
      var views := seq(|mine|, i requires 0 <= i < |mine| => ViewTask(mine[i]));
      assert forall t :: t in s.tasks && t.userId == userId ==> ViewTask(t) in views by {
        forall t | t in s.tasks && t.userId == userId ensures ViewTask(t) in views {
          assert t in mine;
          var i :| 0 <= i < |mine| && mine[i] == t;
          assert views[i] == ViewTask(t);
        }
      }
      Ok(views)
  }

  /** `n` is `o` after the edit `dto`: a text field changes only to a request value that is
      neither null nor empty, the password only to the hash of one, the admin flag only when
      supplied; the key never changes. */
  ghost predicate EditedFrom(o: User, n: User, dto: UpdateUserAdminDto, hash: string -> string) {
    && n.id == o.id
    && n.username == (if IsNullOrEmpty(dto.username) then o.username else dto.username.value)
    && n.name == (if IsNullOrEmpty(dto.name) then o.name else dto.name.value)
    && n.surname == (if IsNullOrEmpty(dto.surname) then o.surname else dto.surname.value)
    && n.password == (if IsNullOrEmpty(dto.password) then o.password else hash(dto.password.value))
    && n.isAdmin == (if dto.isAdmin.None? then o.isAdmin else dto.isAdmin.value)
  }

  /** `UpdateUser(id)`: `NotFound` for an unknown user. Otherwise each text field of the
      request replaces the stored one only when it is neither null nor empty, the password
      being stored hashed, and the admin flag is replaced only when supplied; the key and
      every other row stay. */
  function UpdateUser(s: Store, caller: Option<int>, id: int, dto: UpdateUserAdminDto, hash: string -> string): (r: Step<User>)
    ensures r.reply.Ok? || r.reply.Forbid? || r.reply.NotFound?
    ensures !r.reply.Ok? ==> r.store == s
    ensures r.reply.Forbid? <==> !IsAdmin(s, caller)
    ensures r.reply.NotFound? <==> IsAdmin(s, caller) && !HasUser(s.users, id)
    ensures r.reply.Ok? ==>
      exists j :: IsFirstUser(s.users, id, j) && r.store == s.(users := s.users[j := r.reply.value])
        && EditedFrom(s.users[j], r.reply.value, dto, hash)
  {
    if !IsAdmin(s, caller) then Step(Forbid, s)
    else match FindUser(s.users, id)
      case None => Step(NotFound, s)
      case Some(j) =>
        FoundUserIsFirst(s.users, id, j);
        var u := s.users[j];
        var u := if !IsNullOrEmpty(dto.username) then u.(username := dto.username.value) else u;
        var u := if !IsNullOrEmpty(dto.name) then u.(name := dto.name.value) else u;
        var u := if !IsNullOrEmpty(dto.surname) then u.(surname := dto.surname.value) else u;
        var u := if !IsNullOrEmpty(dto.password) then u.(password := hash(dto.password.value)) else u;
        var u := if dto.isAdmin.Some? then u.(isAdmin := dto.isAdmin.value) else u;
        Step(Ok(u), s.(users := s.users[j := u]))
  }

  /** The work time belongs to the user and its date lies within the optional bounds, both
      inclusive and compared with the time of day. */
  predicate InRange(w: WorkTime, userId: int, start: Option<DateTime>, end: Option<DateTime>) {
    && w.userId == userId
    && (start.Some? ==> Le(start.value, w.date))
    && (end.Some? ==> Le(w.date, end.value))
  }

  function InRangeOf(userId: int, start: Option<DateTime>, end: Option<DateTime>): WorkTime -> bool {
    (w: WorkTime) => InRange(w, userId, start, end)
  }

  /** `OrderByDescending(wt => wt.Date).ThenBy(wt => wt.StartTime)`. */
  predicate NewestDayFirst(a: WorkTime, b: WorkTime) {
    (a.date != b.date && Le(b.date, a.date)) || (a.date == b.date && LexLe(a.startTime, b.startTime))
  }

  lemma NewestDayFirstIsTotalPreorder()
    ensures TotalPreorder(NewestDayFirst)
  {
    forall a: WorkTime, b: WorkTime ensures NewestDayFirst(a, b) || NewestDayFirst(b, a) {
      LeIsTotalOrder(a.date, b.date, b.date);
      LexLeTotal(a.startTime, b.startTime);
    }
    forall a: WorkTime, b: WorkTime, c: WorkTime | NewestDayFirst(a, b) && NewestDayFirst(b, c)
      ensures NewestDayFirst(a, c)
    {
      LeIsTotalOrder(c.date, b.date, a.date);
      LeIsTotalOrder(b.date, a.date, c.date);
      if a.date == b.date && b.date == c.date {
        LexLeTransitive(a.startTime, b.startTime, c.startTime);
      }
    }
  }

  /** The query of `GetUserWorkTimes` before projection: the work times in range, each as
      often as stored, newest day first and within a day by start time. */
  function SelectWorkTimes(ws: seq<WorkTime>, userId: int, start: Option<DateTime>, end: Option<DateTime>): (r: seq<WorkTime>)
    ensures SortedBy(r, NewestDayFirst)
    ensures forall w :: multiset(r)[w] == if InRange(w, userId, start, end) then multiset(ws)[w] else 0
  {
    var chosen := Filter(ws, InRangeOf(userId, start, end));
    assert forall w :: multiset(chosen)[w] == if InRange(w, userId, start, end) then multiset(ws)[w] else 0 by {
      forall w ensures multiset(chosen)[w] == if InRange(w, userId, start, end) then multiset(ws)[w] else 0 {
        FilterCount(ws, InRangeOf(userId, start, end), w);
      }
    }
    NewestDayFirstIsTotalPreorder();
    SortBy(chosen, NewestDayFirst)
  }

  function Row(w: WorkTime): (r: WorkTimeRow)
    ensures r.id == w.id && r.startTime == w.startTime && r.endTime == w.endTime && r.total == w.total
    ensures ParseDate(r.date) == Some(DatePart(w.date))
  {
    FormatThenParse(w.date);
    WorkTimeRow(w.id, FormatDate(w.date), w.startTime, w.endTime, w.total)
  }

  /** `GetUserWorkTimes(userId, startDate, endDate)`: `NotFound` for an unknown user,
      otherwise one row per selected work time, in the selection's order. */
  function GetUserWorkTimes(s: Store, caller: Option<int>, userId: int, start: Option<DateTime>, end: Option<DateTime>)
    : (r: Reply<seq<WorkTimeRow>>)
    ensures r.Ok? || r.Forbid? || r.NotFound?
    ensures r.Forbid? <==> !IsAdmin(s, caller)
    ensures r.NotFound? <==> IsAdmin(s, caller) && !HasUser(s.users, userId)
    ensures r.Ok? ==>
      var sel := SelectWorkTimes(s.workTimes, userId, start, end);
      |r.value| == |sel| && forall i :: 0 <= i < |sel| ==> r.value[i] == Row(sel[i])
  {
    if !IsAdmin(s, caller) then Forbid
    else match FindUser(s.users, userId)
      case None => NotFound
      case Some(_) =>
        var sel := SelectWorkTimes(s.workTimes, userId, start, end);
        Ok(seq(|sel|, i requires 0 <= i < |sel| => Row(sel[i])))
  }
}
