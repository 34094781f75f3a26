/** Laws of the administrator's endpoints: they keep the store well formed, a profile set by
    the administrator is the one the employee then sees, repeating an edit changes nothing
    more, an administrator who removes their own flag is locked out, and the administrator's
    unbounded work-time listing holds exactly what the employee's own listing holds. */
module AdminLaws {
  import opened Wrappers
  import opened Calendar
  import opened WorkTimes
  import opened Seqs
  import opened Sorting
  import opened Store
  import opened SalaryController
  import opened AdminController
  import WorkTimeController

  /** Setting a profile keeps the store well formed. */
  lemma UpdateUserSalaryKeepsWf(s: Store, caller: Option<int>, id: int, dto: UpdateUserSalaryDto)
    requires Wf(s)
    ensures Wf(UpdateUserSalary(s, caller, id, dto).store)
  {
    var r := UpdateUserSalary(s, caller, id, dto);
    if r.reply.Ok? {
      match FirstProfileOf(s.salaries, id)
      case Some(i) =>
        KeyedReplace(s.salaries, SalaryKey, s.nextId, i, r.reply.value);
      case None =>
        WfGrow(s, s.nextId + 1);
        KeyedAppend(s.salaries, SalaryKey, s.nextId, r.reply.value, s.nextId + 1);
    }
  }

  /** After the administrator sets a user's profile, that user's `GetSalaryProfile` returns
      exactly the profile set. */
  lemma ProfileAfterUpdateUserSalary(s: Store, caller: Option<int>, id: int, dto: UpdateUserSalaryDto)
    ensures var r := UpdateUserSalary(s, caller, id, dto);
      r.reply.Ok? ==> GetSalaryProfile(r.store, Some(id)) == Ok(r.reply.value)
  {
    var r := UpdateUserSalary(s, caller, id, dto);
    if r.reply.Ok? {
      var g := GetSalaryProfile(r.store, Some(id));
      match FirstProfileOf(s.salaries, id)
      case Some(i) =>
        assert r.store.salaries == s.salaries[i := r.reply.value];
        assert r.store.salaries[i].userId == id;
        var k :| IsFirstProfileOf(r.store.salaries, id, k) && g.value == r.store.salaries[k];
      case None =>
        var n := |s.salaries|;
        assert r.store.salaries == s.salaries + [r.reply.value];
        assert r.store.salaries[n].userId == id;
        var k :| IsFirstProfileOf(r.store.salaries, id, k) && g.value == r.store.salaries[k];
    }
  }

  /** Setting the same profile twice leaves the store as setting it once. */
  lemma UpdateUserSalaryIdempotent(s: Store, caller: Option<int>, id: int, dto: UpdateUserSalaryDto)
    ensures var s1 := UpdateUserSalary(s, caller, id, dto).store;
      UpdateUserSalary(s1, caller, id, dto).store == s1
  {
    var r := UpdateUserSalary(s, caller, id, dto);
    if r.reply.Ok? {
      ProfileAfterUpdateUserSalary(s, caller, id, dto);
      var s1 := r.store;
      var i :| IsFirstProfileOf(s1.salaries, id, i) && s1.salaries[i] == r.reply.value;
      var r2 := UpdateUserSalary(s1, caller, id, dto);
      assert s1.users == s.users;
      assert r2.reply.Ok?;
      assert s1.salaries[i := r2.reply.value] == s1.salaries;
    }
  }

  /** An update whose every field is null or empty changes nothing. */
  lemma EmptyUpdateUserChangesNothing(s: Store, caller: Option<int>, id: int, hash: string -> string)
    ensures UpdateUser(s, caller, id, UpdateUserAdminDto(None, None, None, None, None), hash).store == s
  {
    var r := UpdateUser(s, caller, id, UpdateUserAdminDto(None, None, None, None, None), hash);
    if r.reply.Ok? {
      var j :| IsFirstUser(s.users, id, j) && r.store == s.(users := s.users[j := r.reply.value]) &&
        EditedFrom(s.users[j], r.reply.value, UpdateUserAdminDto(None, None, None, None, None), hash);
      assert r.reply.value == s.users[j];
      assert s.users[j := s.users[j]] == s.users;
    }
  }

  /** Repeating an edit of a user changes at most the edited user's password: each hash
      draws a fresh salt, so the repeat may store a different hash (`hash2`) of the same
      password. Without a password in the request the repeat changes nothing. This holds
      even when the first edit took away the caller's own admin flag (the repeat is then
      forbidden). */
  lemma RepeatedUpdateUser(s: Store, caller: Option<int>, id: int, dto: UpdateUserAdminDto,
                           hash: string -> string, hash2: string -> string)
    ensures var s1 := UpdateUser(s, caller, id, dto, hash).store;
      var s2 := UpdateUser(s1, caller, id, dto, hash2).store;
      && s2 == s1.(users := s2.users) && |s2.users| == |s1.users|
      && (forall k :: 0 <= k < |s1.users| ==> s2.users[k].(password := s1.users[k].password) == s1.users[k])
      && (IsNullOrEmpty(dto.password) ==> s2 == s1)
  {
    var r := UpdateUser(s, caller, id, dto, hash);
    var r2 := UpdateUser(r.store, caller, id, dto, hash2);
    if r.reply.Ok? && r2.reply.Ok? {
      var j, n, n2 := SecondEditSameRow(s, caller, id, dto, hash, hash2);
      ReplacedPasswordOnly(r.store.users, j, n2);
    }
  }

  /** When an edit and its repeat both succeed, the repeat replaces the same row `j`, and
      turns the first edit's `n` into `n2`. */
  lemma SecondEditSameRow(s: Store, caller: Option<int>, id: int, dto: UpdateUserAdminDto,
                          hash: string -> string, hash2: string -> string) returns (j: int, n: User, n2: User)
    requires UpdateUser(s, caller, id, dto, hash).reply.Ok?
    requires UpdateUser(UpdateUser(s, caller, id, dto, hash).store, caller, id, dto, hash2).reply.Ok?
    ensures var s1 := UpdateUser(s, caller, id, dto, hash).store;
      && 0 <= j < |s1.users| && s1.users[j] == n
      && UpdateUser(s1, caller, id, dto, hash2).store == s1.(users := s1.users[j := n2])
      && n2.(password := n.password) == n
      && (IsNullOrEmpty(dto.password) ==> n2 == n)
  {
    var o: User;
    j, o, n := EditedRow(s, caller, id, dto, hash);
    var s1 := UpdateUser(s, caller, id, dto, hash).store;
    var j2, n1: User;
    j2, n1, n2 := EditedRow(s1, caller, id, dto, hash2);
    assert j2 == j;
    EditTwice(o, n, n2, dto, hash, hash2);
  }

  /** A successful edit replaces the first row `j` of the user, turning `o` into `n`, and `j`
      stays the first row of the user. */
  lemma EditedRow(s: Store, caller: Option<int>, id: int, dto: UpdateUserAdminDto, hash: string -> string)
    returns (j: int, o: User, n: User)
    requires UpdateUser(s, caller, id, dto, hash).reply.Ok?
    ensures var s1 := UpdateUser(s, caller, id, dto, hash).store;
      && IsFirstUser(s.users, id, j) && IsFirstUser(s1.users, id, j)
      && o == s.users[j] && s1 == s.(users := s.users[j := n])
      && EditedFrom(o, n, dto, hash)
  {
    var r := UpdateUser(s, caller, id, dto, hash);
    j :| IsFirstUser(s.users, id, j) && r.store == s.(users := s.users[j := r.reply.value])
      && EditedFrom(s.users[j], r.reply.value, dto, hash);
    o, n := s.users[j], r.reply.value;
    assert forall k :: 0 <= k < j ==> r.store.users[k] == s.users[k];
  }

  /** Replacing row `j` by a copy that differs at most in its password changes no other
      field of any row. */
  lemma ReplacedPasswordOnly(us: seq<User>, j: int, n2: User)
    requires 0 <= j < |us| && n2.(password := us[j].password) == us[j]
    ensures forall k :: 0 <= k < |us| ==> us[j := n2][k].(password := us[k].password) == us[k]
    ensures n2 == us[j] ==> us[j := n2] == us
  {
  }

  /** Applying the same edit to an already edited user changes at most its password, and
      nothing when the edit carries no password. */
  lemma EditTwice(o: User, n: User, n2: User, dto: UpdateUserAdminDto, hash: string -> string, hash2: string -> string)
    requires EditedFrom(o, n, dto, hash) && EditedFrom(n, n2, dto, hash2)
    ensures n2.(password := n.password) == n
    ensures IsNullOrEmpty(dto.password) ==> n2 == n
  {
  }

  /** Editing a user keeps the store well formed. */
  lemma UpdateUserKeepsWf(s: Store, caller: Option<int>, id: int, dto: UpdateUserAdminDto, hash: string -> string)
    requires Wf(s)
    ensures Wf(UpdateUser(s, caller, id, dto, hash).store)
  {
    var r := UpdateUser(s, caller, id, dto, hash);
    if r.reply.Ok? {
      var j :| IsFirstUser(s.users, id, j) && r.store == s.(users := s.users[j := r.reply.value]) &&
        EditedFrom(s.users[j], r.reply.value, dto, hash);
      KeyedReplace(s.users, UserKey, s.nextId, j, r.reply.value);
    }
  }

  /** With unique user keys, an administrator who clears their own admin flag can no longer
      pass the admin gate. */
  lemma SelfDemotionLocksOut(s: Store, caller: Option<int>, dto: UpdateUserAdminDto, hash: string -> string)
    requires Wf(s) && caller.Some? && dto.isAdmin == Some(false)
    ensures var r := UpdateUser(s, caller, caller.value, dto, hash);
      r.reply.Ok? ==> !IsAdmin(r.store, caller)
  {
    var id := caller.value;
    var r := UpdateUser(s, caller, id, dto, hash);
    if r.reply.Ok? {
      var j :| IsFirstUser(s.users, id, j) && r.store == s.(users := s.users[j := r.reply.value]) &&
        EditedFrom(s.users[j], r.reply.value, dto, hash);
      assert !r.reply.value.isAdmin;
    }
  }

  /** Deleting a user keeps the store well formed and every remaining total matched to its
      times. */
  lemma DeleteUserKeepsInvariants(s: Store, caller: Option<int>, id: int)
    requires Wf(s) && TotalsMatchTimes(s)
    ensures Wf(DeleteUser(s, caller, id).store) && TotalsMatchTimes(DeleteUser(s, caller, id).store)
  {
    var r := DeleteUser(s, caller, id);
    if r.reply.NoContent? {
      var j :| IsFirstUser(s.users, id, j) && r.store.users == RemoveAt(s.users, j);
      KeyedRemove(s.users, UserKey, s.nextId, j);
      KeyedFilter(s.workTimes, WorkTimeKey, s.nextId, NotOwnedBy(id));
      KeyedFilter(s.absences, AbsenceKey, s.nextId, AbsenceNotOwnedBy(id));
      KeyedFilter(s.delegations, DelegationKey, s.nextId, DelegationNotOwnedBy(id));
      KeyedFilter(s.salaries, SalaryKey, s.nextId, ProfileNotOwnedBy(id));
      KeyedFilter(s.salaryRecords, RecordKey, s.nextId, RecordNotOwnedBy(id));
      forall k | 0 <= k < |r.store.workTimes| ensures TotalMatchesTimes(r.store.workTimes[k]) {
        assert r.store.workTimes[k] in s.workTimes;
      }
    }
  }

  /** With unique user keys, after deleting a user neither the user nor any work time,
      absence, delegation, salary profile or payroll record of the user remains, and the user no
      longer passes the admin gate. */
  lemma DeletedUserIsGone(s: Store, caller: Option<int>, id: int)
    requires Wf(s)
    ensures var r := DeleteUser(s, caller, id);
      r.reply.NoContent? ==>
        && !HasUser(r.store.users, id)
        && (forall k :: 0 <= k < |r.store.workTimes| ==> r.store.workTimes[k].userId != id)
        && (forall k :: 0 <= k < |r.store.absences| ==> r.store.absences[k].userId != id)
        && (forall k :: 0 <= k < |r.store.delegations| ==> r.store.delegations[k].userId != id)
        && (forall k :: 0 <= k < |r.store.salaries| ==> r.store.salaries[k].userId != id)
        && (forall k :: 0 <= k < |r.store.salaryRecords| ==> r.store.salaryRecords[k].userId != id)
        && !IsAdmin(r.store, Some(id))
  {
    var r := DeleteUser(s, caller, id);
    if r.reply.NoContent? {
      var j :| IsFirstUser(s.users, id, j) && r.store.users == RemoveAt(s.users, j);
      RemovedUserIsGone(s, id, j);
      assert r.store.workTimes == Filter(s.workTimes, NotOwnedBy(id));
      assert r.store.absences == Filter(s.absences, AbsenceNotOwnedBy(id));
      assert r.store.delegations == Filter(s.delegations, DelegationNotOwnedBy(id));
      assert r.store.salaries == Filter(s.salaries, ProfileNotOwnedBy(id));
      assert r.store.salaryRecords == Filter(s.salaryRecords, RecordNotOwnedBy(id));
    }
  }

  /** With unique user keys, removing the first user of a key leaves no user of that key. */
  lemma RemovedUserIsGone(s: Store, id: int, j: int)
    requires Wf(s) && IsFirstUser(s.users, id, j)
    ensures !HasUser(RemoveAt(s.users, j), id)
  {
    var us := RemoveAt(s.users, j);
    forall k | 0 <= k < |us| ensures us[k].id != id {
      var k' := if k < j then k else k + 1;
      assert us[k] == s.users[k'];
      assert UserKey(s.users[k']) != UserKey(s.users[j]);
    }
  }

  /** Creating a user keeps the store well formed, and a user created as administrator
      passes the admin gate. */
  lemma CreateUserKeepsWf(s: Store, caller: Option<int>, dto: CreateUserDto, hash: string -> string)
    requires Wf(s)
    ensures var r := CreateUser(s, caller, dto, hash);
      Wf(r.store) && (r.reply.Ok? && dto.isAdmin ==> IsAdmin(r.store, Some(r.reply.value.id)))
  {
    var r := CreateUser(s, caller, dto, hash);
    if r.reply.Ok? {
      WfGrow(s, s.nextId + 1);
      KeyedAppend(s.users, UserKey, s.nextId, r.reply.value, s.nextId + 1);
      assert r.store.users[|s.users|] == r.reply.value;
    }
  }

  /** Assigning a task keeps the store well formed, and the user's task list then shows it. */
  lemma AddTaskToUserListed(s: Store, caller: Option<int>, userId: int, dto: CreateTaskDto)
    requires Wf(s)
    ensures var r := AddTaskToUser(s, caller, userId, dto);
      Wf(r.store) &&
      (r.reply.Ok? ==> var l := GetUserTasks(r.store, caller, userId); l.Ok? && ViewTask(r.reply.value) in l.value)
  {
    var r := AddTaskToUser(s, caller, userId, dto);
    if r.reply.Ok? {
      WfGrow(s, s.nextId + 1);
      KeyedAppend(s.tasks, TaskKey, s.nextId, r.reply.value, s.nextId + 1);
      assert r.store.tasks[|s.tasks|] == r.reply.value;
    }
  }

  /** Deleting a task just assigned restores the store but for the spent key. */
  lemma AddThenDeleteTask(s: Store, caller: Option<int>, userId: int, dto: CreateTaskDto)
    requires Wf(s)
    ensures var r := AddTaskToUser(s, caller, userId, dto);
      r.reply.Ok? ==> DeleteTask(r.store, caller, r.reply.value.id).store == s.(nextId := s.nextId + 1)
  {
    var r := AddTaskToUser(s, caller, userId, dto);
    if r.reply.Ok? {
      var t := r.reply.value;
      var d := DeleteTask(r.store, caller, t.id);
      assert r.store.tasks[|s.tasks|] == t;
      var j :| IsFirstTask(r.store.tasks, t.id, j) && d.store == r.store.(tasks := RemoveAt(r.store.tasks, j));
      assert j == |s.tasks|;
      assert RemoveAt(r.store.tasks, j) == s.tasks;
    }
  }

  /** Without bounds the administrator's listing of a user's work times holds exactly the
      rows the user's own `GetWorkTimes` holds, each as often. */
  lemma UnboundedListingIsOwnListing(s: Store, userId: int)
    ensures var own := WorkTimeController.GetWorkTimes(s, Some(userId));
      var sel := SelectWorkTimes(s.workTimes, userId, None, None);
      (own.Ok? ==> multiset(sel) == multiset(own.value)) &&
      (own.NotFound? ==> |sel| == 0)
  {
    var own := WorkTimeController.GetWorkTimes(s, Some(userId));
    var sel := SelectWorkTimes(s.workTimes, userId, None, None);
    if own.Ok? {
      SameCounts(s.workTimes, userId, sel, own.value);
    } else if |sel| > 0 {
      assert multiset(sel)[sel[0]] > 0;
    }
  }

  lemma SameCounts(ws: seq<WorkTime>, userId: int, sel: seq<WorkTime>, own: seq<WorkTime>)
    requires forall w :: multiset(sel)[w] == if InRange(w, userId, None, None) then multiset(ws)[w] else 0
    requires forall w :: multiset(own)[w] == if w.userId == userId then multiset(ws)[w] else 0
    ensures multiset(sel) == multiset(own)
  {
    forall w: WorkTime ensures multiset(sel)[w] == multiset(own)[w] {
      assert InRange(w, userId, None, None) <==> w.userId == userId;
    }
  }

  /** Every listed row's date text reads back as the day of a selected work time of the
      user, within the bounds. */
  lemma ListedRowsAreInRange(s: Store, caller: Option<int>, userId: int, start: Option<DateTime>, end: Option<DateTime>)
    ensures var r := GetUserWorkTimes(s, caller, userId, start, end);
      r.Ok? ==> forall i :: 0 <= i < |r.value| ==> ListedFrom(r.value[i], s.workTimes, userId, start, end)
  {
    var r := GetUserWorkTimes(s, caller, userId, start, end);
    if r.Ok? {
      var sel := SelectWorkTimes(s.workTimes, userId, start, end);
      forall i | 0 <= i < |r.value| ensures ListedFrom(r.value[i], s.workTimes, userId, start, end) {
        var w := sel[i];
        assert multiset(sel)[w] > 0;
        assert w in multiset(s.workTimes);
        assert r.value[i] == Row(w);
      }
    }
  }

  /** The row shows a work time of the user within the bounds: its key, and its day. */
  ghost predicate ListedFrom(row: WorkTimeRow, ws: seq<WorkTime>, userId: int, start: Option<DateTime>, end: Option<DateTime>) {
    exists w :: w in ws && InRange(w, userId, start, end) && row.id == w.id && ParseDate(row.date) == Some(DatePart(w.date))
  }
}
