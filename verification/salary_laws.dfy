/** Laws of payroll generation: it keeps the store well formed and one record per month,
    generating twice is generating once, regeneration discards the employee's manual edits,
    the generated record appears in the history, and a month's hours move only with the
    totals of that month's work times. */
module SalaryLaws {
  import opened Wrappers
  import opened WorkTimes
  import opened Seqs
  import opened Store
  import opened Money
  import opened SalaryController

  /** A month that has a record has a first one. */
  lemma FirstRecordOf(rs: seq<SalaryRecord>, u: int, year: int, month: int) returns (k: nat)
    requires HasRecordFor(rs, u, year, month)
    ensures IsFirstRecordFor(rs, u, year, month, k)
  {
    var r := FirstIndex(rs, (x: SalaryRecord) => RecordFor(x, u, year, month));
    k := r.value;
  }

  /** After the upsert the month's first record is the freshly generated one, and the
      profiles and work times are those of before. */
  lemma UpsertLeavesGenerated(s: Store, u: int, year: int, month: int, amount: real) returns (k: nat)
    ensures var s' := UpsertRecord(s, u, year, month, amount);
      && IsFirstRecordFor(s'.salaryRecords, u, year, month, k)
      && s'.salaryRecords[k] == Generated(s'.salaryRecords[k].id, u, year, month, amount)
      && s'.salaries == s.salaries && s'.workTimes == s.workTimes
  {
    var rs := s.salaryRecords;
    var s' := UpsertRecord(s, u, year, month, amount);
    if HasRecordFor(rs, u, year, month) {
      k := FirstRecordOf(rs, u, year, month);
    } else {
      k := |rs|;
      assert s'.salaryRecords == rs + [Generated(s.nextId, u, year, month, amount)];
    }
  }

  /** The upsert keeps every key unique and below the next identity value. */
  lemma UpsertKeepsWf(s: Store, u: int, year: int, month: int, amount: real)
    requires Wf(s)
    ensures Wf(UpsertRecord(s, u, year, month, amount))
  {
    var rs := s.salaryRecords;
    if HasRecordFor(rs, u, year, month) {
      var k := FirstRecordOf(rs, u, year, month);
      KeyedReplace(rs, RecordKey, s.nextId, k, Generated(rs[k].id, u, year, month, amount));
    } else {
      WfGrow(s, s.nextId + 1);
      KeyedAppend(rs, RecordKey, s.nextId, Generated(s.nextId, u, year, month, amount), s.nextId + 1);
    }
  }

  /** The upsert never gives a user a second record for a month. */
  lemma UpsertKeepsOneRecordPerMonth(s: Store, u: int, year: int, month: int, amount: real)
    requires OneRecordPerMonth(s.salaryRecords)
    ensures OneRecordPerMonth(UpsertRecord(s, u, year, month, amount).salaryRecords)
  {
    var rs := s.salaryRecords;
    var rs' := UpsertRecord(s, u, year, month, amount).salaryRecords;
    if HasRecordFor(rs, u, year, month) {
      var k := FirstRecordOf(rs, u, year, month);
      assert forall i :: 0 <= i < |rs| ==>
        rs'[i].userId == rs[i].userId && rs'[i].year == rs[i].year && rs'[i].month == rs[i].month;
    }
  }

  /** Generation keeps the store well formed and at most one record per user and month. */
  lemma GenerateKeepsInvariants(s: Store, caller: Option<int>, dto: GenerateSalaryDto)
    requires Wf(s) && OneRecordPerMonth(s.salaryRecords)
    ensures var s' := GenerateSalary(s, caller, dto).store;
      Wf(s') && OneRecordPerMonth(s'.salaryRecords)
  {
    var r := GenerateSalary(s, caller, dto);
    if r.reply.Ok? {
      var i :| IsFirstProfileOf(s.salaries, caller.value, i) &&
        r.store == UpsertRecord(s, caller.value, dto.year, dto.month,
                                ExpectedAmount(s.salaries[i], MonthHours(s.workTimes, caller.value, dto.year, dto.month)));
      var a := ExpectedAmount(s.salaries[i], MonthHours(s.workTimes, caller.value, dto.year, dto.month));
      UpsertKeepsWf(s, caller.value, dto.year, dto.month, a);
      UpsertKeepsOneRecordPerMonth(s, caller.value, dto.year, dto.month, a);
    }
  }

  /** Upserting the same amount a second time changes nothing. */
  lemma UpsertIdempotent(s: Store, u: int, year: int, month: int, amount: real)
    ensures var s' := UpsertRecord(s, u, year, month, amount);
      UpsertRecord(s', u, year, month, amount) == s'
  {
    var s' := UpsertRecord(s, u, year, month, amount);
    var k := UpsertLeavesGenerated(s, u, year, month, amount);
    assert s'.salaryRecords[k := Generated(s'.salaryRecords[k].id, u, year, month, amount)] == s'.salaryRecords;
  }

  /** The first profile of a user is unique. */
  lemma FirstProfileUnique(ps: seq<UserSalary>, u: int, i: int, i': int)
    requires IsFirstProfileOf(ps, u, i) && IsFirstProfileOf(ps, u, i')
    ensures i == i'
  {
  }

  /** Generating a month's salary twice with the same request gives the same reply and the
      same store as generating it once. */
  lemma GenerateIdempotent(s: Store, caller: Option<int>, dto: GenerateSalaryDto)
    ensures var r := GenerateSalary(s, caller, dto);
      var r2 := GenerateSalary(r.store, caller, dto);
      r2.reply == r.reply && r2.store == r.store
  {
    var r := GenerateSalary(s, caller, dto);
    if r.reply.Ok? {
      var u, y, m := caller.value, dto.year, dto.month;
      var i :| IsFirstProfileOf(s.salaries, u, i) &&
        (s.salaries[i].contractType == HourlyContract || s.salaries[i].contractType == MonthlyContract) &&
        r.store == UpsertRecord(s, u, y, m, ExpectedAmount(s.salaries[i], MonthHours(s.workTimes, u, y, m)));
      var a := ExpectedAmount(s.salaries[i], MonthHours(s.workTimes, u, y, m));
      var _ := UpsertLeavesGenerated(s, u, y, m, a);
      UpsertIdempotent(s, u, y, m, a);
      var r2 := GenerateSalary(r.store, caller, dto);
      assert !r2.reply.NotFound? by {
        assert r.store.salaries[i].userId == u;
      }
      assert !r2.reply.BadRequest? by {
        forall i' | IsFirstProfileOf(r.store.salaries, u, i')
          ensures r.store.salaries[i'].contractType == HourlyContract || r.store.salaries[i'].contractType == MonthlyContract
        {
          FirstProfileUnique(s.salaries, u, i, i');
        }
      }
      var i2 :| IsFirstProfileOf(r.store.salaries, u, i2) &&
        r2.store == UpsertRecord(r.store, u, y, m, ExpectedAmount(r.store.salaries[i2], MonthHours(r.store.workTimes, u, y, m)));
      FirstProfileUnique(s.salaries, u, i, i2);
    }
  }

  /** Regenerating a month whose record the employee has since reconciled by hand puts the
      record back exactly as the first generation left it: the received amount,
      confirmation, bonus flag and notes are discarded. */
  lemma RegenerateDiscardsEdits(s: Store, caller: Option<int>, dto: GenerateSalaryDto, edit: UpdateSalaryRecordDto)
    requires Wf(s)
    requires GenerateSalary(s, caller, dto).reply.Ok?
    ensures var s1 := GenerateSalary(s, caller, dto).store;
      forall k :: IsFirstRecordFor(s1.salaryRecords, caller.value, dto.year, dto.month, k) ==>
        var s2 := UpdateSalaryRecord(s1, caller, s1.salaryRecords[k].id, edit).store;
        GenerateSalary(s2, caller, dto).store == s1
  {
    var u, y, m := caller.value, dto.year, dto.month;
    var s1 := GenerateSalary(s, caller, dto).store;
    var i :| IsFirstProfileOf(s.salaries, u, i) &&
      (s.salaries[i].contractType == HourlyContract || s.salaries[i].contractType == MonthlyContract) &&
      s1 == UpsertRecord(s, u, y, m, ExpectedAmount(s.salaries[i], MonthHours(s.workTimes, u, y, m)));
    var a := ExpectedAmount(s.salaries[i], MonthHours(s.workTimes, u, y, m));
    var k := UpsertLeavesGenerated(s, u, y, m, a);
    UpsertKeepsWf(s, u, y, m, a);
    forall k' | IsFirstRecordFor(s1.salaryRecords, u, y, m, k')
      ensures GenerateSalary(UpdateSalaryRecord(s1, caller, s1.salaryRecords[k'].id, edit).store, caller, dto).store == s1
    {
      assert k' == k;
      RegenerateAfterEdit(s, caller, dto, edit, i, a, k);
    }
  }

  /** The step of `RegenerateDiscardsEdits` once the month's record `k` is known. */
  lemma RegenerateAfterEdit(s: Store, caller: Option<int>, dto: GenerateSalaryDto, edit: UpdateSalaryRecordDto,
                            i: int, a: real, k: nat)
    requires caller.Some?
    requires IsFirstProfileOf(s.salaries, caller.value, i)
    requires s.salaries[i].contractType == HourlyContract || s.salaries[i].contractType == MonthlyContract
    requires a == ExpectedAmount(s.salaries[i], MonthHours(s.workTimes, caller.value, dto.year, dto.month))
    requires var s1 := UpsertRecord(s, caller.value, dto.year, dto.month, a);
      && Wf(s1)
      && IsFirstRecordFor(s1.salaryRecords, caller.value, dto.year, dto.month, k)
      && s1.salaryRecords[k] == Generated(s1.salaryRecords[k].id, caller.value, dto.year, dto.month, a)
      && s1.salaries == s.salaries && s1.workTimes == s.workTimes
    ensures var s1 := UpsertRecord(s, caller.value, dto.year, dto.month, a);
      GenerateSalary(UpdateSalaryRecord(s1, caller, s1.salaryRecords[k].id, edit).store, caller, dto).store == s1
  {
    var u, y, m := caller.value, dto.year, dto.month;
    var s1 := UpsertRecord(s, u, y, m, a);
    EditKeepsMonthRecordFirst(s1, u, y, m, k, edit);
    var s2 := UpdateSalaryRecord(s1, caller, s1.salaryRecords[k].id, edit).store;
    GenerateWithProfile(s2, caller, dto, i);
    assert s2.salaryRecords[k := Generated(s1.salaryRecords[k].id, u, y, m, a)] == s1.salaryRecords;
  }

  /** With unique keys, editing the month's first record by its key edits that record in
      place, and it stays the month's first record. */
  lemma EditKeepsMonthRecordFirst(s1: Store, u: int, y: int, m: int, k: nat, edit: UpdateSalaryRecordDto)
    requires Wf(s1) && IsFirstRecordFor(s1.salaryRecords, u, y, m, k)
    ensures var s2 := UpdateSalaryRecord(s1, Some(u), s1.salaryRecords[k].id, edit).store;
      && s2 == s1.(salaryRecords := s2.salaryRecords)
      && |s2.salaryRecords| == |s1.salaryRecords|
      && s2.salaryRecords == s1.salaryRecords[k := s2.salaryRecords[k]]
      && IsFirstRecordFor(s2.salaryRecords, u, y, m, k)
  {
    var rs1 := s1.salaryRecords;
    var id := rs1[k].id;
    var r := UpdateSalaryRecord(s1, Some(u), id, edit);
    assert !r.reply.NotFound?;
    var j :| IsFirstOwnedRecord(rs1, u, id, j) && r.store.salaryRecords == rs1[j := r.store.salaryRecords[j]]
      && RecordFor(r.store.salaryRecords[j], u, rs1[j].year, rs1[j].month);
    assert j == k by {
      assert RecordKey(rs1[j]) == RecordKey(rs1[k]);
    }
    var rs2 := r.store.salaryRecords;
    forall t | 0 <= t < k ensures !RecordFor(rs2[t], u, y, m) {
      assert rs2[t] == rs1[t];
    }
  }

  /** With a supported first profile, generation upserts that profile's expected amount. */
  lemma GenerateWithProfile(s: Store, caller: Option<int>, dto: GenerateSalaryDto, i: int)
    requires caller.Some? && IsFirstProfileOf(s.salaries, caller.value, i)
    requires s.salaries[i].contractType == HourlyContract || s.salaries[i].contractType == MonthlyContract
    ensures GenerateSalary(s, caller, dto).store ==
      UpsertRecord(s, caller.value, dto.year, dto.month,
                   ExpectedAmount(s.salaries[i], MonthHours(s.workTimes, caller.value, dto.year, dto.month)))
  {
    var u := caller.value;
    var r := GenerateSalary(s, caller, dto);
    assert !r.reply.NotFound? by {
      assert s.salaries[i].userId == u;
    }
    assert !r.reply.BadRequest? by {
      forall i' | IsFirstProfileOf(s.salaries, u, i')
        ensures s.salaries[i'].contractType == HourlyContract || s.salaries[i'].contractType == MonthlyContract
      {
        FirstProfileUnique(s.salaries, u, i, i');
      }
    }
    var i2 :| IsFirstProfileOf(s.salaries, u, i2) &&
      r.store == UpsertRecord(s, u, dto.year, dto.month, ExpectedAmount(s.salaries[i2], MonthHours(s.workTimes, u, dto.year, dto.month)));
    FirstProfileUnique(s.salaries, u, i, i2);
  }

  /** After a successful generation the caller's history lists the month's record with the
      expected amount and every manual field reset. */
  lemma GeneratedRecordInHistory(s: Store, caller: Option<int>, dto: GenerateSalaryDto)
    requires GenerateSalary(s, caller, dto).reply.Ok?
    ensures var s1 := GenerateSalary(s, caller, dto).store;
      var h := GetSalaryHistory(s1, caller);
      h.Ok? && (exists x :: x in h.value && RecordFor(x, caller.value, dto.year, dto.month) &&
                  x.receivedAmount == 0.0 && !x.isConfirmed && !x.hasBonus && x.notes.None?)
  {
    var u, y, m := caller.value, dto.year, dto.month;
    var s1 := GenerateSalary(s, caller, dto).store;
    var i :| IsFirstProfileOf(s.salaries, u, i) &&
      s1 == UpsertRecord(s, u, y, m, ExpectedAmount(s.salaries[i], MonthHours(s.workTimes, u, y, m)));
    var a := ExpectedAmount(s.salaries[i], MonthHours(s.workTimes, u, y, m));
    var k := UpsertLeavesGenerated(s, u, y, m, a);
    var x := s1.salaryRecords[k];
    var h := GetSalaryHistory(s1, caller);
    assert multiset(h.value)[x] == multiset(s1.salaryRecords)[x];
    assert x in multiset(s1.salaryRecords);
  }

  /** The hours of a month grow by a new work time's total exactly when it falls in that
      month and belongs to the user. */
  lemma {:induction false} MonthHoursAppend(ws: seq<WorkTime>, w: WorkTime, u: int, year: int, month: int)
    ensures MonthHours(ws + [w], u, year, month) ==
      MonthHours(ws, u, year, month) + (if InMonth(w, u, year, month) then w.total else 0.0)
  {
    if |ws| > 0 {
      assert (ws + [w])[1..] == ws[1..] + [w];
      MonthHoursAppend(ws[1..], w, u, year, month);
    }
  }

  /** Removing a work time takes its total out of its own month and nowhere else. */
  lemma {:induction false} MonthHoursRemove(ws: seq<WorkTime>, j: nat, u: int, year: int, month: int)
    requires j < |ws|
    ensures MonthHours(RemoveAt(ws, j), u, year, month) ==
      MonthHours(ws, u, year, month) - (if InMonth(ws[j], u, year, month) then ws[j].total else 0.0)
  {
    if j == 0 {
      assert RemoveAt(ws, 0) == ws[1..];
    } else {
      assert RemoveAt(ws, j)[1..] == RemoveAt(ws[1..], j - 1);
      MonthHoursRemove(ws[1..], j - 1, u, year, month);
    }
  }

  /** Replacing a work time swaps its contribution to its month for the new one's. */
  lemma {:induction false} MonthHoursReplace(ws: seq<WorkTime>, j: nat, w: WorkTime, u: int, year: int, month: int)
    requires j < |ws|
    ensures MonthHours(ws[j := w], u, year, month) ==
      MonthHours(ws, u, year, month)
      - (if InMonth(ws[j], u, year, month) then ws[j].total else 0.0)
      + (if InMonth(w, u, year, month) then w.total else 0.0)
  {
    if j > 0 {
      assert ws[j := w][1..] == ws[1..][j - 1 := w];
      MonthHoursReplace(ws[1..], j - 1, w, u, year, month);
    } else {
      assert ws[0 := w][1..] == ws[1..];
    }
  }

  /** A monthly salary does not depend on the hours logged. */
  lemma MonthlyIgnoresHours(p: UserSalary, h1: real, h2: real)
    requires p.contractType == MonthlyContract
    ensures ExpectedAmount(p, h1) == ExpectedAmount(p, h2) == Round2(p.monthlySalary.GetOr(0.0))
  {
  }
}
