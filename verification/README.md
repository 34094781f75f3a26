# PanelPracownika attendance and payroll core, in Dafny

PanelPracownika is an ASP.NET employee panel. Employees log work times, record absences and
business delegations per calendar day, and generate a monthly payroll record from their
contract profile. An administrator manages users, their salary profiles and their tasks.

This project models the policy of those endpoints over one immutable store. Each table is a
sequence in primary-key order, so LINQ's `FirstOrDefault` is "the first match". A single
counter stands in for the database's identity columns. Every endpoint is a pure function from
a store, the caller's id (`None` when the token carries no usable id) and the request, to a
`Step`: the HTTP outcome (`Ok`, `NoContent`, `Unauthorized`, `BadRequest`, `Conflict`,
`NotFound`, `Forbid`) and the store it leaves behind.

Modules, following the source:

- `Wrappers`, `Seqs`, `Sorting`, `Digits`: `Option`, first-match search, `Where`-style
  filtering, removal at an index, unique keys, ordering by a total preorder, ordinal string
  order, and decimal digits.
- `Calendar`: `DateTime` as year, month, day and tick of the day, with `DateTime.MinValue`,
  `.Date`, comparison, and the "yyyy-MM-dd" format with its parser.
- `TimeOfDay`: times of day as minutes since midnight, the "HH:mm" parser, and signed
  `(end - start).TotalHours`.
- `WorkTimes`: the `WorkTime` row and `SetTotal`.
- `Store`: the other rows, the store, replies, key functions and the well-formedness
  invariant `Wf` (keys unique and below the next identity value).
- `DayRecords`: the per-user, per-day rules that absences and delegations share. These are
  the first-work-time "has hours" check, the zero-hour placeholder, and the removal of the
  day's first zero-total work time.
- `AbsenceController`, `DelegationsController`, `WorkTimeController`, `SalaryController`,
  `AdminController`: the endpoints. Each has a `...Laws` module (`AbsenceLaws`,
  `DelegationLaws`, `WorkTimeLaws`, `SalaryLaws`, `AdminLaws`) with invariants and
  round trips. `Money` holds `Math.Round(x, 2)`.
- `Scenarios`: laws across controllers:
  - absences and delegations do not exclude each other;
  - logged hours block both;
  - placeholders never change a month's hours or pay;
  - posting and deleting a work time move its month's hours by exactly its total.

Three behaviours of the code are easy to miss, and the model keeps each of them. An absence
and a delegation do not exclude each other: each kind is checked only against itself and
against positive-hour work times, so `Scenarios.AbsenceThenDelegation` and
`Scenarios.DelegationThenAbsence` prove that both can be recorded on the same day. The
contract types are matched against the literal strings "Umowa zlecenie" (paid by the hour)
and "Umowa o prace" (paid monthly); any other type is a `BadRequest`. Nothing limits a user
to one work time per day, and `WorkTimeLaws.PostWorkTimeIgnoresDayRecords` states that
posting looks at no existing row.

## Model

| member | source | states |
|---|---|---|
| AbsenceController.GetUserAbsences | PanelPracownika/Controllers/AbsenceController.cs:22-38 | `Unauthorized` exactly without a caller; every listed entry is the date text and type of one of the caller's absences, and every absence of the caller is listed |
| AbsenceController.AddAbsence | PanelPracownika/Controllers/AbsenceController.cs:40-90 | each error outcome with both directions of its condition, all leaving the store unchanged: `Unauthorized`, `BadRequest` (default date, null or empty type), `Conflict` (absence already that day, or the day's first work time has positive hours); on success exactly one absence is appended, a zero-hour placeholder is appended exactly when the caller had no work time that day, and nothing else changes |
| AbsenceController.DeleteAbsence | PanelPracownika/Controllers/AbsenceController.cs:93-122 | `BadRequest` exactly for an unparseable date and `NotFound` exactly when the caller has no absence that day, both without change; on success the day's first absence is removed and, if any exists, the day's first zero-total work time; no other row changes |
| AbsenceLaws.AddAbsenceKeepsInvariants | PanelPracownika/Controllers/AbsenceController.cs:51-89 | unique keys, at most one absence per user and day, and every total matching its stored times all survive `AddAbsence` |
| AbsenceLaws.DeleteAbsenceKeepsInvariants | PanelPracownika/Controllers/AbsenceController.cs:104-121 | the same three invariants survive `DeleteAbsence` |
| AbsenceLaws.DeleteAbsenceTwice | PanelPracownika/Controllers/AbsenceController.cs:104-108 | with one absence per day, a repeated delete of the same day answers `NotFound` |
| AbsenceLaws.ListedAbsenceCanBeDeleted | PanelPracownika/Controllers/AbsenceController.cs:99-108 | the date text the listing shows is accepted by `DeleteAbsence` and finds the absence |
| AbsenceLaws.AddThenDeleteAbsence | PanelPracownika/Controllers/AbsenceController.cs:65-121 | on a day without absence or work time, adding then deleting an absence restores the store apart from the two spent keys |
| AbsenceLaws.AddAbsenceIgnoresDelegations | PanelPracownika/Controllers/AbsenceController.cs:51-63 | the outcome of `AddAbsence` does not depend on the delegation table |
| AbsenceLaws.HoursBehindZeroRowDoNotBlock | PanelPracownika/Controllers/AbsenceController.cs:57-63 | only the day's first work time is checked: behind a zero-hour row, a positive-hour row does not block an absence and is kept |
| DayRecords.BlockedByHours | PanelPracownika/Controllers/AbsenceController.cs:57-60 | true exactly when the first work time of the user and day has a positive total |
| DayRecords.Placeholder | PanelPracownika/Controllers/AbsenceController.cs:74-85 | the placeholder has total 0, the user and day, is not remote, and its start and end texts are both "00:00", and its total matches them |
| DayRecords.WithPlaceholder | PanelPracownika/Controllers/AbsenceController.cs:74-86 | a placeholder is appended exactly when the user has no work time that day |
| DayRecords.WithoutPlaceholder | PanelPracownika/Controllers/AbsenceController.cs:112-118 | the first zero-total work time of the day is removed if there is one, otherwise nothing; every other row is kept |
| DelegationsController.GetUserDelegations | PanelPracownika/Controllers/DelegationsController.cs:22-34 | `Unauthorized` exactly without a caller; the listing holds the date text of each of the caller's delegations and nothing else |
| DelegationsController.AddDelegation | PanelPracownika/Controllers/DelegationsController.cs:36-85 | `BadRequest` only for the default date; `Conflict` exactly for a delegation already that day or positive hours on the day's first work time; success appends one delegation and a placeholder exactly when the day had no work time |
| DelegationsController.DeleteDelegation | PanelPracownika/Controllers/DelegationsController.cs:88-117 | `BadRequest` for an unparseable date, `NotFound` without a delegation that day; success removes the day's first delegation and at most the day's first zero-total work time |
| DelegationLaws.AddDelegationKeepsInvariants | PanelPracownika/Controllers/DelegationsController.cs:47-84 | unique keys, one delegation per user and day, and matched totals survive `AddDelegation` |
| DelegationLaws.DeleteDelegationKeepsInvariants | PanelPracownika/Controllers/DelegationsController.cs:99-116 | the same invariants survive `DeleteDelegation` |
| DelegationLaws.DeleteDelegationTwice | PanelPracownika/Controllers/DelegationsController.cs:99-103 | a repeated delete of the same day answers `NotFound` |
| DelegationLaws.ListedDelegationCanBeDeleted | PanelPracownika/Controllers/DelegationsController.cs:94-103 | every listed date text deletes its delegation |
| DelegationLaws.AddDelegationIgnoresAbsences | PanelPracownika/Controllers/DelegationsController.cs:47-59 | the outcome of `AddDelegation` does not depend on the absence table |
| WorkTimes.SetTotal | PanelPracownika/Models/WorkTime.cs:17-20 | the total times 60 is the signed minute span; negative exactly when end is before start, zero exactly when they are equal; no other field changes |
| WorkTimes.SetTotalFromTexts | PanelPracownika/Models/WorkTime.cs:12-20 | setting the total from the parsed stored texts makes the total agree with those texts |
| TimeOfDay.HoursBetween | PanelPracownika/Models/WorkTime.cs:19 | the hours between two times are the minute difference over 60, with sign and zero exactly as the difference, strictly within a day |
| TimeOfDay.FormatThenParse | PanelPracownika/Controllers/WorkTimeController.cs:53 | every time of day formatted as "HH:mm" parses back to itself |
| TimeOfDay.ParseThenFormat | PanelPracownika/Controllers/WorkTimeController.cs:53 | a parsed five-character time text formats back to the same text |
| TimeOfDay.MidnightIsZero | PanelPracownika/Controllers/AbsenceController.cs:80-84 | "00:00" parses to minute 0, which `SetTotal(TimeSpan.Zero, TimeSpan.Zero)` uses |
| Calendar.FormatThenParse | PanelPracownika/Controllers/AbsenceController.cs:32 | a date formatted "yyyy-MM-dd" parses back to its date part |
| Calendar.ParseThenFormat | PanelPracownika/Controllers/AbsenceController.cs:99-102 | a parsed date text formats back to the same text |
| Calendar.LeIsTotalOrder | PanelPracownika/Controllers/AdminController.cs:206-210 | `DateTime` comparison is reflexive, total, antisymmetric and transitive |
| WorkTimeController.GetWorkTimes | PanelPracownika/Controllers/WorkTimeController.cs:22-43 | `NotFound` exactly when the caller has no work time; otherwise the caller's rows, each as often as stored and nobody else's, ordered by date |
| WorkTimeController.PostWorkTime | PanelPracownika/Controllers/WorkTimeController.cs:46-70 | `BadRequest` exactly when a time does not parse; otherwise one row appended under the next key, owned by the caller, not remote, with the request's texts and a total matching them |
| WorkTimeController.PutWorkTime | PanelPracownika/Controllers/WorkTimeController.cs:74-101 | id mismatch gives `BadRequest` before lookup; with unique keys `NotFound` exactly when the caller owns no row with that key; for an owned row with matching ids, `BadRequest` exactly when a time does not parse, with nothing saved; success changes only that row's date, texts and total, keeping key, owner and remote flag |
| WorkTimeController.DeleteWorkTime | PanelPracownika/Controllers/WorkTimeController.cs:104-122 | with unique keys `NotFound` exactly when the caller owns no such row; success removes exactly that row |
| WorkTimeLaws.PostWorkTimeKeepsInvariants | PanelPracownika/Controllers/WorkTimeController.cs:56-67 | unique keys and matched totals survive `PostWorkTime` |
| WorkTimeLaws.PutWorkTimeKeepsInvariants | PanelPracownika/Controllers/WorkTimeController.cs:88-98 | unique keys and matched totals survive `PutWorkTime` |
| WorkTimeLaws.DeleteWorkTimeKeepsInvariants | PanelPracownika/Controllers/WorkTimeController.cs:113-121 | unique keys and matched totals survive `DeleteWorkTime` |
| WorkTimeLaws.PostWorkTimeIgnoresDayRecords | PanelPracownika/Controllers/WorkTimeController.cs:53-67 | the reply to a post does not depend on absences, delegations or any existing work time |
| WorkTimeLaws.PostThenDelete | PanelPracownika/Controllers/WorkTimeController.cs:104-121 | deleting the row just posted, by the key in the reply, restores the store apart from the spent key |
| WorkTimeLaws.EndBeforeStartIsNegative | PanelPracownika/Models/WorkTime.cs:19 | an end before the start is accepted and stored as a negative total |
| Money.RoundHalfEven | PanelPracownika/Controllers/SalaryController.cs:83 | the nearest integer, within one half, and even on a tie |
| Money.Round2 | PanelPracownika/Controllers/SalaryController.cs:83 | the result is in whole cents and within half a cent of the input, and at exactly half a cent it is the neighbour with an even number of cents |
| Money.Round2OfCents | PanelPracownika/Controllers/SalaryController.cs:96 | an amount already in whole cents is unchanged by rounding |
| Money.Round2Idempotent | PanelPracownika/Controllers/SalaryController.cs:83 | rounding twice is rounding once |
| SalaryController.GetSalaryProfile | PanelPracownika/Controllers/SalaryController.cs:22-32 | `NotFound` exactly when the caller has no profile, otherwise the caller's first profile |
| SalaryController.GetSalaryHistory | PanelPracownika/Controllers/SalaryController.cs:34-47 | the caller's records, each as often as stored and nobody else's, newest year first and newest month first within a year |
| SalaryController.SumOfMonthIsMonthHours | PanelPracownika/Controllers/SalaryController.cs:63-65 | summing the totals of the filtered month's work times equals the month's hours of the user |
| SalaryController.UpsertRecord | PanelPracownika/Controllers/SalaryController.cs:78-103 | the first record of the user and month is replaced by the generated one under its own key; without one, a generated record is appended under the next key |
| SalaryController.GenerateSalary | PanelPracownika/Controllers/SalaryController.cs:49-107 | `NotFound` exactly without a profile, `BadRequest` exactly for an unsupported contract type, both unchanged; on success the month's record is upserted with the rounded hourly-rate-times-month-hours or monthly salary of the first profile, and nothing else changes |
| SalaryController.UpdateSalaryRecord | PanelPracownika/Controllers/SalaryController.cs:110-129 | `NotFound` exactly when no record with that key belongs to the caller; success overwrites exactly received amount, confirmation, bonus flag and notes of that record |
| SalaryLaws.GenerateKeepsInvariants | PanelPracownika/Controllers/SalaryController.cs:78-103 | generation keeps keys unique and at most one record per user and month |
| SalaryLaws.GenerateIdempotent | PanelPracownika/Controllers/SalaryController.cs:49-107 | generating the same month twice gives the same reply and store as generating once |
| SalaryLaws.RegenerateDiscardsEdits | PanelPracownika/Controllers/SalaryController.cs:81-88 | after a manual update of the month's record, regenerating restores the record as first generated, discarding the edits |
| SalaryLaws.GeneratedRecordInHistory | PanelPracownika/Controllers/SalaryController.cs:89-103 | after generation the caller's history holds a record for that month with every manual field reset |
| SalaryLaws.UpsertLeavesGenerated | PanelPracownika/Controllers/SalaryController.cs:78-103 | after the upsert the month's first record is the generated one, and profiles and work times are untouched |
| SalaryLaws.UpsertKeepsWf | PanelPracownika/Controllers/SalaryController.cs:89-103 | the upsert keeps keys unique and below the next identity value |
| SalaryLaws.UpsertKeepsOneRecordPerMonth | PanelPracownika/Controllers/SalaryController.cs:78-103 | the upsert never creates a second record for a user and month |
| SalaryLaws.UpsertIdempotent | PanelPracownika/Controllers/SalaryController.cs:81-88 | upserting the same amount again changes nothing |
| SalaryLaws.MonthHoursAppend | PanelPracownika/Controllers/SalaryController.cs:63-65 | a new work time adds its total to the hours of its own user and month only |
| SalaryLaws.MonthHoursRemove | PanelPracownika/Controllers/SalaryController.cs:63-65 | removing a work time takes its total out of its own user and month only |
| SalaryLaws.MonthHoursReplace | PanelPracownika/Controllers/SalaryController.cs:63-65 | replacing a work time swaps its contribution for the new row's |
| SalaryLaws.MonthlyIgnoresHours | PanelPracownika/Controllers/SalaryController.cs:69-72 | a monthly contract's amount does not depend on hours |
| AdminController.GetAllUsers | PanelPracownika/Controllers/AdminController.cs:40-58 | `Forbid` exactly for a non-admin; otherwise every user in order, without password, with exactly the profile `GetSalaryProfile` would give that user |
| AdminController.CreateUser | PanelPracownika/Controllers/AdminController.cs:60-78 | one user appended under the next key with the request's fields and the hash of the password |
| AdminController.DeleteUser | PanelPracownika/Controllers/AdminController.cs:80-91 | `NotFound` exactly without a user of that key; success removes that user row together with exactly that user's work times (the configured cascade) and absences, delegations, salary profiles and payroll records (the cascade of their required `User` relationship); the surviving rows of each of those tables keep their order, and tasks and all other rows stay |
| AdminController.UpdateUserSalary | PanelPracownika/Controllers/AdminController.cs:93-111 | without a user-existence check: the first profile of the user keeps its key and gets exactly the request's contract type, rate and salary, or a new profile is appended under the next key |
| AdminController.AddTaskToUser | PanelPracownika/Controllers/AdminController.cs:113-133 | `NotFound` exactly for an unknown user; otherwise one open task for that user appended under the next key |
| AdminController.DeleteTask | PanelPracownika/Controllers/AdminController.cs:135-146 | `NotFound` exactly without a task of that key; otherwise exactly the first such task removed |
| AdminController.GetUserTasks | PanelPracownika/Controllers/AdminController.cs:148-167 | every listed view comes from a task of that user and every such task is listed; unknown users get a list, not `NotFound` |
| AdminController.ViewTask | PanelPracownika/Controllers/AdminController.cs:155-163 | the view keeps key, text and completion, and its due-date text parses back to the due date's day |
| AdminController.UpdateUser | PanelPracownika/Controllers/AdminController.cs:169-194 | `NotFound` exactly for an unknown user; each text field replaced only by a non-empty request value, the password stored hashed, the admin flag only when supplied; key and other rows kept |
| AdminController.SelectWorkTimes | PanelPracownika/Controllers/AdminController.cs:204-214 | the user's work times within the inclusive optional bounds, each as often as stored, newest date first and by start time within a date |
| AdminController.NewestDayFirstIsTotalPreorder | PanelPracownika/Controllers/AdminController.cs:212-214 | date descending then start time ascending is a total preorder |
| AdminController.Row | PanelPracownika/Controllers/AdminController.cs:215-222 | a row keeps key, texts and total, and its date text parses back to the work time's day |
| AdminController.GetUserWorkTimes | PanelPracownika/Controllers/AdminController.cs:196-226 | `Forbid` for a non-admin, `NotFound` exactly for an unknown user, otherwise one row per selected work time in the selection's order |
| AdminLaws.UpdateUserSalaryKeepsWf | PanelPracownika/Controllers/AdminController.cs:98-107 | setting a profile keeps keys unique |
| AdminLaws.ProfileAfterUpdateUserSalary | PanelPracownika/Controllers/AdminController.cs:98-110 | after the administrator sets a profile, the user's `GetSalaryProfile` returns exactly it |
| AdminLaws.UpdateUserSalaryIdempotent | PanelPracownika/Controllers/AdminController.cs:98-107 | setting the same profile twice leaves the store as once |
| AdminLaws.EmptyUpdateUserChangesNothing | PanelPracownika/Controllers/AdminController.cs:177-190 | an update with every field null changes nothing |
| AdminLaws.RepeatedUpdateUser | PanelPracownika/Controllers/AdminController.cs:172-192 | repeating an edit, with a freshly salted hash, changes at most the edited user's password, and nothing at all when the request carries no password; this holds even when the first edit removed the caller's own admin flag |
| AdminLaws.UpdateUserKeepsWf | PanelPracownika/Controllers/AdminController.cs:174-192 | editing a user keeps keys unique |
| AdminLaws.SelfDemotionLocksOut | PanelPracownika/Controllers/AdminController.cs:31-38 | an administrator who clears their own admin flag no longer passes the admin gate |
| AdminLaws.DeleteUserKeepsInvariants | PanelPracownika/Controllers/AdminController.cs:85-90 | deleting a user keeps keys unique and totals matched |
| AdminLaws.DeletedUserIsGone | PanelPracownika/Controllers/AdminController.cs:85-90 | with unique keys neither the user nor any of their work times, absences, delegations, salary profiles or payroll records remain, and the user fails the admin gate |
| AdminLaws.CreateUserKeepsWf | PanelPracownika/Controllers/AdminController.cs:65-75 | creating a user keeps keys unique, and a user created as administrator passes the admin gate |
| AdminLaws.AddTaskToUserListed | PanelPracownika/Controllers/AdminController.cs:121-130 | assigning a task keeps keys unique and the user's task list then shows it |
| AdminLaws.AddThenDeleteTask | PanelPracownika/Controllers/AdminController.cs:140-144 | deleting a task just assigned restores the store but for the spent key |
| AdminLaws.UnboundedListingIsOwnListing | PanelPracownika/Controllers/AdminController.cs:204-214 | without bounds the administrator's selection holds exactly the rows of the user's own `GetWorkTimes` |
| AdminLaws.ListedRowsAreInRange | PanelPracownika/Controllers/AdminController.cs:204-222 | every listed row shows the key and day of a work time of the user within the bounds |
| Sorting.SortBy | PanelPracownika/Controllers/WorkTimeController.cs:34 | the result is a permutation of the input, sorted by the given total preorder |
| Sorting.LexLeTotal | PanelPracownika/Controllers/AdminController.cs:214 | ordinal string order compares every two strings |
| Sorting.LexLeTransitive | PanelPracownika/Controllers/AdminController.cs:214 | ordinal string order is transitive |
| Sorting.LexLeAntisymmetric | PanelPracownika/Controllers/AdminController.cs:214 | two strings ordered both ways are equal |
| Seqs.FirstIndex | PanelPracownika/Controllers/AbsenceController.cs:104-105 | the index of the first match, `None` exactly when nothing matches |
| Seqs.Filter | PanelPracownika/Controllers/AbsenceController.cs:28-29 | exactly the elements that satisfy the predicate, in order |
| Seqs.FilterCount | PanelPracownika/Controllers/AbsenceController.cs:28-29 | filtering keeps each matching element as often as it occurs and drops the others |
| Scenarios.AbsenceThenDelegation | PanelPracownika/Controllers/DelegationsController.cs:47-59 | after an absence, a delegation on the same day succeeds exactly when none was recorded |
| Scenarios.DelegationThenAbsence | PanelPracownika/Controllers/AbsenceController.cs:51-63 | after a delegation, an absence on the same day succeeds exactly when none was recorded |
| Scenarios.PostedHoursBlockAbsence | PanelPracownika/Controllers/AbsenceController.cs:57-63 | a positive-hour work time posted on a free day makes an absence there a conflict |
| Scenarios.PlaceholderCarriesNoHours | PanelPracownika/Controllers/AbsenceController.cs:74-86 | a day given a placeholder has no hours on its first work time |
| Scenarios.PlaceholderAddsNoHours | PanelPracownika/Controllers/AbsenceController.cs:74-86 | a placeholder adds nothing to any month's hours |
| Scenarios.ZeroRowRemovalKeepsHours | PanelPracownika/Controllers/AbsenceController.cs:112-118 | removing the day's zero-total row takes nothing from any month's hours |
| Scenarios.AddAbsenceKeepsMonthHours | PanelPracownika/Controllers/AbsenceController.cs:65-89 | adding an absence changes nobody's hours in any month |
| Scenarios.DeleteAbsenceKeepsMonthHours | PanelPracownika/Controllers/AbsenceController.cs:110-121 | deleting an absence changes nobody's hours in any month |
| Scenarios.AddDelegationKeepsMonthHours | PanelPracownika/Controllers/DelegationsController.cs:61-84 | adding a delegation changes nobody's hours in any month |
| Scenarios.DeleteDelegationKeepsMonthHours | PanelPracownika/Controllers/DelegationsController.cs:105-116 | deleting a delegation changes nobody's hours in any month |
| Scenarios.AbsenceKeepsPay | PanelPracownika/Controllers/SalaryController.cs:61-72 | recording an absence leaves the generated amount of any month unchanged |
| Scenarios.PostWorkTimeAddsHours | PanelPracownika/Controllers/WorkTimeController.cs:56-66 | a posted work time adds its total to its own month's hours only |
| Scenarios.DeleteWorkTimeRemovesHours | PanelPracownika/Controllers/WorkTimeController.cs:119-121 | a deleted work time takes its total out of its own month's hours |
| Scenarios.HourlyExample | PanelPracownika/Controllers/SalaryController.cs:61-67 | 160 hours at a rate of 25 pay exactly 4000 |
| Scenarios.HourlyWithoutRatePaysNothing | PanelPracownika/Controllers/SalaryController.cs:67 | an hourly contract without a rate pays 0 |
| Scenarios.MonthlyPay | PanelPracownika/Controllers/SalaryController.cs:69-72 | a monthly contract pays its salary when it is in whole cents, and 0 without one |

## Left out

- HTTP plumbing, JSON bodies and response messages are left out. Replies carry the modelled value, or `()` where the body is only a message.
- Reading the caller's id from the token is left out. `GetUserId` becomes the `caller: Option<int>` parameter.
- Concurrency is left out. Each request is one atomic transition, so the check-then-insert race between two simultaneous requests is not modelled.
- Floating point is left out. Totals and amounts are exact reals. `Math.Round(x, 2)` is exact round-half-to-even on the real value, not on the nearest `double`.
- Culture-dependent parsing is left out. `DateTime.TryParse` is restricted to "yyyy-MM-dd" and `TimeSpan.TryParse` to "H:mm" or "HH:mm" within one day. Texts that .NET also accepts (seconds, day counts, other date layouts) are `BadRequest` in the model.
- `DateTime.SpecifyKind` and time zones are left out. A date is year, month, day and tick of the day.
- Password hashing is left out. It is the opaque `hash` parameter of `CreateUser` and `UpdateUser`. `PasswordHasher` salts every hash at random, so two calls may hash one password differently; laws that repeat an edit take a second, independent `hash2`. Password verification and token issuance are not part of this model.
- The task endpoints of the employee, the profile and login endpoints, application start-up, and the database configuration are not part of this model.
- `DeleteUser` cascades to work times, by the configured cascade, and to absences, delegations, salary profiles and payroll records, whose non-nullable `UserId` with a `User` navigation makes a required relationship that cascades by Entity Framework convention. Tasks have no `User` navigation, so the model keeps the tasks of a deleted user.
- Keys come from one counter, `nextId`, shared by all tables, where the database has an identity column per table; the model's key values therefore differ from the database's. No law depends on the particular values, only on keys being unique within a table and fresh when assigned.
- The model does not check whether a user exists when a row refers to it: the store has no foreign keys.
- The absence table is assumed to exist. `AppDbContext` declares no absence set, although the absence endpoints use one.
- The user row has an admin flag. The administrator endpoints read and write `IsAdmin`, but the `Login` class does not declare it.
- The model infers the fields of the request body `WorkTimeDto` (id, date, start and end texts) from how the work-time endpoints use them. `PostWorkTime` never copies a remote flag, so new rows are not remote.
- The private setter of `Total` cannot be expressed on a datatype. The model states it as the invariant `TotalsMatchTimes` instead: every stored total is the span of its own stored texts. Every endpoint that writes work times preserves it.
- Integer identities, years and months are unbounded; 32-bit overflow is not modelled.
- The text fields of users, salary profiles and tasks are non-null strings. Only the fields that the code tests with `string.IsNullOrEmpty`, or declares nullable, are `Option`.
- The order of rows that tie under a sort key is left open. The database decides it.
- WorkTimeController.GetWorkTimes: promises a sorted permutation of the caller's rows, not the database's order among rows with the same date.
- SalaryController.GetSalaryHistory: promises a sorted permutation of the caller's records, not the database's order among records of the same month.
- AdminController.SelectWorkTimes: string order is ordinal by character code. The database's collation for `ORDER BY StartTime` is not modelled.
- AdminController.GetUserTasks: states which views appear, not their order or multiplicity.
- AbsenceController.GetUserAbsences: states which entries appear, not their order or multiplicity.
- DelegationsController.GetUserDelegations: states which dates appear, not their order or multiplicity.
- WorkTimeController.PutWorkTime: the `NotFound` condition is exact only under unique keys (`Wf`). `FindAsync` looks up by primary key, and the model's first match by key agrees with it only when keys are unique.
- WorkTimeController.DeleteWorkTime: as for `PutWorkTime`, the `NotFound` condition is exact only under unique keys.
