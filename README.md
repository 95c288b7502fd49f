# Thesis-defense back office: a Dafny model

This project models the core of a university back office for thesis and
dissertation defenses, written with a web framework. Staff use it to do three
things:

- schedule defense sessions in classrooms;
- assign each session's supervisors, graduate monitor and judges;
- keep the directory of educational groups, students, teachers and user
  accounts.

The model covers five parts:

- **The defense-session store** (`Sessions`). It holds a table of sessions
  and a table of judge rows.
  - The only conflict guard is the `unique_session` constraint. Two rows may
    not agree on all of these at once: schedule, date, classroom, start time,
    end time and faculty group.
  - Deleting a schedule, student, teacher, faculty group or session deletes
    every row that refers to it.
- **The supervisor-eligibility query** (`Eligibility`). It lists the
  teachers a session form offers as supervisors.
- **The directory** (`Directory`, `Accounts`):
  - educational groups, with a unique (field, degree) pair;
  - write-once student records;
  - user accounts and their bookkeeping methods;
  - the rule that no user is both a student and a teacher.
- **Login bookkeeping**:
  - `Signals`: the client address, and the failed-login counter that locks
    an account at five failures.
  - `SessionGuard`, `CustomAdmin`: one live session per user, kept in a
    key-value store.
  - `AccountAdmin`: the bulk actions of the user list.
- **Small pure functions**:
  - `Validators`: the Persian-only name validator.
  - `ScheduleAdmin`: the Persian 12-hour time column.
  - `MonthFilter`: the month list filter.
  - `Decimal`: the decimal text of numbers, which both of the last two use.

Stores whose rows change in place are classes over maps, and their methods
state the whole new state. They are `Directory.GroupTable`,
`Directory.StudentTable`, `Sessions.SessionTable`, `Accounts.UserTable` and
`SessionGuard.SessionState`. Pure selections and text builders are
functions. Lemmas relate them to each other.

Where the code and its documentation disagree, the model follows the code.
In four places the code as written cannot run as intended: `is_locked`, the
teacher profile, the eligibility view and the classroom default. There the
model takes what the code evidently intends, and the list below says what
the code does as written.

- **No admission engine.** The code rejects a session only when every key
  column matches an existing row exactly. It has no overlap check on
  classrooms or times, and no double-booking check on people.
  `Sessions.PartlyOverlappingSessionAdmitted` shows a partly overlapping
  session being stored.
- **`is_active` stays false.** A session's `is_active` defaults to false
  and is not editable, and no code sets it. `Sessions.SessionTable.Valid`
  keeps it false, and adding judges does not change it.
- **Noon shows as 0.** The time column shows noon as "0 ظهر", because hours
  12 to 17 lose twelve. The model keeps this.
- **`is_locked` is not a declared column.** The code assigns it anyway, in
  `lock_account` and in the failed-login handler. The model stores it as a
  field of the user row, which is what those assignments intend. Because the
  column is not declared, the lock is not persisted as written.
- **Teacher profiles have no owning relation.** `User.__str__` and
  `Student.clean` ask whether a user has a teacher profile, but no model in
  these files declares that relation. As written, then, `User.__str__`
  never says "teacher" and `Student.clean` never refuses. `Teacher.clean`
  reads a `user` field that the teacher model does not declare, so as
  written it fails with an attribute error. The model keeps the teacher
  profile as an abstract relation next to the student profile.
- **The eligibility view and its route disagree with the models.** The view
  imports a different `Teacher` class than the one the session foreign keys
  point at. It reads a `user` that the teacher has no field for. Its route
  does not pass the session id that the view requires. As written, then,
  every call through the route fails with a missing-argument error before
  any query runs. The model uses the one teacher entity the sessions refer
  to, and the teacher's own name.
- **The classroom default is not a classroom code.** The default is a
  (code, label) pair, not the code '1'. The model requires a classroom code
  on every saved row. The form always submits one.

## Model

| member | source | states |
|---|---|---|
| Decimal.Show | backend/schedule/admin.py:86 | decimal text of a number: non-empty, digits only, "0" exactly for zero, and no leading zero otherwise |
| Decimal.Parse | backend/account/admin.py:29 | reading a month value succeeds exactly on non-empty all-digit text |
| Decimal.ParseShow | backend/schedule/admin.py:18-35 | parsing the text of n gives n back |
| Decimal.ShowInjective | backend/schedule/admin.py:18-29 | different numbers have different texts |
| Directory.FullName | backend/university_adminstration/models.py:139-141 | `name` of students, teachers and users is first name, one space, last name, recoverable by position |
| Directory.GroupLabel | backend/university_adminstration/models.py:28-29 | a group label exists exactly for codes in both choice tables; it is " گروه ", the field label, " - " and the role label |
| Directory.GroupLabelInjective | backend/university_adminstration/models.py:28-29 | different groups, including two roles of one field, get different labels |
| Directory.GroupTable.Insert | backend/university_adminstration/models.py:17-35 | codes outside the choices are refused; a second row with the same (field, role) is refused and the table is unchanged; otherwise the row is added under a fresh id |
| Directory.AtMostSixGroups | backend/university_adminstration/models.py:6-35 | the unique pair and the choice tables allow at most six groups |
| Directory.StudentLabel | backend/university_adminstration/models.py:132-137 | "آقای " before a male student's name and one trailing space, "خانم " before a female one's and two trailing spaces, and no label (an error) for any other gender |
| Directory.StudentTable.Save | backend/university_adminstration/models.py:147-150 | a record that already has a key is refused and nothing changes, editable fields included; a new record is stored under a fresh key unless a unique column clashes |
| Sessions.ClassNumbersAreOneToEight | backend/assignment/models.py:10-19 | a classroom code is valid exactly when it is one character from '1' to '8' |
| Sessions.Materialize | backend/assignment/models.py:49-161 | a submitted session becomes a row exactly when student, supervisor 1, graduate monitor, schedule and faculty group are given and the classroom is valid; supervisors 2 to 4 may be missing; `is_active` never comes from the form |
| Sessions.DraftRoundTrip | backend/assignment/models.py:111-116 | resubmitting a stored row unchanged gives the same row, with its `is_active` kept |
| Sessions.CheckNew | backend/assignment/models.py:166-169 | a field error is passed through; a valid new session is refused as a duplicate exactly when its six key columns equal those of a stored row, and is otherwise accepted, inactive |
| Sessions.CheckEdit | backend/assignment/models.py:166-169 | an unknown id is refused; a field error is passed through; a valid edit is a duplicate exactly when another row holds its key, and is otherwise accepted with its stored `is_active` |
| Sessions.UnchangedEditAccepted | backend/assignment/models.py:166-169 | resubmitting a stored row unchanged is accepted: a row never clashes with itself |
| Sessions.SecondIdenticalInsertRejected | backend/assignment/models.py:166-169 | saving the same new session twice: the second save is a duplicate |
| Sessions.DifferentKeysBothAdmitted | backend/assignment/models.py:166-169 | for any store, storing one accepted session never turns another accepted session with a different key into a duplicate |
| Sessions.PartlyOverlappingSessionAdmitted | backend/assignment/models.py:166-169 | for any store, a session in the same schedule, date, classroom and group that starts while a stored one runs and ends after it is accepted when no other row holds its key |
| Sessions.SurvivingSessions | backend/assignment/models.py:28-109 | after a delete, exactly the sessions that neither are the target nor refer to it remain, unchanged |
| Sessions.SurvivingJudges | backend/assignment/models.py:184-197 | after a delete, a judge row remains exactly when its session remains and it does not name a deleted teacher |
| Sessions.DeleteSessionTakesOnlyItsJudges | backend/assignment/models.py:185-190 | deleting a session removes exactly its judge rows |
| Sessions.DeleteTeacherLeavesNoTrace | backend/assignment/models.py:65-109 | deleting a teacher leaves no session where they supervise or monitor, and no judge row naming them |
| Sessions.JudgingAloneDoesNotCascade | backend/assignment/models.py:192-197 | a teacher who only judges a session does not take the session with them |
| Sessions.DeleteScheduleEmptiesIt | backend/assignment/models.py:28-34 | deleting a schedule leaves none of its sessions |
| Sessions.SessionTable.Insert | backend/assignment/models.py:166-169 | a refused session leaves the store unchanged; an accepted one is added under a fresh id; unique keys, valid classrooms and inactive sessions are kept |
| Sessions.SessionTable.Update | backend/assignment/models.py:166-169 | an edit replaces exactly row `id`, or changes nothing when refused |
| Sessions.SessionTable.AssignJudge | backend/assignment/models.py:184-197 | a judge row is added for an existing session, with no limit on judges, and the session stays as it was |
| Sessions.SessionTable.Delete | backend/assignment/models.py:28-161 | the store after a delete is exactly the surviving sessions and judge rows; every remaining judge row still points at a stored session |
| Eligibility.SupervisorSlots | backend/assignment/views.py:12-16 | a teacher is in a session's slots exactly when they fill supervisor 1, 2, 3 or 4 |
| Eligibility.Select | backend/assignment/views.py:12-25 | a teacher row is selected exactly when it is in the table and the filter holds for its id |
| Eligibility.CurrentQuery | backend/assignment/views.py:12-17 | the first query holds exactly the teachers in a supervisor slot of the current session of that schedule |
| Eligibility.FreeQuery | backend/assignment/views.py:20-25 | the second query holds exactly the teachers in no supervisor slot of any session of the schedule |
| Eligibility.Upsert | backend/assignment/views.py:29 | assigning a key keeps the entries' order and distinct ids, adds the id, and puts a new key last |
| Eligibility.KeyedById | backend/assignment/views.py:29 | the de-duplicated list has distinct ids, the same ids as its input, and only input rows |
| Eligibility.KeyedByIdPrefix | backend/assignment/views.py:28-29 | rows chained after others never move the entries the earlier rows produced |
| Eligibility.Entries | backend/assignment/views.py:32 | one response item per teacher, in order, with the teacher's id |
| Eligibility.FilterSupervisors | backend/assignment/views.py:8-9 | an unknown schedule is not found and gives no list |
| Eligibility.EligibleListed | backend/assignment/views.py:20-28 | every teacher who supervises the current session or holds no supervisor slot in the schedule is listed |
| Eligibility.ListedEligible | backend/assignment/views.py:12-28 | every listed teacher is such a teacher |
| Eligibility.ListedExactlyWhenEligible | backend/assignment/views.py:12-29 | a teacher id is listed if and only if it is a table teacher who supervises the current session or is free in the schedule |
| Eligibility.SupervisorElsewhereExcluded | backend/assignment/views.py:20-25 | a teacher supervising another session of the schedule, but not the current one, is not listed |
| Eligibility.ListedOnce | backend/assignment/views.py:29 | no id is listed twice |
| Eligibility.CurrentSupervisorsFirst | backend/assignment/views.py:28-29 | supervisors of the current session come before every other listed teacher |
| Eligibility.OnlySupervisorSlotsMatter | backend/assignment/views.py:12-25 | two stores that agree on the supervisor slots of the schedule's sessions give the same response, whoever monitors or judges and whatever other schedules hold |
| Accounts.Classify | backend/account/models.py:104-110 | a user with a teacher profile is a teacher whatever else; otherwise a student with a student profile; otherwise unassigned |
| Accounts.UserLabel | backend/account/models.py:104-110 | `str(user)` is the email, " - ", then the text of the user's assignment |
| Accounts.UserLabelDistinguishes | backend/account/models.py:104-110 | two labels with the same email are equal only when the assignments are |
| Accounts.StudentClean | backend/account/models.py:218-221 | a student profile is refused exactly when the user already has a teacher profile |
| Accounts.TeacherClean | backend/account/models.py:261-264 | a teacher profile is refused exactly when the user already has a student profile |
| Accounts.UserTable.Deactivate | backend/account/models.py:123-125 | `is_active` becomes false and no other field or row changes |
| Accounts.UserTable.LockAccount | backend/account/models.py:127-129 | the lock flag is set and nothing else changes |
| Accounts.UserTable.SetLastLoginIp | backend/account/models.py:131-133 | the last login address becomes the stored form of the given one: null for a missing or empty address, otherwise the address as given; nothing else changes |
| Accounts.StoredAddress | backend/account/models.py:90 | the address column stores null exactly for a missing or empty address, and any other address as given |
| Accounts.UserTable.IncrementResetAttempts | backend/account/models.py:135-138 | the reset-attempt count grows by exactly one and nothing else changes |
| Accounts.UserTable.ResetPassword | backend/account/models.py:140-145 | the new hash is stored, the reset attempts go to zero and the reset time is stamped |
| Accounts.UserTable.MakeVerifyUserAccount | backend/account/models.py:112-117 | an unknown uuid is not found; otherwise the account is verified and the row returned; a verified account is left unchanged |
| Accounts.UserTable.AddStudentProfile | backend/account/models.py:218-221 | a teacher cannot get a student profile; no user holds both profiles |
| Accounts.UserTable.AddTeacherProfile | backend/account/models.py:261-264 | a student cannot get a teacher profile; no user holds both profiles |
| Accounts.UserTable.Label | backend/account/models.py:104-110 | a stored user's label names the teacher or the student profile the user holds, and says unassigned when it holds neither |
| Signals.FirstField | backend/account/signals.py:10 | the text before the first comma: a prefix with no comma, followed by a comma or the end |
| Signals.FirstFieldOfList | backend/account/signals.py:10 | the first field of "a,rest" is a, untrimmed |
| Signals.ClientIp | backend/account/signals.py:9-10 | a present, non-empty forwarded header gives its longest comma-free prefix, which a comma or the end follows; otherwise the remote address |
| Signals.UpdateLastLoginIp | backend/account/signals.py:7-11 | on login only the user's last address changes, to the stored form of the client address |
| Signals.CommaFirstHeaderStoresNull | backend/account/signals.py:9-11 | a forwarded header opening with a comma records a null address, whatever the remote address |
| Signals.RecordFailure | backend/account/signals.py:26-38 | one failure adds exactly one to the counter, stamps the time, and sets the lock once the count is at least 5; nothing else changes |
| Signals.FailuresAccumulate | backend/account/signals.py:29-37 | n failures add exactly n, and lock exactly when the count reaches 5 or the account was locked |
| Signals.FifthFailureLocks | backend/account/signals.py:36-37 | from a clean record, the account is locked after n failures exactly when n is at least 5 |
| Signals.HandleFailedLogin | backend/account/signals.py:14-50 | no username changes nothing; an unknown one queues the invalid-credentials message and changes nothing; a known user's row alone records the failure, with the lock message exactly when the count is at least 5 |
| Validators.MatchesClassStar | backend/account/validators.py:17 | the class-star matcher accepts exactly the texts whose every character is in the class |
| Validators.IsPersianOnly | backend/account/validators.py:17-19 | passes, returning nothing, exactly when the text is non-empty and every character is in U+0600–U+06FF, U+FB8A–U+FB8C or whitespace; otherwise a validation error |
| Validators.EmptyRejected | backend/account/validators.py:17-19 | the empty text is refused |
| Validators.WhitespaceAccepted | backend/account/validators.py:17 | a whitespace-only text passes |
| Validators.OneForeignCharRejects | backend/account/validators.py:18-19 | one character outside the class anywhere refuses the text |
| Validators.AcceptedClosedUnderConcatenation | backend/account/validators.py:17 | two accepted texts joined are accepted |
| Validators.AcceptedPiecesAccepted | backend/account/validators.py:17 | the non-empty pieces of an accepted text are accepted |
| MonthFilter.Lookups | backend/schedule/admin.py:16-30 | twelve lookups labelled دی to آذر in order |
| MonthFilter.LookupValuesAreMonths | backend/account/admin.py:10-24 | lookup i reads back as month i + 1 |
| MonthFilter.LookupValuesDistinct | backend/account/admin.py:10-24 | the twelve lookup values are pairwise different |
| MonthFilter.ChosenColumn | backend/account/admin.py:28-33 | no column is chosen exactly when the model declares none of the candidates |
| MonthFilter.ChosenColumnIsFirst | backend/account/admin.py:28-33 | the chosen column is the first declared one in date_joined, expiry_date, start_date order |
| MonthFilter.InMonth | backend/account/admin.py:29 | a row is kept exactly when its column is set and falls in the month |
| MonthFilter.Queryset | backend/account/admin.py:26-33 | no value, or no declared column, leaves the list unfiltered; a numeric value with a declared column always filters the first declared column by that month; a non-numeric value is refused |
| MonthFilter.UsersFilterOnDateJoined | backend/account/admin.py:26-29 | on the user list, lookup i keeps the users who joined in month i + 1 |
| MonthFilter.ScheduleLookupKeepsItsMonth | backend/schedule/admin.py:32-35 | on the schedule list, lookup i keeps exactly the schedules dated in month i + 1 |
| ScheduleAdmin.TwelveHour | backend/schedule/admin.py:73-84 | hour 0 is 12 بامداد, 1 to 11 صبح, 12 to 17 ظهر, 18 to 23 عصر; the shown hour is at most 12 |
| ScheduleAdmin.TwelveHourRoundTrip | backend/schedule/admin.py:73-84 | the shown hour and the part of the day give back the 24-hour hour |
| ScheduleAdmin.GetTimePersian | backend/schedule/admin.py:66-88 | no time shows "ثبت نشده است"; a time starts with its shown hour and part of the day |
| ScheduleAdmin.TailInjective | backend/schedule/admin.py:86 | after the hour, the text fixes the part of the day and the minute |
| ScheduleAdmin.TimeTextFixesHourAndMinute | backend/schedule/admin.py:86 | two times shown the same way agree on the hour and the minute |
| ScheduleAdmin.SecondsNotShown | backend/schedule/admin.py:86 | times that differ only in seconds or microseconds are shown the same way |
| AccountAdmin.ChangeList | backend/account/admin.py:93-96 | the user list shows exactly the active users |
| AccountAdmin.Affected | backend/account/admin.py:79-88 | an action updates the selected users that the list shows |
| AccountAdmin.WithFailuresReset | backend/account/admin.py:80 | the updated rows get a zero failed-login count and all others are unchanged |
| AccountAdmin.WithDeactivated | backend/account/admin.py:87 | the updated rows become inactive and all others are unchanged |
| AccountAdmin.ResetKeepsChangeList | backend/account/admin.py:79-96 | resetting counters does not change who is listed |
| AccountAdmin.LockedLeaveChangeList | backend/account/admin.py:86-96 | locked users leave the list and nobody else does |
| AccountAdmin.SecondLockUpdatesNothing | backend/account/admin.py:86-88 | a second lock over the same selection updates no row |
| AccountAdmin.ResetFailedLoginAttempts | backend/account/admin.py:79-81 | the affected users' counters go to zero and the count returned is the number updated |
| AccountAdmin.LockUserAccount | backend/account/admin.py:86-88 | the affected users become inactive, leave the list, and the count returned is the number updated |
| SessionGuard.RegistryKey | backend/account/middleware.py:15 | the store key is "user_session:" followed by the user's key |
| SessionGuard.RegistryKeyInjective | backend/account/middleware.py:15 | different users have different store keys |
| SessionGuard.Decide | backend/account/middleware.py:14-21 | a request is turned away exactly when its user is authenticated, has a non-empty recorded session, and that session is not the request's |
| SessionGuard.OnlyRecordedSessionPasses | backend/account/middleware.py:18 | for a user with a recorded session, a session passes exactly when it is the recorded one |
| SessionGuard.UnguardedRequestsPass | backend/account/middleware.py:14-18 | anonymous requests and users with no record always pass |
| SessionGuard.Handle | backend/account/middleware.py:13-24 | a turned-away request ends its own session and is redirected with the warning, without the handler; the store is never written |
| CustomAdmin.WithoutRecorded | backend/account/custom_admin.py:26-31 | the user's recorded session, when non-empty, is deleted and no other |
| CustomAdmin.Login | backend/account/custom_admin.py:19-39 | non-POST, failed or inactive logins change nothing and fall through; a success deletes the recorded session and then: on an anonymous session moves it to a fresh key, records it and redirects; on another user's session flushes it and fails to record, keeping the store as it was; on the same user's session records the kept key and redirects |
| CustomAdmin.ReloginOnRecordedSessionEndsIt | backend/account/custom_admin.py:26-35 | logging in again on the recorded session deletes it, while the store still names it |
| CustomAdmin.ThirdFailedAdminLoginLocks | backend/account/custom_admin.py:23-39 | each failed admin login counts two failures, so from a clean record the third one locks the account |
| CustomAdmin.LoginLeavesOnlyNewSession | backend/account/custom_admin.py:34-35 | after a login only the new session of that user passes the guard, and other users are decided as before |

## Left out

- Formatting of dates in the Jalali calendar. This is `get_date_jalali`,
  the created-at column and the session's `__str__`, which embeds the Jalali
  date. It belongs to a third-party calendar library.
- The text forms of sessions and judge rows, the label of an educational
  group in the other directory module, and the account student's label.
  Each of these only joins other labels.
- Authentication, password hashing, the framework's `login`/`logout`, its
  message queue and the key-value client are not part of this model.
  - Their results enter as parameters: the authenticated user, the new
    session key and the password hash.
  - Their effects become changes to `SessionState` and returned messages.
- `print` in the failed-login handler.
- Concurrent saves. Every operation is one sequential step.
- Joins of the eligibility query can yield the same teacher several times.
  The model selects each teacher row once. The de-duplication makes the
  response the same either way.
- Foreign keys are not checked for existence when a session is saved. Only
  judge rows check that their session exists.
- The PROTECT rule on a student's educational group is left out, and so is
  the SET_NULL rule on the account student's group. No group is deleted in
  this model.
- Ordering of the change lists, search fields and admin layout.
- `Decimal.Parse` accepts ASCII digits only. The month lookup's own
  conversion also accepts surrounding whitespace, a sign, underscores
  between digits and digits of other scripts such as "۳". The offered
  lookup values hold none of these, but a hand-edited address can.
- Month extraction from a date-time column in the active time zone. Rows
  carry calendar dates.
- Choice validation of the student, teacher and user columns other than
  the group and classroom codes.
- Unique email, phone and national-code columns of teachers and users.
  Teachers are only referred to by id here.
- The order of the rows inside each eligibility query is whatever the
  database returns, since neither query is ordered. The model takes one
  teacher sequence, in some fixed order, for both queries.
- `CustomAdmin.Login` does not itself run the failed-login handler on a
  failed POST. `CustomAdmin.ThirdFailedAdminLoginLocks` states what the two
  checks of such a login do to the counter. A POST with an empty password
  is checked only once, and that case is not stated. A successful login
  also fires the login signal that records the client address
  (`Signals.UpdateLastLoginIp`); `Login` does not compose the two. The
  session save that follows the response is not modelled either: after
  the same-user path has deleted the request's own session, that save
  fails in the framework.
- `Accounts.UserTable.SetLastLoginIp` stores a non-empty address as given.
  The column also rewrites IPv6 text to its compressed lower-case form,
  which this model does not do.
- `Accounts.StudentClean` refuses users with a teacher profile, which is
  what the code intends. As written it never refuses, because no teacher
  profile relation is declared.
- `Accounts.TeacherClean` refuses users with a student profile, which is
  what the code intends. As written it fails with an attribute error,
  because the teacher model declares no `user` field.
- `Accounts.Classify` can say "teacher", which is what the code intends. As
  written `User.__str__` never does, because no teacher profile relation is
  declared.
- Scripts, browser code, configuration and routing files are not part of
  this model.
