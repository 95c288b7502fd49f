/**
 * The defense-session store (backend/assignment/models.py): a table of
 * `Session` rows and a table of `JudgeAssignment` rows that point at them.
 *
 * The only guard against clashing sessions is the `unique_session`
 * constraint: two rows may not agree on all of schedule, date, classroom,
 * start time, end time and faculty group. Sessions that differ in any one
 * of these are all stored, however their times overlap. Deleting a row that
 * sessions or judge rows refer to deletes those rows too.
 */
module Sessions {
  import opened Common
  import Directory

  type SessionId = nat
  type JudgeRowId = nat
  type ScheduleId = nat
  type FacultyGroupId = nat
  type TeacherId = Directory.TeacherId
  type StudentId = Directory.StudentId

  /** `Session.CLASS_CHOICES`: the eight classrooms, code to label. */
  const ClassChoices: seq<(string, string)> := [
    ("1", "کلاس شماره 1"),
    ("2", "کلاس شماره 2"),
    ("3", "کلاس شماره 3"),
    ("4", "کلاس شماره 4"),
    ("5", "کلاس شماره 5"),
    ("6", "کلاس شماره 6"),
    ("7", "کلاس شماره 7"),
    ("8", "کلاس شماره 8")
  ]

  predicate IsClassNumber(c: string) {
    exists i | 0 <= i < |ClassChoices| :: ClassChoices[i].0 == c
  }

  /** The classroom codes are exactly the single characters '1' to '8'. */
  lemma ClassNumbersAreOneToEight(c: string)
    ensures IsClassNumber(c) <==> |c| == 1 && '1' <= c[0] <= '8'
  {
    if |c| == 1 && '1' <= c[0] <= '8' {
      var i := (c[0] as int) - ('1' as int);
      assert ClassChoices[i].0 == [c[0]] == c;
    }
  }

  /**
   * What the admin form submits for a session. The foreign keys that the
   * table declares NOT NULL may be missing here; `is_active` is not
   * editable and so is not part of it.
   */
  datatype SessionDraft = SessionDraft(
    description: Option<string>,
    schedule: Option<ScheduleId>,
    date: Date,
    startTime: TimeOfDay,
    endTime: TimeOfDay,
    classNumber: string,
    student: Option<StudentId>,
    supervisor1: Option<TeacherId>,
    supervisor2: Option<TeacherId>,
    supervisor3: Option<TeacherId>,
    supervisor4: Option<TeacherId>,
    graduateMonitor: Option<TeacherId>,
    sessionStatus: bool,
    createdBy: Option<string>,
    updatedBy: Option<string>,
    facultyGroup: Option<FacultyGroupId>)

  /** A stored session row. */
  datatype Session = Session(
    description: Option<string>,
    schedule: ScheduleId,
    date: Date,
    startTime: TimeOfDay,
    endTime: TimeOfDay,
    classNumber: string,
    student: StudentId,
    supervisor1: TeacherId,
    supervisor2: Option<TeacherId>,
    supervisor3: Option<TeacherId>,
    supervisor4: Option<TeacherId>,
    graduateMonitor: TeacherId,
    isActive: bool,
    sessionStatus: bool,
    createdBy: Option<string>,
    updatedBy: Option<string>,
    facultyGroup: FacultyGroupId)

  /** A judge of a session. */
  datatype JudgeAssignment = JudgeAssignment(session: SessionId, judge: TeacherId)

  /** The columns of the `unique_session` constraint. */
  datatype SessionKey = SessionKey(
    schedule: ScheduleId,
    date: Date,
    classNumber: string,
    startTime: TimeOfDay,
    endTime: TimeOfDay,
    facultyGroup: FacultyGroupId)

  function Key(s: Session): SessionKey {
    SessionKey(s.schedule, s.date, s.classNumber, s.startTime, s.endTime, s.facultyGroup)
  }

  datatype SaveError =
    | MissingRequiredField
    | InvalidClassNumber
    | DuplicateSession
    | UnknownSession

  /** schedule, student, supervisor1, graduate_monitor and faculty_educational_group are NOT NULL. */
  predicate HasRequiredFields(d: SessionDraft) {
    d.schedule.Some? && d.student.Some? && d.supervisor1.Some?
    && d.graduateMonitor.Some? && d.facultyGroup.Some?
  }

  /** The draft that the change form shows for a stored row. */
  function AsDraft(s: Session): SessionDraft {
    SessionDraft(s.description, Some(s.schedule), s.date, s.startTime, s.endTime, s.classNumber,
                 Some(s.student), Some(s.supervisor1), s.supervisor2, s.supervisor3, s.supervisor4,
                 Some(s.graduateMonitor), s.sessionStatus, s.createdBy, s.updatedBy, Some(s.facultyGroup))
  }

  /**
   * Field validation of a submitted draft, and the row it becomes; the row's
   * `is_active` is `isActive`, never anything the draft says.
   */
  function Materialize(d: SessionDraft, isActive: bool): (r: Result<Session, SaveError>)
    ensures r.Ok? <==> HasRequiredFields(d) && IsClassNumber(d.classNumber)
    ensures !HasRequiredFields(d) ==> r == Err(MissingRequiredField)
    ensures r.Ok? ==> AsDraft(r.value) == d && r.value.isActive == isActive
  {
    if !HasRequiredFields(d) then Err(MissingRequiredField)
    else if !IsClassNumber(d.classNumber) then Err(InvalidClassNumber)
    else Ok(Session(d.description, d.schedule.value, d.date, d.startTime, d.endTime, d.classNumber,
                    d.student.value, d.supervisor1.value, d.supervisor2, d.supervisor3, d.supervisor4,
                    d.graduateMonitor.value, isActive, d.sessionStatus, d.createdBy, d.updatedBy,
                    d.facultyGroup.value))
  }

  /** Showing a stored row in the change form and submitting it unchanged gives the same row back. */
  lemma DraftRoundTrip(s: Session)
    requires IsClassNumber(s.classNumber)
    ensures Materialize(AsDraft(s), s.isActive) == Ok(s)
  {
  }

  /** Some row other than `except` already holds key `k`. */
  predicate KeyTaken(m: map<SessionId, Session>, k: SessionKey, except: Option<SessionId>) {
    exists id | id in m && Some(id) != except :: Key(m[id]) == k
  }

  /** The `unique_session` constraint over the whole table. */
  ghost predicate UniqueKeys(m: map<SessionId, Session>) {
    forall a, b | a in m && b in m && a != b :: Key(m[a]) != Key(m[b])
  }

  /**
   * Saving a new session: field validation, then the unique constraint.
   * A new row starts inactive.
   */
  function CheckNew(m: map<SessionId, Session>, d: SessionDraft): (r: Result<Session, SaveError>)
    ensures Materialize(d, false).Err? ==> r == Materialize(d, false)
    ensures Materialize(d, false).Ok? && KeyTaken(m, Key(Materialize(d, false).value), None) ==>
              r == Err(DuplicateSession)
    ensures Materialize(d, false).Ok? && !KeyTaken(m, Key(Materialize(d, false).value), None) ==>
              r == Materialize(d, false)
    ensures r.Ok? ==> r == Materialize(d, false) && !r.value.isActive
                      && forall id | id in m :: Key(m[id]) != Key(r.value)
  {
    match Materialize(d, false)
    case Err(e) => Err(e)
    case Ok(s) => if KeyTaken(m, Key(s), None) then Err(DuplicateSession) else Ok(s)
  }

  /**
   * Saving an edited session `id`: field validation, then the unique
   * constraint against every other row, so a row may keep its own key. The
   * stored `is_active` is kept.
   */
  function CheckEdit(m: map<SessionId, Session>, id: SessionId, d: SessionDraft): (r: Result<Session, SaveError>)
    ensures id !in m ==> r == Err(UnknownSession)
    ensures id in m && Materialize(d, m[id].isActive).Err? ==> r == Materialize(d, m[id].isActive)
    ensures id in m && Materialize(d, m[id].isActive).Ok?
            && KeyTaken(m, Key(Materialize(d, m[id].isActive).value), Some(id)) ==>
              r == Err(DuplicateSession)
    ensures id in m && Materialize(d, m[id].isActive).Ok?
            && !KeyTaken(m, Key(Materialize(d, m[id].isActive).value), Some(id)) ==>
              r == Materialize(d, m[id].isActive)
    ensures r.Ok? ==> id in m && r == Materialize(d, m[id].isActive)
                      && forall o | o in m && o != id :: Key(m[o]) != Key(r.value)
  {
    if id !in m then Err(UnknownSession)
    else match Materialize(d, m[id].isActive)
      case Err(e) => Err(e)
      case Ok(s) => if KeyTaken(m, Key(s), Some(id)) then Err(DuplicateSession) else Ok(s)
  }

  /** Submitting the same new session twice: the second save is refused as a duplicate. */
  lemma SecondIdenticalInsertRejected(m: map<SessionId, Session>, d: SessionDraft, id: SessionId)
    requires CheckNew(m, d).Ok?
    ensures CheckNew(m[id := CheckNew(m, d).value], d) == Err(DuplicateSession)
  {
    var m' := m[id := CheckNew(m, d).value];
    assert Key(m'[id]) == Key(Materialize(d, false).value);
  }

  /** Resubmitting a stored row unchanged never clashes with the row itself. */
  lemma UnchangedEditAccepted(m: map<SessionId, Session>, id: SessionId)
    requires id in m && UniqueKeys(m) && IsClassNumber(m[id].classNumber)
    ensures CheckEdit(m, id, AsDraft(m[id])) == Ok(m[id])
  {
    DraftRoundTrip(m[id]);
    assert !KeyTaken(m, Key(m[id]), Some(id));
  }

  /**
   * Sessions that differ in any key column are all admitted: storing one
   * never makes another, with a different key, a duplicate.
   */
  lemma DifferentKeysBothAdmitted(m: map<SessionId, Session>, d1: SessionDraft, d2: SessionDraft, id: SessionId)
    requires CheckNew(m, d1).Ok? && CheckNew(m, d2).Ok?
    requires Key(CheckNew(m, d1).value) != Key(CheckNew(m, d2).value)
    ensures CheckNew(m[id := CheckNew(m, d1).value], d2) == CheckNew(m, d2)
  {
    var m' := m[id := CheckNew(m, d1).value];
    var k := Key(Materialize(d2, false).value);
    assert Materialize(d2, false) == CheckNew(m, d2);
    forall o | o in m'
      ensures Key(m'[o]) != k
    {
      if o != id {
        assert o in m && m'[o] == m[o];
      }
    }
    assert !KeyTaken(m', k, None);
  }

  /** Times of day in the order of the clock. */
  function Micros(t: TimeOfDay): nat {
    ((t.hour * 60 + t.minute) * 60 + t.second) * 1000000 + t.microsecond
  }

  /**
   * Only the exact key is guarded: a session in the same schedule, date,
   * classroom and faculty group as a stored one, starting while the stored
   * one runs and ending after it, is accepted whenever no other row holds
   * its key.
   */
  lemma PartlyOverlappingSessionAdmitted(m: map<SessionId, Session>, id: SessionId, d: SessionDraft)
    requires id in m && HasRequiredFields(d) && IsClassNumber(d.classNumber)
    requires d.schedule == Some(m[id].schedule) && d.date == m[id].date
             && d.classNumber == m[id].classNumber && d.facultyGroup == Some(m[id].facultyGroup)
    requires Micros(m[id].startTime) < Micros(d.startTime) < Micros(m[id].endTime) < Micros(d.endTime)
    requires forall o | o in m && o != id :: Key(m[o]) != Key(Materialize(d, false).value)
    ensures CheckNew(m, d).Ok?
  {
    assert Key(m[id]).startTime != Key(Materialize(d, false).value).startTime;
  }

  // ---------------------------------------------------------------------------
  // Cascading deletes

  /** Teacher `t` sits in one of the session's supervisor or monitor slots. */
  predicate FillsSlot(s: Session, t: TeacherId) {
    s.supervisor1 == t || s.supervisor2 == Some(t) || s.supervisor3 == Some(t)
    || s.supervisor4 == Some(t) || s.graduateMonitor == t
  }

  /** A row whose deletion the store reacts to. */
  datatype Target =
    | ScheduleRow(schedule: ScheduleId)
    | StudentRow(student: StudentId)
    | TeacherRow(teacher: TeacherId)
    | FacultyGroupRow(group: FacultyGroupId)
    | SessionRow(session: SessionId)

  /** Session `id` goes when `target` is deleted: it is the target or refers to it (on_delete=CASCADE). */
  predicate Cascades(id: SessionId, s: Session, target: Target) {
    match target
    case ScheduleRow(x) => s.schedule == x
    case StudentRow(x) => s.student == x
    case TeacherRow(x) => FillsSlot(s, x)
    case FacultyGroupRow(x) => s.facultyGroup == x
    case SessionRow(x) => id == x
  }

  /** The sessions left after deleting `target`: the others, untouched. */
  function SurvivingSessions(m: map<SessionId, Session>, target: Target): (r: map<SessionId, Session>)
    ensures r.Keys <= m.Keys
    ensures forall id | id in r :: r[id] == m[id] && !Cascades(id, m[id], target)
    ensures forall id | id in m && !Cascades(id, m[id], target) :: id in r
  {
    map id | id in m && !Cascades(id, m[id], target) :: m[id]
  }

  /**
   * The judge rows left after deleting `target`: a row goes with its session,
   * and with its judge when the target is that teacher.
   */
  function SurvivingJudges(j: map<JudgeRowId, JudgeAssignment>, sessions: map<SessionId, Session>, target: Target)
    : (r: map<JudgeRowId, JudgeAssignment>)
    ensures r.Keys <= j.Keys
    ensures forall k | k in r :: r[k] == j[k] && r[k].session in sessions
    ensures forall k | k in r :: target.TeacherRow? ==> r[k].judge != target.teacher
    ensures forall k | k in j && j[k].session in sessions && !(target.TeacherRow? && j[k].judge == target.teacher) :: k in r
  {
    map k | k in j && j[k].session in sessions && !(target.TeacherRow? && j[k].judge == target.teacher) :: j[k]
  }

  /** Deleting a session takes exactly its own judge rows with it. */
  lemma DeleteSessionTakesOnlyItsJudges(m: map<SessionId, Session>, j: map<JudgeRowId, JudgeAssignment>, id: SessionId, k: JudgeRowId)
    requires forall x | x in j :: j[x].session in m
    requires k in j
    ensures k in SurvivingJudges(j, SurvivingSessions(m, SessionRow(id)), SessionRow(id)) <==> j[k].session != id
  {
  }

  /** Deleting a teacher leaves no session in which they supervise or monitor and no judge row naming them. */
  lemma DeleteTeacherLeavesNoTrace(m: map<SessionId, Session>, j: map<JudgeRowId, JudgeAssignment>, t: TeacherId)
    ensures var m' := SurvivingSessions(m, TeacherRow(t));
            && (forall id | id in m' :: !FillsSlot(m'[id], t))
            && (forall k | k in SurvivingJudges(j, m', TeacherRow(t)) :: j[k].judge != t)
  {
  }

  /** A teacher who only judges a session leaves that session in place. */
  lemma JudgingAloneDoesNotCascade(m: map<SessionId, Session>, t: TeacherId, id: SessionId)
    requires id in m && !FillsSlot(m[id], t)
    ensures id in SurvivingSessions(m, TeacherRow(t))
  {
  }

  /** Deleting a schedule deletes every session of it. */
  lemma DeleteScheduleEmptiesIt(m: map<SessionId, Session>, schedule: ScheduleId)
    ensures forall id | id in SurvivingSessions(m, ScheduleRow(schedule)) :: m[id].schedule != schedule
  {
  }

  // ---------------------------------------------------------------------------
  // The store

  class SessionTable {
    var sessions: map<SessionId, Session>
    var judges: map<JudgeRowId, JudgeAssignment>
    var nextSessionId: SessionId
    var nextJudgeId: JudgeRowId

    /**
     * Keys are unique, classroom codes are among the choices, every judge
     * row points at a stored session, and no session is active: nothing in
     * the code ever sets `is_active`, which defaults to false.
     */
    ghost predicate Valid()
      reads this
    {
      && UniqueKeys(sessions)
      && (forall id | id in sessions ::
            id < nextSessionId && IsClassNumber(sessions[id].classNumber) && !sessions[id].isActive)
      && (forall k | k in judges :: k < nextJudgeId && judges[k].session in sessions)
    }

    constructor ()
      ensures Valid() && sessions == map[] && judges == map[]
    {
      sessions := map[];
      judges := map[];
      nextSessionId := 1;
      nextJudgeId := 1;
    }

    /** Saving a new session row. */
    method Insert(d: SessionDraft) returns (r: Result<SessionId, SaveError>)
      requires Valid()
      modifies this
      ensures Valid() && judges == old(judges)
      ensures CheckNew(old(sessions), d).Err? ==>
                r == Err(CheckNew(old(sessions), d).error) && sessions == old(sessions)
      ensures CheckNew(old(sessions), d).Ok? ==>
                r.Ok? && r.value !in old(sessions)
                && sessions == old(sessions)[r.value := CheckNew(old(sessions), d).value]
    {
      var c := CheckNew(sessions, d);
      if c.Err? {
        return Err(c.error);
      }
      r := Ok(nextSessionId);
      sessions := sessions[nextSessionId := c.value];
      nextSessionId := nextSessionId + 1;
    }

    /** Saving an edited session row `id`. */
    method Update(id: SessionId, d: SessionDraft) returns (r: Result<SessionId, SaveError>)
      requires Valid()
      modifies this
      ensures Valid() && judges == old(judges)
      ensures CheckEdit(old(sessions), id, d).Err? ==>
                r == Err(CheckEdit(old(sessions), id, d).error) && sessions == old(sessions)
      ensures CheckEdit(old(sessions), id, d).Ok? ==>
                r == Ok(id) && sessions == old(sessions)[id := CheckEdit(old(sessions), id, d).value]
    {
      var c := CheckEdit(sessions, id, d);
      if c.Err? {
        return Err(c.error);
      }
      r := Ok(id);
      sessions := sessions[id := c.value];
    }

    /**
     * Saving a judge row: its session must exist. Nothing limits how many
     * judges a session gets or forbids the same judge twice, and the
     * session's `is_active` is left as it was.
     */
    method AssignJudge(session: SessionId, judge: TeacherId) returns (r: Result<JudgeRowId, SaveError>)
      requires Valid()
      modifies this
      ensures Valid() && sessions == old(sessions)
      ensures session !in old(sessions) ==> r == Err(UnknownSession) && judges == old(judges)
      ensures session in old(sessions) ==>
                r.Ok? && r.value !in old(judges)
                && judges == old(judges)[r.value := JudgeAssignment(session, judge)]
    {
      if session !in sessions {
        return Err(UnknownSession);
      }
      r := Ok(nextJudgeId);
      judges := judges[nextJudgeId := JudgeAssignment(session, judge)];
      nextJudgeId := nextJudgeId + 1;
    }

    /** Deleting `target` and every session and judge row that cascades from it. */
    method Delete(target: Target)
      requires Valid()
      modifies this
      ensures Valid()
      ensures sessions == SurvivingSessions(old(sessions), target)
      ensures judges == SurvivingJudges(old(judges), sessions, target)
    {
      sessions := SurvivingSessions(sessions, target);
      judges := SurvivingJudges(judges, sessions, target);
    }
  }
}
