/**
 * The supervisor-eligibility query behind the session form
 * (`filter_supervisors`, backend/assignment/views.py).
 *
 * For a schedule and a session of it, the teachers offered as supervisors
 * are those who already supervise that session, followed by those who hold
 * no supervisor slot in any session of the schedule; a teacher found by both
 * queries is listed once, in the place where it first appeared.
 */
module Eligibility {
  import opened Common
  import opened Sessions
  import Directory

  type Teacher = Directory.Teacher

  datatype LookupError = ScheduleNotFound

  /** One item of the JSON response: the teacher's id and display name. */
  datatype SupervisorEntry = SupervisorEntry(id: TeacherId, name: string)

  /** The teachers in slots supervisor1 to supervisor4 of a session. */
  function SupervisorSlots(s: Session): (r: set<TeacherId>)
    ensures s.supervisor1 in r
    ensures forall t :: t in r <==>
              t == s.supervisor1 || s.supervisor2 == Some(t) || s.supervisor3 == Some(t) || s.supervisor4 == Some(t)
  {
    {s.supervisor1}
    + (if s.supervisor2.Some? then {s.supervisor2.value} else {})
    + (if s.supervisor3.Some? then {s.supervisor3.value} else {})
    + (if s.supervisor4.Some? then {s.supervisor4.value} else {})
  }

  /** Teacher `t` supervises session `current`, and that session belongs to `schedule`. */
  predicate SupervisesCurrent(m: map<SessionId, Session>, schedule: ScheduleId, current: SessionId, t: TeacherId) {
    current in m && m[current].schedule == schedule && t in SupervisorSlots(m[current])
  }

  /** Teacher `t` holds no supervisor slot in any session of `schedule`. */
  predicate HoldsNoSupervisorSlot(m: map<SessionId, Session>, schedule: ScheduleId, t: TeacherId) {
    forall id | id in m && m[id].schedule == schedule :: t !in SupervisorSlots(m[id])
  }

  predicate Eligible(m: map<SessionId, Session>, schedule: ScheduleId, current: SessionId, t: TeacherId) {
    SupervisesCurrent(m, schedule, current, t) || HoldsNoSupervisorSlot(m, schedule, t)
  }

  /**
   * The rows of the teacher table that a filter keeps, in the order of
   * `teachers`, which stands for the order the database returns.
   */
  function Select(teachers: seq<Teacher>, keep: TeacherId -> bool): (r: seq<Teacher>)
    ensures forall x :: x in r <==> x in teachers && keep(x.id)
    decreases |teachers|
  {
    if teachers == [] then []
    else (if keep(teachers[0].id) then [teachers[0]] else []) + Select(teachers[1..], keep)
  }

  /** Two filters that agree on every id select the same rows. */
  lemma {:induction false} SelectAgrees(teachers: seq<Teacher>, k1: TeacherId -> bool, k2: TeacherId -> bool)
    requires forall x | x in teachers :: k1(x.id) == k2(x.id)
    ensures Select(teachers, k1) == Select(teachers, k2)
    decreases |teachers|
  {
    if teachers != [] {
      assert forall x | x in teachers[1..] :: x in teachers;
      SelectAgrees(teachers[1..], k1, k2);
    }
  }

  function IdSet(d: seq<Teacher>): set<TeacherId> {
    set x | x in d :: x.id
  }

  predicate DistinctIds(d: seq<Teacher>) {
    forall i, j | 0 <= i < j < |d| :: d[i].id != d[j].id
  }

  /**
   * `dict[x.id] = x` on an insertion-ordered dictionary, seen as the
   * sequence of its values: an existing key keeps its place and takes the
   * new value, a new key goes at the end.
   */
  function Upsert(d: seq<Teacher>, x: Teacher): (r: seq<Teacher>)
    ensures x.id in IdSet(d) ==> |r| == |d|
    ensures x.id !in IdSet(d) ==> r == d + [x]
    ensures forall i | 0 <= i < |d| :: r[i].id == d[i].id
    ensures IdSet(r) == IdSet(d) + {x.id}
    ensures DistinctIds(d) ==> DistinctIds(r)
    ensures forall y | y in r :: y in d || y == x
  {
    if exists i | 0 <= i < |d| :: d[i].id == x.id then
      var r := seq(|d|, i requires 0 <= i < |d| => if d[i].id == x.id then x else d[i]);
      UpsertInPlaceIds(d, x, r);
      r
    else
      assert IdSet(d + [x]) == IdSet(d) + {x.id};
      d + [x]
  }

  lemma UpsertInPlaceIds(d: seq<Teacher>, x: Teacher, r: seq<Teacher>)
    requires exists i | 0 <= i < |d| :: d[i].id == x.id
    requires r == seq(|d|, i requires 0 <= i < |d| => if d[i].id == x.id then x else d[i])
    ensures IdSet(r) == IdSet(d) + {x.id}
  {
    var k :| 0 <= k < |d| && d[k].id == x.id;
    assert d[k] in d;
    forall y | y in r ensures y.id in IdSet(d) {
      var i :| 0 <= i < |r| && r[i] == y;
      assert d[i] in d;
    }
    forall t | t in IdSet(d) ensures t in IdSet(r) {
      var y :| y in d && y.id == t;
      var i :| 0 <= i < |d| && d[i] == y;
      assert r[i] in r;
    }
  }

  /**
   * The values of `{x.id: x for x in xs}`, in the dictionary's order: one
   * entry per id, in the order ids first occur.
   */
  function KeyedById(xs: seq<Teacher>): (d: seq<Teacher>)
    ensures DistinctIds(d)
    ensures IdSet(d) == IdSet(xs)
    ensures forall x | x in d :: x in xs
    decreases |xs|
  {
    if xs == [] then []
    else
      var init := KeyedById(xs[..|xs| - 1]);
      var x := xs[|xs| - 1];
      assert xs == xs[..|xs| - 1] + [x];
      assert IdSet(xs) == IdSet(xs[..|xs| - 1]) + {x.id};
      assert forall y | y in xs[..|xs| - 1] :: y in xs;
      Upsert(init, x)
  }

  /** Adding rows after `a` never moves or removes the entries that `a` alone produces. */
  lemma {:induction false} KeyedByIdPrefix(a: seq<Teacher>, b: seq<Teacher>)
    ensures |KeyedById(a)| <= |KeyedById(a + b)|
    ensures forall i | 0 <= i < |KeyedById(a)| :: KeyedById(a + b)[i].id == KeyedById(a)[i].id
    decreases |b|
  {
    if b == [] {
      assert a + b == a;
    } else {
      var b' := b[..|b| - 1];
      KeyedByIdPrefix(a, b');
      assert (a + b)[..|a + b| - 1] == a + b';
    }
  }

  function Entries(d: seq<Teacher>): (r: seq<SupervisorEntry>)
    ensures |r| == |d| && forall i | 0 <= i < |d| :: r[i].id == d[i].id
  {
    seq(|d|, i requires 0 <= i < |d| => SupervisorEntry(d[i].id, Directory.TeacherName(d[i])))
  }

  /** The first query: teachers in a supervisor slot of the current session. */
  function CurrentQuery(m: map<SessionId, Session>, teachers: seq<Teacher>, schedule: ScheduleId, current: SessionId)
    : (r: seq<Teacher>)
    ensures forall x :: x in r <==> x in teachers && SupervisesCurrent(m, schedule, current, x.id)
  {
    Select(teachers, (t: TeacherId) => SupervisesCurrent(m, schedule, current, t))
  }

  /** The second query: teachers in no supervisor slot of the schedule. */
  function FreeQuery(m: map<SessionId, Session>, teachers: seq<Teacher>, schedule: ScheduleId): (r: seq<Teacher>)
    ensures forall x :: x in r <==> x in teachers && HoldsNoSupervisorSlot(m, schedule, x.id)
  {
    Select(teachers, (t: TeacherId) => HoldsNoSupervisorSlot(m, schedule, t))
  }

  /** The teachers of the response, before they are turned into entries. */
  function Listed(m: map<SessionId, Session>, teachers: seq<Teacher>, schedule: ScheduleId, current: SessionId)
    : seq<Teacher>
  {
    KeyedById(CurrentQuery(m, teachers, schedule, current) + FreeQuery(m, teachers, schedule))
  }

  /**
   * `filter_supervisors(request, schedule_id, sessionId)`: not found when
   * the schedule does not exist; otherwise the de-duplicated list.
   */
  function FilterSupervisors(schedules: set<ScheduleId>, m: map<SessionId, Session>, teachers: seq<Teacher>,
                             schedule: ScheduleId, current: SessionId): (r: Result<seq<SupervisorEntry>, LookupError>)
    ensures r.Err? <==> schedule !in schedules
    ensures r.Err? ==> r.error == ScheduleNotFound
  {
    if schedule !in schedules then Err(ScheduleNotFound)
    else
      Ok(Entries(Listed(m, teachers, schedule, current)))
  }

  /** Every eligible teacher of the table appears in the list. */
  lemma EligibleListed(schedules: set<ScheduleId>, m: map<SessionId, Session>, teachers: seq<Teacher>,
                       schedule: ScheduleId, current: SessionId, x: Teacher)
    requires schedule in schedules
    requires x in teachers && Eligible(m, schedule, current, x.id)
    ensures var r := FilterSupervisors(schedules, m, teachers, schedule, current).value;
            exists i | 0 <= i < |r| :: r[i].id == x.id
  {
    var now := CurrentQuery(m, teachers, schedule, current);
    var free := FreeQuery(m, teachers, schedule);
    var d := Listed(m, teachers, schedule, current);
    var r := Entries(d);
    if SupervisesCurrent(m, schedule, current, x.id) {
      assert x in now;
    } else {
      assert x in free;
    }
    assert x in now + free;
    assert x.id in IdSet(now + free);
    var y :| y in d && y.id == x.id;
    var i :| 0 <= i < |d| && d[i] == y;
    assert FilterSupervisors(schedules, m, teachers, schedule, current).value == r;
    assert 0 <= i < |r| && r[i].id == x.id;
  }

  /** Every listed teacher is an eligible teacher of the table. */
  lemma ListedEligible(schedules: set<ScheduleId>, m: map<SessionId, Session>, teachers: seq<Teacher>,
                       schedule: ScheduleId, current: SessionId, i: nat)
    requires schedule in schedules
    requires i < |FilterSupervisors(schedules, m, teachers, schedule, current).value|
    ensures var r := FilterSupervisors(schedules, m, teachers, schedule, current).value;
            exists x | x in teachers :: x.id == r[i].id && Eligible(m, schedule, current, x.id)
  {
    var now := CurrentQuery(m, teachers, schedule, current);
    var free := FreeQuery(m, teachers, schedule);
    var d := Listed(m, teachers, schedule, current);
    assert d[i] in d;
    var x := d[i];
    assert x in now + free;
    assert x in teachers && Eligible(m, schedule, current, x.id);
  }

  /**
   * A teacher of the table is listed exactly when they supervise the
   * current session or hold no supervisor slot anywhere in the schedule.
   */
  lemma ListedExactlyWhenEligible(schedules: set<ScheduleId>, m: map<SessionId, Session>, teachers: seq<Teacher>,
                                  schedule: ScheduleId, current: SessionId, t: TeacherId)
    requires schedule in schedules
    ensures var r := FilterSupervisors(schedules, m, teachers, schedule, current).value;
            (exists i | 0 <= i < |r| :: r[i].id == t)
            <==> (exists x | x in teachers :: x.id == t) && Eligible(m, schedule, current, t)
  {
    var r := FilterSupervisors(schedules, m, teachers, schedule, current).value;
    if i :| 0 <= i < |r| && r[i].id == t {
      ListedEligible(schedules, m, teachers, schedule, current, i);
    }
    if x :| x in teachers && x.id == t && Eligible(m, schedule, current, t) {
      EligibleListed(schedules, m, teachers, schedule, current, x);
    }
  }

  /** A teacher who supervises another session of the schedule, but not the current one, is not offered. */
  lemma SupervisorElsewhereExcluded(schedules: set<ScheduleId>, m: map<SessionId, Session>, teachers: seq<Teacher>,
                                    schedule: ScheduleId, current: SessionId, other: SessionId, t: TeacherId)
    requires schedule in schedules
    requires other in m && m[other].schedule == schedule && t in SupervisorSlots(m[other])
    requires !SupervisesCurrent(m, schedule, current, t)
    ensures forall e | e in FilterSupervisors(schedules, m, teachers, schedule, current).value :: e.id != t
  {
    var r := FilterSupervisors(schedules, m, teachers, schedule, current).value;
    forall e | e in r ensures e.id != t {
      var i :| 0 <= i < |r| && r[i] == e;
      ListedExactlyWhenEligible(schedules, m, teachers, schedule, current, e.id);
    }
  }

  /** No teacher is listed twice. */
  lemma ListedOnce(schedules: set<ScheduleId>, m: map<SessionId, Session>, teachers: seq<Teacher>,
                   schedule: ScheduleId, current: SessionId)
    requires schedule in schedules
    ensures var r := FilterSupervisors(schedules, m, teachers, schedule, current).value;
            forall i, j | 0 <= i < j < |r| :: r[i].id != r[j].id
  {
  }

  /** The supervisors of the current session come before every other listed teacher. */
  lemma CurrentSupervisorsFirst(schedules: set<ScheduleId>, m: map<SessionId, Session>, teachers: seq<Teacher>,
                                schedule: ScheduleId, current: SessionId)
    requires schedule in schedules
    ensures var r := FilterSupervisors(schedules, m, teachers, schedule, current).value;
            forall i, j | 0 <= i < j < |r| ::
              SupervisesCurrent(m, schedule, current, r[j].id) ==> SupervisesCurrent(m, schedule, current, r[i].id)
  {
    var now := CurrentQuery(m, teachers, schedule, current);
    var free := FreeQuery(m, teachers, schedule);
    var d := Listed(m, teachers, schedule, current);
    var p := KeyedById(now);
    var r := Entries(d);
    KeyedByIdPrefix(now, free);
    forall i | 0 <= i < |p| ensures SupervisesCurrent(m, schedule, current, d[i].id) {
      assert p[i] in p;
    }
    forall j | |p| <= j < |d| ensures d[j].id !in IdSet(p) {
      forall k | 0 <= k < |p| ensures p[k].id != d[j].id {
        assert d[k].id == p[k].id;
      }
    }
    forall j | |p| <= j < |d| ensures !SupervisesCurrent(m, schedule, current, d[j].id) {
      var y := d[j];
      assert y in d;
      assert y in teachers;
      assert y.id !in IdSet(now);
      assert y !in now;
    }
  }

  /**
   * Only the supervisor slots of the schedule's own sessions matter: who
   * monitors or judges, and every session of other schedules, can change
   * without changing the list.
   */
  function SupervisorView(m: map<SessionId, Session>, schedule: ScheduleId): map<SessionId, set<TeacherId>> {
    map id | id in m && m[id].schedule == schedule :: SupervisorSlots(m[id])
  }

  lemma OnlySupervisorSlotsMatter(schedules: set<ScheduleId>, m1: map<SessionId, Session>, m2: map<SessionId, Session>,
                                  teachers: seq<Teacher>, schedule: ScheduleId, current: SessionId)
    requires SupervisorView(m1, schedule) == SupervisorView(m2, schedule)
    ensures FilterSupervisors(schedules, m1, teachers, schedule, current)
         == FilterSupervisors(schedules, m2, teachers, schedule, current)
  {
    var v := SupervisorView(m1, schedule);
    forall t ensures SupervisesCurrent(m1, schedule, current, t) == SupervisesCurrent(m2, schedule, current, t) {
      assert (current in v) == (current in m1 && m1[current].schedule == schedule);
      assert (current in v) == (current in m2 && m2[current].schedule == schedule);
    }
    forall t ensures HoldsNoSupervisorSlot(m1, schedule, t) == HoldsNoSupervisorSlot(m2, schedule, t) {
      assert forall id :: (id in v) == (id in m1 && m1[id].schedule == schedule);
      assert forall id :: (id in v) == (id in m2 && m2[id].schedule == schedule);
    }
    SelectAgrees(teachers, (t: TeacherId) => SupervisesCurrent(m1, schedule, current, t), (t: TeacherId) => SupervisesCurrent(m2, schedule, current, t));
    SelectAgrees(teachers, (t: TeacherId) => HoldsNoSupervisorSlot(m1, schedule, t), (t: TeacherId) => HoldsNoSupervisorSlot(m2, schedule, t));
  }
}
