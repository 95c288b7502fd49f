/**
 * The university directory: educational groups, students and teachers
 * (backend/university_adminstration/models.py).
 *
 * Educational groups live in a table whose (field of study, role) pair is
 * unique; students live in a table whose rows are written once and never
 * modified; teachers are plain records that the defense-session store refers
 * to by id.
 */
module Directory {
  import opened Common

  type GroupId = nat
  type TeacherId = nat
  /** Primary keys handed out by the database start at 1, so a stored key is never falsy. */
  type StudentId = n: nat | 1 <= n witness 1

  /** `first_name + " " + last_name`, the `name` property of students, teachers and users. */
  function FullName(first: string, last: string): (r: string)
    ensures |r| == |first| + 1 + |last|
    ensures r[..|first|] == first && r[|first|] == ' ' && r[|first| + 1..] == last
  {
    first + " " + last
  }

  // ---------------------------------------------------------------------------
  // Educational groups

  /** The choice table of `field_of_study`: code to Persian label. */
  const FieldOfStudyChoices: map<string, string> :=
    map["CS" := "کامپیوتر", "MAT" := "ریاضی", "STA" := "آمار"]

  /** The choice table of `role`: code to Persian label. */
  const RoleChoices: map<string, string> :=
    map["Ph.D." := "دکتری", "Master" := "ارشد"]

  datatype EducationalGroup = EducationalGroup(fieldOfStudy: string, role: string)

  /** Both codes are among the declared choices. */
  predicate IsChoiceGroup(g: EducationalGroup) {
    g.fieldOfStudy in FieldOfStudyChoices && g.role in RoleChoices
  }

  /** The literal that opens every group label. */
  const GroupPrefix: string := " گروه "

  /**
   * `EducationalGroup.__str__`: looks both codes up in the choice tables; a
   * code outside them is a `KeyError`, modelled as `None`.
   */
  function GroupLabel(g: EducationalGroup): (r: Option<string>)
    ensures r.Some? <==> IsChoiceGroup(g)
    ensures r.Some? ==> GroupPrefix + FieldOfStudyChoices[g.fieldOfStudy] <= r.value
    ensures r.Some? ==> r.value[|GroupPrefix + FieldOfStudyChoices[g.fieldOfStudy]|..] == " - " + RoleChoices[g.role]
  {
    if IsChoiceGroup(g) then
      Some(GroupPrefix + FieldOfStudyChoices[g.fieldOfStudy] + " - " + RoleChoices[g.role])
    else None
  }

  /**
   * Different groups have different labels: the field label's first letter
   * tells the fields apart, and the role label after " - " the roles.
   */
  lemma GroupLabelInjective(g1: EducationalGroup, g2: EducationalGroup)
    requires GroupLabel(g1).Some? && GroupLabel(g1) == GroupLabel(g2)
    ensures g1 == g2
  {
    var l := GroupLabel(g1).value;
    var f1 := FieldOfStudyChoices[g1.fieldOfStudy];
    var f2 := FieldOfStudyChoices[g2.fieldOfStudy];
    assert l[|GroupPrefix|] == f1[0] && l[|GroupPrefix|] == f2[0];
    assert g1.fieldOfStudy == g2.fieldOfStudy;
    var tail := l[|GroupPrefix + f1|..];
    assert tail == " - " + RoleChoices[g1.role] && tail == " - " + RoleChoices[g2.role];
    assert RoleChoices[g1.role] == tail[3..] == RoleChoices[g2.role];
  }

  /** The `unique_field_role` constraint: no two rows hold the same (field_of_study, role). */
  ghost predicate UniqueFieldRole(groups: map<GroupId, EducationalGroup>) {
    forall a, b | a in groups && b in groups && a != b :: groups[a] != groups[b]
  }

  datatype SaveError =
    | InvalidChoice
    | DuplicateFieldRole
    | CannotModify
    | DuplicateStudentColumn

  /** The educational-group table. */
  class GroupTable {
    var groups: map<GroupId, EducationalGroup>
    var nextId: GroupId

    ghost predicate Valid()
      reads this
    {
      && UniqueFieldRole(groups)
      && (forall id | id in groups :: id < nextId && IsChoiceGroup(groups[id]))
    }

    constructor ()
      ensures Valid() && groups == map[]
    {
      groups := map[];
      nextId := 1;
    }

    /**
     * Saving a new group through the admin form: codes outside the choices
     * are refused, and so is a second row with the same pair.
     */
    method Insert(g: EducationalGroup) returns (r: Result<GroupId, SaveError>)
      requires Valid()
      modifies this
      ensures Valid()
      ensures !IsChoiceGroup(g) ==> r == Err(InvalidChoice) && groups == old(groups)
      ensures IsChoiceGroup(g) && g in old(groups).Values ==>
                r == Err(DuplicateFieldRole) && groups == old(groups)
      ensures IsChoiceGroup(g) && g !in old(groups).Values ==>
                r.Ok? && r.value !in old(groups) && groups == old(groups)[r.value := g]
    {
      if !IsChoiceGroup(g) {
        return Err(InvalidChoice);
      }
      if g in groups.Values {
        return Err(DuplicateFieldRole);
      }
      r := Ok(nextId);
      groups := groups[nextId := g];
      nextId := nextId + 1;
    }
  }

  /** An injective map has as many distinct values as keys. */
  lemma {:induction false} InjectiveValuesCount<K, V>(m: map<K, V>)
    requires forall a, b | a in m && b in m && a != b :: m[a] != m[b]
    ensures |m.Values| == |m.Keys|
    decreases |m.Keys|
  {
    if m.Keys != {} {
      var k :| k in m;
      var rest := m - {k};
      InjectiveValuesCount(rest);
      assert m.Keys == rest.Keys + {k};
      assert m.Values == rest.Values + {m[k]};
      assert m[k] !in rest.Values;
    }
  }

  lemma {:induction false} SubsetCount<T>(a: set<T>, b: set<T>)
    requires a <= b
    ensures |a| <= |b|
    decreases |b|
  {
    if a != {} {
      var x :| x in a;
      SubsetCount(a - {x}, b - {x});
    }
  }

  /** The unique pair and the choice tables together allow at most six groups. */
  lemma AtMostSixGroups(groups: map<GroupId, EducationalGroup>)
    requires UniqueFieldRole(groups)
    requires forall id | id in groups :: IsChoiceGroup(groups[id])
    ensures |groups| <= 6
  {
    InjectiveValuesCount(groups);
    var six := {
      EducationalGroup("CS", "Ph.D."), EducationalGroup("CS", "Master"),
      EducationalGroup("MAT", "Ph.D."), EducationalGroup("MAT", "Master"),
      EducationalGroup("STA", "Ph.D."), EducationalGroup("STA", "Master")};
    assert groups.Values <= six;
    SubsetCount(groups.Values, six);
    assert |groups.Keys| == |groups|;
  }

  // ---------------------------------------------------------------------------
  // Students

  datatype Student = Student(
    firstName: string,
    lastName: string,
    email: Option<string>,
    phoneNumber: string,
    studentNumber: string,
    educationalGroup: Option<GroupId>,
    role: string,
    status: string,
    admissionYear: nat,
    gender: Option<string>,
    militaryStatus: Option<string>,
    programType: Option<string>)

  function StudentName(s: Student): string {
    FullName(s.firstName, s.lastName)
  }

  const MrTitle: string := "آقای "
  const MsTitle: string := "خانم "

  /**
   * `Student.__str__`: "آقای " before the name of a male student and
   * "خانم " before that of a female one; for any other gender the local
   * `name` is never bound and the call fails, modelled as `None`.
   */
  function StudentLabel(s: Student): (r: Option<string>)
    ensures r.Some? <==> s.gender == Some("Male") || s.gender == Some("Female")
    ensures s.gender == Some("Male") ==>
              MrTitle + StudentName(s) <= r.value && |r.value| == |MrTitle + StudentName(s)| + 1
              && r.value[|r.value| - 1] == ' '
    ensures s.gender == Some("Female") ==>
              MsTitle + StudentName(s) <= r.value && |r.value| == |MsTitle + StudentName(s)| + 2
              && r.value[|r.value| - 2..] == "  "
  {
    if s.gender == Some("Male") then Some(MrTitle + StudentName(s) + " ")
    else if s.gender == Some("Female") then Some(MsTitle + StudentName(s) + "  ")
    else None
  }

  /** Two students that the table's unique columns (student_number, phone_number, email) keep apart. */
  predicate SharesUniqueColumn(a: Student, b: Student) {
    a.studentNumber == b.studentNumber || a.phoneNumber == b.phoneNumber
    || (a.email.Some? && a.email == b.email)
  }

  /** The student table; rows are written once. */
  class StudentTable {
    var rows: map<StudentId, Student>
    var nextId: StudentId

    ghost predicate Valid()
      reads this
    {
      && (forall id | id in rows :: id < nextId)
      && (forall a, b | a in rows && b in rows && a != b :: !SharesUniqueColumn(rows[a], rows[b]))
    }

    constructor ()
      ensures Valid() && rows == map[]
    {
      rows := map[];
      nextId := 1;
    }

    /**
     * `Student.save`: an object that already has a primary key raises
     * `ValueError` and nothing is written, whatever its fields now hold;
     * an object without one is inserted, unless a unique column clashes.
     */
    method Save(s: Student, pk: Option<StudentId>) returns (r: Result<StudentId, SaveError>)
      requires Valid()
      modifies this
      ensures Valid()
      ensures pk.Some? ==> r == Err(CannotModify) && rows == old(rows)
      ensures pk.None? && (exists id | id in old(rows) :: SharesUniqueColumn(s, old(rows)[id])) ==>
                r == Err(DuplicateStudentColumn) && rows == old(rows)
      ensures pk.None? && (forall id | id in old(rows) :: !SharesUniqueColumn(s, old(rows)[id])) ==>
                r.Ok? && r.value !in old(rows) && rows == old(rows)[r.value := s]
    {
      if pk.Some? {
        return Err(CannotModify);
      }
      if exists id | id in rows :: SharesUniqueColumn(s, rows[id]) {
        return Err(DuplicateStudentColumn);
      }
      r := Ok(nextId);
      rows := rows[nextId := s];
      nextId := nextId + 1;
    }
  }

  // ---------------------------------------------------------------------------
  // Teachers

  datatype Teacher = Teacher(
    id: TeacherId,
    firstName: string,
    lastName: string,
    email: string,
    phoneNumber: string,
    nationalCode: string,
    facultyId: string,
    degree: string)

  /** `Teacher.name`, which is also what `Teacher.__str__` returns. */
  function TeacherName(t: Teacher): string {
    FullName(t.firstName, t.lastName)
  }
}
