/**
 * The user accounts of the back office (backend/account/models.py): the user
 * table, the student and teacher profiles that hang off a user, and the
 * bookkeeping methods of `User`.
 *
 * A user row is keyed by its uuid, written in its canonical text form; the
 * username is unique. A user may carry a student profile or a teacher
 * profile, and the profiles' `clean` methods keep the two apart.
 */
module Accounts {
  import opened Common
  import Directory

  /** The canonical text of a user's uuid primary key, as `str(user.pk)` gives it. */
  type Uuid = string

  datatype User = User(
    uuid: Uuid,
    username: string,
    passwordHash: string,
    firstName: string,
    lastName: string,
    email: string,
    phoneNumber: string,
    isStaff: bool,
    isActive: bool,
    dateJoined: Date,
    verifyAccount: bool,
    passwordResetAttempts: nat,
    lastPasswordReset: Option<Timestamp>,
    failedLoginAttempts: nat,
    lastFailedLogin: Option<Timestamp>,
    lastLoginIp: Option<string>,
    isLocked: bool)

  /** `User.name`. */
  function UserName(u: User): string {
    Directory.FullName(u.firstName, u.lastName)
  }

  /**
   * What the nullable IP address column stores for an address: the database
   * adapter stores an empty address as null, and any other one as given.
   */
  function StoredAddress(ip: Option<string>): (r: Option<string>)
    ensures r.None? <==> ip.None? || ip.value == []
    ensures r.Some? ==> r == ip
  {
    if ip.Some? && ip.value == [] then None else ip
  }

  /** How `User.__str__` describes a user. */
  datatype Assignment = AssignedTeacher | AssignedStudent | Unassigned

  /** The teacher profile is looked at first, then the student profile. */
  function Classify(hasTeacher: bool, hasStudent: bool): (r: Assignment)
    ensures r == AssignedTeacher <==> hasTeacher
    ensures r == AssignedStudent <==> !hasTeacher && hasStudent
    ensures r == Unassigned <==> !hasTeacher && !hasStudent
  {
    if hasTeacher then AssignedTeacher
    else if hasStudent then AssignedStudent
    else Unassigned
  }

  const TeacherSuffix: string := "تخصیص یافته به عنوان استاد "
  const StudentSuffix: string := "تخصیص یافته به عنوان دانشجو "
  const UnassignedSuffix: string := "تخصیص نیافته "

  function AssignmentText(a: Assignment): string {
    match a
    case AssignedTeacher => TeacherSuffix
    case AssignedStudent => StudentSuffix
    case Unassigned => UnassignedSuffix
  }

  /** `User.__str__`: the email, a dash, and the user's assignment. */
  function UserLabel(email: string, hasTeacher: bool, hasStudent: bool): (r: string)
    ensures email + " - " <= r
    ensures r[|email| + 3..] == AssignmentText(Classify(hasTeacher, hasStudent))
  {
    email + " - " + AssignmentText(Classify(hasTeacher, hasStudent))
  }

  /** Reading the label back after the email gives the assignment it was built from. */
  lemma UserLabelDistinguishes(email: string, t1: bool, s1: bool, t2: bool, s2: bool)
    requires UserLabel(email, t1, s1) == UserLabel(email, t2, s2)
    ensures Classify(t1, s1) == Classify(t2, s2)
  {
    assert AssignmentText(Classify(t1, s1)) == UserLabel(email, t1, s1)[|email| + 3..];
  }

  datatype CleanError = AlreadyTeacher | AlreadyStudent | ProfileExists
  datatype LookupError = UserNotFound

  /** `Student.clean`: a user who already has a teacher profile cannot become a student. */
  function StudentClean(teacherProfiles: set<Uuid>, user: Uuid): (r: Outcome<CleanError>)
    ensures r.Pass? <==> user !in teacherProfiles
    ensures r.Fail? ==> r.error == AlreadyTeacher
  {
    if user in teacherProfiles then Fail(AlreadyTeacher) else Pass
  }

  /** `Teacher.clean`: a user who already has a student profile cannot become a teacher. */
  function TeacherClean(studentProfiles: set<Uuid>, user: Uuid): (r: Outcome<CleanError>)
    ensures r.Pass? <==> user !in studentProfiles
    ensures r.Fail? ==> r.error == AlreadyStudent
  {
    if user in studentProfiles then Fail(AlreadyStudent) else Pass
  }

  /** The user table together with the one-to-one profile relations. */
  class UserTable {
    var rows: map<Uuid, User>
    var studentProfiles: set<Uuid>
    var teacherProfiles: set<Uuid>

    ghost predicate Valid()
      reads this
    {
      && (forall id | id in rows :: rows[id].uuid == id)
      && (forall a, b | a in rows && b in rows && a != b :: rows[a].username != rows[b].username)
      && studentProfiles <= rows.Keys
      && teacherProfiles <= rows.Keys
      && studentProfiles !! teacherProfiles
    }

    constructor ()
      ensures Valid()
      ensures rows == map[] && studentProfiles == {} && teacherProfiles == {}
    {
      rows := map[];
      studentProfiles := {};
      teacherProfiles := {};
    }

    /** `user.deactivate()`: clears `is_active` and changes nothing else. */
    method Deactivate(id: Uuid)
      requires Valid() && id in rows
      modifies this
      ensures Valid()
      ensures rows == old(rows)[id := old(rows)[id].(isActive := false)]
      ensures studentProfiles == old(studentProfiles) && teacherProfiles == old(teacherProfiles)
    {
      rows := rows[id := rows[id].(isActive := false)];
    }

    /** `user.lock_account()`: sets the lock flag and changes nothing else. */
    method LockAccount(id: Uuid)
      requires Valid() && id in rows
      modifies this
      ensures Valid()
      ensures rows == old(rows)[id := old(rows)[id].(isLocked := true)]
      ensures studentProfiles == old(studentProfiles) && teacherProfiles == old(teacherProfiles)
    {
      rows := rows[id := rows[id].(isLocked := true)];
    }

    /**
     * `user.set_last_login_ip(ip)`: the row's address column takes the
     * stored form of the given address, which may be null.
     */
    method SetLastLoginIp(id: Uuid, ip: Option<string>)
      requires Valid() && id in rows
      modifies this
      ensures Valid()
      ensures rows == old(rows)[id := old(rows)[id].(lastLoginIp := StoredAddress(ip))]
      ensures studentProfiles == old(studentProfiles) && teacherProfiles == old(teacherProfiles)
    {
      rows := rows[id := rows[id].(lastLoginIp := StoredAddress(ip))];
    }

    /** `user.increment_reset_attempts()`: one more password-reset attempt. */
    method IncrementResetAttempts(id: Uuid)
      requires Valid() && id in rows
      modifies this
      ensures Valid()
      ensures id in rows && rows[id].passwordResetAttempts == old(rows)[id].passwordResetAttempts + 1
      ensures rows == old(rows)[id := old(rows)[id].(passwordResetAttempts := rows[id].passwordResetAttempts)]
      ensures studentProfiles == old(studentProfiles) && teacherProfiles == old(teacherProfiles)
    {
      rows := rows[id := rows[id].(passwordResetAttempts := rows[id].passwordResetAttempts + 1)];
    }

    /**
     * `user.reset_password(new_password)`: stores the new password's hash
     * (computed by the framework's hasher, a parameter here), sets the reset
     * attempts back to zero and stamps the reset time.
     */
    method ResetPassword(id: Uuid, hashed: string, now: Timestamp)
      requires Valid() && id in rows
      modifies this
      ensures Valid()
      ensures rows == old(rows)[id := old(rows)[id].(passwordHash := hashed, passwordResetAttempts := 0,
                                                     lastPasswordReset := Some(now))]
      ensures studentProfiles == old(studentProfiles) && teacherProfiles == old(teacherProfiles)
    {
      rows := rows[id := rows[id].(passwordHash := hashed, passwordResetAttempts := 0,
                                   lastPasswordReset := Some(now))];
    }

    /**
     * `User.make_verify_user_account(user)`: fetches the user again by uuid
     * and marks the account verified; a uuid with no row is `DoesNotExist`.
     * A second call finds nothing left to change.
     */
    method MakeVerifyUserAccount(id: Uuid) returns (r: Result<User, LookupError>)
      requires Valid()
      modifies this
      ensures Valid()
      ensures id !in old(rows) ==> r == Err(UserNotFound) && rows == old(rows)
      ensures id in old(rows) ==>
                r == Ok(old(rows)[id].(verifyAccount := true)) && rows == old(rows)[id := r.value]
      ensures id in old(rows) && old(rows)[id].verifyAccount ==> rows == old(rows)
      ensures studentProfiles == old(studentProfiles) && teacherProfiles == old(teacherProfiles)
    {
      if id !in rows {
        return Err(UserNotFound);
      }
      var u := rows[id].(verifyAccount := true);
      rows := rows[id := u];
      r := Ok(u);
    }

    /**
     * Saving a new student profile through the admin form: `Student.clean`
     * runs first, then the one-to-one column refuses a second profile.
     */
    method AddStudentProfile(id: Uuid) returns (r: Outcome<CleanError>)
      requires Valid() && id in rows
      modifies this
      ensures Valid()
      ensures rows == old(rows) && teacherProfiles == old(teacherProfiles)
      ensures id in old(teacherProfiles) ==> r == Fail(AlreadyTeacher) && studentProfiles == old(studentProfiles)
      ensures id !in old(teacherProfiles) && id in old(studentProfiles) ==>
                r == Fail(ProfileExists) && studentProfiles == old(studentProfiles)
      ensures id !in old(teacherProfiles) && id !in old(studentProfiles) ==>
                r == Pass && studentProfiles == old(studentProfiles) + {id}
    {
      r := StudentClean(teacherProfiles, id);
      if r.Fail? {
        return;
      }
      if id in studentProfiles {
        return Fail(ProfileExists);
      }
      studentProfiles := studentProfiles + {id};
    }

    /** Saving a new teacher profile through the admin form, guarded by `Teacher.clean`. */
    method AddTeacherProfile(id: Uuid) returns (r: Outcome<CleanError>)
      requires Valid() && id in rows
      modifies this
      ensures Valid()
      ensures rows == old(rows) && studentProfiles == old(studentProfiles)
      ensures id in old(studentProfiles) ==> r == Fail(AlreadyStudent) && teacherProfiles == old(teacherProfiles)
      ensures id !in old(studentProfiles) && id in old(teacherProfiles) ==>
                r == Fail(ProfileExists) && teacherProfiles == old(teacherProfiles)
      ensures id !in old(studentProfiles) && id !in old(teacherProfiles) ==>
                r == Pass && teacherProfiles == old(teacherProfiles) + {id}
    {
      r := TeacherClean(studentProfiles, id);
      if r.Fail? {
        return;
      }
      if id in teacherProfiles {
        return Fail(ProfileExists);
      }
      teacherProfiles := teacherProfiles + {id};
    }

    /** `str(user)` for a stored user. */
    function Label(id: Uuid): (r: string)
      reads this
      requires Valid() && id in rows
      ensures rows[id].email + " - " <= r
      ensures id in teacherProfiles ==> r[|rows[id].email| + 3..] == TeacherSuffix
      ensures id in studentProfiles ==> r[|rows[id].email| + 3..] == StudentSuffix
      ensures id !in teacherProfiles && id !in studentProfiles ==> r[|rows[id].email| + 3..] == UnassignedSuffix
    {
      UserLabel(rows[id].email, id in teacherProfiles, id in studentProfiles)
    }
  }
}
