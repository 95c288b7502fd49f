/**
 * The login signal handlers (backend/account/signals.py): recording the
 * client address of a successful login, and counting failed logins towards
 * the lock threshold.
 */
module Signals {
  import opened Common
  import opened Accounts

  /** A failed login locks the account once this many have been counted. */
  const LockThreshold: nat := 5

  /** The messages the failed-login handler queues for the request. */
  datatype Message = InvalidCredentials | AccountLocked

  // ---------------------------------------------------------------------------
  // Client address

  /** `header.split(',')[0]`: the text before the first comma, untrimmed. */
  function FirstField(header: string): (r: string)
    ensures r <= header
    ensures ',' !in r
    ensures |r| < |header| ==> header[|r|] == ','
    decreases |header|
  {
    if header == [] || header[0] == ',' then [] else [header[0]] + FirstField(header[1..])
  }

  /** The first field of a list is the text written before its first separator. */
  lemma {:induction false} FirstFieldOfList(first: string, rest: string)
    requires ',' !in first
    ensures FirstField(first + "," + rest) == first
    decreases |first|
  {
    if first != [] {
      assert (first + "," + rest)[1..] == first[1..] + "," + rest;
      FirstFieldOfList(first[1..], rest);
    }
  }

  /**
   * The address recorded at login: the first entry of X-Forwarded-For when
   * that header is present and non-empty, otherwise REMOTE_ADDR, which may
   * itself be missing.
   */
  function ClientIp(forwardedFor: Option<string>, remoteAddr: Option<string>): (r: Option<string>)
    ensures forwardedFor.None? || forwardedFor.value == [] ==> r == remoteAddr
    ensures forwardedFor.Some? && forwardedFor.value != [] ==>
              && r.Some? && r.value <= forwardedFor.value && ',' !in r.value
              && (|r.value| < |forwardedFor.value| ==> forwardedFor.value[|r.value|] == ',')
  {
    if forwardedFor.Some? && forwardedFor.value != [] then Some(FirstField(forwardedFor.value))
    else remoteAddr
  }

  /**
   * A forwarded header that opens with a comma has an empty first field, so
   * the login records a null address, whatever REMOTE_ADDR says.
   */
  lemma CommaFirstHeaderStoresNull(rest: string, remoteAddr: Option<string>)
    ensures StoredAddress(ClientIp(Some("," + rest), remoteAddr)) == None
  {
    FirstFieldOfList([], rest);
    assert [] + "," + rest == "," + rest;
  }

  /** `update_last_login_ip`: on a successful login, the user's row takes the client address. */
  method UpdateLastLoginIp(users: UserTable, id: Uuid, forwardedFor: Option<string>, remoteAddr: Option<string>)
    requires users.Valid() && id in users.rows
    modifies users
    ensures users.Valid()
    ensures users.rows == old(users.rows)[id := old(users.rows)[id].(lastLoginIp := StoredAddress(ClientIp(forwardedFor, remoteAddr)))]
    ensures users.studentProfiles == old(users.studentProfiles)
    ensures users.teacherProfiles == old(users.teacherProfiles)
  {
    users.SetLastLoginIp(id, ClientIp(forwardedFor, remoteAddr));
  }

  // ---------------------------------------------------------------------------
  // Failed logins

  /**
   * What one failed login does to a known user's row: one more failed
   * attempt, stamped with the clock, and the lock flag set once the count
   * reaches the threshold.
   */
  function RecordFailure(u: User, now: Timestamp): (r: User)
    ensures r.failedLoginAttempts == u.failedLoginAttempts + 1
    ensures r.lastFailedLogin == Some(now)
    ensures r.isLocked <==> u.isLocked || r.failedLoginAttempts >= LockThreshold
    ensures r.(failedLoginAttempts := u.failedLoginAttempts, lastFailedLogin := u.lastFailedLogin,
               isLocked := u.isLocked) == u
  {
    var counted := u.(failedLoginAttempts := u.failedLoginAttempts + 1, lastFailedLogin := Some(now));
    if counted.failedLoginAttempts >= LockThreshold then counted.(isLocked := true) else counted
  }

  /** `n` failed logins in a row, all at time `now`. */
  function RecordFailures(u: User, n: nat, now: Timestamp): User
    decreases n
  {
    if n == 0 then u else RecordFailure(RecordFailures(u, n - 1, now), now)
  }

  /**
   * After `n` failures the counter has grown by exactly `n`, and an account
   * that was not locked is locked exactly when the counter has reached the
   * threshold.
   */
  lemma {:induction false} FailuresAccumulate(u: User, n: nat, now: Timestamp)
    requires 1 <= n
    ensures RecordFailures(u, n, now).failedLoginAttempts == u.failedLoginAttempts + n
    ensures RecordFailures(u, n, now).isLocked <==> u.isLocked || u.failedLoginAttempts + n >= LockThreshold
    decreases n
  {
    if n > 1 {
      FailuresAccumulate(u, n - 1, now);
    }
  }

  /** From a clean record, the fifth failure is the first that locks the account. */
  lemma FifthFailureLocks(u: User, n: nat, now: Timestamp)
    requires u.failedLoginAttempts == 0 && !u.isLocked && 1 <= n
    ensures RecordFailures(u, n, now).isLocked <==> n >= 5
  {
    FailuresAccumulate(u, n, now);
  }

  /** The row of the user with this username, when there is one. */
  predicate HasUsername(rows: map<Uuid, User>, username: string) {
    exists id | id in rows :: rows[id].username == username
  }

  /**
   * `handle_failed_login`: an absent or empty username changes nothing; an
   * unknown username queues the invalid-credentials message; otherwise the
   * named user's row records the failure, and the lock message is queued
   * when the new count reaches the threshold. No other row changes.
   */
  method HandleFailedLogin(users: UserTable, username: Option<string>, now: Timestamp) returns (msgs: seq<Message>)
    requires users.Valid()
    modifies users
    ensures users.Valid()
    ensures users.studentProfiles == old(users.studentProfiles)
    ensures users.teacherProfiles == old(users.teacherProfiles)
    ensures username.None? || username.value == [] ==> msgs == [] && users.rows == old(users.rows)
    ensures username.Some? && username.value != [] && !HasUsername(old(users.rows), username.value) ==>
              msgs == [InvalidCredentials] && users.rows == old(users.rows)
    ensures username.Some? && username.value != [] && HasUsername(old(users.rows), username.value) ==>
              exists id | id in old(users.rows) && old(users.rows)[id].username == username.value ::
                && users.rows == old(users.rows)[id := RecordFailure(old(users.rows)[id], now)]
                && (msgs == [AccountLocked] <==> users.rows[id].failedLoginAttempts >= LockThreshold)
                && (msgs == [] <==> users.rows[id].failedLoginAttempts < LockThreshold)
  {
    if username.None? || username.value == [] {
      return [];
    }
    if !HasUsername(users.rows, username.value) {
      return [InvalidCredentials];
    }
    var id :| id in users.rows && users.rows[id].username == username.value;
    var u := RecordFailure(users.rows[id], now);
    users.rows := users.rows[id := u];
    msgs := if u.failedLoginAttempts >= LockThreshold then [AccountLocked] else [];
  }
}
