/**
 * The admin login of the custom admin site
 * (backend/account/custom_admin.py): a successful login ends the session
 * the user last logged in with, and records the new session in the
 * key-value store, so that the one-session guard turns the old one away.
 *
 * Checking the credentials is the framework's; its answer is a parameter:
 * the authenticated user's key and whether the account is active, or
 * nothing. So is the key of the session the framework creates.
 */
module CustomAdmin {
  import opened Common
  import Accounts
  import opened SessionGuard
  import Signals

  datatype AuthenticatedUser = AuthenticatedUser(pk: Accounts.Uuid, isActive: bool)

  /**
   * The admin's own login page, the redirect to the admin index after a
   * login, or the error raised when the store is asked to record a missing
   * session key.
   */
  datatype LoginResponse = DefaultLogin | RedirectToIndex | StoreError

  /** The sessions left once the user's recorded one, if any, is deleted. */
  function WithoutRecorded(registry: map<string, string>, sessions: set<string>, pk: Accounts.Uuid): (r: set<string>)
    ensures RegistryKey(pk) in registry && registry[RegistryKey(pk)] != [] ==>
              r == sessions - {registry[RegistryKey(pk)]}
    ensures RegistryKey(pk) !in registry || registry[RegistryKey(pk)] == [] ==> r == sessions
  {
    var key := RegistryKey(pk);
    if key in registry && registry[key] != [] then sessions - {registry[key]} else sessions
  }

  /**
   * `CustomAdminSite.login`. Anything but a POST, and a POST whose
   * credentials fail or belong to an inactive user, falls through to the
   * default login view with nothing changed. Otherwise the user's recorded
   * session is deleted and the framework's `login` runs on the request's
   * session, which `prior` says who, if anyone, is already logged in on
   * (a session someone is logged in on always has a key):
   * - nobody: the session moves to the fresh key `freshKey`, which the
   *   store then records, and the response redirects to the admin index;
   * - another user: the session is flushed and has no key, so recording
   *   it in the store fails; the store keeps the deleted session's key;
   * - the same user: the key is kept and recorded again, even when it is
   *   the recorded session that was just deleted.
   */
  method Login(st: SessionState, isPost: bool, auth: Option<AuthenticatedUser>, prior: Option<Accounts.Uuid>,
               requestKey: Option<string>, freshKey: string) returns (resp: LoginResponse)
    requires prior.Some? ==> requestKey.Some?
    requires freshKey != []
    modifies st
    ensures !isPost || auth.None? || !auth.value.isActive ==>
              resp == DefaultLogin && st.registry == old(st.registry) && st.sessions == old(st.sessions)
    ensures isPost && auth.Some? && auth.value.isActive && prior.None? ==>
              && resp == RedirectToIndex
              && st.registry == old(st.registry)[RegistryKey(auth.value.pk) := freshKey]
              && st.sessions == WithoutRecorded(old(st.registry), old(st.sessions), auth.value.pk)
                                - (if requestKey.Some? then {requestKey.value} else {}) + {freshKey}
    ensures isPost && auth.Some? && auth.value.isActive && prior.Some? && prior.value != auth.value.pk ==>
              && resp == StoreError
              && st.registry == old(st.registry)
              && st.sessions == WithoutRecorded(old(st.registry), old(st.sessions), auth.value.pk) - {requestKey.value}
    ensures isPost && auth.Some? && auth.value.isActive && prior == Some(auth.value.pk) ==>
              && resp == RedirectToIndex
              && st.registry == old(st.registry)[RegistryKey(auth.value.pk) := requestKey.value]
              && st.sessions == WithoutRecorded(old(st.registry), old(st.sessions), auth.value.pk)
  {
    if !(isPost && auth.Some? && auth.value.isActive) {
      return DefaultLogin;
    }
    var key := RegistryKey(auth.value.pk);
    st.sessions := WithoutRecorded(st.registry, st.sessions, auth.value.pk);
    if prior.None? {
      if requestKey.Some? {
        st.sessions := st.sessions - {requestKey.value};
      }
      st.sessions := st.sessions + {freshKey};
      st.registry := st.registry[key := freshKey];
      resp := RedirectToIndex;
    } else if prior.value != auth.value.pk {
      st.sessions := st.sessions - {requestKey.value};
      resp := StoreError;
    } else {
      st.registry := st.registry[key := requestKey.value];
      resp := RedirectToIndex;
    }
  }

  /**
   * Logging in again on the very session the store records for the user
   * deletes that session while the store goes on naming it.
   */
  lemma ReloginOnRecordedSessionEndsIt(registry: map<string, string>, sessions: set<string>, pk: Accounts.Uuid)
    requires RegistryKey(pk) in registry && registry[RegistryKey(pk)] != []
    ensures registry[RegistryKey(pk)] !in WithoutRecorded(registry, sessions, pk)
  {
  }

  /**
   * After a user logs in with session `newKey`, the guard lets through that
   * session of theirs and no other, and decides for every other user as it
   * did before.
   */
  lemma LoginLeavesOnlyNewSession(registry: map<string, string>, pk: Accounts.Uuid, newKey: string, req: Request)
    requires newKey != [] && req.user.Some?
    ensures var after := registry[RegistryKey(pk) := newKey];
            && (req.user.value == pk ==> (Decide(after, req) == PassThrough <==> req.sessionKey == Some(newKey)))
            && (req.user.value != pk ==> Decide(after, req) == Decide(registry, req))
  {
    if req.user.value != pk && RegistryKey(req.user.value) == RegistryKey(pk) {
      RegistryKeyInjective(req.user.value, pk);
    }
  }

  /**
   * A failed POST to the admin login is checked twice: once by the site's
   * own `authenticate` call, and once more by the framework's login form
   * that it falls through to, which authenticates again whenever a username
   * and a password were typed. Each failed check fires the failed-login
   * signal, so each such login counts two failures against a known user.
   */
  const FailuresPerFailedLogin: nat := 2

  /**
   * From a clean record, `k` failed admin logins leave twice as many
   * failures counted, and the third such login, not the fifth, locks the
   * account.
   */
  lemma ThirdFailedAdminLoginLocks(u: Accounts.User, k: nat, now: Timestamp)
    requires u.failedLoginAttempts == 0 && !u.isLocked && 1 <= k
    ensures Signals.RecordFailures(u, FailuresPerFailedLogin * k, now).failedLoginAttempts == 2 * k
    ensures Signals.RecordFailures(u, FailuresPerFailedLogin * k, now).isLocked <==> k >= 3
  {
    Signals.FailuresAccumulate(u, FailuresPerFailedLogin * k, now);
  }
}
