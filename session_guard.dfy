/**
 * One session per user (backend/account/middleware.py): a key-value store
 * records, for each user, the key of the session that logged in last, and
 * every request of an authenticated user whose own session is not that one
 * is logged out and sent back to the login page.
 *
 * The key-value store is a map from text keys to session keys; the
 * framework's session table is the set of live session keys.
 */
module SessionGuard {
  import opened Common
  import Accounts

  /** The store key under which a user's current session key is kept. */
  function RegistryKey(pk: Accounts.Uuid): (r: string)
    ensures |r| == 13 + |pk| && r[13..] == pk
  {
    "user_session:" + pk
  }

  /** Different users have different store keys. */
  lemma RegistryKeyInjective(p: Accounts.Uuid, q: Accounts.Uuid)
    requires RegistryKey(p) == RegistryKey(q)
    ensures p == q
  {
    assert p == RegistryKey(p)[13..];
  }

  /** What the middleware sees of a request: the authenticated user, if any, and its session key. */
  datatype Request = Request(user: Option<Accounts.Uuid>, sessionKey: Option<string>)

  datatype Decision = PassThrough | ForceLogout

  /** The responses the guard can produce: the wrapped handler's, or a redirect to the login page. */
  datatype Response = Handled | RedirectToLogin(warning: string)

  const OtherDeviceWarning: string := "دستگاه دیگری به حساب کاربری شما وارد شده است"

  /**
   * The rule of `OneSessionPerUserMiddleware.__call__`: an authenticated
   * request is turned away exactly when the store holds a non-empty
   * session key for its user and that key is not the request's own.
   */
  function Decide(registry: map<string, string>, req: Request): (d: Decision)
    ensures d == ForceLogout <==>
              && req.user.Some?
              && RegistryKey(req.user.value) in registry
              && registry[RegistryKey(req.user.value)] != []
              && req.sessionKey != Some(registry[RegistryKey(req.user.value)])
  {
    match req.user
    case None => PassThrough
    case Some(pk) =>
      var key := RegistryKey(pk);
      if key in registry && registry[key] != [] && req.sessionKey != Some(registry[key]) then ForceLogout
      else PassThrough
  }

  /** The recorded session of a user is the only one of theirs that gets through. */
  lemma OnlyRecordedSessionPasses(registry: map<string, string>, pk: Accounts.Uuid, k: string)
    requires RegistryKey(pk) in registry && registry[RegistryKey(pk)] != []
    ensures Decide(registry, Request(Some(pk), Some(k))) == PassThrough <==> k == registry[RegistryKey(pk)]
  {
  }

  /** Anonymous requests, and users with no recorded session, always get through. */
  lemma UnguardedRequestsPass(registry: map<string, string>, req: Request)
    requires req.user.None? || RegistryKey(req.user.value) !in registry
    ensures Decide(registry, req) == PassThrough
  {
  }

  /** The shared state: the key-value store and the framework's live sessions. */
  class SessionState {
    var registry: map<string, string>
    var sessions: set<string>

    constructor ()
      ensures registry == map[] && sessions == {}
    {
      registry := map[];
      sessions := {};
    }
  }

  /**
   * `__call__`: on a forced logout the request's own session is ended and
   * the warning goes with the redirect, without calling the handler;
   * otherwise the handler runs. The store is only read.
   */
  method Handle(st: SessionState, req: Request) returns (resp: Response)
    modifies st
    ensures st.registry == old(st.registry)
    ensures Decide(st.registry, req) == PassThrough ==> resp == Handled && st.sessions == old(st.sessions)
    ensures Decide(st.registry, req) == ForceLogout ==>
              && resp == RedirectToLogin(OtherDeviceWarning)
              && st.sessions == old(st.sessions) - (if req.sessionKey.Some? then {req.sessionKey.value} else {})
  {
    if Decide(st.registry, req) == ForceLogout {
      if req.sessionKey.Some? {
        st.sessions := st.sessions - {req.sessionKey.value};
      }
      return RedirectToLogin(OtherDeviceWarning);
    }
    resp := Handled;
  }
}
