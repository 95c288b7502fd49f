/**
 * The user change list of the admin site (backend/account/admin.py): the
 * list shows only active users, and two bulk actions run one UPDATE over
 * the users selected in it.
 */
module AccountAdmin {
  import opened Accounts

  /** `get_queryset`: the users the change list shows, the active ones. */
  function ChangeList(rows: map<Uuid, User>): (r: set<Uuid>)
    ensures forall id :: id in r <==> id in rows && rows[id].isActive
  {
    set id | id in rows && rows[id].isActive
  }

  /**
   * The rows an action updates: the ticked keys, taken from the change
   * list's own query, so only shown (active) users can be touched.
   */
  function Affected(rows: map<Uuid, User>, selected: set<Uuid>): (r: set<Uuid>)
    ensures r == selected * ChangeList(rows)
  {
    set id | id in selected && id in rows && rows[id].isActive
  }

  /** The rows after `update(failed_login_attempts=0)` over `ids`. */
  function WithFailuresReset(rows: map<Uuid, User>, ids: set<Uuid>): (r: map<Uuid, User>)
    ensures r.Keys == rows.Keys
    ensures forall id | id in rows ::
              r[id] == if id in ids then rows[id].(failedLoginAttempts := 0) else rows[id]
  {
    map id | id in rows :: if id in ids then rows[id].(failedLoginAttempts := 0) else rows[id]
  }

  /** The rows after `update(is_active=False)` over `ids`. */
  function WithDeactivated(rows: map<Uuid, User>, ids: set<Uuid>): (r: map<Uuid, User>)
    ensures r.Keys == rows.Keys
    ensures forall id | id in rows ::
              r[id] == if id in ids then rows[id].(isActive := false) else rows[id]
  {
    map id | id in rows :: if id in ids then rows[id].(isActive := false) else rows[id]
  }

  /** Resetting the counters leaves the change list as it was. */
  lemma ResetKeepsChangeList(rows: map<Uuid, User>, ids: set<Uuid>)
    ensures ChangeList(WithFailuresReset(rows, ids)) == ChangeList(rows)
  {
    var after := WithFailuresReset(rows, ids);
    forall id ensures id in ChangeList(after) <==> id in ChangeList(rows) {
      if id in rows {
        assert after[id].isActive == rows[id].isActive;
      }
    }
  }

  /** Locked users leave the change list, and nobody else does. */
  lemma LockedLeaveChangeList(rows: map<Uuid, User>, ids: set<Uuid>)
    ensures ChangeList(WithDeactivated(rows, ids)) == ChangeList(rows) - ids
  {
    var after := WithDeactivated(rows, ids);
    forall id ensures id in ChangeList(after) <==> id in ChangeList(rows) - ids {
      if id in rows {
        assert after[id].isActive == (rows[id].isActive && id !in ids);
      }
    }
  }

  /** Running the lock action again on the same selection finds nothing to update. */
  lemma SecondLockUpdatesNothing(rows: map<Uuid, User>, selected: set<Uuid>)
    ensures Affected(WithDeactivated(rows, Affected(rows, selected)), selected) == {}
  {
    LockedLeaveChangeList(rows, Affected(rows, selected));
  }

  /**
   * `reset_failed_login_attempts`: every affected user's failed-login
   * counter goes back to zero; the returned count is the number of rows
   * updated, which the action reports to the operator.
   */
  method ResetFailedLoginAttempts(users: UserTable, selected: set<Uuid>) returns (count: nat)
    requires users.Valid()
    modifies users
    ensures users.Valid()
    ensures users.rows == WithFailuresReset(old(users.rows), Affected(old(users.rows), selected))
    ensures count == |Affected(old(users.rows), selected)|
    ensures users.studentProfiles == old(users.studentProfiles)
    ensures users.teacherProfiles == old(users.teacherProfiles)
  {
    var ids := Affected(users.rows, selected);
    users.rows := WithFailuresReset(users.rows, ids);
    count := |ids|;
  }

  /**
   * `lock_user_account`: every affected user becomes inactive, and so
   * drops out of the change list; the returned count is the number of rows
   * updated.
   */
  method LockUserAccount(users: UserTable, selected: set<Uuid>) returns (count: nat)
    requires users.Valid()
    modifies users
    ensures users.Valid()
    ensures users.rows == WithDeactivated(old(users.rows), Affected(old(users.rows), selected))
    ensures ChangeList(users.rows) == ChangeList(old(users.rows)) - selected
    ensures count == |Affected(old(users.rows), selected)|
    ensures users.studentProfiles == old(users.studentProfiles)
    ensures users.teacherProfiles == old(users.teacherProfiles)
  {
    var ids := Affected(users.rows, selected);
    LockedLeaveChangeList(users.rows, ids);
    assert ChangeList(users.rows) - ids == ChangeList(users.rows) - selected;
    users.rows := WithDeactivated(users.rows, ids);
    count := |ids|;
  }
}
