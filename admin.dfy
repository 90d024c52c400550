/** The user-management page of `src/app/admin/page.tsx`: the status
    filter over the user list, the pending counter, which controls each row
    offers, and the four action handlers around the registry calls. */
module AdminPage {
  import opened Wrappers
  import opened Types
  import opened Sorting
  import Users
  import opened Backend

  datatype StatusFilter = All | Only(status: ApprovalStatus)

  predicate Passes(u: AppUser, f: StatusFilter) {
    f.All? || u.status == f.status
  }

  function StatusTest(f: StatusFilter): AppUser -> bool {
    u => Passes(u, f)
  }

  /** `filteredUsers`: "all" keeps the list, any other choice keeps exactly
      the users with that status, each as often as it occurs, in order. */
  function FilterUsers(users: seq<AppUser>, f: StatusFilter): (r: seq<AppUser>)
    ensures f.All? ==> r == users
    ensures forall u :: multiset(r)[u] == if Passes(u, f) then multiset(users)[u] else 0
    ensures Subsequence(r, users)
  {
    FilterKeepsOrder(users, StatusTest(f));
    if f.All? then FilterKeepsAll(users, StatusTest(f)); Filter(users, StatusTest(f))
    else Filter(users, StatusTest(f))
  }

  /** `pendingCount`. */
  function PendingCount(users: seq<AppUser>): nat {
    if users == [] then 0 else (if users[0].status == Pending then 1 else 0) + PendingCount(users[1..])
  }

  /** The counter in the header is the length of the "pending" tab. */
  lemma {:induction false} PendingCountIsPendingTab(users: seq<AppUser>)
    ensures PendingCount(users) == |FilterUsers(users, Only(Pending))|
  {
    if users != [] {
      var keep := StatusTest(Only(Pending));
      PendingCountIsPendingTab(users[1..]);
      assert keep(users[0]) <==> users[0].status == Pending;
      assert FilterUsers(users[1..], Only(Pending)) == Filter(users[1..], keep);
      assert FilterUsers(users, Only(Pending)) == Filter(users, keep)
        == (if keep(users[0]) then [users[0]] else []) + Filter(users[1..], keep);
    }
  }

  /** What one row of the table offers. `acting` is the signed-in admin's
      uid (absent while signed out), `busy` the uid in `actionLoading`. */
  datatype RowControls = RowControls(
    approve: bool,
    reject: bool,
    revoke: bool,
    roleSelect: bool,
    roleSelectEnabled: bool,
    buttonsEnabled: bool)

  function Controls(u: AppUser, acting: Option<string>, busy: Option<string>): RowControls {
    RowControls(
      u.status == Pending || u.status == Rejected,
      u.status == Pending,
      u.status == Approved && acting != Some(u.uid),
      u.status == Approved,
      !(busy == Some(u.uid) || acting == Some(u.uid)),
      busy != Some(u.uid))
  }

  /** The controls by status: a pending user can be approved or rejected,
      an approved one revoked (unless it is the acting admin) and re-roled,
      a rejected one approved again. Buttons are disabled only on the row
      whose action is running. */
  lemma ControlsByStatus(u: AppUser, acting: Option<string>, busy: Option<string>)
    ensures var c := Controls(u, acting, busy);
      && (u.status == Pending ==> c.approve && c.reject && !c.revoke && !c.roleSelect)
      && (u.status == Approved ==> !c.approve && !c.reject && c.roleSelect && (c.revoke <==> acting != Some(u.uid)))
      && (u.status == Rejected ==> c.approve && !c.reject && !c.revoke && !c.roleSelect)
      && (c.buttonsEnabled <==> busy != Some(u.uid))
  {
  }

  /** An admin can neither revoke their own access nor change their own
      role from the table; every other approved user can be revoked. */
  lemma SelfProtection(u: AppUser, busy: Option<string>)
    ensures !Controls(u, Some(u.uid), busy).revoke
    ensures !Controls(u, Some(u.uid), busy).roleSelectEnabled
    ensures forall other | other != u.uid :: Controls(u, Some(other), busy).revoke == (u.status == Approved)
  {
  }

  /** Every row other than the admin's own approved row offers an action
      that moves the user to another status. */
  lemma EveryOtherRowActionable(u: AppUser, acting: Option<string>, busy: Option<string>)
    requires !(u.status == Approved && acting == Some(u.uid))
    ensures var c := Controls(u, acting, busy); c.approve || c.revoke
  {
  }

  /** The page's state. */
  class AdminPanel {
    var users: seq<AppUser>
    var loading: bool
    var filter: StatusFilter
    var actionLoading: Option<string>

    constructor ()
      ensures users == [] && loading && filter == All && actionLoading == None
    {
      users, loading, filter, actionLoading := [], true, All, None;
    }

    function Shown(): seq<AppUser>
      reads this
    {
      FilterUsers(users, filter)
    }

    /** `fetchUsers`: the list becomes every registry record, newest first;
        a failing read keeps the old list. Loading ends either way. */
    method FetchUsers(store: Store, readFails: bool)
      requires store.Valid()
      modifies this`users, this`loading
      ensures !loading
      ensures readFails ==> users == old(users)
      ensures !readFails ==> (forall u :: u in users <==> u in store.users.Values) && SortedDesc(users, CreatedAt) && NoDup(users)
    {
      if !readFails {
        users := store.GetAllUsers();
      }
      loading := false;
    }

    /** `handleApprove`, whose role defaults to owner. Signed out, nothing
        happens; otherwise the record is approved by the acting admin, the
        list is read again when that succeeded, and `actionLoading` is
        cleared whatever happened. `writeFails` is a write the backend
        rejects, which is only logged. */
    method HandleApprove(store: Store, acting: Option<string>, uid: string, role: Option<UserRole>, writeFails: bool, readFails: bool)
      requires store.Valid()
      modifies this`users, this`loading, this`actionLoading, store`users, store`clock
      ensures store.Valid()
      ensures acting.None? ==> store.users == old(store.users) && actionLoading == old(actionLoading) && users == old(users)
      ensures acting.Some? ==> actionLoading == None
      ensures acting.Some? && (writeFails || uid !in old(store.users)) ==> store.users == old(store.users) && users == old(users)
      ensures acting.Some? && !writeFails && uid in old(store.users) ==>
        store.users == old(store.users)[uid := Users.Approve(old(store.users[uid]), acting.value, role.GetOr(Owner), old(store.clock))]
      ensures acting.Some? && !writeFails && uid in old(store.users) && !readFails ==> forall u :: u in users <==> u in store.users.Values
      ensures acting.Some? && !writeFails && uid in old(store.users) && readFails ==> users == old(users)
      ensures acting.Some? && !writeFails && uid in old(store.users) ==> !loading
      ensures acting.None? || writeFails || uid !in old(store.users) ==> loading == old(loading)
    {
      if acting.None? {
        return;
      }
      actionLoading := Some(uid);
      if !writeFails {
        var o := store.ApproveUser(uid, acting.value, role.GetOr(Owner));
        if o.Done? {
          FetchUsers(store, readFails);
        }
      }
      actionLoading := None;
    }

    /** `handleReject`. */
    method HandleReject(store: Store, uid: string, writeFails: bool, readFails: bool)
      requires store.Valid()
      modifies this`users, this`loading, this`actionLoading, store`users, store`clock
      ensures store.Valid()
      ensures actionLoading == None
      ensures writeFails || uid !in old(store.users) ==> store.users == old(store.users) && users == old(users)
      ensures !writeFails && uid in old(store.users) ==> store.users == old(store.users)[uid := Users.Reject(old(store.users[uid]), old(store.clock))]
      ensures !writeFails && uid in old(store.users) && !readFails ==> forall u :: u in users <==> u in store.users.Values
      ensures !writeFails && uid in old(store.users) && readFails ==> users == old(users)
      ensures !writeFails && uid in old(store.users) ==> !loading
      ensures writeFails || uid !in old(store.users) ==> loading == old(loading)
    {
      actionLoading := Some(uid);
      if !writeFails {
        var o := store.RejectUser(uid);
        if o.Done? {
          FetchUsers(store, readFails);
        }
      }
      actionLoading := None;
    }

    /** `handleRoleChange`, from the role selector. */
    method HandleRoleChange(store: Store, uid: string, role: UserRole, writeFails: bool, readFails: bool)
      requires store.Valid()
      modifies this`users, this`loading, this`actionLoading, store`users, store`clock
      ensures store.Valid()
      ensures actionLoading == None
      ensures writeFails || uid !in old(store.users) ==> store.users == old(store.users) && users == old(users)
      ensures !writeFails && uid in old(store.users) ==>
        store.users == old(store.users)[uid := Users.WithUserRole(old(store.users[uid]), role, old(store.clock))]
      ensures !writeFails && uid in old(store.users) && !readFails ==> forall u :: u in users <==> u in store.users.Values
      ensures !writeFails && uid in old(store.users) && readFails ==> users == old(users)
      ensures !writeFails && uid in old(store.users) ==> !loading
      ensures writeFails || uid !in old(store.users) ==> loading == old(loading)
    {
      actionLoading := Some(uid);
      if !writeFails {
        var o := store.UpdateUserRole(uid, role);
        if o.Done? {
          FetchUsers(store, readFails);
        }
      }
      actionLoading := None;
    }

    /** `handleStatusChange`; the revoke button passes "rejected". */
    method HandleStatusChange(store: Store, uid: string, status: ApprovalStatus, writeFails: bool, readFails: bool)
      requires store.Valid()
      modifies this`users, this`loading, this`actionLoading, store`users, store`clock
      ensures store.Valid()
      ensures actionLoading == None
      ensures writeFails || uid !in old(store.users) ==> store.users == old(store.users) && users == old(users)
      ensures !writeFails && uid in old(store.users) ==>
        store.users == old(store.users)[uid := Users.WithStatus(old(store.users[uid]), status, old(store.clock))]
      ensures !writeFails && uid in old(store.users) && !readFails ==> forall u :: u in users <==> u in store.users.Values
      ensures !writeFails && uid in old(store.users) && readFails ==> users == old(users)
      ensures !writeFails && uid in old(store.users) ==> !loading
      ensures writeFails || uid !in old(store.users) ==> loading == old(loading)
    {
      actionLoading := Some(uid);
      if !writeFails {
        var o := store.UpdateUserStatus(uid, status);
        if o.Done? {
          FetchUsers(store, readFails);
        }
      }
      actionLoading := None;
    }
  }
}
