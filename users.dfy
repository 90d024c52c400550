/** The user registry's record logic from `src/lib/users.ts`: the record
    `createUser` writes (first-user bootstrap), the field updates of the
    admin operations, the capability predicates and the role display maps. */
module Users {
  import opened Wrappers
  import opened Types

  /** The record `createUser` writes: the first user of an empty collection
      is an approved admin approved by "system"; everyone else is a pending
      owner without approval fields. */
  function NewUser(uid: string, email: string, displayName: Option<string>, isFirstUser: bool, now: nat): (u: AppUser)
    ensures u.uid == uid && u.email == email && u.displayName == displayName
    ensures u.createdAt == now && u.updatedAt == now
    ensures isFirstUser ==>
      (u.role == Admin && u.status == Approved && u.approvedBy == Some("system") && u.approvedAt == Some(now))
    ensures !isFirstUser ==>
      (u.role == Owner && u.status == Pending && u.approvedBy == None && u.approvedAt == None)
  {
    AppUser(uid, email, displayName,
      if isFirstUser then Admin else Owner,
      if isFirstUser then Approved else Pending,
      now, now,
      if isFirstUser then Some("system") else None,
      if isFirstUser then Some(now) else None)
  }

  /** `user?.role === "admin" && user?.status === "approved"`. */
  predicate IsAdmin(u: Option<AppUser>) {
    u.Some? && u.value.role == Admin && u.value.status == Approved
  }

  /** `user?.status === "approved"`. */
  predicate IsApproved(u: Option<AppUser>) {
    u.Some? && u.value.status == Approved
  }

  /** Approved and platform role admin or owner. */
  predicate CanCreateDocuments(u: Option<AppUser>) {
    IsApproved(u) && (u.value.role == Admin || u.value.role == Owner)
  }

  /** The capabilities are nested, and nobody unknown has any. */
  lemma CapabilityChain(u: Option<AppUser>)
    ensures IsAdmin(u) ==> CanCreateDocuments(u)
    ensures CanCreateDocuments(u) ==> IsApproved(u)
    ensures u.None? ==> !IsApproved(u) && !IsAdmin(u) && !CanCreateDocuments(u)
  {
  }

  /** The first user can create documents and administer; a later user can
      do neither until approved. */
  lemma BootstrapCapabilities(uid: string, email: string, dn: Option<string>, isFirst: bool, now: nat)
    ensures isFirst ==> IsAdmin(Some(NewUser(uid, email, dn, isFirst, now)))
    ensures !isFirst ==> !IsApproved(Some(NewUser(uid, email, dn, isFirst, now)))
  {
  }

  /** The fields `approveUser` writes. */
  function Approve(u: AppUser, adminUid: string, role: UserRole, now: nat): AppUser {
    u.(status := Approved, role := role, approvedBy := Some(adminUid), approvedAt := Some(now), updatedAt := now)
  }

  /** The fields `rejectUser` writes. */
  function Reject(u: AppUser, now: nat): AppUser {
    u.(status := Rejected, updatedAt := now)
  }

  /** The fields `updateUserRole` writes. */
  function WithUserRole(u: AppUser, role: UserRole, now: nat): AppUser {
    u.(role := role, updatedAt := now)
  }

  /** The fields `updateUserStatus` writes. */
  function WithStatus(u: AppUser, status: ApprovalStatus, now: nat): AppUser {
    u.(status := status, updatedAt := now)
  }

  /** Approval lets the account in, makes it an admin exactly when the chosen
      role is admin and lets it create documents exactly when that role is
      admin or owner; the identity and creation time are untouched. */
  lemma ApproveGrants(u: AppUser, adminUid: string, role: UserRole, now: nat)
    ensures var a := Approve(u, adminUid, role, now);
      && IsApproved(Some(a))
      && (IsAdmin(Some(a)) <==> role == Admin)
      && (CanCreateDocuments(Some(a)) <==> role == Admin || role == Owner)
      && a.uid == u.uid && a.email == u.email && a.createdAt == u.createdAt
      && a.approvedBy == Some(adminUid)
  {
  }

  /** Rejection, or any status other than approved, withdraws every
      capability whatever the role; the role itself is kept. */
  lemma RevokeWithdraws(u: AppUser, status: ApprovalStatus, now: nat)
    ensures var r := Reject(u, now);
      !IsApproved(Some(r)) && !IsAdmin(Some(r)) && !CanCreateDocuments(Some(r)) && r.role == u.role
    ensures status != Approved ==>
      var s := WithStatus(u, status, now);
      !IsApproved(Some(s)) && !IsAdmin(Some(s)) && !CanCreateDocuments(Some(s))
  {
  }

  /** A role change keeps the approval status, so it changes capabilities
      only for an approved account. */
  lemma RoleChangeKeepsStatus(u: AppUser, role: UserRole, now: nat)
    ensures var c := WithUserRole(u, role, now);
      && c.status == u.status
      && IsApproved(Some(c)) == IsApproved(Some(u))
      && (u.status != Approved ==> !IsAdmin(Some(c)) && !CanCreateDocuments(Some(c)))
  {
  }

  /** `getRoleDisplayName`. */
  function RoleDisplayName(role: UserRole): string {
    match role
    case Admin => "Admin"
    case Owner => "Owner"
    case Editor => "Editor"
    case Viewer => "Viewer"
    case Commenter => "Commenter"
  }

  /** `getRoleDescription`. */
  function RoleDescription(role: UserRole): string {
    match role
    case Admin => "Full platform access, can manage all users and documents"
    case Owner => "Can create documents and manage access to their files"
    case Editor => "Can edit documents shared with them"
    case Viewer => "Can only view documents shared with them"
    case Commenter => "Can view and comment on documents shared with them"
  }

  /** Both maps are total: every role has a non-empty name and description,
      and no two roles share a name. */
  lemma RoleMapsTotal(r1: UserRole, r2: UserRole)
    ensures RoleDisplayName(r1) != "" && RoleDescription(r1) != ""
    ensures r1 != r2 ==> RoleDisplayName(r1) != RoleDisplayName(r2)
  {
  }
}
