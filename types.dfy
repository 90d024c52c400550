/** The records of the three collections (documents, documentVersions and
    users) and the role and status enumerations used everywhere.
    Firestore timestamps are the store's logical clock (a `nat`); document
    and version identifiers are minted by the store as naturals. */
module Types {
  import opened Wrappers

  type Id = nat

  /** Per-document role of a collaborator. Ownership is never a collaborator
      role: it is `Document.userId`. */
  datatype CollaboratorRole = Editor | Commenter | Viewer

  datatype Collaborator = Collaborator(
    userId: string,
    email: string,
    role: CollaboratorRole,
    addedAt: nat,
    addedBy: string)

  /** The `createdBy` stamp of a version. */
  datatype Author = Author(userId: string, email: string, displayName: Option<string>)

  datatype DocumentVersion = DocumentVersion(
    id: Id,
    documentId: Id,
    versionNumber: nat,
    title: string,
    content: string,
    createdAt: nat,
    createdBy: Author)

  datatype Document = Document(
    id: Id,
    title: string,
    content: string,
    userId: string,
    collaborators: seq<Collaborator>,
    currentVersion: nat,
    createdAt: nat,
    updatedAt: nat)

  /** What a caller supplies to create a document; the collaborator list is
      optional. */
  datatype DocumentInput = DocumentInput(
    title: string,
    content: string,
    userId: string,
    collaborators: Option<seq<Collaborator>>)

  /** A partial update of a document: each field may be absent. */
  datatype DocumentUpdate = DocumentUpdate(title: Option<string>, content: Option<string>)

  /** Platform-level role of an account. */
  datatype UserRole = Admin | Owner | Editor | Viewer | Commenter

  datatype ApprovalStatus = Pending | Approved | Rejected

  datatype AppUser = AppUser(
    uid: string,
    email: string,
    displayName: Option<string>,
    role: UserRole,
    status: ApprovalStatus,
    createdAt: nat,
    updatedAt: nat,
    approvedBy: Option<string>,
    approvedAt: Option<nat>)

  /** Failures of a store call that the in-memory model can exhibit:
      Firestore's `updateDoc` refuses a record that does not exist. */
  datatype StoreError = NotFound

  /** Outcome of a store write that returns nothing on success. */
  datatype Outcome = Done | Failed(error: StoreError)
}
