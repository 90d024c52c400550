/** The document list of `src/app/dashboard/page.tsx`: the owned and shared
    tabs loaded from the store, the title search, deletion from the owned
    list, the "New Document" gate and what a document card shows. */
module DashboardPage {
  import opened Wrappers
  import opened Types
  import opened Text
  import opened Sorting
  import Access
  import Users
  import opened Versions
  import opened Backend

  datatype Tab = Owned | Shared

  /** The search test: the lower-cased title contains the lower-cased query. */
  predicate MatchesQuery(d: Document, query: string) {
    Includes(ToLower(d.title), ToLower(query))
  }

  function Matcher(query: string): Document -> bool {
    d => MatchesQuery(d, query)
  }

  /** `filteredDocuments`: the documents matching the query, each as often
      as it occurs, in their order. */
  function Search(docs: seq<Document>, query: string): (r: seq<Document>)
    ensures forall d :: multiset(r)[d] == if MatchesQuery(d, query) then multiset(docs)[d] else 0
    ensures Subsequence(r, docs)
  {
    FilterKeepsOrder(docs, Matcher(query));
    Filter(docs, Matcher(query))
  }

  /** An empty query keeps the whole list, in order. */
  lemma EmptyQueryKeepsAll(docs: seq<Document>)
    ensures Search(docs, "") == docs
  {
    forall d | d in docs ensures Matcher("")(d) {
      IncludesEmpty(ToLower(d.title));
    }
    FilterKeepsAll(docs, Matcher(""));
  }

  /** The search ignores the case of the query. */
  lemma SearchIgnoresQueryCase(docs: seq<Document>, query: string)
    ensures Search(docs, ToLower(query)) == Search(docs, query)
  {
    ToLowerIdempotent(query);
    FilterSameTest(docs, Matcher(ToLower(query)), Matcher(query));
  }

  function OtherThan(id: Id): Document -> bool {
    (d: Document) => d.id != id
  }

  /** `documents.filter((doc) => doc.id !== docId)`: every document with
      another id stays, as often as before, in its order. */
  function WithoutId(docs: seq<Document>, id: Id): (r: seq<Document>)
    ensures forall d :: multiset(r)[d] == if d.id != id then multiset(docs)[d] else 0
    ensures Subsequence(r, docs)
  {
    FilterKeepsOrder(docs, OtherThan(id));
    Filter(docs, OtherThan(id))
  }

  /** The "New Document" link: only on the owned tab, and only for a user
      who may create documents. */
  predicate ShowsNewDocument(tab: Tab, appUser: Option<AppUser>) {
    tab == Owned && Users.CanCreateDocuments(appUser)
  }

  /** Only approved admins and owners ever see the link, and never on the
      shared tab. */
  lemma NewDocumentGate(tab: Tab, appUser: Option<AppUser>)
    ensures ShowsNewDocument(tab, appUser) ==>
      tab == Owned && appUser.Some? && appUser.value.status == Approved
      && (appUser.value.role == Admin || appUser.value.role == Owner)
    ensures appUser.Some? && appUser.value.status != Approved ==> !ShowsNewDocument(tab, appUser)
    ensures tab == Shared ==> !ShowsNewDocument(tab, appUser)
  {
  }

  /** `doc.title || "Untitled"`. */
  function CardTitle(d: Document): (r: string)
    ensures r != ""
    ensures d.title != "" ==> r == d.title
    ensures d.title == "" ==> r == "Untitled"
  {
    if d.title != "" then d.title else "Untitled"
  }

  const EXCERPT_LENGTH := 100

  /** `doc.content.substring(0, 100) || "Empty document"`: the first hundred
      UTF-16 code units. */
  function CardExcerpt(d: Document): (r: string)
    ensures d.content == "" ==> r == "Empty document"
    ensures d.content != "" ==> StartsWith(d.content, r) && r != "" && Utf16Length(r) <= EXCERPT_LENGTH
    ensures d.content != "" && Utf16Length(d.content) <= EXCERPT_LENGTH ==> r == d.content
    ensures d.content != "" && Utf16Length(d.content) > EXCERPT_LENGTH ==> Utf16Length(r) >= EXCERPT_LENGTH - 1
  {
    var excerpt := Utf16Prefix(d.content, EXCERPT_LENGTH);
    if excerpt != "" then excerpt else "Empty document"
  }

  /** The two writes of `deleteDocument`, in order. */
  datatype DeleteStep = VersionBatch | RecordDelete

  /** The page's state. */
  class Dashboard {
    var documents: seq<Document>
    var sharedDocuments: seq<Document>
    var loading: bool
    var searchQuery: string
    var deleteConfirm: Option<Id>
    var activeTab: Tab

    constructor ()
      ensures documents == [] && sharedDocuments == [] && loading && searchQuery == ""
      ensures deleteConfirm == None && activeTab == Owned
    {
      documents, sharedDocuments, loading, searchQuery := [], [], true, "";
      deleteConfirm, activeTab := None, Owned;
    }

    /** The card menu's delete button: it opens the confirmation for this
        card, or closes it when it is already open for this card. */
    method ToggleConfirm(id: Id)
      modifies this`deleteConfirm
      ensures deleteConfirm == if old(deleteConfirm) == Some(id) then None else Some(id)
    {
      deleteConfirm := if deleteConfirm == Some(id) then None else Some(id);
    }

    /** The cards on screen: the active tab's list, searched. */
    function Filtered(): (r: seq<Document>)
      reads this
    {
      Search(if activeTab == Owned then documents else sharedDocuments, searchQuery)
    }

    /** With an empty query the owned tab shows every owned document and the
        shared tab every shared one. */
    lemma FilteredWithoutQuery()
      requires searchQuery == ""
      ensures activeTab == Owned ==> Filtered() == documents
      ensures activeTab == Shared ==> Filtered() == sharedDocuments
    {
      EmptyQueryKeepsAll(documents);
      EmptyQueryKeepsAll(sharedDocuments);
    }

    /** The loading effect. Signed out or not yet approved, nothing is
        read. Otherwise both lists are read together (the shared one by the
        account's email, or "" without one); a failing read keeps both old
        lists. Loading then ends. */
    method Load(store: Store, uid: Option<string>, email: Option<string>, appUser: Option<AppUser>, readFails: bool)
      requires store.Valid()
      modifies this`documents, this`sharedDocuments, this`loading
      ensures uid.None? || !Users.IsApproved(appUser) ==>
        documents == old(documents) && sharedDocuments == old(sharedDocuments) && loading == old(loading)
      ensures uid.Some? && Users.IsApproved(appUser) ==> !loading
      ensures uid.Some? && Users.IsApproved(appUser) && readFails ==>
        documents == old(documents) && sharedDocuments == old(sharedDocuments)
      ensures uid.Some? && Users.IsApproved(appUser) && !readFails ==>
        (forall d :: d in documents <==> d in store.documents.Values && d.userId == uid.value)
        && (forall d :: d in sharedDocuments <==> d in store.documents.Values && Access.Listed(d.collaborators, email.GetOr("")))
        && SortedDesc(documents, UpdatedAt) && SortedDesc(sharedDocuments, UpdatedAt)
        && NoDup(documents) && NoDup(sharedDocuments)
    {
      if uid.None? || !Users.IsApproved(appUser) {
        return;
      }
      if !readFails {
        var owned := store.GetUserDocuments(uid.value);
        var shared := store.GetSharedDocuments(email.GetOr(""));
        documents, sharedDocuments := owned, shared;
      }
      loading := false;
    }

    /** `handleDelete`: after the store deletes the document it leaves the
        owned list and the confirmation closes. `failsAt` is the step of
        `deleteDocument` that throws, if any: the version batch, which then
        deletes nothing, or the record delete after the batch was committed,
        which leaves the record without its versions. The page changes
        nothing on a failure. */
    method HandleDelete(store: Store, id: Id, failsAt: Option<DeleteStep>)
      requires store.Valid()
      modifies this`documents, this`deleteConfirm, store`documents, store`versions
      ensures store.Valid()
      ensures failsAt.Some? ==>
        documents == old(documents) && deleteConfirm == old(deleteConfirm)
        && store.documents == old(store.documents)
      ensures failsAt == Some(VersionBatch) ==> store.versions == old(store.versions)
      ensures failsAt != Some(VersionBatch) ==>
        store.versions == WithoutDocument(old(store.versions), id)
        && OfDocument(store.versions, id) == []
        && forall e | e != id :: OfDocument(store.versions, e) == old(OfDocument(store.versions, e))
      ensures failsAt.None? ==>
        documents == WithoutId(old(documents), id) && deleteConfirm == None
        && store.documents == old(store.documents) - {id}
      ensures failsAt.None? ==> forall d :: d in documents <==> d in old(documents) && d.id != id
    {
      match failsAt
      case Some(VersionBatch) =>
      case Some(RecordDelete) =>
        store.DeleteAllVersions(id);
      case None =>
        store.DeleteDocument(id);
        documents := WithoutId(documents, id);
        deleteConfirm := None;
    }
  }
}
