/** The Firestore-backed data layer of `src/lib/documents.ts`,
    `src/lib/versions.ts` and `src/lib/users.ts` as one in-memory store: the
    `documents`, `documentVersions` and `users` collections are fields that
    the operations update in place. Server timestamps come from `clock`,
    which every write advances; generated identifiers come from counters. */
module Backend {
  import opened Wrappers
  import opened Types
  import opened Sorting
  import opened Versions
  import opened Access
  import Users

  /** Sort key of the document queries: `orderBy("updatedAt", "desc")`. */
  function UpdatedAt(d: Document): int {
    d.updatedAt
  }

  /** Sort key of the user queries: `orderBy("createdAt", "desc")`. */
  function CreatedAt(u: AppUser): int {
    u.createdAt
  }

  /** JavaScript truthiness of an optional string field. */
  predicate Truthy(s: Option<string>) {
    s.Some? && s.value != ""
  }

  /** `updateDocument` snapshots a version when an author is given and the
      update carries a non-empty title or content. */
  predicate Versioned(updates: DocumentUpdate, author: Option<Author>) {
    author.Some? && (Truthy(updates.title) || Truthy(updates.content))
  }

  /** `updates.title || currentData?.title || "Untitled"`. */
  function SnapshotTitle(updates: DocumentUpdate, current: Option<Document>): string {
    if Truthy(updates.title) then updates.title.value
    else if current.Some? && current.value.title != "" then current.value.title
    else "Untitled"
  }

  /** `updates.content ?? currentData?.content ?? ""`. */
  function SnapshotContent(updates: DocumentUpdate, current: Option<Document>): string {
    if updates.content.Some? then updates.content.value
    else if current.Some? then current.value.content
    else ""
  }

  /** The snapshot never has an empty title; it takes the update's own
      fields when they are there (an explicitly empty content included) and
      falls back to the stored document for the missing ones. */
  lemma SnapshotFallbacks(updates: DocumentUpdate, current: Option<Document>)
    ensures SnapshotTitle(updates, current) != ""
    ensures Truthy(updates.title) ==> SnapshotTitle(updates, current) == updates.title.value
    ensures !Truthy(updates.title) && current.Some? && current.value.title != "" ==>
      SnapshotTitle(updates, current) == current.value.title
    ensures !Truthy(updates.title) && (current.None? || current.value.title == "") ==>
      SnapshotTitle(updates, current) == "Untitled"
    ensures updates.content.Some? ==> SnapshotContent(updates, current) == updates.content.value
    ensures updates.content.None? && current.Some? ==> SnapshotContent(updates, current) == current.value.content
    ensures updates.content.None? && current.None? ==> SnapshotContent(updates, current) == ""
  {
  }

  /** `...updates`: the fields present in the update overwrite the stored
      ones. */
  function ApplyUpdate(doc: Document, updates: DocumentUpdate): (r: Document)
    ensures r.title == updates.title.GetOr(doc.title)
    ensures r.content == updates.content.GetOr(doc.content)
    ensures r.id == doc.id && r.userId == doc.userId && r.collaborators == doc.collaborators
  {
    doc.(title := updates.title.GetOr(doc.title), content := updates.content.GetOr(doc.content))
  }

  /** The `currentVersion` a document shows: its latest version number, or
      1 when it has no version. */
  function ExpectedCurrent(latest: nat): nat {
    if latest == 0 then 1 else latest
  }

  /** The stored documents with identifiers in [lo, hi), by ascending id:
      the unordered collection scan under a query. */
  function Collect(m: map<Id, Document>, lo: nat, hi: nat): (r: seq<Document>)
    requires forall k | k in m :: m[k].id == k
    ensures forall x | x in r :: x in m.Values && lo <= x.id < hi
    ensures forall k | k in m && lo <= k < hi :: m[k] in r
    ensures forall i, j | 0 <= i < j < |r| :: r[i].id < r[j].id
    decreases hi - lo
  {
    if lo >= hi then []
    else (if lo in m then [m[lo]] else []) + Collect(m, lo + 1, hi)
  }

  /** `where("userId", "==", userId)`. */
  function OwnedBy(s: seq<Document>, userId: string): (r: seq<Document>)
    ensures forall x :: x in r <==> x in s && x.userId == userId
    ensures NoDup(s) ==> NoDup(r)
  {
    if s == [] then []
    else
      var rest := OwnedBy(s[1..], userId);
      assert NoDup(s) ==> s[0] !in rest;
      (if s[0].userId == userId then [s[0]] else []) + rest
  }

  /** Each document's `currentVersion` is its latest version number (1
      before any version exists). */
  ghost predicate CurrentMatches(docs: map<Id, Document>, vs: seq<DocumentVersion>) {
    forall k | k in docs :: docs[k].currentVersion == ExpectedCurrent(MaxNumber(OfDocument(vs, k)))
  }

  /** A write that touches only document `id` (and its versions) keeps every
      other document's `currentVersion` in step. */
  lemma CurrentAfterWrite(docs: map<Id, Document>, vs: seq<DocumentVersion>,
                          docs2: map<Id, Document>, vs2: seq<DocumentVersion>, id: Id)
    requires docs2.Keys <= docs.Keys + {id}
    requires forall k | k in docs2 && k != id :: docs2[k] == docs[k] && OfDocument(vs2, k) == OfDocument(vs, k)
    requires id in docs2 ==> docs2[id].currentVersion == ExpectedCurrent(MaxNumber(OfDocument(vs2, id)))
    ensures CurrentMatches(docs, vs) ==> CurrentMatches(docs2, vs2)
  {
  }

  /** Recording the first version of a document keeps every stored
      document in step: that document already shows 1. */
  lemma FirstVersionConsistent(docs: map<Id, Document>, vs: seq<DocumentVersion>, vs2: seq<DocumentVersion>, id: Id)
    requires CurrentMatches(docs, vs) && OfDocument(vs, id) == []
    requires LatestNumber(vs2, id) == 1
    requires forall k | k != id :: OfDocument(vs2, k) == OfDocument(vs, k)
    ensures CurrentMatches(docs, vs2)
  {
    LatestIsMaxNumber(vs2, id);
    CurrentAfterWrite(docs, vs, docs, vs2, id);
  }

  /** Every document other than `id` shows its latest version number. */
  ghost predicate CurrentMatchesExcept(docs: map<Id, Document>, vs: seq<DocumentVersion>, id: Id) {
    forall k | k in docs && k != id :: docs[k].currentVersion == ExpectedCurrent(MaxNumber(OfDocument(vs, k)))
  }

  /** Putting `id` in step, when all others are, makes the whole map
      consistent. */
  lemma CurrentAfterWriteExcept(docs: map<Id, Document>, docs2: map<Id, Document>, vs: seq<DocumentVersion>, id: Id)
    requires CurrentMatchesExcept(docs, vs, id)
    requires docs2.Keys == docs.Keys + {id} && forall k | k in docs2 && k != id :: docs2[k] == docs[k]
    requires docs2[id].currentVersion == ExpectedCurrent(MaxNumber(OfDocument(vs, id)))
    ensures CurrentMatches(docs2, vs)
  {
  }

  /** The stored documents are exactly the scan's, each once. */
  lemma CollectAll(m: map<Id, Document>, hi: nat)
    requires forall k | k in m :: m[k].id == k && k < hi
    ensures forall x :: x in Collect(m, 0, hi) <==> x in m.Values
    ensures NoDup(Collect(m, 0, hi))
  {
    forall x | x in m.Values ensures x in Collect(m, 0, hi) {
      var k :| k in m && m[k] == x;
    }
  }

  /** `snapshot.docs.forEach(...)` pushing the documents that list `email`
      as a collaborator, in query order. */
  method KeepShared(all: seq<Document>, email: string) returns (r: seq<Document>)
    requires SortedDesc(all, UpdatedAt) && NoDup(all)
    ensures forall doc :: doc in r <==> doc in all && Listed(doc.collaborators, email)
    ensures Subsequence(r, all)
    ensures SortedDesc(r, UpdatedAt)
    ensures NoDup(r)
  {
    r := [];
    for i := 0 to |all|
      invariant KeptUpTo(r, all, i, email)
      invariant Subsequence(r, all[..i])
    {
      KeepSharedStep(r, all, i, email);
      assert all[..i + 1] == all[..i] + [all[i]];
      SubsequenceSnoc(r, all[..i], all[i]);
      if Listed(all[i].collaborators, email) {
        r := r + [all[i]];
      }
    }
    assert all[..|all|] == all;
  }

  /** The loop invariant of `KeepShared` after the first `i` documents. */
  ghost predicate KeptUpTo(r: seq<Document>, all: seq<Document>, i: nat, email: string) {
    i <= |all|
    && (forall doc :: doc in r <==> doc in all[..i] && Listed(doc.collaborators, email))
    && SortedDesc(r, UpdatedAt)
    && NoDup(r)
    && (forall doc, k | doc in r && i <= k < |all| :: UpdatedAt(doc) >= UpdatedAt(all[k]))
  }

  lemma KeepSharedStep(r: seq<Document>, all: seq<Document>, i: nat, email: string)
    requires SortedDesc(all, UpdatedAt) && NoDup(all)
    requires i < |all| && KeptUpTo(r, all, i, email)
    ensures KeptUpTo(if Listed(all[i].collaborators, email) then r + [all[i]] else r, all, i + 1, email)
  {
    assert all[..i + 1] == all[..i] + [all[i]];
    if Listed(all[i].collaborators, email) {
      assert all[i] !in all[..i];
    }
  }

  /** What a user query returns of a record: every record as stored, or
      only pending ones without their approval fields. */
  function Listing(u: AppUser, pendingOnly: bool): (r: Option<AppUser>)
    ensures r.Some? ==> r.value.uid == u.uid
  {
    if !pendingOnly then Some(u)
    else if u.status == Pending then Some(Unapproved(u))
    else None
  }

  /** Some record under one of `keys` is listed as `u`. */
  ghost predicate ListedFrom(m: map<string, AppUser>, keys: set<string>, pendingOnly: bool, u: AppUser) {
    exists k | k in keys && k in m :: Listing(m[k], pendingOnly) == Some(u)
  }

  lemma ListedFromAdd(m: map<string, AppUser>, keys: set<string>, k: string, pendingOnly: bool, u: AppUser)
    requires k in m
    ensures ListedFrom(m, keys + {k}, pendingOnly, u) <==>
      ListedFrom(m, keys, pendingOnly, u) || Listing(m[k], pendingOnly) == Some(u)
  {
    if ListedFrom(m, keys + {k}, pendingOnly, u) {
      var j :| j in keys + {k} && j in m && Listing(m[j], pendingOnly) == Some(u);
      if j != k {
        assert j in keys;
      }
    }
  }

  /** The scan of the users collection under a query. */
  method ScanRecords(m: map<string, AppUser>, pendingOnly: bool) returns (acc: seq<AppUser>)
    requires forall k | k in m :: m[k].uid == k
    ensures forall u :: u in acc <==> exists k | k in m :: Listing(m[k], pendingOnly) == Some(u)
    ensures NoDup(acc)
  {
    var left := m.Keys;
    ghost var done: set<string> := {};
    acc := [];
    while left != {}
      invariant left + done == m.Keys && left !! done
      invariant forall u :: u in acc <==> ListedFrom(m, done, pendingOnly, u)
      invariant forall u | u in acc :: u.uid in done
      invariant NoDup(acc)
      decreases |left|
    {
      var k :| k in left;
      var item := Listing(m[k], pendingOnly);
      ghost var acc0, done0 := acc, done;
      if item.Some? {
        assert item.value !in acc0;
        NoDupAppend(acc0, item.value);
        acc := acc + [item.value];
      }
      left := left - {k};
      done := done + {k};
      forall u ensures u in acc <==> ListedFrom(m, done, pendingOnly, u) {
        ListedFromAdd(m, done0, k, pendingOnly, u);
      }
    }
    assert done == m.Keys;
  }

  /** What `getPendingUsers` returns of a record: the approval fields are
      not copied. */
  function Unapproved(u: AppUser): AppUser {
    u.(approvedBy := None, approvedAt := None)
  }

  class Store {
    var documents: map<Id, Document>
    var versions: seq<DocumentVersion>
    var users: map<string, AppUser>
    var nextDocId: nat
    var nextVersionId: nat
    var clock: nat

    /** Everything but the per-document cap on versions. */
    ghost predicate Basic()
      reads this
    {
      && (forall k | k in documents :: documents[k].id == k && k < nextDocId)
      && (forall v | v in versions :: v.id < nextVersionId)
      && DistinctIds(versions)
      && (forall uid | uid in users :: users[uid].uid == uid)
    }

    /** Every document other than `d` keeps at most MAX_VERSIONS versions. */
    ghost predicate CappedExcept(d: Id)
      reads this
    {
      forall e | e != d :: |OfDocument(versions, e)| <= MAX_VERSIONS
    }

    ghost predicate Valid()
      reads this
    {
      Basic() && forall e :: |OfDocument(versions, e)| <= MAX_VERSIONS
    }

    /** Each stored document's `currentVersion` is its latest version number
        (1 before any version exists). */
    ghost predicate Consistent()
      reads this
    {
      CurrentMatches(documents, versions)
    }

    function Lookup(id: Id): Option<Document>
      reads this
    {
      if id in documents then Some(documents[id]) else None
    }

    function UserOf(uid: string): Option<AppUser>
      reads this
    {
      if uid in users then Some(users[uid]) else None
    }

    constructor ()
      ensures Valid() && Consistent()
      ensures documents == map[] && versions == [] && users == map[]
    {
      documents, versions, users := map[], [], map[];
      nextDocId, nextVersionId, clock := 0, 0, 0;
    }

    // ----- documentVersions -----

    /** `createVersion`: add the record, then prune the document's versions
        to the cap. */
    method CreateVersion(documentId: Id, title: string, content: string, versionNumber: nat, createdBy: Author)
      returns (id: Id)
      requires Valid()
      modifies this`versions, this`nextVersionId, this`clock
      ensures Valid()
      ensures id == old(nextVersionId)
      ensures versions == Pruned(old(versions) + [DocumentVersion(id, documentId, versionNumber, title, content, old(clock), createdBy)], documentId)
      ensures documents == old(documents) && users == old(users) && nextDocId == old(nextDocId)
      ensures nextVersionId == old(nextVersionId) + 1 && clock == old(clock) + 1
    {
      id := nextVersionId;
      AppendVersion(DocumentVersion(id, documentId, versionNumber, title, content, clock, createdBy));
      PruneOldVersions(documentId);
    }

    /** The `addDoc` of `createVersion`: the record goes in under the next
        id; only its own document can now be over the cap. */
    method AppendVersion(v: DocumentVersion)
      requires Valid() && v.id == nextVersionId
      modifies this`versions, this`nextVersionId, this`clock
      ensures Basic() && CappedExcept(v.documentId)
      ensures versions == old(versions) + [v]
      ensures nextVersionId == old(nextVersionId) + 1 && clock == old(clock) + 1
    {
      forall e | e != v.documentId ensures |OfDocument(versions + [v], e)| <= MAX_VERSIONS {
        OfDocumentAppend(versions, [v], e);
      }
      assert DistinctIds(versions + [v]) by {
        assert v !in versions;
      }
      versions := versions + [v];
      nextVersionId := nextVersionId + 1;
      clock := clock + 1;
    }

    /** `pruneOldVersions`: when the document has more than MAX_VERSIONS
        versions, batch-delete those after the first MAX_VERSIONS of the
        descending query. */
    method PruneOldVersions(documentId: Id)
      requires Basic() && CappedExcept(documentId)
      modifies this`versions
      ensures Valid()
      ensures versions == Pruned(old(versions), documentId)
    {
      PruneRestoresCap(versions, documentId);
      var snapshot := Descending(versions, documentId);
      if |snapshot| <= MAX_VERSIONS {
        return;
      }
      var batch := BatchIds(snapshot[MAX_VERSIONS..]);
      versions := DropIds(versions, batch);
    }

    /** The `forEach` that queues each doomed version's id in the batch. */
    static method BatchIds(doomed: seq<DocumentVersion>) returns (batch: set<Id>)
      ensures batch == IdsOf(doomed)
    {
      batch := {};
      for i := 0 to |doomed|
        invariant batch == IdsOf(doomed[..i])
      {
        assert doomed[..i + 1] == doomed[..i] + [doomed[i]];
        batch := batch + {doomed[i].id};
      }
      assert doomed[..|doomed|] == doomed;
    }

    /** `getVersionHistory`: the document's own versions, highest number
        first, at most MAX_VERSIONS of them. */
    method GetVersionHistory(documentId: Id) returns (h: seq<DocumentVersion>)
      ensures |h| == Capped(|OfDocument(versions, documentId)|)
      ensures forall v | v in h :: v in versions && v.documentId == documentId
      ensures SortedDesc(h, Number)
      ensures h == History(versions, documentId)
    {
      h := History(versions, documentId);
      HistoryProperties(versions, documentId);
    }

    /** `getLatestVersionNumber`: 0 without versions, otherwise the largest
        version number of the document. */
    method GetLatestVersionNumber(documentId: Id) returns (n: nat)
      ensures n == LatestNumber(versions, documentId)
      ensures OfDocument(versions, documentId) == [] ==> n == 0
      ensures forall v | v in versions && v.documentId == documentId :: v.versionNumber <= n
      ensures OfDocument(versions, documentId) != [] ==>
        exists v | v in versions && v.documentId == documentId :: v.versionNumber == n
    {
      n := LatestNumber(versions, documentId);
      LatestNumberIsMax(versions, documentId);
    }

    /** `getVersionCount`: never more than MAX_VERSIONS in a valid store. */
    method GetVersionCount(documentId: Id) returns (n: nat)
      requires Valid()
      ensures n == |OfDocument(versions, documentId)|
      ensures n <= MAX_VERSIONS
    {
      n := |OfDocument(versions, documentId)|;
    }

    /** `deleteAllVersions`: batch-delete every version of the document. */
    method DeleteAllVersions(documentId: Id)
      requires Valid()
      modifies this`versions
      ensures Valid()
      ensures versions == WithoutDocument(old(versions), documentId)
      ensures OfDocument(versions, documentId) == []
      ensures forall e | e != documentId :: OfDocument(versions, e) == old(OfDocument(versions, e))
    {
      forall e ensures OfDocument(WithoutDocument(versions, documentId), documentId) == []
        && (e != documentId ==> OfDocument(WithoutDocument(versions, documentId), e) == OfDocument(versions, e))
      {
        WithoutDocumentEffect(versions, documentId, e);
      }
      var snapshot := OfDocument(versions, documentId);
      if snapshot == [] {
        NoneToDelete(versions, documentId);
        return;
      }
      var batch := BatchIds(snapshot);
      forall v | v in versions && v.documentId != documentId ensures v.id !in batch {
        if v.id in batch {
          var w :| w in snapshot && w.id == v.id;
          SameIdSameVersion(versions, v, w);
        }
      }
      DropOwnIds(versions, batch, documentId);
      DropIdsDistinct(versions, batch);
      forall e ensures |OfDocument(versions, e)| <= MAX_VERSIONS ==> |OfDocument(WithoutDocument(versions, documentId), e)| <= MAX_VERSIONS {
        WithoutDocumentEffect(versions, documentId, e);
      }
      versions := DropIds(versions, batch);
    }

    // ----- documents -----

    /** A document id that no stored document and no stored version refers
        to, as Firestore's generated ids are. */
    method FreshDocumentId() returns (id: Id)
      requires Valid()
      ensures id >= nextDocId
      ensures forall v | v in versions :: v.documentId != id
    {
      id := nextDocId;
      for i := 0 to |versions|
        invariant id >= nextDocId
        invariant forall k | 0 <= k < i :: versions[k].documentId < id
      {
        if versions[i].documentId >= id {
          id := versions[i].documentId + 1;
        }
      }
    }

    /** `createVersion` for a document without versions: the record is
        appended and nothing is pruned. */
    method RecordFirstVersion(id: Id, title: string, content: string, author: Author)
      requires Valid() && OfDocument(versions, id) == []
      modifies this`versions, this`nextVersionId, this`clock
      ensures Valid()
      ensures versions == old(versions) + [DocumentVersion(old(nextVersionId), id, 1, title, content, old(clock), author)]
      ensures LatestNumber(versions, id) == 1
      ensures clock == old(clock) + 1
      ensures old(Consistent()) ==> Consistent()
    {
      ghost var v := DocumentVersion(nextVersionId, id, 1, title, content, clock, author);
      ghost var vs0, wasConsistent := versions, Consistent();
      FirstVersionKept(versions, v);
      assert DistinctIds(versions + [v]) by {
        assert v !in versions;
      }
      PruneAppendLeavesOthers(versions, v);
      var _ := CreateVersion(id, title, content, 1, author);
      if wasConsistent {
        FirstVersionConsistent(documents, vs0, versions, id);
      }
    }

    /** `createDocument`: store the input with `currentVersion` 1 and an
        empty collaborator list when none is given, then record version 1
        when an author is given. */
    method CreateDocument(input: DocumentInput, createdBy: Option<Author>) returns (id: Id)
      requires Valid()
      modifies this`documents, this`versions, this`nextDocId, this`nextVersionId, this`clock
      ensures Valid()
      ensures id !in old(documents) && old(OfDocument(versions, id)) == []
      ensures documents == old(documents)[id := Document(id, input.title, input.content, input.userId,
        input.collaborators.GetOr([]), 1, old(clock), old(clock))]
      ensures createdBy.None? ==> versions == old(versions)
      ensures createdBy.Some? ==>
        versions == old(versions) + [DocumentVersion(old(nextVersionId), id, 1, input.title, input.content, old(clock) + 1, createdBy.value)]
      ensures LatestNumber(versions, id) == if createdBy.Some? then 1 else 0
      ensures users == old(users)
      ensures old(Consistent()) ==> Consistent()
    {
      id := FreshDocumentId();
      NoVersionsOf(versions, id);
      var doc := Document(id, input.title, input.content, input.userId, input.collaborators.GetOr([]), 1, clock, clock);
      LatestNumberIsMax(versions, id);
      InsertDocument(doc);
      assert users == old(users);
      if createdBy.Some? {
        RecordFirstVersion(id, input.title, input.content, createdBy.value);
        assert users == old(users);
      }
    }

    /** The `addDoc` of `createDocument`: a new record under a fresh id. */
    method InsertDocument(doc: Document)
      requires Valid() && doc.id >= nextDocId
      requires OfDocument(versions, doc.id) == [] && doc.currentVersion == 1
      modifies this`documents, this`nextDocId, this`clock
      ensures Valid()
      ensures documents == old(documents)[doc.id := doc] && doc.id !in old(documents)
      ensures nextDocId == doc.id + 1 && clock == old(clock) + 1
      ensures old(Consistent()) ==> Consistent()
    {
      documents := documents[doc.id := doc];
      nextDocId := doc.id + 1;
      clock := clock + 1;
      CurrentAfterWrite(old(documents), old(versions), documents, versions, doc.id);
    }

    /** `getDocument`. */
    method GetDocument(id: Id) returns (r: Option<Document>)
      requires Valid()
      ensures r.Some? <==> id in documents
      ensures r.Some? ==> r.value == documents[id] && r.value.id == id
    {
      r := Lookup(id);
    }

    /** The versioned half of `updateDocument`: read the latest number and
        the stored document, then create the snapshot numbered one above. */
    method SnapshotVersion(id: Id, updates: DocumentUpdate, author: Author) returns (next: nat)
      requires Valid()
      modifies this
      ensures Valid()
      ensures next == old(LatestNumber(versions, id)) + 1
      ensures var v := DocumentVersion(old(nextVersionId), id, next,
          SnapshotTitle(updates, old(Lookup(id))), SnapshotContent(updates, old(Lookup(id))), old(clock), author);
        && versions == Pruned(old(versions) + [v], id)
        && LatestNumber(versions, id) == next
        && History(versions, id)[0] == v
      ensures forall k | k != id :: OfDocument(versions, k) == old(OfDocument(versions, k))
      ensures documents == old(documents) && users == old(users) && nextDocId == old(nextDocId)
      ensures clock == old(clock) + 1
    {
      var latest := GetLatestVersionNumber(id);
      next := latest + 1;
      var current := Lookup(id);
      var title := SnapshotTitle(updates, current);
      var content := SnapshotContent(updates, current);
      ghost var v := DocumentVersion(nextVersionId, id, next, title, content, clock, author);
      assert DistinctIds(versions + [v]) by {
        assert v !in versions;
      }
      InsertMaxThenPrune(versions, v);
      PruneAppendLeavesOthers(versions, v);
      var _ := CreateVersion(id, title, content, next, author);
    }

    /** `updateDocument`. With an author and a non-empty title or content it
        snapshots a version numbered one above the latest, then writes the
        update with that number; otherwise it writes the update alone. The
        write fails on a missing document, after the snapshot was taken. */
    method UpdateDocument(id: Id, updates: DocumentUpdate, author: Option<Author>)
      returns (r: Result<nat, StoreError>)
      requires Valid()
      modifies this
      ensures Valid()
      ensures users == old(users)
      ensures id !in old(documents) ==> r == Err(NotFound) && documents == old(documents)
      ensures !Versioned(updates, author) ==> versions == old(versions)
      ensures !Versioned(updates, author) && id in old(documents) ==>
        r == Ok(0) && documents == old(documents)[id := ApplyUpdate(old(documents[id]), updates).(updatedAt := old(clock))]
      ensures Versioned(updates, author) ==>
        var next := old(LatestNumber(versions, id)) + 1;
        var v := DocumentVersion(old(nextVersionId), id, next,
          SnapshotTitle(updates, old(Lookup(id))), SnapshotContent(updates, old(Lookup(id))), old(clock), author.value);
        && versions == Pruned(old(versions) + [v], id)
        && LatestNumber(versions, id) == next
        && History(versions, id)[0] == v
        && (id in old(documents) ==>
              r == Ok(next)
              && documents == old(documents)[id := ApplyUpdate(old(documents[id]), updates).(currentVersion := next, updatedAt := old(clock) + 1)])
      ensures old(Consistent()) ==> Consistent()
    {
      if Versioned(updates, author) {
        r := VersionedUpdate(id, updates, author.value);
      } else {
        r := PlainUpdate(id, updates);
      }
    }

    /** `updateDocument` with a snapshot: the snapshot is taken first, then
        the document is written with the snapshot's number. */
    method VersionedUpdate(id: Id, updates: DocumentUpdate, author: Author) returns (r: Result<nat, StoreError>)
      requires Valid()
      modifies this
      ensures Valid()
      ensures users == old(users)
      ensures id !in old(documents) ==> r == Err(NotFound) && documents == old(documents)
      ensures var next := old(LatestNumber(versions, id)) + 1;
        var v := DocumentVersion(old(nextVersionId), id, next,
          SnapshotTitle(updates, old(Lookup(id))), SnapshotContent(updates, old(Lookup(id))), old(clock), author);
        && versions == Pruned(old(versions) + [v], id)
        && LatestNumber(versions, id) == next
        && History(versions, id)[0] == v
        && (id in old(documents) ==>
              r == Ok(next)
              && documents == old(documents)[id := ApplyUpdate(old(documents[id]), updates).(currentVersion := next, updatedAt := old(clock) + 1)])
      ensures old(Consistent()) ==> Consistent()
    {
      ghost var docs0, vs0 := documents, versions;
      var next := SnapshotVersion(id, updates, author);
      if id !in documents {
        CurrentAfterWrite(docs0, vs0, documents, versions, id);
        return Err(NotFound);
      }
      CommitVersion(id, updates, next);
      r := Ok(next);
    }

    /** The write after the snapshot: the document takes the snapshot's
        number, which is now its latest. */
    method CommitVersion(id: Id, updates: DocumentUpdate, next: nat)
      requires Valid() && id in documents && next == LatestNumber(versions, id) && next >= 1
      modifies this`documents, this`clock
      ensures Valid()
      ensures documents == old(documents)[id := ApplyUpdate(old(documents[id]), updates).(currentVersion := next, updatedAt := old(clock))]
      ensures clock == old(clock) + 1
      ensures old(CurrentMatchesExcept(documents, versions, id)) ==> Consistent()
    {
      ghost var docs0 := documents;
      ReplaceDocument(ApplyUpdate(documents[id], updates).(currentVersion := next, updatedAt := clock));
      LatestIsMaxNumber(versions, id);
      if CurrentMatchesExcept(docs0, versions, id) {
        CurrentAfterWriteExcept(docs0, documents, versions, id);
      }
    }

    /** The `updateDoc` write of a stored document. */
    method ReplaceDocument(doc: Document)
      requires Valid() && doc.id in documents
      modifies this`documents, this`clock
      ensures Valid()
      ensures documents == old(documents)[doc.id := doc] && clock == old(clock) + 1
    {
      documents := documents[doc.id := doc];
      clock := clock + 1;
    }

    /** `updateDocument` without a snapshot: the update alone is written. */
    method PlainUpdate(id: Id, updates: DocumentUpdate) returns (r: Result<nat, StoreError>)
      requires Valid()
      modifies this`documents, this`clock
      ensures Valid()
      ensures id !in old(documents) ==> r == Err(NotFound) && documents == old(documents)
      ensures id in old(documents) ==>
        r == Ok(0) && documents == old(documents)[id := ApplyUpdate(old(documents[id]), updates).(updatedAt := old(clock))]
      ensures old(Consistent()) ==> Consistent()
    {
      if id !in documents {
        return Err(NotFound);
      }
      documents := documents[id := ApplyUpdate(documents[id], updates).(updatedAt := clock)];
      clock := clock + 1;
      r := Ok(0);
    }

    /** `addCollaborator`: arrayUnion of the stamped entry. */
    method AddCollaborator(id: Id, userId: string, email: string, role: CollaboratorRole, addedBy: string)
      returns (o: Outcome)
      requires Valid()
      modifies this`documents, this`clock
      ensures Valid()
      ensures id !in old(documents) ==> o == Failed(NotFound) && documents == old(documents)
      ensures id in old(documents) ==>
        var doc := old(documents[id]);
        o == Done && documents == old(documents)[id := doc.(
          collaborators := WithEntry(doc.collaborators, Collaborator(userId, email, role, old(clock), addedBy)),
          updatedAt := old(clock))]
      ensures old(Consistent()) ==> Consistent()
    {
      if id !in documents {
        return Failed(NotFound);
      }
      var doc := documents[id];
      var entry := Collaborator(userId, email, role, clock, addedBy);
      documents := documents[id := doc.(collaborators := WithEntry(doc.collaborators, entry), updatedAt := clock)];
      clock := clock + 1;
      o := Done;
    }

    /** `removeCollaborator`: drop every entry with that email; nothing is
        written for a missing document. */
    method RemoveCollaborator(id: Id, email: string)
      requires Valid()
      modifies this`documents, this`clock
      ensures Valid()
      ensures id !in old(documents) ==> documents == old(documents)
      ensures id in old(documents) ==>
        var doc := old(documents[id]);
        documents == old(documents)[id := doc.(collaborators := WithoutEmail(doc.collaborators, email), updatedAt := old(clock))]
      ensures old(Consistent()) ==> Consistent()
    {
      if id in documents {
        var doc := documents[id];
        documents := documents[id := doc.(collaborators := WithoutEmail(doc.collaborators, email), updatedAt := clock)];
        clock := clock + 1;
      }
    }

    /** `updateCollaboratorRole`: give every entry with that email the new
        role; nothing is written for a missing document. */
    method UpdateCollaboratorRole(id: Id, email: string, role: CollaboratorRole)
      requires Valid()
      modifies this`documents, this`clock
      ensures Valid()
      ensures id !in old(documents) ==> documents == old(documents)
      ensures id in old(documents) ==>
        var doc := old(documents[id]);
        documents == old(documents)[id := doc.(collaborators := WithRole(doc.collaborators, email, role), updatedAt := old(clock))]
      ensures old(Consistent()) ==> Consistent()
    {
      if id in documents {
        var doc := documents[id];
        documents := documents[id := doc.(collaborators := WithRole(doc.collaborators, email, role), updatedAt := clock)];
        clock := clock + 1;
      }
    }

    /** `deleteDocument`: the cascade first, then the record itself. */
    method DeleteDocument(id: Id)
      requires Valid()
      modifies this`documents, this`versions
      ensures Valid()
      ensures documents == old(documents) - {id}
      ensures versions == WithoutDocument(old(versions), id)
      ensures OfDocument(versions, id) == []
      ensures forall e | e != id :: OfDocument(versions, e) == old(OfDocument(versions, e))
      ensures old(Consistent()) ==> Consistent()
    {
      DeleteAllVersions(id);
      documents := documents - {id};
    }

    /** `getUserDocuments`: the user's own documents, most recently updated
        first. */
    method GetUserDocuments(userId: string) returns (r: seq<Document>)
      requires Valid()
      ensures forall doc :: doc in r <==> doc in documents.Values && doc.userId == userId
      ensures SortedDesc(r, UpdatedAt)
      ensures NoDup(r)
    {
      var all := Collect(documents, 0, nextDocId);
      CollectAll(documents, nextDocId);
      var owned := OwnedBy(all, userId);
      r := SortDesc(owned, UpdatedAt);
      PermutationKeepsNoDup(owned, r);
      SortDescSameElements(owned, UpdatedAt);
    }

    /** `getSharedDocuments`: scan every document, most recently updated
        first, and keep those listing `email` as a collaborator. */
    method GetSharedDocuments(email: string) returns (r: seq<Document>)
      requires Valid()
      ensures forall doc :: doc in r <==> doc in documents.Values && Listed(doc.collaborators, email)
      ensures SortedDesc(r, UpdatedAt)
      ensures NoDup(r)
    {
      var scan := Collect(documents, 0, nextDocId);
      CollectAll(documents, nextDocId);
      var all := SortDesc(scan, UpdatedAt);
      PermutationKeepsNoDup(scan, all);
      SortDescSameElements(scan, UpdatedAt);
      r := KeepShared(all, email);
    }

    // ----- users -----

    /** `createUser`: overwrite the record at `uid`; the first record of an
        empty collection is the bootstrap admin. */
    method CreateUser(uid: string, email: string, displayName: Option<string>)
      requires Valid()
      modifies this`users, this`clock
      ensures Valid()
      ensures users == old(users)[uid := Users.NewUser(uid, email, displayName, old(users) == map[], old(clock))]
      ensures old(users) == map[] ==> Users.IsAdmin(UserOf(uid))
      ensures old(users) != map[] ==> !Users.IsApproved(UserOf(uid))
    {
      var isFirstUser := users == map[];
      users := users[uid := Users.NewUser(uid, email, displayName, isFirstUser, clock)];
      clock := clock + 1;
    }

    /** `getUser`. */
    method GetUser(uid: string) returns (r: Option<AppUser>)
      requires Valid()
      ensures r.Some? <==> uid in users
      ensures r.Some? ==> r.value == users[uid] && r.value.uid == uid
    {
      r := UserOf(uid);
    }

    /** `approveUser`: status approved with the chosen role, stamped with
        the approving admin; `updateDoc` fails on a missing record. */
    method ApproveUser(uid: string, adminUid: string, role: UserRole) returns (o: Outcome)
      requires Valid()
      modifies this`users, this`clock
      ensures Valid()
      ensures uid !in old(users) ==> o == Failed(NotFound) && users == old(users)
      ensures uid in old(users) ==>
        o == Done && users == old(users)[uid := Users.Approve(old(users[uid]), adminUid, role, old(clock))]
      ensures uid in old(users) ==> Users.IsApproved(UserOf(uid)) && (Users.IsAdmin(UserOf(uid)) <==> role == Admin)
    {
      if uid !in users {
        return Failed(NotFound);
      }
      Users.ApproveGrants(users[uid], adminUid, role, clock);
      users := users[uid := Users.Approve(users[uid], adminUid, role, clock)];
      clock := clock + 1;
      o := Done;
    }

    /** `rejectUser`. */
    method RejectUser(uid: string) returns (o: Outcome)
      requires Valid()
      modifies this`users, this`clock
      ensures Valid()
      ensures uid !in old(users) ==> o == Failed(NotFound) && users == old(users)
      ensures uid in old(users) ==> o == Done && users == old(users)[uid := Users.Reject(old(users[uid]), old(clock))]
      ensures !Users.IsApproved(UserOf(uid))
    {
      if uid !in users {
        return Failed(NotFound);
      }
      users := users[uid := Users.Reject(users[uid], clock)];
      clock := clock + 1;
      o := Done;
    }

    /** `updateUserRole`. */
    method UpdateUserRole(uid: string, role: UserRole) returns (o: Outcome)
      requires Valid()
      modifies this`users, this`clock
      ensures Valid()
      ensures uid !in old(users) ==> o == Failed(NotFound) && users == old(users)
      ensures uid in old(users) ==> o == Done && users == old(users)[uid := Users.WithUserRole(old(users[uid]), role, old(clock))]
    {
      if uid !in users {
        return Failed(NotFound);
      }
      users := users[uid := Users.WithUserRole(users[uid], role, clock)];
      clock := clock + 1;
      o := Done;
    }

    /** `updateUserStatus`. */
    method UpdateUserStatus(uid: string, status: ApprovalStatus) returns (o: Outcome)
      requires Valid()
      modifies this`users, this`clock
      ensures Valid()
      ensures uid !in old(users) ==> o == Failed(NotFound) && users == old(users)
      ensures uid in old(users) ==> o == Done && users == old(users)[uid := Users.WithStatus(old(users[uid]), status, old(clock))]
    {
      if uid !in users {
        return Failed(NotFound);
      }
      users := users[uid := Users.WithStatus(users[uid], status, clock)];
      clock := clock + 1;
      o := Done;
    }

    /** `isAdmin(uid)`: false for an unknown uid. */
    method IsAdmin(uid: string) returns (b: bool)
      ensures b <==> uid in users && users[uid].role == Admin && users[uid].status == Approved
    {
      b := Users.IsAdmin(UserOf(uid));
    }

    /** `isApproved(uid)`: false for an unknown uid. */
    method IsApproved(uid: string) returns (b: bool)
      ensures b <==> uid in users && users[uid].status == Approved
    {
      b := Users.IsApproved(UserOf(uid));
    }

    /** `canCreateDocuments(uid)`: approved admins and owners only. */
    method CanCreateDocuments(uid: string) returns (b: bool)
      ensures b <==> uid in users && users[uid].status == Approved && users[uid].role in {Admin, Owner}
    {
      b := Users.CanCreateDocuments(UserOf(uid));
    }

    /** `getAllUsers`: every record, newest first. */
    method GetAllUsers() returns (r: seq<AppUser>)
      requires Valid()
      ensures forall u :: u in r <==> u in users.Values
      ensures SortedDesc(r, CreatedAt) && NoDup(r)
    {
      var acc := ScanRecords(users, false);
      r := SortDesc(acc, CreatedAt);
      PermutationKeepsNoDup(acc, r);
      SortDescSameElements(acc, CreatedAt);
    }

    /** `getPendingUsers`: the pending records, newest first, without
        approval fields. */
    method GetPendingUsers() returns (r: seq<AppUser>)
      requires Valid()
      ensures forall u :: u in r <==> exists k | k in users :: users[k].status == Pending && u == Unapproved(users[k])
      ensures forall u | u in r :: u.status == Pending && u.approvedBy == None && u.approvedAt == None
      ensures SortedDesc(r, CreatedAt) && NoDup(r)
    {
      var acc := ScanRecords(users, true);
      r := SortDesc(acc, CreatedAt);
      PermutationKeepsNoDup(acc, r);
      SortDescSameElements(acc, CreatedAt);
    }
  }

  /** With no version of the document stored, deleting its versions
      changes nothing. */
  lemma {:induction false} NoneToDelete(vs: seq<DocumentVersion>, d: Id)
    requires OfDocument(vs, d) == []
    ensures WithoutDocument(vs, d) == vs
  {
    if vs != [] {
      assert vs[0] in vs;
      NoneToDelete(vs[1..], d);
    }
  }

  /** Deleting a set of ids that holds every id of the document's versions
      and no id of another document's version deletes exactly the
      document's versions. */
  lemma {:induction false} DropOwnIds(vs: seq<DocumentVersion>, ids: set<Id>, d: Id)
    requires forall v | v in vs && v.documentId == d :: v.id in ids
    requires forall v | v in vs && v.documentId != d :: v.id !in ids
    ensures DropIds(vs, ids) == WithoutDocument(vs, d)
  {
    if vs != [] {
      assert forall v | v in vs[1..] :: v in vs;
      DropOwnIds(vs[1..], ids, d);
    }
  }
}
