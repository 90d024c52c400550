/** The version log of `src/lib/versions.ts` as functions over the
    collection's records: the per-document query, its descending order, the
    "latest number" query, pruning to the 25 highest numbers, the cascade
    delete and the comparison of two versions. The store class applies these
    to its state. */
module Versions {
  import opened Types
  import opened Sorting
  import Text

  /** Cap on the versions kept per document. */
  const MAX_VERSIONS: nat := 25

  /** How many of `n` versions survive the cap. */
  function Capped(n: nat): nat {
    if n <= MAX_VERSIONS then n else MAX_VERSIONS
  }

  /** Sort key of the queries: `orderBy("versionNumber", "desc")`. */
  function Number(v: DocumentVersion): int {
    v.versionNumber
  }

  /** `where("documentId", "==", d)`, in collection order. */
  function OfDocument(vs: seq<DocumentVersion>, d: Id): (r: seq<DocumentVersion>)
    ensures |r| <= |vs|
    ensures forall v :: v in r <==> v in vs && v.documentId == d
  {
    if vs == [] then []
    else (if vs[0].documentId == d then [vs[0]] else []) + OfDocument(vs[1..], d)
  }

  lemma {:induction false} OfDocumentAppend(a: seq<DocumentVersion>, b: seq<DocumentVersion>, d: Id)
    ensures OfDocument(a + b, d) == OfDocument(a, d) + OfDocument(b, d)
  {
    if a == [] {
      assert a + b == b;
    } else {
      assert (a + b)[0] == a[0];
      assert (a + b)[1..] == a[1..] + b;
      OfDocumentAppend(a[1..], b, d);
    }
  }

  /** The document's versions ordered by descending version number. */
  function Descending(vs: seq<DocumentVersion>, d: Id): seq<DocumentVersion> {
    SortDesc(OfDocument(vs, d), Number)
  }

  /** `getVersionHistory`: the descending query limited to MAX_VERSIONS. */
  function History(vs: seq<DocumentVersion>, d: Id): seq<DocumentVersion> {
    var r := Descending(vs, d);
    if |r| <= MAX_VERSIONS then r else r[..MAX_VERSIONS]
  }

  /** The history holds only the document's own versions, largest number
      first, at most MAX_VERSIONS of them, and exactly the first
      MAX_VERSIONS of the document's versions in descending order. */
  lemma HistoryProperties(vs: seq<DocumentVersion>, d: Id)
    ensures var h := History(vs, d);
      && |h| == Capped(|OfDocument(vs, d)|)
      && (forall v | v in h :: v in vs && v.documentId == d)
      && (forall i, j | 0 <= i < j < |h| :: h[i].versionNumber >= h[j].versionNumber)
      && (|OfDocument(vs, d)| <= MAX_VERSIONS ==> multiset(h) == multiset(OfDocument(vs, d)))
  {
    var s, r, h := OfDocument(vs, d), Descending(vs, d), History(vs, d);
    forall v | v in h ensures v in vs && v.documentId == d {
      assert v in r;
      assert v in multiset(s);
    }
    forall i, j | 0 <= i < j < |h| ensures h[i].versionNumber >= h[j].versionNumber {
      assert h[i] == r[i] && h[j] == r[j];
    }
  }

  /** `getLatestVersionNumber`: the first of the descending query, 0 when
      the document has no versions. */
  function LatestNumber(vs: seq<DocumentVersion>, d: Id): nat {
    var r := Descending(vs, d);
    if r == [] then 0 else r[0].versionNumber
  }

  /** The latest number is 0 exactly when there is no version, and otherwise
      the largest version number among the document's versions. */
  lemma LatestNumberIsMax(vs: seq<DocumentVersion>, d: Id)
    ensures OfDocument(vs, d) == [] ==> LatestNumber(vs, d) == 0
    ensures forall v | v in vs && v.documentId == d :: v.versionNumber <= LatestNumber(vs, d)
    ensures OfDocument(vs, d) != [] ==>
      exists v | v in vs && v.documentId == d :: v.versionNumber == LatestNumber(vs, d)
  {
    var s := OfDocument(vs, d);
    forall v | v in vs && v.documentId == d ensures v.versionNumber <= LatestNumber(vs, d) {
      HeadIsMax(s, Number, v);
    }
    if s != [] {
      var r := Descending(vs, d);
      assert r[0] in multiset(s);
    }
  }

  /** A version whose number is larger than every other version of its
      document is what the latest-number query reports and heads the
      history. */
  lemma UniqueMaxIsLatest(vs: seq<DocumentVersion>, v: DocumentVersion)
    requires v in vs
    requires forall w | w in vs && w.documentId == v.documentId && w != v :: w.versionNumber < v.versionNumber
    ensures LatestNumber(vs, v.documentId) == v.versionNumber
    ensures History(vs, v.documentId) != [] && History(vs, v.documentId)[0] == v
  {
    var d := v.documentId;
    var s := OfDocument(vs, d);
    assert SortDesc(s, Number)[0] == v by {
      assert forall y | y in s && y != v :: Number(y) < Number(v);
      UniqueMaxFirst(s, Number, v);
    }
    var r := Descending(vs, d);
    assert r != [] && r[0] == v;
    assert History(vs, d)[0] == r[0];
  }

  /** Firestore document ids are unique within the collection. */
  predicate DistinctIds(vs: seq<DocumentVersion>) {
    forall i, j | 0 <= i < j < |vs| :: vs[i].id != vs[j].id
  }

  function IdsOf(vs: seq<DocumentVersion>): set<Id> {
    set v | v in vs :: v.id
  }

  /** Commits a batch that deletes the records with the given ids. */
  function DropIds(vs: seq<DocumentVersion>, ids: set<Id>): (r: seq<DocumentVersion>)
    ensures forall v :: v in r <==> v in vs && v.id !in ids
  {
    if vs == [] then []
    else (if vs[0].id in ids then [] else [vs[0]]) + DropIds(vs[1..], ids)
  }

  /** `pruneOldVersions`: when the document has more than MAX_VERSIONS
      versions, delete those after the first MAX_VERSIONS of the descending
      query. */
  function Pruned(vs: seq<DocumentVersion>, d: Id): seq<DocumentVersion> {
    var r := Descending(vs, d);
    if |r| <= MAX_VERSIONS then vs else DropIds(vs, IdsOf(r[MAX_VERSIONS..]))
  }

  /** `deleteAllVersions`: delete every version of the document. */
  function WithoutDocument(vs: seq<DocumentVersion>, d: Id): (r: seq<DocumentVersion>)
    ensures forall v :: v in r <==> v in vs && v.documentId != d
  {
    if vs == [] then []
    else (if vs[0].documentId == d then [] else [vs[0]]) + WithoutDocument(vs[1..], d)
  }

  /** Deleting a document's versions leaves it none and leaves every other
      document's versions as they were, in order. */
  lemma {:induction false} WithoutDocumentEffect(vs: seq<DocumentVersion>, d: Id, e: Id)
    ensures OfDocument(WithoutDocument(vs, d), d) == []
    ensures e != d ==> OfDocument(WithoutDocument(vs, d), e) == OfDocument(vs, e)
  {
    if vs != [] {
      WithoutDocumentEffect(vs[1..], d, e);
      var head := if vs[0].documentId == d then [] else [vs[0]];
      OfDocumentAppend(head, WithoutDocument(vs[1..], d), d);
      OfDocumentAppend(head, WithoutDocument(vs[1..], d), e);
    }
  }

  // ----- facts about distinct ids used by the pruning lemmas -----

  lemma DistinctTail(vs: seq<DocumentVersion>)
    requires DistinctIds(vs) && vs != []
    ensures DistinctIds(vs[1..])
    ensures forall v | v in vs[1..] :: v.id != vs[0].id
  {
    forall v | v in vs[1..] ensures v.id != vs[0].id {
      var j :| 0 <= j < |vs[1..]| && vs[1..][j] == v;
      assert vs[j + 1] == v;
    }
  }

  lemma {:induction false} DistinctOfDocument(vs: seq<DocumentVersion>, d: Id)
    requires DistinctIds(vs)
    ensures DistinctIds(OfDocument(vs, d))
  {
    if vs != [] {
      DistinctTail(vs);
      DistinctOfDocument(vs[1..], d);
    }
  }

  lemma SameIdSameVersion(s: seq<DocumentVersion>, x: DocumentVersion, y: DocumentVersion)
    requires DistinctIds(s) && x in s && y in s && x.id == y.id
    ensures x == y
  {
    var i :| 0 <= i < |s| && s[i] == x;
    var j :| 0 <= j < |s| && s[j] == y;
    assert !(i < j) && !(j < i);
  }

  lemma {:induction false} AtMostOnce(s: seq<DocumentVersion>, x: DocumentVersion)
    requires DistinctIds(s)
    ensures multiset(s)[x] <= 1
  {
    if s != [] {
      DistinctTail(s);
      AtMostOnce(s[1..], x);
      assert s == [s[0]] + s[1..];
      if s[0] == x {
        assert x !in s[1..];
      }
    }
  }

  lemma {:induction false} DropIdsCount(s: seq<DocumentVersion>, ids: set<Id>, x: DocumentVersion)
    ensures multiset(DropIds(s, ids))[x] == if x.id in ids then 0 else multiset(s)[x]
  {
    if s != [] {
      DropIdsCount(s[1..], ids, x);
      assert s == [s[0]] + s[1..];
    }
  }

  lemma {:induction false} DropIdsAppend(a: seq<DocumentVersion>, b: seq<DocumentVersion>, ids: set<Id>)
    ensures DropIds(a + b, ids) == DropIds(a, ids) + DropIds(b, ids)
  {
    if a == [] {
      assert a + b == b;
    } else {
      assert (a + b)[0] == a[0];
      assert (a + b)[1..] == a[1..] + b;
      DropIdsAppend(a[1..], b, ids);
    }
  }

  lemma {:induction false} DropIdsOfDocument(vs: seq<DocumentVersion>, ids: set<Id>, d: Id)
    ensures OfDocument(DropIds(vs, ids), d) == DropIds(OfDocument(vs, d), ids)
  {
    if vs != [] {
      var v, tail := vs[0], vs[1..];
      DropIdsOfDocument(tail, ids, d);
      var head := if v.id in ids then [] else [v];
      var own := if v.documentId == d then [v] else [];
      assert DropIds(vs, ids) == head + DropIds(tail, ids);
      assert OfDocument(vs, d) == own + OfDocument(tail, d);
      OfDocumentAppend(head, DropIds(tail, ids), d);
      DropIdsAppend(own, OfDocument(tail, d), ids);
      assert OfDocument(head, d) == DropIds(own, ids);
    }
  }

  lemma {:induction false} DropIdsAbsent(s: seq<DocumentVersion>, ids: set<Id>)
    requires forall v | v in s :: v.id !in ids
    ensures DropIds(s, ids) == s
  {
    if s != [] {
      DropIdsAbsent(s[1..], ids);
    }
  }

  // ----- pruning -----

  /** Pruning is a no-op while the document has at most MAX_VERSIONS
      versions. */
  lemma PruneUnderCap(vs: seq<DocumentVersion>, d: Id)
    requires |OfDocument(vs, d)| <= MAX_VERSIONS
    ensures Pruned(vs, d) == vs
  {
  }

  /** Pruning one document leaves every other document's versions as they
      were. */
  lemma PruneLeavesOthers(vs: seq<DocumentVersion>, d: Id, e: Id)
    requires DistinctIds(vs) && e != d
    ensures OfDocument(Pruned(vs, d), e) == OfDocument(vs, e)
  {
    var r := Descending(vs, d);
    if |r| > MAX_VERSIONS {
      var ids := IdsOf(r[MAX_VERSIONS..]);
      DropIdsOfDocument(vs, ids, e);
      forall v | v in OfDocument(vs, e) ensures v.id !in ids {
        if v.id in ids {
          var w :| w in r[MAX_VERSIONS..] && w.id == v.id;
          assert w in multiset(r);
          SameIdSameVersion(vs, v, w);
        }
      }
      DropIdsAbsent(OfDocument(vs, e), ids);
    }
  }

  /** What pruning keeps of the document is exactly its history: the
      MAX_VERSIONS versions with the highest numbers (all of them when there
      are no more). */
  lemma PruneKeepsHistory(vs: seq<DocumentVersion>, d: Id)
    requires DistinctIds(vs)
    ensures multiset(OfDocument(Pruned(vs, d), d)) == multiset(History(vs, d))
  {
    var s, r := OfDocument(vs, d), Descending(vs, d);
    if |r| > MAX_VERSIONS {
      var ids := IdsOf(r[MAX_VERSIONS..]);
      assert Pruned(vs, d) == DropIds(vs, ids);
      assert History(vs, d) == r[..MAX_VERSIONS];
      DropIdsOfDocument(vs, ids, d);
      assert multiset(DropIds(s, ids)) == multiset(r[..MAX_VERSIONS]) by {
        DistinctOfDocument(vs, d);
        forall x ensures multiset(DropIds(s, ids))[x] == multiset(r[..MAX_VERSIONS])[x] {
          KeptCount(s, r, MAX_VERSIONS, x);
        }
      }
    } else {
      assert Pruned(vs, d) == vs && History(vs, d) == r;
    }
  }

  /** Deleting the ids of the tail of a reordering of `s` keeps each
      version as often as the head holds it. */
  lemma KeptCount(s: seq<DocumentVersion>, r: seq<DocumentVersion>, n: nat, x: DocumentVersion)
    requires DistinctIds(s) && multiset(r) == multiset(s) && n <= |r|
    ensures multiset(DropIds(s, IdsOf(r[n..])))[x] == multiset(r[..n])[x]
  {
    var top, rest := r[..n], r[n..];
    assert r == top + rest;
    assert multiset(r)[x] == multiset(top)[x] + multiset(rest)[x];
    DropIdsCount(s, IdsOf(rest), x);
    if x.id in IdsOf(rest) {
      if x in top {
        var w :| w in rest && w.id == x.id;
        assert x in multiset(s) && w in multiset(s);
        SameIdSameVersion(s, x, w);
        AtMostOnce(s, x);
        assert false;
      }
    } else {
      assert x !in rest;
    }
  }

  /** Under the cap nothing is deleted; over it exactly MAX_VERSIONS
      versions of the document remain. */
  lemma PruneCount(vs: seq<DocumentVersion>, d: Id)
    requires DistinctIds(vs)
    ensures |OfDocument(Pruned(vs, d), d)| == Capped(|OfDocument(vs, d)|)
  {
    PruneKeepsHistory(vs, d);
    HistoryProperties(vs, d);
    assert |multiset(OfDocument(Pruned(vs, d), d))| == |multiset(History(vs, d))|;
  }

  /** Every version pruning keeps has a number at least as high as every
      version of the document it deletes. */
  lemma PruneKeepsHighest(vs: seq<DocumentVersion>, d: Id, kept: DocumentVersion, gone: DocumentVersion)
    requires DistinctIds(vs)
    requires kept in Pruned(vs, d) && kept.documentId == d
    requires gone in vs && gone.documentId == d && gone !in Pruned(vs, d)
    ensures kept.versionNumber >= gone.versionNumber
  {
    var r := Descending(vs, d);
    PruneKeepsHistory(vs, d);
    assert kept in OfDocument(Pruned(vs, d), d);
    assert kept in multiset(History(vs, d));
    assert |r| > MAX_VERSIONS;
    var ids := IdsOf(r[MAX_VERSIONS..]);
    assert gone.id in ids;
    var w :| w in r[MAX_VERSIONS..] && w.id == gone.id;
    assert w in multiset(OfDocument(vs, d));
    SameIdSameVersion(vs, gone, w);
    PrefixDominates(r, Number, MAX_VERSIONS, kept, gone);
  }

  /** Every record pruning keeps was there before. */
  lemma PrunedSubset(vs: seq<DocumentVersion>, d: Id)
    ensures forall x | x in Pruned(vs, d) :: x in vs
  {
  }

  /** Inserting a version numbered above every other version of its
      document and pruning leaves that version as the latest one, at the
      head of the history. */
  lemma InsertMaxThenPrune(vs: seq<DocumentVersion>, v: DocumentVersion)
    requires DistinctIds(vs + [v])
    requires forall w | w in vs && w.documentId == v.documentId :: w.versionNumber < v.versionNumber
    ensures v in Pruned(vs + [v], v.documentId)
    ensures LatestNumber(Pruned(vs + [v], v.documentId), v.documentId) == v.versionNumber
    ensures History(Pruned(vs + [v], v.documentId), v.documentId)[0] == v
  {
    var d, all := v.documentId, vs + [v];
    var p := Pruned(all, d);
    UniqueMaxIsLatest(all, v);
    PruneKeepsHistory(all, d);
    assert v in multiset(History(all, d));
    assert v in OfDocument(p, d);
    PrunedSubset(all, d);
    UniqueMaxIsLatest(p, v);
  }

  /** A document none of whose versions is stored has an empty query. */
  lemma {:induction false} NoVersionsOf(vs: seq<DocumentVersion>, d: Id)
    requires forall v | v in vs :: v.documentId != d
    ensures OfDocument(vs, d) == []
  {
    if vs != [] {
      assert vs[0] in vs;
      assert forall v | v in vs[1..] :: v in vs;
      NoVersionsOf(vs[1..], d);
    }
  }

  /** Pruning a document brings it under the cap, keeps ids distinct and
      leaves every other document's count where it was. */
  lemma PruneRestoresCap(vs: seq<DocumentVersion>, d: Id)
    requires DistinctIds(vs)
    requires forall e | e != d :: |OfDocument(vs, e)| <= MAX_VERSIONS
    ensures DistinctIds(Pruned(vs, d))
    ensures forall e :: |OfDocument(Pruned(vs, d), e)| <= MAX_VERSIONS
    ensures forall v | v in Pruned(vs, d) :: v in vs
  {
    PruneCount(vs, d);
    forall e | e != d ensures OfDocument(Pruned(vs, d), e) == OfDocument(vs, e) {
      PruneLeavesOthers(vs, d, e);
    }
    var r := Descending(vs, d);
    if |r| > MAX_VERSIONS {
      DropIdsDistinct(vs, IdsOf(r[MAX_VERSIONS..]));
    }
  }

  /** Adding a version of `v.documentId` and pruning that document leaves
      every other document's versions as they were. */
  lemma PruneAppendLeavesOthers(vs: seq<DocumentVersion>, v: DocumentVersion)
    requires DistinctIds(vs + [v])
    ensures forall e | e != v.documentId :: OfDocument(Pruned(vs + [v], v.documentId), e) == OfDocument(vs, e)
  {
    forall e | e != v.documentId ensures OfDocument(Pruned(vs + [v], v.documentId), e) == OfDocument(vs, e) {
      PruneLeavesOthers(vs + [v], v.documentId, e);
      OfDocumentAppend(vs, [v], e);
    }
  }

  /** The first version of a document is kept and is its latest. */
  lemma FirstVersionKept(vs: seq<DocumentVersion>, v: DocumentVersion)
    requires OfDocument(vs, v.documentId) == []
    ensures Pruned(vs + [v], v.documentId) == vs + [v]
    ensures LatestNumber(vs + [v], v.documentId) == v.versionNumber
  {
    OfDocumentAppend(vs, [v], v.documentId);
    assert OfDocument(vs + [v], v.documentId) == [v];
    PruneUnderCap(vs + [v], v.documentId);
  }

  /** The largest version number in `s`, 0 for none. */
  function MaxNumber(s: seq<DocumentVersion>): nat {
    if s == [] then 0
    else
      var m := MaxNumber(s[1..]);
      if s[0].versionNumber >= m then s[0].versionNumber else m
  }

  lemma {:induction false} MaxNumberIsMax(s: seq<DocumentVersion>)
    ensures forall v | v in s :: v.versionNumber <= MaxNumber(s)
    ensures s != [] ==> exists v | v in s :: v.versionNumber == MaxNumber(s)
  {
    if s != [] {
      MaxNumberIsMax(s[1..]);
      assert s[0] in s;
      if s[1..] != [] && MaxNumber(s) != s[0].versionNumber {
        var w :| w in s[1..] && w.versionNumber == MaxNumber(s[1..]);
        assert w in s;
      }
    }
  }

  /** The head of the descending query is the plain maximum. */
  lemma LatestIsMaxNumber(vs: seq<DocumentVersion>, d: Id)
    ensures LatestNumber(vs, d) == MaxNumber(OfDocument(vs, d))
  {
    LatestNumberIsMax(vs, d);
    MaxNumberIsMax(OfDocument(vs, d));
  }

  /** Deleting records keeps the ids of the rest distinct. */
  lemma {:induction false} DropIdsDistinct(vs: seq<DocumentVersion>, ids: set<Id>)
    requires DistinctIds(vs)
    ensures DistinctIds(DropIds(vs, ids))
  {
    if vs != [] {
      DistinctTail(vs);
      DropIdsDistinct(vs[1..], ids);
    }
  }

  // ----- comparison -----

  datatype VersionDiff = VersionDiff(titleChanged: bool, contentLengthDiff: int)

  /** `compareVersions`. */
  function Compare(v1: DocumentVersion, v2: DocumentVersion): VersionDiff {
    VersionDiff(v1.title != v2.title, Text.Utf16Length(v2.content) - Text.Utf16Length(v1.content))
  }

  /** Swapping the arguments keeps `titleChanged` and negates the length
      difference; comparing a version with itself reports no change. */
  lemma CompareSwap(v1: DocumentVersion, v2: DocumentVersion)
    ensures Compare(v2, v1).titleChanged == Compare(v1, v2).titleChanged
    ensures Compare(v2, v1).contentLengthDiff == -Compare(v1, v2).contentLengthDiff
    ensures Compare(v1, v1) == VersionDiff(false, 0)
  {
  }
}
