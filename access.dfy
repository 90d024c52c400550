/** The access evaluator (`hasDocumentAccess`) and the whole-list
    transformations of a document's collaborator list used by
    `addCollaborator` (arrayUnion), `removeCollaborator` (filter) and
    `updateCollaboratorRole` (map), from `src/lib/documents.ts`. */
module Access {
  import opened Wrappers
  import opened Types

  /** The role `hasDocumentAccess` reports: "owner" or a collaborator role. */
  datatype AccessRole = OwnerAccess | CollaboratorAccess(role: CollaboratorRole)

  datatype AccessResult = AccessResult(hasAccess: bool, role: Option<AccessRole>)

  predicate Listed(cs: seq<Collaborator>, email: string) {
    exists i | 0 <= i < |cs| :: cs[i].email == email
  }

  /** `cs.find(c => c.email === email)`: the first entry with that exact
      email. */
  function FindByEmail(cs: seq<Collaborator>, email: string): (r: Option<Collaborator>)
    ensures r.None? <==> !Listed(cs, email)
    ensures r.Some? ==> exists i | 0 <= i < |cs| ::
      (cs[i] == r.value && cs[i].email == email && forall j | 0 <= j < i :: cs[j].email != email)
  {
    if cs == [] then None
    else if cs[0].email == email then Some(cs[0])
    else
      var r := FindByEmail(cs[1..], email);
      assert Listed(cs[1..], email) ==> Listed(cs, email) by {
        if Listed(cs[1..], email) {
          var i :| 0 <= i < |cs[1..]| && cs[1..][i].email == email;
          assert cs[i + 1].email == email;
        }
      }
      assert r.Some? ==> exists i | 0 <= i < |cs| ::
        (cs[i] == r.value && cs[i].email == email && forall j | 0 <= j < i :: cs[j].email != email) by {
        if r.Some? {
          var i :| 0 <= i < |cs[1..]| && cs[1..][i] == r.value && cs[1..][i].email == email
            && forall j | 0 <= j < i :: cs[1..][j].email != email;
          assert cs[i + 1] == r.value;
          forall j | 0 <= j < i + 1 ensures cs[j].email != email {
            if j > 0 { assert cs[j] == cs[1..][j - 1]; }
          }
        }
      }
      r
  }

  /** `hasDocumentAccess`: the owner first, then the first collaborator
      whose email equals `userEmail` exactly, otherwise no access. */
  function HasDocumentAccess(doc: Document, userId: string, userEmail: string): (r: AccessResult)
    ensures r.hasAccess <==> r.role.Some?
    ensures r.hasAccess <==> doc.userId == userId || Listed(doc.collaborators, userEmail)
    ensures doc.userId == userId ==> r.role == Some(OwnerAccess)
    ensures doc.userId != userId ==> r.role != Some(OwnerAccess)
  {
    if doc.userId == userId then AccessResult(true, Some(OwnerAccess))
    else
      match FindByEmail(doc.collaborators, userEmail)
      case Some(c) => AccessResult(true, Some(CollaboratorAccess(c.role)))
      case None => AccessResult(false, None)
  }

  /** A non-owner listed as a collaborator gets the role of the first entry
      carrying the email. */
  lemma CollaboratorAccessIsFirstMatch(doc: Document, userId: string, userEmail: string, i: nat)
    requires doc.userId != userId
    requires i < |doc.collaborators| && doc.collaborators[i].email == userEmail
    requires forall j | 0 <= j < i :: doc.collaborators[j].email != userEmail
    ensures HasDocumentAccess(doc, userId, userEmail)
      == AccessResult(true, Some(CollaboratorAccess(doc.collaborators[i].role)))
  {
    var r := FindByEmail(doc.collaborators, userEmail);
    var k :| 0 <= k < |doc.collaborators| && doc.collaborators[k] == r.value
      && doc.collaborators[k].email == userEmail
      && forall j | 0 <= j < k :: doc.collaborators[j].email != userEmail;
    assert !(k < i) && !(i < k);
  }

  // ----- collaborator-list transformations -----

  /** `arrayUnion(entry)`: appends the entry unless an identical entry is
      already present. There is no check on the email. */
  function WithEntry(cs: seq<Collaborator>, entry: Collaborator): (r: seq<Collaborator>)
    ensures entry in r
    ensures entry !in cs ==> r == cs + [entry]
    ensures entry in cs ==> r == cs
  {
    if entry in cs then cs else cs + [entry]
  }

  /** The list may end up with two entries for one email: the store does
      not enforce uniqueness. */
  lemma WithEntryAllowsDuplicateEmail(cs: seq<Collaborator>, entry: Collaborator)
    requires Listed(cs, entry.email) && entry !in cs
    ensures |WithEntry(cs, entry)| == |cs| + 1
    ensures exists i, j | 0 <= i < j < |WithEntry(cs, entry)| ::
      WithEntry(cs, entry)[i].email == WithEntry(cs, entry)[j].email
  {
    var r := WithEntry(cs, entry);
    var i :| 0 <= i < |cs| && cs[i].email == entry.email;
    assert r[i].email == r[|cs|].email;
  }

  /** `filter(c => c.email !== email)`. */
  function WithoutEmail(cs: seq<Collaborator>, email: string): (r: seq<Collaborator>)
    ensures |r| <= |cs|
    ensures forall c :: c in r <==> c in cs && c.email != email
  {
    if cs == [] then []
    else (if cs[0].email == email then [] else [cs[0]]) + WithoutEmail(cs[1..], email)
  }

  /** Removal keeps every other entry, in order: it distributes over
      concatenation, and it is the identity on a list without the email. */
  lemma {:induction false} WithoutEmailAppend(a: seq<Collaborator>, b: seq<Collaborator>, email: string)
    ensures WithoutEmail(a + b, email) == WithoutEmail(a, email) + WithoutEmail(b, email)
  {
    if a == [] {
      assert a + b == b;
    } else {
      assert (a + b)[0] == a[0];
      assert (a + b)[1..] == a[1..] + b;
      WithoutEmailAppend(a[1..], b, email);
    }
  }

  lemma {:induction false} WithoutAbsentEmail(cs: seq<Collaborator>, email: string)
    requires !Listed(cs, email)
    ensures WithoutEmail(cs, email) == cs
  {
    if cs != [] {
      assert cs[0].email != email;
      assert !Listed(cs[1..], email);
      WithoutAbsentEmail(cs[1..], email);
    }
  }

  /** Removing twice is removing once. */
  lemma WithoutEmailIdempotent(cs: seq<Collaborator>, email: string)
    ensures WithoutEmail(WithoutEmail(cs, email), email) == WithoutEmail(cs, email)
  {
    var r := WithoutEmail(cs, email);
    assert !Listed(r, email);
    WithoutAbsentEmail(r, email);
  }

  /** `map(c => c.email === email ? {...c, role} : c)`. */
  function WithRole(cs: seq<Collaborator>, email: string, role: CollaboratorRole): (r: seq<Collaborator>)
    ensures |r| == |cs|
    ensures forall i | 0 <= i < |cs| ::
      r[i] == if cs[i].email == email then cs[i].(role := role) else cs[i]
  {
    if cs == [] then []
    else [if cs[0].email == email then cs[0].(role := role) else cs[0]] + WithRole(cs[1..], email, role)
  }

  /** After a role change, access for the changed email reports the new
      role (for a non-owner), and the emails of the list are unchanged. */
  lemma WithRoleAccess(doc: Document, userId: string, email: string, role: CollaboratorRole)
    requires doc.userId != userId && Listed(doc.collaborators, email)
    ensures HasDocumentAccess(doc.(collaborators := WithRole(doc.collaborators, email, role)), userId, email)
      == AccessResult(true, Some(CollaboratorAccess(role)))
  {
    var cs := doc.collaborators;
    var r := WithRole(cs, email, role);
    var i :| 0 <= i < |cs| && cs[i].email == email;
    var k := FirstIndex(cs, email, i);
    assert r[k].email == email && r[k].role == role;
    assert forall j | 0 <= j < k :: r[j].email == cs[j].email;
    CollaboratorAccessIsFirstMatch(doc.(collaborators := r), userId, email, k);
  }

  /** The position of the first entry carrying `email`, given one at `i`. */
  function FirstIndex(cs: seq<Collaborator>, email: string, i: nat): (k: nat)
    requires i < |cs| && cs[i].email == email
    ensures k <= i && cs[k].email == email
    ensures forall j | 0 <= j < k :: cs[j].email != email
  {
    if cs[0].email == email then 0
    else
      var k := FirstIndex(cs[1..], email, i - 1);
      1 + k
  }

  /** Adding an email nobody holds yet and then evaluating access for it
      (as a non-owner) grants the added role. */
  lemma AddThenAccess(doc: Document, userId: string, entry: Collaborator)
    requires doc.userId != userId && !Listed(doc.collaborators, entry.email)
    ensures HasDocumentAccess(doc.(collaborators := WithEntry(doc.collaborators, entry)), userId, entry.email)
      == AccessResult(true, Some(CollaboratorAccess(entry.role)))
  {
    var cs := doc.collaborators;
    assert entry !in cs;
    CollaboratorAccessIsFirstMatch(doc.(collaborators := cs + [entry]), userId, entry.email, |cs|);
  }
}
