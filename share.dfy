/** The share dialog of `src/components/ShareModal.tsx`: the checks
    `handleAddCollaborator` runs on the typed email (required, then format,
    then duplicate), the lower-cased entry it sends to the store, and the
    form state around the add, remove and role-change handlers. */
module Share {
  import opened Wrappers
  import opened Types
  import opened Text
  import opened Access
  import opened Backend

  /** `[^\s@]+`: a non-empty run without whitespace or '@'. */
  predicate Piece(x: string) {
    |x| > 0 && NoSpace(x) && '@' !in x
  }

  /** `s` is the pieces `a`, `b`, `c` joined by '@' and '.'. */
  predicate Joined(s: string, a: string, b: string, c: string) {
    Piece(a) && Piece(b) && Piece(c) && s == a + "@" + b + "." + c
  }

  /** `^[^\s@]+@[^\s@]+\.[^\s@]+$`: three pieces joined by '@' and '.'. */
  ghost predicate EmailPattern(s: string) {
    exists a, b, c :: Joined(s, a, b, c)
  }

  /** Facts about three pieces joined by '@' and '.'. */
  lemma JoinFacts(a: string, b: string, c: string)
    requires Piece(a) && Piece(b) && Piece(c)
    ensures var s := a + "@" + b + "." + c;
      && NoSpace(s) && Count(s, '@') == 1
      && |s| == |a| + |b| + |c| + 2 && s[|a|] == '@' && s[|a| + 1 + |b|] == '.'
      && s[..|a|] == a && s[|a| + 1..] == b + "." + c
  {
    assert NoSpace("@") && NoSpace(".");
    NoSpaceConcat(a, "@");
    NoSpaceConcat(a + "@", b);
    NoSpaceConcat(a + "@" + b, ".");
    NoSpaceConcat(a + "@" + b + ".", c);
    CountAbsent(a, '@');
    CountAbsent(b, '@');
    CountAbsent(c, '@');
    CountAppend(a, "@", '@');
    CountAppend(a + "@", b, '@');
    CountAppend(a + "@" + b, ".", '@');
    CountAppend(a + "@" + b + ".", c, '@');
  }

  /** A matching address has no whitespace, so trimming leaves it as it
      is, and exactly one '@'. */
  lemma EmailPatternFacts(s: string)
    requires EmailPattern(s)
    ensures NoSpace(s) && Trim(s) == s
    ensures Count(s, '@') == 1
  {
    var a, b, c :| Joined(s, a, b, c);
    JoinFacts(a, b, c);
    TrimNoSpace(s);
  }

  /** A '.' with at least one character on each side. */
  predicate InnerDot(t: string) {
    exists j | 1 <= j < |t| - 1 :: t[j] == '.'
  }

  /** `emailRegex.test(email)`, decided without backtracking: no
      whitespace, a single '@' that is not first, and an inner '.' in what
      follows it. */
  predicate MatchesEmail(s: string) {
    NoSpace(s) && Count(s, '@') == 1 && ('@' in s) &&
    var i := IndexOf(s, '@');
    0 < i && InnerDot(s[i + 1..])
  }

  /** The decision procedure accepts exactly the strings the pattern
      describes. */
  lemma MatchesEmailIffPattern(s: string)
    ensures MatchesEmail(s) <==> EmailPattern(s)
  {
    if EmailPattern(s) {
      PatternMatches(s);
    }
    if MatchesEmail(s) {
      MatchHasPieces(s);
    }
  }

  lemma PatternMatches(s: string)
    requires EmailPattern(s)
    ensures MatchesEmail(s)
  {
    var a, b, c :| Joined(s, a, b, c);
    JoinFacts(a, b, c);
    IndexOfFirst(s, '@', |a|);
    var t := s[|a| + 1..];
    assert t[|b|] == '.';
  }

  lemma MatchHasPieces(s: string)
    requires MatchesEmail(s)
    ensures EmailPattern(s)
  {
    var i := IndexOf(s, '@');
    var t := s[i + 1..];
    var j :| 1 <= j < |t| - 1 && t[j] == '.';
    SplitAtDot(s, i, j);
  }

  /** Cutting a string that passes `MatchesEmail` at its '@' and at a dot
      inside the domain gives the three pieces. */
  lemma SplitAtDot(s: string, i: nat, j: nat)
    requires NoSpace(s) && Count(s, '@') == 1
    requires i < |s| && s[i] == '@' && 0 < i && '@' !in s[..i]
    requires 1 <= j < |s| - i - 2 && s[i + 1 + j] == '.'
    ensures Joined(s, s[..i], s[i + 1..][..j], s[i + 1..][j + 1..])
  {
    var t := s[i + 1..];
    var a, b, c := s[..i], t[..j], t[j + 1..];
    assert s == a + [s[i]] + t;
    AtOnlyAt(s, i);
    assert t == b + "." + c;
    assert s == a + "@" + b + "." + c;
    NoSpaceSlice(s, 0, i);
    NoSpaceSlice(s, i + 1, |s|);
    NoSpaceSlice(t, 0, j);
    NoSpaceSlice(t, j + 1, |t|);
    assert '@' !in b && '@' !in c by {
      assert forall x | x in b :: x in t;
      assert forall x | x in c :: x in t;
    }
  }

  lemma {:induction false} IndexOfFirst(s: string, c: char, i: nat)
    requires i < |s| && s[i] == c && c !in s[..i]
    ensures IndexOf(s, c) == i
  {
    if i > 0 {
      assert s[0] in s[..i];
      assert s[1..][..i - 1] == s[1..i];
      assert forall x | x in s[1..i] :: x in s[..i];
      IndexOfFirst(s[1..], c, i - 1);
    }
  }

  /** With a single '@' at index i, nothing after it is an '@'. */
  lemma AtOnlyAt(s: string, i: nat)
    requires i < |s| && s[i] == '@' && Count(s, '@') == 1
    ensures '@' !in s[i + 1..]
  {
    assert s == s[..i + 1] + s[i + 1..];
    CountAppend(s[..i + 1], s[i + 1..], '@');
    assert s[..i + 1] == s[..i] + [s[i]];
    CountAppend(s[..i], [s[i]], '@');
    CountAbsent(s[i + 1..], '@');
  }

  lemma NoSpaceSlice(s: string, lo: nat, hi: nat)
    requires lo <= hi <= |s| && NoSpace(s)
    ensures NoSpace(s[lo..hi])
  {
    forall k | 0 <= k < hi - lo ensures !IsSpace(s[lo..hi][k]) {
      assert s[lo..hi][k] == s[lo + k];
    }
  }

  /** Sample inputs: a plain address matches; an address without a dot
      after the '@', with a space or with two '@' does not. */
  lemma EmailPatternExamples()
    ensures EmailPattern("a@b.c")
    ensures !EmailPattern("a@b")
    ensures !EmailPattern("a b@c.d")
    ensures !EmailPattern("a@@b.c")
  {
    assert "a@b.c" == "a" + "@" + "b" + "." + "c";
    assert Joined("a@b.c", "a", "b", "c");
    MatchesEmailIffPattern("a@b");
    MatchesEmailIffPattern("a b@c.d");
    MatchesEmailIffPattern("a@@b.c");
    assert !NoSpace("a b@c.d") by {
      assert IsSpace(("a b@c.d")[1]);
    }
    assert Count("a@@b.c", '@') == 2;
    assert IndexOf("a@b", '@') == 1;
    assert !InnerDot("b");
  }

  const REQUIRED := "Email is required"
  const INVALID := "Invalid email address"
  const DUPLICATE := "This user is already a collaborator"
  const ADD_FAILED := "Failed to add collaborator"

  /** Which check of `handleAddCollaborator` failed. */
  datatype Problem = Required | Invalid | Duplicate

  /** The message `setError` shows for each failed check. */
  function Message(p: Problem): (m: string)
    ensures m != ""
  {
    match p
    case Required => REQUIRED
    case Invalid => INVALID
    case Duplicate => DUPLICATE
  }

  /** The checks of `handleAddCollaborator` in their order; the first that
      fails is reported, and None lets the add proceed. The duplicate check
      compares the email exactly as typed. */
  function ValidateNewCollaborator(email: string, collaborators: seq<Collaborator>): Option<Problem> {
    if Trim(email) == "" then Some(Required)
    else if !MatchesEmail(email) then Some(Invalid)
    else if Listed(collaborators, email) then Some(Duplicate)
    else None
  }

  /** What the validator promises: the required message exactly for blank
      input, the format message exactly for non-blank input the pattern
      rejects, the duplicate message exactly for a well-formed email listed
      as typed; an accepted email is well-formed, unlisted and unchanged by
      trimming. */
  lemma ValidationOrder(email: string, collaborators: seq<Collaborator>)
    ensures ValidateNewCollaborator(email, collaborators) == Some(Required) <==> AllSpace(email)
    ensures ValidateNewCollaborator(email, collaborators) == Some(Invalid) <==>
      !AllSpace(email) && !EmailPattern(email)
    ensures ValidateNewCollaborator(email, collaborators) == Some(Duplicate) <==>
      EmailPattern(email) && Listed(collaborators, email)
    ensures ValidateNewCollaborator(email, collaborators).None? ==>
      EmailPattern(email) && !Listed(collaborators, email) && Trim(email) == email
  {
    BlankIsRequired(email, collaborators);
    MalformedIsInvalid(email, collaborators);
    ListedIsDuplicate(email, collaborators);
    AcceptedIsWellFormed(email, collaborators);
  }

  lemma BlankIsRequired(email: string, collaborators: seq<Collaborator>)
    ensures ValidateNewCollaborator(email, collaborators) == Some(Required) <==> AllSpace(email)
  {
    TrimEmptyIffAllSpace(email);
  }

  lemma MalformedIsInvalid(email: string, collaborators: seq<Collaborator>)
    ensures ValidateNewCollaborator(email, collaborators) == Some(Invalid) <==>
      !AllSpace(email) && !EmailPattern(email)
  {
    TrimEmptyIffAllSpace(email);
    MatchesEmailIffPattern(email);
  }

  /** A matching address is never blank. */
  lemma PatternNotBlank(email: string)
    requires EmailPattern(email)
    ensures !AllSpace(email)
  {
    var a, b, c :| Joined(email, a, b, c);
    JoinFacts(a, b, c);
    assert email[0] == a[0];
    assert !IsSpace(email[0]);
  }

  lemma ListedIsDuplicate(email: string, collaborators: seq<Collaborator>)
    ensures ValidateNewCollaborator(email, collaborators) == Some(Duplicate) <==>
      EmailPattern(email) && Listed(collaborators, email)
  {
    var v := ValidateNewCollaborator(email, collaborators);
    MatchesEmailIffPattern(email);
    if EmailPattern(email) {
      PatternNotBlank(email);
      TrimEmptyIffAllSpace(email);
      assert v == if Listed(collaborators, email) then Some(Duplicate) else None;
      assert v == Some(Duplicate) <==> Listed(collaborators, email);
    } else {
      assert v == Some(Required) || v == Some(Invalid);
      assert v != Some(Duplicate);
    }
  }

  lemma AcceptedIsWellFormed(email: string, collaborators: seq<Collaborator>)
    ensures ValidateNewCollaborator(email, collaborators).None? ==>
      EmailPattern(email) && !Listed(collaborators, email) && Trim(email) == email
  {
    MatchesEmailIffPattern(email);
    if EmailPattern(email) {
      EmailPatternFacts(email);
    }
  }

  /** `email.trim().toLowerCase()`: the address that is stored. */
  function Normalized(email: string): string {
    ToLower(Trim(email))
  }

  /** For an accepted email the trim does nothing: the stored address is
      the typed one lower-cased, and normalising again changes nothing. */
  lemma AcceptedNormalization(email: string, collaborators: seq<Collaborator>)
    requires ValidateNewCollaborator(email, collaborators).None?
    ensures Normalized(email) == ToLower(email)
    ensures Normalized(Normalized(email)) == Normalized(email)
  {
    ValidationOrder(email, collaborators);
    EmailPatternFacts(email);
    assert Normalized(email) == ToLower(email);
    ToLowerNoSpace(email);
    TrimNoSpace(ToLower(email));
    ToLowerIdempotent(email);
  }

  /** The duplicate check runs before lower-casing: an email differing only
      in case from a stored one passes, and the add leaves two entries with
      the same stored address. */
  lemma CaseVariantAddsDuplicate()
    ensures var stored := Collaborator("", "a@b.c", CollaboratorRole.Viewer, 0, "owner");
      && ValidateNewCollaborator("A@b.c", [stored]).None?
      && var entry := Collaborator("", Normalized("A@b.c"), CollaboratorRole.Viewer, 1, "owner");
         var after := WithEntry([stored], entry);
         |after| == 2 && after[0].email == after[1].email
  {
    var stored := Collaborator("", "a@b.c", CollaboratorRole.Viewer, 0, "owner");
    CaseVariantPasses(stored);
    NormalizedExample();
    SecondEntry(stored, Collaborator("", "a@b.c", CollaboratorRole.Viewer, 1, "owner"));
  }

  /** An entry with a stored address but a later date is appended. */
  lemma SecondEntry(stored: Collaborator, entry: Collaborator)
    requires entry.email == stored.email && entry.addedAt != stored.addedAt
    ensures var after := WithEntry([stored], entry);
      |after| == 2 && after[0].email == after[1].email
  {
    assert entry !in [stored];
  }

  lemma CaseVariantPasses(stored: Collaborator)
    requires stored.email == "a@b.c"
    ensures ValidateNewCollaborator("A@b.c", [stored]).None?
  {
    var typed := "A@b.c";
    assert typed == "A" + "@" + "b" + "." + "c";
    assert Joined(typed, "A", "b", "c");
    assert typed[0] != stored.email[0];
    assert !Listed([stored], typed);
    MatchesEmailIffPattern(typed);
    assert !AllSpace(typed) by {
      assert !IsSpace(typed[0]);
    }
    ValidationOrder(typed, [stored]);
  }

  lemma NormalizedExample()
    ensures Normalized("A@b.c") == "a@b.c"
  {
    var typed := "A@b.c";
    assert NoSpace(typed) by {
      forall k | 0 <= k < |typed| ensures !IsSpace(typed[k]) {
        assert typed[k] in "A@b.c";
      }
    }
    TrimNoSpace(typed);
    LowerExample();
  }

  lemma LowerExample()
    ensures ToLower("A@b.c") == "a@b.c"
  {
    var lower := ToLower("A@b.c");
    assert LowerChar('A') == 'a';
    assert |lower| == 5 && lower[0] == 'a';
    assert lower[1] == '@' && lower[2] == 'b' && lower[3] == '.' && lower[4] == 'c';
  }

  /** The dialog's form state. */
  class ShareForm {
    var email: string
    var role: CollaboratorRole
    var loading: bool
    var error: string

    /** `useState("")`, `useState("viewer")`, `useState(false)`,
        `useState("")`. */
    constructor ()
      ensures email == "" && role == CollaboratorRole.Viewer && !loading && error == ""
    {
      email, role, loading, error := "", CollaboratorRole.Viewer, false, "";
    }

    /** `handleAddCollaborator`: clear the error, validate, and only then
        add the lower-cased entry; on success reset the inputs, on failure
        (a missing document, or a write the backend rejects: `writeFails`)
        show the add error and keep the inputs; loading always ends false. */
    method HandleAdd(store: Store, documentId: Id, collaborators: seq<Collaborator>, currentUserId: string, writeFails: bool)
      requires store.Valid()
      modifies this, store`documents, store`clock
      ensures store.Valid()
      ensures ValidateNewCollaborator(old(email), collaborators).Some? ==>
        && error == Message(ValidateNewCollaborator(old(email), collaborators).value)
        && loading == old(loading)
        && store.documents == old(store.documents) && store.clock == old(store.clock)
        && email == old(email) && role == old(role)
      ensures ValidateNewCollaborator(old(email), collaborators).None? && !writeFails && documentId in old(store.documents) ==>
        var doc := old(store.documents[documentId]);
        var entry := Collaborator("", Normalized(old(email)), old(role), old(store.clock), currentUserId);
        && store.documents == old(store.documents)[documentId := doc.(
             collaborators := WithEntry(doc.collaborators, entry), updatedAt := old(store.clock))]
        && email == "" && role == CollaboratorRole.Viewer && error == "" && !loading
      ensures ValidateNewCollaborator(old(email), collaborators).None? && (writeFails || documentId !in old(store.documents)) ==>
        store.documents == old(store.documents) && error == ADD_FAILED && email == old(email) && role == old(role) && !loading
    {
      error := "";
      var verdict := ValidateNewCollaborator(email, collaborators);
      if verdict.Some? {
        error := Message(verdict.value);
        return;
      }
      AddEntry(store, documentId, Normalized(email), currentUserId, writeFails);
    }

    /** The part of `handleAddCollaborator` after the checks passed, given
        the address to store. */
    method AddEntry(store: Store, documentId: Id, address: string, currentUserId: string, writeFails: bool)
      requires store.Valid() && error == ""
      modifies this, store`documents, store`clock
      ensures store.Valid()
      ensures !writeFails && documentId in old(store.documents) ==>
        var doc := old(store.documents[documentId]);
        var entry := Collaborator("", address, old(role), old(store.clock), currentUserId);
        && store.documents == old(store.documents)[documentId := doc.(
             collaborators := WithEntry(doc.collaborators, entry), updatedAt := old(store.clock))]
        && email == "" && role == CollaboratorRole.Viewer && error == "" && !loading
      ensures writeFails || documentId !in old(store.documents) ==>
        store.documents == old(store.documents) && error == ADD_FAILED && email == old(email) && role == old(role) && !loading
    {
      loading := true;
      var added := false;
      if !writeFails {
        var outcome := store.AddCollaborator(documentId, "", address, role, currentUserId);
        added := outcome.Done?;
      }
      if added {
        email := "";
        role := CollaboratorRole.Viewer;
      } else {
        error := ADD_FAILED;
      }
      loading := false;
    }

    /** `handleRemoveCollaborator` on the entry's stored email; a rejected
        write (`writeFails`) is only logged. */
    method HandleRemove(store: Store, documentId: Id, collaboratorEmail: string, writeFails: bool)
      requires store.Valid()
      modifies this`loading, store`documents, store`clock
      ensures store.Valid() && !loading
      ensures !writeFails && documentId in old(store.documents) ==>
        var doc := old(store.documents[documentId]);
        store.documents == old(store.documents)[documentId := doc.(
          collaborators := WithoutEmail(doc.collaborators, collaboratorEmail), updatedAt := old(store.clock))]
      ensures writeFails || documentId !in old(store.documents) ==> store.documents == old(store.documents)
    {
      loading := true;
      if !writeFails {
        store.RemoveCollaborator(documentId, collaboratorEmail);
      }
      loading := false;
    }

    /** `handleRoleChange` on the entry's stored email; a rejected write
        (`writeFails`) is only logged. */
    method HandleRoleChange(store: Store, documentId: Id, collaboratorEmail: string, newRole: CollaboratorRole, writeFails: bool)
      requires store.Valid()
      modifies this`loading, store`documents, store`clock
      ensures store.Valid() && !loading
      ensures !writeFails && documentId in old(store.documents) ==>
        var doc := old(store.documents[documentId]);
        store.documents == old(store.documents)[documentId := doc.(
          collaborators := WithRole(doc.collaborators, collaboratorEmail, newRole), updatedAt := old(store.clock))]
      ensures writeFails || documentId !in old(store.documents) ==> store.documents == old(store.documents)
    {
      loading := true;
      if !writeFails {
        store.UpdateCollaboratorRole(documentId, collaboratorEmail, newRole);
      }
      loading := false;
    }
  }
}
