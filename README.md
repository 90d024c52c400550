# KirokuMD core, modelled in Dafny

KirokuMD is a collaborative Markdown editor. Its documents live in a
Firestore `documents` collection. Every save also writes a snapshot into a
`versions` collection, which is pruned to the newest 25 per document.
Accounts live in a `users` registry: the first account becomes an approved
administrator, and later accounts wait as pending owners until an
administrator approves them.

This project models that core and proves properties about it:

- **Backend.** The version store, the document store and the user
  registry (`src/lib/versions.ts`, `src/lib/documents.ts`,
  `src/lib/users.ts`) are modelled as one class, `Backend.Store`. Its
  `documents` map, `versions` sequence and `users` map are updated in place
  by methods that mirror the library functions.
- **Components and pages.** Each is modelled as a class holding its state
  fields, with the handlers as methods:
  - the session (`src/context/AuthContext.tsx`);
  - the sharing dialog (`ShareModal.tsx`);
  - the two exporters (`ExportModal.tsx`, `ExportMenu.tsx`);
  - the version-history dialog (`VersionHistoryModal.tsx`);
  - the two-panel editor (`MarkdownApp.tsx`);
  - the sign-up, dashboard and admin pages.
- **Pure logic.** Validation, filters, labels and the Markdown-to-Word line
  classifier are functions, with lemmas about them.

Modules, one per file:

- `Wrappers`: `Option` and `Result`.
- `Types`: the records of `src/types`.
- `Text`: the JavaScript string operations the code relies on: `trim`,
  `\s`, `toLowerCase`, `includes`, `split`, decimal rendering, and
  `.length` and `slice` counted in UTF-16 code units.
- `Sorting`: a descending sort by a named key and the order-keeping filter.
- `Versions`: the version collection as a value, with pruning and history.
- `Access`: access checks and the collaborator list.
- `Users`: user records and capabilities.
- `Backend`: the store class.
- `Share`, `Auth`, `Export`, `HistoryView`, `EditorApp`, `SignUpPage`,
  `DashboardPage`, `AdminPage`: the components and pages.

Conventions of the model:

- Document and version ids are natural numbers, minted by the store. User
  ids and e-mail addresses are strings.
- Timestamps are values of the store's logical `clock`, which every write
  advances.
- A string is a sequence of Unicode characters. Its JavaScript length
  (`Text.Utf16Length`) counts UTF-16 code units: one for a character up to
  U+FFFF, two for one above it. Every `.length`, `slice` and `substring` of
  the source is modelled in these units.
- Whether a network read or write fails, and what the identity provider or
  the page supplies, are method parameters.

Two behaviours of the code that a reader might not expect are modelled as
written:

- A versioned `updateDocument` of a missing document still writes the
  snapshot before `updateDoc` fails with not-found
  (src/lib/documents.ts:175-207).
- The duplicate-collaborator check compares the typed address before it is
  lower-cased. A case variant of an existing collaborator's address is
  therefore added a second time (src/components/ShareModal.tsx:51-65).

## Model

| member | source | states |
|---|---|---|
| Versions.LatestNumberIsMax | src/lib/versions.ts:98-115 | the latest number is 0 without versions, bounds every version number of the document and is attained by one of them |
| Versions.UniqueMaxIsLatest | src/lib/versions.ts:98-115 | a version numbered above all others of its document is the latest and heads the history |
| Versions.HistoryProperties | src/lib/versions.ts:69-81 | the history holds only the document's versions, newest first, min(count, 25) of them |
| Versions.OfDocument | src/lib/versions.ts:72-74 | `where("documentId", "==", d)` keeps exactly the versions of that document |
| Versions.OfDocumentAppend | src/lib/versions.ts:72-74 | the per-document query distributes over concatenation of the collection |
| Versions.PruneUnderCap | src/lib/versions.ts:127-129 | pruning a document with at most 25 versions changes nothing |
| Versions.PruneCount | src/lib/versions.ts:118-141 | after pruning the document keeps exactly min(count, 25) versions |
| Versions.PruneKeepsHistory | src/lib/versions.ts:131-140 | the versions kept are exactly the 25 newest (the capped history), as a multiset |
| Versions.PruneKeepsHighest | src/lib/versions.ts:131-140 | every kept version is numbered at least as high as every deleted one |
| Versions.PruneLeavesOthers | src/lib/versions.ts:118-141 | pruning one document leaves every other document's versions untouched |
| Versions.PruneRestoresCap | src/lib/versions.ts:53-63 | pruning after an insert restores the cap of 25 for every document and keeps ids distinct |
| Versions.InsertMaxThenPrune | src/lib/versions.ts:53-63 | a new version numbered above the rest survives the pruning and becomes the latest and the head of the history |
| Versions.FirstVersionKept | src/lib/versions.ts:53-63 | a document's first version is never pruned and becomes the latest |
| Versions.WithoutDocument | src/lib/versions.ts:144-162 | the cascade delete keeps exactly the versions of other documents |
| Versions.WithoutDocumentEffect | src/lib/versions.ts:144-162 | after the cascade the document has no versions and every other document's versions are unchanged |
| Versions.DropIds | src/lib/versions.ts:131-140 | a batch delete by ids keeps exactly the versions whose id is not in the batch |
| Versions.DropIdsDistinct | src/lib/versions.ts:131-140 | a batch delete keeps version ids distinct |
| Versions.MaxNumberIsMax | src/lib/versions.ts:98-115 | the largest version number bounds all and is attained |
| Versions.LatestIsMaxNumber | src/lib/versions.ts:98-115 | the latest number equals the maximum number among the document's versions |
| Versions.CompareSwap | src/lib/versions.ts:176-187 | swapping the arguments keeps `titleChanged` and negates `contentLengthDiff` (a difference of UTF-16 lengths); a version compared with itself shows no change |
| Backend.Store.CreateVersion | src/lib/versions.ts:45-66 | appends the snapshot with a fresh id, number, title, content, timestamp and author, then prunes the document; every document stays capped |
| Backend.Store.PruneOldVersions | src/lib/versions.ts:118-141 | the loop collects the ids beyond the 25 newest into a batch and deletes exactly those |
| Backend.Store.GetVersionHistory | src/lib/versions.ts:69-81 | returns the document's versions from the store, newest first, at most 25 |
| Backend.Store.GetLatestVersionNumber | src/lib/versions.ts:98-115 | returns the highest version number of the document, 0 when it has none |
| Backend.Store.GetVersionCount | src/lib/versions.ts:165-173 | returns how many versions the document has, never more than 25 |
| Backend.Store.DeleteAllVersions | src/lib/versions.ts:144-162 | removes every version of the document and nothing else: none of its versions remain and every other document's versions are unchanged |
| Backend.NoneToDelete | src/lib/versions.ts:149-151 | with no versions of the document the cascade is the identity |
| Backend.Store.CreateDocument | src/lib/documents.ts:37-55 | adds the document under a fresh id with version pointer 1 and the given or empty collaborator list; with an author, version 1 is recorded and is the latest |
| Backend.Store.GetDocument | src/lib/documents.ts:123-142 | returns the stored document exactly when the id exists |
| Backend.SnapshotFallbacks | src/lib/documents.ts:181-189 | the snapshot title is the update's non-empty title, else the stored non-empty title, else "Untitled"; the content is the update's (even empty), else the stored one, else "" |
| Backend.ApplyUpdate | src/lib/documents.ts:193-207 | the update writes the given fields, the version pointer when versioned, and the new timestamp, keeping the rest |
| Backend.Store.SnapshotVersion | src/lib/documents.ts:175-190 | the snapshot is numbered one above the latest, survives pruning, heads the history, and other documents are unaffected |
| Backend.Store.UpdateDocument | src/lib/documents.ts:163-212 | a missing document gives not-found; a versioned update stores the next number as the document's version and keeps the version pointer equal to the latest version |
| Backend.Store.VersionedUpdate | src/lib/documents.ts:175-201 | the snapshot is taken first; a missing document then gives not-found with the snapshot kept; otherwise the document takes the snapshot's number, which is its latest version |
| Backend.Store.PlainUpdate | src/lib/documents.ts:202-208 | a missing document gives not-found and nothing changes; otherwise only the given fields and the timestamp are written and the versions are untouched |
| Backend.CurrentAfterWrite | src/lib/documents.ts:163-212 | a write that keeps other documents and their versions, and points the written document at its latest version, preserves the version-pointer invariant |
| Backend.Store.AddCollaborator | src/lib/documents.ts:215-227 | a missing document gives not-found; otherwise the entry is added unless already present, and the timestamp advances |
| Backend.Store.RemoveCollaborator | src/lib/documents.ts:230-248 | removes every entry with that address; a missing document is left as it is |
| Backend.Store.UpdateCollaboratorRole | src/lib/documents.ts:251-270 | sets the role of every entry with that address and keeps the list's length and order |
| Backend.Store.DeleteDocument | src/lib/documents.ts:273-280 | the versions become the cascade's result, so none of the document's remain and other documents' versions are unchanged; then the record is removed |
| Backend.Collect | src/lib/documents.ts:60-66 | a collection scan returns exactly the stored documents in an id range, in increasing id order |
| Backend.CollectAll | src/lib/documents.ts:92-95 | the full scan returns every stored document exactly once |
| Backend.OwnedBy | src/lib/documents.ts:60-64 | `where("userId", "==", u)` keeps exactly that user's documents |
| Backend.Store.GetUserDocuments | src/lib/documents.ts:58-87 | returns exactly the user's own documents, most recently updated first, without repeats |
| Backend.KeepShared | src/lib/documents.ts:97-114 | the `forEach`/`push` loop keeps exactly the documents listing the address, as a subsequence of the query result (in their order), newest first and without repeats |
| Backend.Store.GetSharedDocuments | src/lib/documents.ts:90-120 | returns exactly the documents whose collaborators list the address, most recently updated first, without repeats |
| Access.HasDocumentAccess | src/lib/documents.ts:145-160 | access holds iff the user owns the document or is listed; the owner gets the owner role, a collaborator the role of the first matching entry |
| Access.CollaboratorAccessIsFirstMatch | src/lib/documents.ts:154-157 | a non-owner's role is that of the first entry with their address |
| Access.FindByEmail | src/lib/documents.ts:154 | `find` returns nothing iff no entry has the address, otherwise the first one |
| Access.WithEntry | src/lib/documents.ts:220-224 | `arrayUnion` appends the entry unless an identical one is already present |
| Access.WithEntryAllowsDuplicateEmail | src/lib/documents.ts:220-224 | an entry differing only in role or date is appended even though the address is already listed |
| Access.AddThenAccess | src/lib/documents.ts:215-227 | after adding an entry for a new address, that address has access |
| Access.WithoutEmail | src/lib/documents.ts:238-241 | the filter keeps exactly the entries with other addresses |
| Access.WithoutEmailIdempotent | src/lib/documents.ts:238-241 | removing an address twice is the same as once |
| Access.WithoutAbsentEmail | src/lib/documents.ts:238-241 | removing an unlisted address changes nothing |
| Access.WithRole | src/lib/documents.ts:259-263 | the map changes the role of exactly the matching entries and nothing else |
| Access.WithRoleAccess | src/lib/documents.ts:251-270 | a listed collaborator keeps access after a role change |
| Users.NewUser | src/lib/users.ts:25-49 | the first user is an approved admin approved by "system"; later users are pending owners with no approver |
| Users.BootstrapCapabilities | src/lib/users.ts:33-47 | the first account is an admin; later accounts start without approval |
| Backend.Store.CreateUser | src/lib/users.ts:25-49 | writes the new record over any existing one, deciding first-user status from an empty registry |
| Backend.Store.GetUser | src/lib/users.ts:52-72 | returns the record exactly when the uid is registered |
| Backend.ScanRecords | src/lib/users.ts:75-119 | the scan over the registry returns exactly the records passing the status test, each once |
| Backend.Store.GetAllUsers | src/lib/users.ts:75-96 | returns every registered user exactly once, newest first |
| Backend.Store.GetPendingUsers | src/lib/users.ts:99-119 | returns exactly the pending users, without approver fields, newest first |
| Backend.Store.ApproveUser | src/lib/users.ts:122-135 | a missing uid gives not-found; otherwise the user becomes approved with the given role, approved by the admin; admin iff the role is admin |
| Users.ApproveGrants | src/lib/users.ts:122-135 | approval sets the status, role and approver, keeps identity and creation time; create rights iff the role is admin or owner |
| Backend.Store.RejectUser | src/lib/users.ts:138-144 | a missing uid gives not-found; otherwise the status becomes rejected and the user loses approval |
| Users.RevokeWithdraws | src/lib/users.ts:138-168 | rejection keeps the role and removes every capability; any non-approved status does the same |
| Backend.Store.UpdateUserRole | src/lib/users.ts:147-156 | a missing uid gives not-found; otherwise only the role and timestamp change |
| Users.RoleChangeKeepsStatus | src/lib/users.ts:147-156 | a role change keeps status, identity and approver |
| Backend.Store.UpdateUserStatus | src/lib/users.ts:159-168 | a missing uid gives not-found; otherwise only the status and timestamp change |
| Backend.Store.IsAdmin | src/lib/users.ts:171-174 | true iff the uid is registered with role admin and status approved |
| Backend.Store.IsApproved | src/lib/users.ts:177-180 | true iff the uid is registered with status approved |
| Backend.Store.CanCreateDocuments | src/lib/users.ts:183-186 | true iff the uid is approved with role admin or owner |
| Users.CapabilityChain | src/context/AuthContext.tsx:104-106 | admin implies may create, which implies approved; with no record every flag is false |
| Users.RoleMapsTotal | src/lib/users.ts:189-210 | every role has a non-empty display name and description, and display names are distinct |
| Share.MatchesEmailIffPattern | src/components/ShareModal.tsx:44-48 | the decision procedure accepts exactly the strings `[^\s@]+@[^\s@]+\.[^\s@]+` matches |
| Share.EmailPatternFacts | src/components/ShareModal.tsx:44-48 | a matching address has no white space, is unchanged by trimming and holds exactly one "@" |
| Share.EmailPatternExamples | src/components/ShareModal.tsx:44-48 | "a@b.c" matches; "a@b", "a b@c.d" and "a@@b.c" do not |
| Share.ValidationOrder | src/components/ShareModal.tsx:36-54 | each message is produced exactly under its own condition, in the order required, then invalid, then duplicate |
| Share.AcceptedNormalization | src/components/ShareModal.tsx:56-62 | an accepted address is stored lower-cased, and normalising twice changes nothing |
| Share.CaseVariantAddsDuplicate | src/components/ShareModal.tsx:51-65 | an upper-case variant of a listed address passes the check and is stored a second time |
| Share.ShareForm.constructor | src/components/ShareModal.tsx:29-32 | empty address, role viewer, not loading, no error |
| Share.ShareForm.HandleAdd | src/components/ShareModal.tsx:34-73 | a validation error is shown without touching the store or `loading`; otherwise the normalised entry is added, the form resets and loading ends; a missing document or a rejected write leaves the store unchanged, shows "Failed to add collaborator" and keeps the email and role |
| Share.ShareForm.HandleRemove | src/components/ShareModal.tsx:75-85 | removes the address from the document's list; a missing document or a rejected write leaves the documents unchanged; loading ends |
| Share.ShareForm.HandleRoleChange | src/components/ShareModal.tsx:87-97 | changes the role of the address in the document's list; a missing document or a rejected write leaves the documents unchanged; loading ends |
| Auth.AuthSession.constructor | src/context/AuthContext.tsx:34-36 | no account, no record, loading |
| Auth.AuthSession.FetchAppUser | src/context/AuthContext.tsx:38-57 | creates a record only when none exists, with "" for a missing email, then holds the stored record; an existing record is read unchanged, so a second fetch creates nothing; a failure leaves no record |
| Auth.AuthSession.OnAuthStateChanged | src/context/AuthContext.tsx:59-73 | records the account, fetches or clears the record, and ends loading |
| Auth.AuthSession.RefreshAppUser | src/context/AuthContext.tsx:75-79 | signed out, nothing changes; signed in, the session holds the account's record (an existing one unchanged, a missing one created), and a failed read clears the record and writes nothing |
| Auth.AuthSession.SignIn | src/context/AuthContext.tsx:81-97 | after sign-in the session holds the account's record, an existing one unchanged and a missing one created; a failed read clears the record and writes nothing |
| Auth.AuthSession.SignUp | src/context/AuthContext.tsx:86-91 | writes a fresh record for the account and holds it; the first account gets every flag, later ones none; a failed read leaves no record in the session |
| Auth.AuthSession.SignOut | src/context/AuthContext.tsx:99-102 | the record is dropped and every capability flag turns false |
| Export.ClassifyLine | src/components/ExportModal.tsx:73-121 | every paragraph put back behind its marker is the line it came from: headings keep their depth, bullets their text, bold runs the inner text (empty for "**" and "***"), blank lines become empty paragraphs, any other line stays unchanged |
| Export.HeadingRoundTrip | src/components/ExportModal.tsx:74-94 | a heading line of depth 1 to 3 is read back at that depth, so no shallower prefix catches a deeper one |
| Export.BulletRoundTrip | src/components/ExportModal.tsx:95-101 | "- text" and "* text" become a bullet of exactly the text |
| Export.BoldRoundTrip | src/components/ExportModal.tsx:102-112 | text between "**" markers becomes a bold run of exactly that text |
| Export.UnmarkedLine | src/components/ExportModal.tsx:113-121 | a line with no recognised marker becomes a plain run of itself, or an empty paragraph when blank |
| Export.OneParagraphPerLine | src/components/ExportModal.tsx:70-73 | there is one paragraph per line of `content.split("\n")`, in order, one more than the number of line breaks |
| Export.BuildParagraphs | src/components/ExportMenu.tsx:95-147 | the shared push loop yields the classified lines in order, so the menu and the dialog produce the same document |
| Export.FileName | src/components/ExportModal.tsx:25-134 | the saved name is the file name followed by the format's extension |
| Export.FileNamesDistinct | src/components/ExportModal.tsx:168-197 | the four formats save under four different names |
| Export.ExportModal.constructor | src/components/ExportModal.tsx:19-21 | no format chosen, not exporting, not complete, nothing saved |
| Export.ExportModal.Select | src/components/ExportModal.tsx:245 | a format button selects that format |
| Export.ExportModal.HandleExport | src/components/ExportModal.tsx:137-166 | nothing happens without a format; each format saves its file and marks completion; a PDF without preview saves nothing yet completes; a failure saves nothing; exporting always ends |
| Export.ExportMenu.constructor | src/components/ExportMenu.tsx:24-28 | the file name defaults to "document" and the menu starts closed |
| Export.ExportMenu.Toggle | src/components/ExportMenu.tsx:190 | the header button flips the menu |
| Export.ExportMenu.HandleExport | src/components/ExportMenu.tsx:41-178 | text, Markdown and Word exports save and close; PDF without preview returns with the menu open, otherwise closes even when generation fails; a failing Word export leaves the menu open |
| HistoryView.ContentPreview | src/components/VersionHistoryModal.tsx:71-74 | no line breaks; content of at most 100 UTF-16 units is shown whole with breaks as spaces; longer content shows the characters of its first 100 units (99 or 100 of them, something left over) followed by "..."; empty iff the content is |
| HistoryView.PreviewCutsCodeUnits | src/components/VersionHistoryModal.tsx:71-74 | sixty characters above U+FFFF are 120 units, so the preview is the first fifty and "..." |
| HistoryView.ShownPreview | src/components/VersionHistoryModal.tsx:208 | an empty version shows "(empty)" |
| HistoryView.CharDiff | src/components/VersionHistoryModal.tsx:76-80 | nothing iff the UTF-16 lengths agree; "+" iff the version is longer, "-" iff shorter |
| HistoryView.CharDiffRoundTrip | src/components/VersionHistoryModal.tsx:76-80 | the label reads back as exactly the difference of the UTF-16 lengths |
| HistoryView.RelativeTime | src/components/VersionHistoryModal.tsx:57-69 | "Just now" under a minute (negative ages included), then floored minutes under an hour, hours under a day, days under a week, otherwise the date |
| HistoryView.AuthorLabel | src/components/VersionHistoryModal.tsx:230 | the display name when non-empty, otherwise the email |
| HistoryView.RowAt | src/components/VersionHistoryModal.tsx:145-262 | only row 0 is badged "Latest", every row but row 0 offers restore, every row offers preview |
| HistoryView.LatestRowIsNewest | src/components/VersionHistoryModal.tsx:169-249 | on a newest-first history the badged row carries the highest number and is the only row without restore |
| HistoryView.FooterPlural | src/components/VersionHistoryModal.tsx:276 | the footer says "version" for exactly one entry and "versions" otherwise |
| HistoryView.HistoryModal.constructor | src/components/VersionHistoryModal.tsx:25-27 | an empty list, loading, nothing selected |
| HistoryView.HistoryModal.Select | src/components/VersionHistoryModal.tsx:158 | clicking a row selects exactly that row's version |
| HistoryView.HistoryModal.Load | src/components/VersionHistoryModal.tsx:35-45 | the list becomes the document's capped newest-first history; a failing read keeps the old list; loading ends |
| EditorApp.Press | src/components/MarkdownApp.tsx:79-91 | a press flips its panel, shows the other panel when it hid the only visible one, and always leaves a panel visible |
| EditorApp.PressMirror | src/components/MarkdownApp.tsx:79-91 | the preview button is the mirror image of the editor button |
| EditorApp.AlwaysOneVisible | src/components/MarkdownApp.tsx:76-91 | from a layout with a visible panel, no sequence of presses hides both |
| EditorApp.EditorTwiceRestores | src/components/MarkdownApp.tsx:79-84 | two editor presses restore any layout that shows the preview; from the editor alone they end in the split layout |
| EditorApp.Workspace.constructor | src/components/MarkdownApp.tsx:75-77 | both panels start visible |
| EditorApp.Workspace.ToggleEditor | src/components/MarkdownApp.tsx:79-84 | the new layout is one editor press applied to the old one |
| EditorApp.Workspace.TogglePreview | src/components/MarkdownApp.tsx:86-91 | the new layout is one preview press applied to the old one |
| EditorApp.Workspace.Edit | src/components/MarkdownApp.tsx:147 | the typed text becomes the content that `Counts` measures; the layout is unchanged |
| EditorApp.Words | src/components/MarkdownApp.tsx:161 | every word is non-empty and free of white space |
| EditorApp.WordCountIsRunStarts | src/components/MarkdownApp.tsx:161 | the word count equals the number of positions where a non-white-space run starts |
| EditorApp.WordsCoverText | src/components/MarkdownApp.tsx:161 | the words, concatenated, are the text with its white space removed |
| EditorApp.Workspace.Counts | src/components/MarkdownApp.tsx:161 | characters is the content's UTF-16 length, between its character count and twice that; words is the number of maximal runs |
| SignUpPage.PasswordProblem | src/app/signup/page.tsx:22-30 | mismatch is reported first, then a password under 6 UTF-16 code units; nothing iff both checks pass |
| SignUpPage.PasswordLengthInCodeUnits | src/app/signup/page.tsx:27-30 | three characters above U+FFFF pass the minimum; three ASCII letters do not |
| SignUpPage.SignUpForm.constructor | src/app/signup/page.tsx:10-14 | empty fields, no error, not loading |
| SignUpPage.SignUpForm.HandleSubmit | src/app/signup/page.tsx:18-43 | the error is cleared; a failing check shows its message before loading or any write; otherwise the account is created, or the provider's message (default "Failed to create account") is shown; loading ends; when the account's record cannot be read back after it is written, no record is held and no error is shown |
| SignUpPage.SignUpForm.HandleGoogleSignIn | src/app/signup/page.tsx:46-59 | the error is cleared; an accepted account ends with its record held (an existing one unchanged) or, on a failed read, none held and nothing written; a provider error shows its message or "Failed to sign in with Google" and writes nothing; loading ends |
| Sorting.SortDesc | src/lib/documents.ts:62 | the sort is a permutation of its input in descending key order |
| Sorting.HeadIsMax | src/lib/versions.ts:73-75 | the first element of a descending sort has the largest key |
| Sorting.Filter | src/app/dashboard/page.tsx:88-90 | `filter` keeps each passing element as often as it occurs and drops the rest |
| Sorting.FilterKeepsOrder | src/app/admin/page.tsx:122-125 | `filter` keeps the relative order of what it keeps |
| DashboardPage.Search | src/app/dashboard/page.tsx:88-90 | keeps exactly the documents whose lower-cased title contains the lower-cased query, in order |
| DashboardPage.EmptyQueryKeepsAll | src/app/dashboard/page.tsx:88-90 | an empty query keeps every document |
| DashboardPage.SearchIgnoresQueryCase | src/app/dashboard/page.tsx:89 | lower-casing the query does not change the result |
| DashboardPage.Dashboard.FilteredWithoutQuery | src/app/dashboard/page.tsx:88 | without a query the owned tab shows the owned list and the shared tab the shared list |
| DashboardPage.Dashboard.constructor | src/app/dashboard/page.tsx:23-28 | empty lists, loading, empty query, no confirmation, owned tab |
| DashboardPage.Dashboard.Load | src/app/dashboard/page.tsx:33-71 | signed out or unapproved reads nothing; otherwise the owned and shared lists are loaded together (email "" if absent), or both kept on failure; each loaded list holds every document at most once |
| DashboardPage.WithoutId | src/app/dashboard/page.tsx:81 | removes exactly the documents with that id, keeping the others in order |
| DashboardPage.Dashboard.HandleDelete | src/app/dashboard/page.tsx:78-86 | a successful delete removes the document and all its versions from the store, leaves other documents' versions unchanged, drops it from the owned list and closes the confirmation; a failed version batch changes nothing; a failed record delete keeps the record and the page state but its versions are gone |
| DashboardPage.Dashboard.ToggleConfirm | src/app/dashboard/page.tsx:319-322 | opens the confirmation for the card, or closes it when it is already open for that card |
| DashboardPage.NewDocumentGate | src/app/dashboard/page.tsx:225 | "New Document" appears only on the owned tab and only for approved admins and owners |
| DashboardPage.CardTitle | src/app/dashboard/page.tsx:299 | an empty title shows as "Untitled" |
| DashboardPage.CardExcerpt | src/app/dashboard/page.tsx:305 | a non-empty prefix of the content of at most 100 UTF-16 units: all of it when it fits, at least 99 units otherwise; "Empty document" for empty content |
| AdminPage.FilterUsers | src/app/admin/page.tsx:122-125 | "all" keeps every user; a status keeps exactly the users with it, in order |
| AdminPage.PendingCountIsPendingTab | src/app/admin/page.tsx:127 | the pending counter equals the length of the pending tab |
| AdminPage.ControlsByStatus | src/app/admin/page.tsx:355-436 | pending rows offer approve and reject; approved rows offer the role selector and revoke except on the admin's own row; rejected rows offer approve; buttons are disabled only on the busy row |
| AdminPage.SelfProtection | src/app/admin/page.tsx:359-415 | an admin can neither revoke nor re-role their own row |
| AdminPage.EveryOtherRowActionable | src/app/admin/page.tsx:393-436 | every other row offers a status-changing action |
| AdminPage.AdminPanel.constructor | src/app/admin/page.tsx:32-35 | an empty list, loading, filter "all", no action running |
| AdminPage.AdminPanel.FetchUsers | src/app/admin/page.tsx:57-66 | the list becomes every registered user, newest first; a failure keeps it; loading ends; a loaded list holds each user once |
| AdminPage.AdminPanel.HandleApprove | src/app/admin/page.tsx:68-79 | signed out, nothing happens; otherwise the user is approved by the acting admin with the role defaulting to owner and the list reloads; a missing user or a rejected write changes neither the registry nor the list; `actionLoading` is cleared; a failed reload after the write keeps the old list; `loading` ends after a write and is untouched otherwise |
| AdminPage.AdminPanel.HandleReject | src/app/admin/page.tsx:81-91 | the user is rejected and the list reloads; a missing user or a rejected write changes neither the registry nor the list; `actionLoading` is cleared; a failed reload after the write keeps the old list; `loading` ends after a write and is untouched otherwise |
| AdminPage.AdminPanel.HandleRoleChange | src/app/admin/page.tsx:93-103 | the user's role changes and the list reloads; a missing user or a rejected write changes neither the registry nor the list; `actionLoading` is cleared; a failed reload after the write keeps the old list; `loading` ends after a write and is untouched otherwise |
| AdminPage.AdminPanel.HandleStatusChange | src/app/admin/page.tsx:105-115 | the user's status changes and the list reloads; a missing user or a rejected write changes neither the registry nor the list; `actionLoading` is cleared; a failed reload after the write keeps the old list; `loading` ends after a write and is untouched otherwise |
| Text.TrimEmptyIffAllSpace | src/components/ShareModal.tsx:38 | `trim() === ""` iff every character is white space |
| Text.SplitJoin | src/components/ExportModal.tsx:70 | joining the pieces of `split` restores the text, and there is one piece more than separators |
| Text.Utf16Prefix | src/components/VersionHistoryModal.tsx:72 | the longest prefix of at most n UTF-16 units: the whole string when it fits, otherwise the next character would exceed n and at least n - 1 units are kept |
| Text.Utf16PrefixBasic | src/app/dashboard/page.tsx:305 | on text without characters above U+FFFF, the length is the character count and the prefix is the ordinary one |
| Text.DecimalRoundTrip | src/components/VersionHistoryModal.tsx:79 | the decimal rendering of a number reads back as the number |

## Left out

- Firestore and Firebase Auth I/O are replaced by the in-memory `Backend.Store` and by parameters. This covers `addDoc`, `getDocs`, `writeBatch`, `onAuthStateChanged`, the e-mail and Google sign-in popups and the router. A call that can fail is a boolean parameter (`readFails`, `writeFails`, `providerError`, `failsAt`) wherever the modelled pages and components catch its failure, so each caught failure is a reachable outcome with its own `ensures`.
- Concurrency is not modelled: operations run one at a time. A field read and a later write cannot interleave with another client, and the listener does not fire during `signUp`.
- Firestore's generated ids are not modelled. The store scans for a fresh natural-number id instead.
- Server timestamps and the client's clock are not modelled. The store's logical clock stands in for both, including the `addedAt` of a new collaborator, which the source takes from the client's `new Date().toISOString()` (src/lib/documents.ts:223).
- Ties in `orderBy` are kept in insertion order. Firestore breaks them by document id.
- `getVersion` (src/lib/versions.ts:84-95) is not part of this model. It is a single-record read that no modelled caller uses.
- The `DocumentAccess` and `SharedUser` types (src/types/user.ts:18-29) are not part of this model. They are unused declarations.
- PDF generation is not modelled: the canvas capture, the page arithmetic in floating point and jsPDF. A PDF export is a `PdfFile` download, and whether a preview element exists is a parameter.
- Word document packing, `Blob` and `saveAs` are not modelled. Only the paragraph list and the file name are kept.
- `formatDate` (`Intl.DateTimeFormat`) is not modelled: an absolute date is the `Absolute` age, shown by a supplied string.
- The current time in `formatRelativeTime` is not modelled: the age in milliseconds is a parameter.
- `toLowerCase` is modelled for ASCII letters only. Other scripts' case mappings are not.
- The click-outside listener of the export menu is left out, as is the close timer after an export.
- Theme, icons, styling and the status redirects of the pages are left out, since they only affect what is displayed or where the browser goes.
- Auth.AuthSession.FetchAppUser: a failure is modelled at the first read only. A failure after the record was created, which would leave a record but no `appUser`, is not distinguished.
- DashboardPage.Dashboard.Load: the effect's re-runs on dependency changes are not modelled, only one run with the given session state.
- HistoryView.ContentPreview: when the 100th UTF-16 unit is the first half of a surrogate pair, `slice(0, 100)` keeps a lone high surrogate. A Dafny string cannot hold one, so the model stops before that character, at 99 units.
- DashboardPage.CardExcerpt: the same lone-surrogate case of `substring(0, 100)` is modelled by stopping before the split character, at 99 units.
- HistoryView.HistoryModal.Load: the `isOpen && documentId` guard of the effect is not modelled, because document ids are numbers here.
