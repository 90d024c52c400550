/** The version-history dialog of `src/components/VersionHistoryModal.tsx`:
    the row helpers (content preview, character difference against the
    editor, relative age, author label), which actions each row offers, the
    footer count, and the loading of the history from the store. */
module HistoryView {
  import opened Wrappers
  import opened Types
  import opened Text
  import opened Sorting
  import opened Versions
  import opened Backend

  const PREVIEW_LENGTH := 100

  /** `.replace(/\n/g, " ")`. */
  function NewlinesToSpaces(s: string): (r: string)
    ensures |r| == |s|
    ensures forall i | 0 <= i < |s| :: r[i] == (if s[i] == '\n' then ' ' else s[i])
  {
    if s == [] then [] else [if s[0] == '\n' then ' ' else s[0]] + NewlinesToSpaces(s[1..])
  }

  /** `getContentPreview`: the first hundred UTF-16 code units with line
      breaks turned into spaces, and "..." when the content is longer. */
  function ContentPreview(content: string): (r: string)
    ensures |r| <= PREVIEW_LENGTH + 3
    ensures '\n' !in r
    ensures Utf16Length(content) <= PREVIEW_LENGTH ==> r == NewlinesToSpaces(content)
    ensures Utf16Length(content) > PREVIEW_LENGTH ==>
      var head := Utf16Prefix(content, PREVIEW_LENGTH);
      |head| < |content| && PREVIEW_LENGTH - 1 <= Utf16Length(head) <= PREVIEW_LENGTH
      && r == NewlinesToSpaces(head) + "..."
    ensures r == "" <==> content == ""
  {
    var cut := Utf16Length(content) > PREVIEW_LENGTH;
    var preview := NewlinesToSpaces(Utf16Prefix(content, PREVIEW_LENGTH));
    assert forall i | 0 <= i < |preview| :: preview[i] != '\n';
    if cut then preview + "..." else preview
  }

  /** Sixty characters above U+FFFF are 120 code units: the preview keeps
      the first fifty of them and adds "...". */
  lemma PreviewCutsCodeUnits(content: string)
    requires |content| == 60 && forall i | 0 <= i < 60 :: content[i] == '\U{1F600}'
    ensures ContentPreview(content) == content[..50] + "..."
  {
    AllDoubleUnits(content);
    var head := Utf16Prefix(content, PREVIEW_LENGTH);
    AllDoubleUnits(head);
    assert head == content[..|head|];
    assert |head| == 50;
    assert forall i | 0 <= i < 50 :: NewlinesToSpaces(head)[i] == head[i];
  }

  lemma {:induction false} AllDoubleUnits(s: string)
    requires forall i | 0 <= i < |s| :: s[i] == '\U{1F600}'
    ensures Utf16Length(s) == 2 * |s|
  {
    if s != [] {
      AllDoubleUnits(s[1..]);
    }
  }

  /** `getContentPreview(...) || "(empty)"`. */
  function ShownPreview(content: string): (r: string)
    ensures content == "" ==> r == "(empty)"
    ensures content != "" ==> r == ContentPreview(content)
  {
    var p := ContentPreview(content);
    if p == "" then "(empty)" else p
  }

  /** `getCharDiff`: how many UTF-16 code units the version has more (or
      fewer) than the editor, signed; nothing when the lengths agree. */
  function CharDiff(versionContent: string, currentContent: string): (r: Option<string>)
    ensures r.None? <==> Utf16Length(versionContent) == Utf16Length(currentContent)
    ensures r.Some? ==> |r.value| >= 2
    ensures r.Some? ==> (r.value[0] == '+' <==> Utf16Length(versionContent) > Utf16Length(currentContent))
    ensures r.Some? ==> (r.value[0] == '-' <==> Utf16Length(versionContent) < Utf16Length(currentContent))
  {
    DiffLabel(Utf16Length(versionContent) - Utf16Length(currentContent))
  }

  /** The signed label of a length difference, as `getCharDiff` formats it. */
  function DiffLabel(diff: int): (r: Option<string>)
    ensures r.None? <==> diff == 0
    ensures r.Some? ==> |r.value| >= 2
    ensures r.Some? ==> (r.value[0] == '+' <==> diff > 0)
    ensures r.Some? ==> (r.value[0] == '-' <==> diff < 0)
  {
    if diff == 0 then None
    else if diff > 0 then Some("+" + Decimal(diff))
    else Some("-" + Decimal(-diff))
  }

  /** Reads a signed decimal as `CharDiff` writes it. */
  function ParseSigned(s: string): int
    requires |s| >= 1 && (s[0] == '+' || s[0] == '-')
    requires forall i | 1 <= i < |s| :: '0' <= s[i] <= '9'
  {
    if s[0] == '+' then ParseDecimal(s[1..]) else -(ParseDecimal(s[1..]) as int)
  }

  /** The label states the length difference exactly. */
  lemma CharDiffRoundTrip(versionContent: string, currentContent: string)
    requires Utf16Length(versionContent) != Utf16Length(currentContent)
    ensures var r := CharDiff(versionContent, currentContent);
      r.Some? && (r.value[0] == '+' || r.value[0] == '-')
      && (forall i | 1 <= i < |r.value| :: '0' <= r.value[i] <= '9')
      && ParseSigned(r.value) == Utf16Length(versionContent) - Utf16Length(currentContent)
  {
    DiffLabelRoundTrip(Utf16Length(versionContent) - Utf16Length(currentContent));
  }

  lemma DiffLabelRoundTrip(diff: int)
    requires diff != 0
    ensures var r := DiffLabel(diff);
      r.Some? && (r.value[0] == '+' || r.value[0] == '-')
      && (forall i | 1 <= i < |r.value| :: '0' <= r.value[i] <= '9')
      && ParseSigned(r.value) == diff
  {
    var r := DiffLabel(diff);
    var n: nat := if diff > 0 then diff else -diff;
    DecimalRoundTrip(n);
    assert r.value[1..] == Decimal(n);
  }

  /** What `formatRelativeTime` shows; `Absolute` is the formatted date. */
  datatype Age = JustNow | MinutesAgo(n: nat) | HoursAgo(n: nat) | DaysAgo(n: nat) | Absolute

  const MINUTE := 60000
  const HOUR := 3600000
  const DAY := 86400000

  /** `formatRelativeTime` for an age of `diffMs` milliseconds (negative when
      the clock is behind). Dafny's division by a positive constant is
      JavaScript's `Math.floor` of the quotient. */
  function RelativeTime(diffMs: int): (r: Age)
    ensures r == JustNow <==> diffMs < MINUTE
    ensures r.MinutesAgo? <==> MINUTE <= diffMs < HOUR
    ensures r.HoursAgo? <==> HOUR <= diffMs < DAY
    ensures r.DaysAgo? <==> DAY <= diffMs < 7 * DAY
    ensures r == Absolute <==> 7 * DAY <= diffMs
    ensures r.MinutesAgo? ==> 1 <= r.n < 60 && r.n * MINUTE <= diffMs < (r.n + 1) * MINUTE
    ensures r.HoursAgo? ==> 1 <= r.n < 24 && r.n * HOUR <= diffMs < (r.n + 1) * HOUR
    ensures r.DaysAgo? ==> 1 <= r.n < 7 && r.n * DAY <= diffMs < (r.n + 1) * DAY
  {
    var mins := diffMs / MINUTE;
    var hours := diffMs / HOUR;
    var days := diffMs / DAY;
    if mins < 1 then JustNow
    else if mins < 60 then MinutesAgo(mins)
    else if hours < 24 then HoursAgo(hours)
    else if days < 7 then DaysAgo(days)
    else Absolute
  }

  function AgeText(a: Age, formattedDate: string): string {
    match a
    case JustNow => "Just now"
    case MinutesAgo(n) => Decimal(n) + "m ago"
    case HoursAgo(n) => Decimal(n) + "h ago"
    case DaysAgo(n) => Decimal(n) + "d ago"
    case Absolute => formattedDate
  }

  /** `createdBy.displayName || createdBy.email`. */
  function AuthorLabel(a: Author): (r: string)
    ensures a.displayName.Some? && a.displayName.value != "" ==> r == a.displayName.value
    ensures (a.displayName.None? || a.displayName.value == "") ==> r == a.email
  {
    if a.displayName.Some? && a.displayName.value != "" then a.displayName.value else a.email
  }

  /** What one row of the list shows and offers. */
  datatype Row = Row(
    versionNumber: int,
    latest: bool,
    diff: Option<string>,
    preview: string,
    author: string,
    canPreview: bool,
    canRestore: bool)

  function RowAt(versions: seq<DocumentVersion>, index: nat, currentContent: string): (r: Row)
    requires index < |versions|
    ensures r.versionNumber == versions[index].versionNumber
    ensures r.latest <==> index == 0
    ensures r.canRestore <==> index != 0
    ensures r.canPreview
  {
    var v := versions[index];
    Row(v.versionNumber, index == 0, CharDiff(v.content, currentContent), ShownPreview(v.content),
      AuthorLabel(v.createdBy), true, index != 0)
  }

  function Rows(versions: seq<DocumentVersion>, currentContent: string): (r: seq<Row>)
    ensures |r| == |versions|
    ensures forall i | 0 <= i < |versions| :: r[i] == RowAt(versions, i, currentContent)
  {
    seq(|versions|, i requires 0 <= i < |versions| => RowAt(versions, i, currentContent))
  }

  /** On a history as the store returns it, exactly one row is badged
      "Latest", it carries the highest version number on the list, and every
      other row, and only those, can be restored. */
  lemma LatestRowIsNewest(versions: seq<DocumentVersion>, currentContent: string)
    requires versions != [] && SortedDesc(versions, Number)
    ensures var rows := Rows(versions, currentContent);
      rows[0].latest && !rows[0].canRestore
      && (forall i | 0 < i < |rows| :: !rows[i].latest && rows[i].canRestore)
      && (forall i | 0 <= i < |rows| :: rows[0].versionNumber >= rows[i].versionNumber)
  {
    var rows := Rows(versions, currentContent);
    forall i | 0 <= i < |rows|
      ensures rows[0].versionNumber >= rows[i].versionNumber
    {
      if i > 0 {
        assert Number(versions[0]) >= Number(versions[i]);
      }
    }
  }

  /** The footer line under the list. */
  function FooterLabel(count: nat): string {
    Decimal(count) + Plural(count) + " saved"
  }

  function Plural(count: nat): string {
    " version" + (if count != 1 then "s" else "")
  }

  /** The footer reads "1 version saved" for one entry and uses the plural
      for every other count, zero included. */
  lemma FooterPlural(count: nat)
    ensures count == 1 ==> FooterLabel(count) == "1 version saved"
    ensures EndsWith(FooterLabel(count), " versions saved") <==> count != 1
    ensures StartsWith(FooterLabel(count), Decimal(count))
  {
    var d := Decimal(count);
    var r := FooterLabel(count);
    assert r == d + (Plural(count) + " saved");
    assert r[..|d|] == d;
    if count != 1 {
      assert Plural(count) + " saved" == " versions saved";
      assert r[|r| - 15..] == " versions saved";
    } else {
      assert d == "1";
      assert r[0] == '1';
    }
  }

  /** The dialog's state: the loaded list, the loading flag, the selection. */
  class HistoryModal {
    var versions: seq<DocumentVersion>
    var loading: bool
    var selected: Option<DocumentVersion>

    constructor ()
      ensures versions == [] && loading && selected == None
    {
      versions, loading, selected := [], true, None;
    }

    /** `loadVersions`: the list becomes the store's history of the document
        (newest first, at most the cap); a failing read keeps the old list.
        Loading ends either way. */
    method Load(store: Store, documentId: Id, readFails: bool)
      modifies this`versions, this`loading
      ensures !loading
      ensures readFails ==> versions == old(versions)
      ensures !readFails ==> versions == History(store.versions, documentId)
      ensures !readFails ==> SortedDesc(versions, Number) && |versions| <= MAX_VERSIONS
      ensures !readFails ==> forall v | v in versions :: v in store.versions && v.documentId == documentId
    {
      loading := true;
      if !readFails {
        versions := store.GetVersionHistory(documentId);
      }
      loading := false;
    }

    /** Clicking a row selects its version. */
    method Select(index: nat)
      requires index < |versions|
      modifies this`selected
      ensures selected == Some(versions[index])
    {
      selected := Some(versions[index]);
    }
  }
}
