/** The two-panel editor of `src/components/MarkdownApp.tsx`: the editor
    and preview panels, the buttons that toggle them, and the character and
    word counts in the footer. */
module EditorApp {
  import opened Text

  /** Which panels are visible: `showEditor`, `showPreview`. */
  datatype Panels = Panels(editor: bool, preview: bool)

  datatype Button = EditorButton | PreviewButton

  predicate AnyVisible(p: Panels) {
    p.editor || p.preview
  }

  /** One button press. Hiding the only visible panel shows the other one
      instead; otherwise the pressed panel flips and the other is left alone.
      Both setters read the state from before the press. */
  function Press(p: Panels, b: Button): (q: Panels)
    ensures AnyVisible(q)
    ensures b == EditorButton ==> q.editor == !p.editor
    ensures b == PreviewButton ==> q.preview == !p.preview
    ensures b == EditorButton && !(p.editor && !p.preview) ==> q.preview == p.preview
    ensures b == PreviewButton && !(p.preview && !p.editor) ==> q.editor == p.editor
  {
    match b
    case EditorButton => Panels(!p.editor, if p.editor && !p.preview then true else p.preview)
    case PreviewButton => Panels(if p.preview && !p.editor then true else p.editor, !p.preview)
  }

  function Swap(p: Panels): Panels {
    Panels(p.preview, p.editor)
  }

  function Other(b: Button): Button {
    match b
    case EditorButton => PreviewButton
    case PreviewButton => EditorButton
  }

  /** `togglePreview` is the mirror image of `toggleEditor`. */
  lemma PressMirror(p: Panels, b: Button)
    ensures Press(Swap(p), Other(b)) == Swap(Press(p, b))
  {
  }

  function PressAll(p: Panels, buttons: seq<Button>): Panels
    decreases |buttons|
  {
    if buttons == [] then p else PressAll(Press(p, buttons[0]), buttons[1..])
  }

  /** From the initial layout (both visible), no sequence of presses ever
      hides both panels. */
  lemma {:induction false} AlwaysOneVisible(p: Panels, buttons: seq<Button>)
    requires AnyVisible(p)
    ensures AnyVisible(PressAll(p, buttons))
    decreases |buttons|
  {
    if buttons != [] {
      AlwaysOneVisible(Press(p, buttons[0]), buttons[1..]);
    }
  }

  /** Two presses of the editor button restore any layout that shows the
      preview; from the editor alone they end in the split layout, because
      the first press had to show the preview. */
  lemma EditorTwiceRestores(p: Panels)
    ensures p.preview ==> Press(Press(p, EditorButton), EditorButton) == p
    ensures p.editor && !p.preview ==> Press(Press(p, EditorButton), EditorButton) == Panels(true, true)
  {
  }

  /** The longest prefix without white space. */
  function LeadingRun(s: string): (w: string)
    ensures |w| <= |s| && w == s[..|w|] && NoSpace(w)
    ensures |w| < |s| ==> IsSpace(s[|w|])
  {
    if s == [] || IsSpace(s[0]) then [] else [s[0]] + LeadingRun(s[1..])
  }

  /** `content.split(/\s+/).filter(Boolean)`: the maximal runs of
      non-white-space characters, in order. */
  function Words(s: string): (ws: seq<string>)
    ensures forall k | 0 <= k < |ws| :: ws[k] != [] && NoSpace(ws[k])
    decreases |s|
  {
    if s == [] then []
    else if IsSpace(s[0]) then Words(s[1..])
    else
      var w := LeadingRun(s);
      [w] + Words(s[|w|..])
  }

  /** The number of positions where a non-white-space run begins; `afterSpace`
      says whether the character before `s` was white space (or absent). */
  function RunStarts(s: string, afterSpace: bool): nat
    decreases |s|
  {
    if s == [] then 0
    else (if afterSpace && !IsSpace(s[0]) then 1 else 0) + RunStarts(s[1..], IsSpace(s[0]))
  }

  lemma {:induction false} RunStartsInsideRun(s: string)
    ensures RunStarts(s, false) == RunStarts(s[|LeadingRun(s)|..], true)
    decreases |s|
  {
    if s != [] && !IsSpace(s[0]) {
      RunStartsInsideRun(s[1..]);
      assert s[|LeadingRun(s)|..] == s[1..][|LeadingRun(s[1..])|..];
    }
  }

  /** The footer's word count is the number of places where a word starts. */
  lemma {:induction false} WordCountIsRunStarts(s: string)
    ensures |Words(s)| == RunStarts(s, true)
    decreases |s|
  {
    if s != [] {
      if IsSpace(s[0]) {
        WordCountIsRunStarts(s[1..]);
      } else {
        var w := LeadingRun(s);
        WordCountIsRunStarts(s[|w|..]);
        RunStartsInsideRun(s[1..]);
        assert s[|w|..] == s[1..][|LeadingRun(s[1..])|..];
      }
    }
  }

  function Concat(ws: seq<string>): string {
    if ws == [] then [] else ws[0] + Concat(ws[1..])
  }

  /** `s` with its white space removed. */
  function Squeezed(s: string): (r: string)
    ensures NoSpace(r)
  {
    if s == [] then []
    else if IsSpace(s[0]) then Squeezed(s[1..])
    else
      var t := Squeezed(s[1..]);
      NoSpaceConcat([s[0]], t);
      [s[0]] + t
  }

  lemma {:induction false} SqueezedRun(s: string)
    ensures Squeezed(s) == LeadingRun(s) + Squeezed(s[|LeadingRun(s)|..])
    decreases |s|
  {
    if s != [] && !IsSpace(s[0]) {
      var w, w' := LeadingRun(s), LeadingRun(s[1..]);
      var rest := s[1..][|w'|..];
      SqueezedRun(s[1..]);
      assert w == [s[0]] + w';
      assert s[|w|..] == rest;
      assert Squeezed(s) == [s[0]] + (w' + Squeezed(rest));
      assert [s[0]] + (w' + Squeezed(rest)) == ([s[0]] + w') + Squeezed(rest);
    }
  }

  /** The words are the text itself with the white space taken out: none
      is lost, none is invented. */
  lemma {:induction false} WordsCoverText(s: string)
    ensures Concat(Words(s)) == Squeezed(s)
    decreases |s|
  {
    if s != [] {
      if IsSpace(s[0]) {
        WordsCoverText(s[1..]);
      } else {
        var w := LeadingRun(s);
        WordsCoverText(s[|w|..]);
        SqueezedRun(s);
        assert Words(s)[1..] == Words(s[|w|..]);
      }
    }
  }

  /** The editor screen's state. */
  class Workspace {
    var content: string
    var showEditor: bool
    var showPreview: bool

    constructor (initial: string)
      ensures content == initial && showEditor && showPreview
    {
      content, showEditor, showPreview := initial, true, true;
    }

    function Layout(): Panels
      reads this
    {
      Panels(showEditor, showPreview)
    }

    /** The editor panel's `onChange`: the typed text replaces the content
        and the layout stays as it is. */
    method Edit(text: string)
      modifies this`content
      ensures content == text && Layout() == old(Layout())
    {
      content := text;
    }

    /** `toggleEditor`. */
    method ToggleEditor()
      modifies this`showEditor, this`showPreview
      ensures Layout() == Press(old(Layout()), EditorButton)
      ensures showEditor || showPreview
    {
      if showEditor && !showPreview {
        showPreview := true;
      }
      showEditor := !showEditor;
    }

    /** `togglePreview`. */
    method TogglePreview()
      modifies this`showEditor, this`showPreview
      ensures Layout() == Press(old(Layout()), PreviewButton)
      ensures showEditor || showPreview
    {
      if showPreview && !showEditor {
        showEditor := true;
      }
      showPreview := !showPreview;
    }

    /** The footer: `content.length` characters and the number of words. */
    method Counts() returns (characters: nat, words: nat)
      ensures characters == Utf16Length(content) && |content| <= characters <= 2 * |content|
      ensures words == RunStarts(content, true) && words == |Words(content)|
    {
      characters := Utf16Length(content);
      words := |Words(content)|;
      WordCountIsRunStarts(content);
    }
  }
}
