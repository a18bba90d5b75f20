/**
 * The application object of js/main.js: the selection splicing of the format
 * buttons and of Tab, the preview gate, the new-document reset and the choice
 * of help entry.
 *
 * The page's elements that these handlers write are fields: the textarea, the
 * preview's HTML and the help modal's title. `rand` stands for the draws of
 * `Math.random` that the renderer makes.
 */
module App {
  import opened Strings
  import opened Editing
  import Renderer

  /** The keys of the `helps` table (js/main.js:225-322). */
  const HelpTypes: set<string> := {"markdown", "math", "chem", "svg", "mermaid", "wiki"}

  /** `helps[type] || helps.markdown` (js/main.js:324): the entry shown. */
  function HelpKey(helpType: string): (key: string)
    ensures key in HelpTypes
    ensures helpType in HelpTypes ==> key == helpType
    ensures helpType !in HelpTypes ==> key == "markdown"
  {
    if helpType in HelpTypes then helpType else "markdown"
  }

  /** The titles of the `helps` entries. */
  function HelpTitle(key: string): string
  {
    match key
    case "math" => "Math Formulas (KaTeX)"
    case "chem" => "Chemistry Formulas"
    case "svg" => "SVG Support"
    case "mermaid" => "Mermaid Diagrams"
    case "wiki" => "Wiki Shortcuts"
    case _ => "Markdown Syntax"
  }

  /** An unknown help type shows the markdown help. */
  lemma UnknownHelpIsMarkdown(helpType: string)
    requires helpType !in HelpTypes
    ensures HelpTitle(HelpKey(helpType)) == "Markdown Syntax"
  {
  }

  /** The titles tell the six entries apart. */
  lemma HelpTitlesDistinct(a: string, b: string)
    requires a in HelpTypes && b in HelpTypes && a != b
    ensures HelpTitle(a) != HelpTitle(b)
  {
  }

  /** `selectedText || placeholder` (js/main.js:173-174). */
  function Chosen(value: string, start: nat, end: nat, placeholder: string): string
    requires start <= end <= |value|
  {
    var selected := value[start..end];
    if selected != [] then selected else placeholder
  }

  /** `insertMarkdown`'s text (js/main.js:173-179): the selection wrapped in
      before and after, or the placeholder when nothing is selected. */
  function Wrapped(value: string, start: nat, end: nat, before: string, after: string, placeholder: string): string
    requires start <= end <= |value|
  {
    value[..start] + before + Chosen(value, start, end, placeholder) + after + value[end..]
  }

  /** The text between the new selection bounds is the selection, or the
      placeholder; what was around the selection is kept around the wrapper. */
  lemma WrappedSelects(value: string, start: nat, end: nat, before: string, after: string, placeholder: string)
    requires start <= end <= |value|
    ensures var r := Wrapped(value, start, end, before, after, placeholder);
      var text := Chosen(value, start, end, placeholder);
      (start < end ==> text == value[start..end]) && (start == end ==> text == placeholder) &&
      var s := start + |before|;
      s + |text| <= |r| && r[s..s + |text|] == text &&
      r[..start] == value[..start] && r[start..s] == before &&
      r[s + |text|..s + |text| + |after|] == after && r[s + |text| + |after|..] == value[end..]
  {
    var text := Chosen(value, start, end, placeholder);
    var r := Wrapped(value, start, end, before, after, placeholder);
    var p := value[..start];
    assert r == p + (before + (text + (after + value[end..])));
  }

  /** Wrapping a selection that is already wrapped keeps adding markers. */
  lemma WrapTwice(x: string)
    requires x != []
    ensures Wrapped(Wrapped(x, 0, |x|, "**", "**", "bold text"), 2, 2 + |x|, "**", "**", "bold text") ==
      "****" + x + "****"
  {
    var once := Wrapped(x, 0, |x|, "**", "**", "bold text");
    assert x[0..|x|] == x && x[..0] == [] && x[|x|..] == [];
    assert once == "**" + x + "**";
    assert once[2..2 + |x|] == x && once[..2] == "**" && once[2 + |x|..] == "**";
  }

  /** The Tab key's text (js/main.js:104-106): the selection becomes one tab. */
  function Tabbed(value: string, start: nat, end: nat): (r: string)
    requires start <= end <= |value|
    ensures |r| == |value| - (end - start) + 1
    ensures r[..start] == value[..start] && r[start] == '\t' && r[start + 1..] == value[end..]
  {
    value[..start] + "\t" + value[end..]
  }

  /** With nothing selected, Tab is the insertion of a tab with an empty
      placeholder; with a selection, Tab drops the selected text, which the
      format buttons keep. */
  lemma TabAgainstInsert(value: string, start: nat, end: nat)
    requires start <= end <= |value|
    ensures start == end ==> Tabbed(value, start, end) == Wrapped(value, start, end, "\t", "", "")
    ensures start < end ==> Tabbed(value, start, end) != Wrapped(value, start, end, "\t", "", "")
  {
    if start < end {
      var w := Wrapped(value, start, end, "\t", "", "");
      assert |w| == |value| + 1;
    }
  }

  /** `MDP` (js/main.js:6-333). */
  class Mdp {
    const editor: TextArea
    var previewMode: bool
    var preview: string
    var modalTitle: string
    var currentFilename: string

    constructor(textarea: TextArea)
      ensures editor == textarea && !previewMode && currentFilename == "untitled.md"
    {
      editor := textarea;
      previewMode := false;
      preview := "";
      modalTitle := "";
      currentFilename := "untitled.md";
    }

    /** js/main.js:112-122: the preview shows the render of the editor's text. */
    method UpdatePreview(rand: nat -> string)
      modifies this`preview
      ensures preview == Renderer.RenderOf(editor.value, rand)
    {
      var text := editor.value;
      var html := Renderer.Render(text, rand);
      preview := html;
    }

    /** js/main.js:94-98: typing re-renders only while the preview is shown. */
    method OnEditorChange(rand: nat -> string)
      modifies this`preview
      ensures previewMode ==> preview == Renderer.RenderOf(editor.value, rand)
      ensures !previewMode ==> preview == old(preview)
    {
      if previewMode {
        UpdatePreview(rand);
      }
    }

    /** js/main.js:160-168. */
    method TogglePreview(show: bool, rand: nat -> string)
      modifies this`previewMode, this`preview
      ensures previewMode == show
      ensures show ==> preview == Renderer.RenderOf(editor.value, rand)
      ensures !show ==> preview == old(preview)
    {
      previewMode := show;
      if show {
        UpdatePreview(rand);
      }
    }

    /** The Tab branch of js/main.js:100-110: the selection becomes a tab and
        the caret sits after it; other keys change nothing. */
    method OnEditorKeydown(key: string, rand: nat -> string)
      requires editor.Valid()
      modifies editor, this`preview
      ensures editor.Valid()
      ensures key == "Tab" ==>
        editor.value == Tabbed(old(editor.value), old(editor.selectionStart), old(editor.selectionEnd)) &&
        editor.selectionStart == old(editor.selectionStart) + 1 && editor.selectionEnd == editor.selectionStart
      ensures key == "Tab" && previewMode ==> preview == Renderer.RenderOf(editor.value, rand)
      ensures key != "Tab" || !previewMode ==> preview == old(preview)
      ensures key != "Tab" ==>
        editor.value == old(editor.value) && editor.selectionStart == old(editor.selectionStart) &&
        editor.selectionEnd == old(editor.selectionEnd)
    {
      if key == "Tab" {
        InsertTab();
        OnEditorChange(rand);
      }
    }

    /** The textarea part of the Tab branch (js/main.js:104-107). */
    method InsertTab()
      requires editor.Valid()
      modifies editor
      ensures editor.Valid()
      ensures editor.value == Tabbed(old(editor.value), old(editor.selectionStart), old(editor.selectionEnd))
      ensures editor.selectionStart == old(editor.selectionStart) + 1 && editor.selectionEnd == editor.selectionStart
    {
      var start, end := editor.selectionStart, editor.selectionEnd;
      editor.SetValue(Substring(editor.value, 0, start) + "\t" + Substring(editor.value, end, |editor.value|));
      editor.SetSelectionEnd(start + 1);
      editor.SetSelectionStart(start + 1);
    }

    /** js/main.js:170-185: the selection, or the placeholder, is wrapped and
        then selected. */
    method InsertMarkdown(before: string, after: string, placeholder: string, rand: nat -> string)
      requires editor.Valid()
      modifies editor, this`preview
      ensures editor.Valid()
      ensures editor.value == Wrapped(old(editor.value), old(editor.selectionStart), old(editor.selectionEnd), before, after, placeholder)
      ensures editor.selectionStart == old(editor.selectionStart) + |before|
      ensures editor.selectionEnd - editor.selectionStart ==
        |Chosen(old(editor.value), old(editor.selectionStart), old(editor.selectionEnd), placeholder)|
      ensures editor.value[editor.selectionStart..editor.selectionEnd] ==
        Chosen(old(editor.value), old(editor.selectionStart), old(editor.selectionEnd), placeholder)
      ensures previewMode ==> preview == Renderer.RenderOf(editor.value, rand)
      ensures !previewMode ==> preview == old(preview)
    {
      Splice(before, after, placeholder);
      OnEditorChange(rand);
    }

    /** The textarea part of `insertMarkdown` (js/main.js:171-182). */
    method Splice(before: string, after: string, placeholder: string)
      requires editor.Valid()
      modifies editor
      ensures editor.Valid()
      ensures editor.value == Wrapped(old(editor.value), old(editor.selectionStart), old(editor.selectionEnd), before, after, placeholder)
      ensures editor.selectionStart == old(editor.selectionStart) + |before|
      ensures editor.selectionEnd - editor.selectionStart ==
        |Chosen(old(editor.value), old(editor.selectionStart), old(editor.selectionEnd), placeholder)|
      ensures editor.value[editor.selectionStart..editor.selectionEnd] ==
        Chosen(old(editor.value), old(editor.selectionStart), old(editor.selectionEnd), placeholder)
    {
      var value, start, end := editor.value, editor.selectionStart, editor.selectionEnd;
      var selectedText := Substring(value, start, end);
      var text := if selectedText != [] then selectedText else placeholder;
      assert text == Chosen(value, start, end, placeholder);
      var v := Substring(value, 0, start) + before + text + after + Substring(value, end, |value|);
      assert v == Wrapped(value, start, end, before, after, placeholder);
      WrappedSelects(value, start, end, before, after, placeholder);
      var s := start + |before|;
      assert s + |text| <= |v| && v[s..s + |text|] == text;
      editor.SetValue(v);
      editor.SetSelectionStart(s);
      assert editor.selectionStart == s <= editor.selectionEnd;
      editor.SetSelectionEnd(s + |text|);
    }

    /** js/main.js:187-194, with the answer to `confirm` as a parameter: a
        non-empty document is kept unless the user agrees to discard it. */
    method NewDocument(confirmed: bool, rand: nat -> string)
      requires editor.Valid()
      modifies editor, this`preview, this`currentFilename
      ensures editor.Valid()
      ensures old(editor.value) != [] && !confirmed ==>
        editor.value == old(editor.value) && editor.selectionStart == old(editor.selectionStart) &&
        editor.selectionEnd == old(editor.selectionEnd) && currentFilename == old(currentFilename) && preview == old(preview)
      ensures editor.SelectionAfterSet()
      ensures old(editor.value) == [] || confirmed ==>
        editor.value == [] && currentFilename == "untitled.md" &&
        (previewMode ==> preview == Renderer.RenderOf([], rand)) && (!previewMode ==> preview == old(preview))
    {
      if editor.value != [] && !confirmed {
        return;
      }
      editor.SetValue([]);
      currentFilename := "untitled.md";
      OnEditorChange(rand);
    }

    /** js/main.js:224-328, the title part. */
    method ShowSyntaxHelp(helpType: string)
      modifies this`modalTitle
      ensures modalTitle == HelpTitle(HelpKey(helpType))
    {
      var key := HelpKey(helpType);
      modalTitle := HelpTitle(key);
    }
  }
}
