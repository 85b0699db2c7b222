/** The editor operations of `src/services/editorService.ts` over a model of the
    active editor: its language, the file path of its document, the document text
    and the selection as two offsets into it. An edit returns the new document text. */
module EditorService {
  import opened Wrappers
  import opened Text

  /** A selection: where it was started and where the cursor is now. */
  datatype Selection = Selection(anchor: nat, active: nat)
  {
    function Start(): nat { if anchor <= active then anchor else active }
    function End(): nat { if anchor <= active then active else anchor }
    predicate IsEmpty() { anchor == active }
  }

  /** The active text editor. */
  datatype Editor = Editor(languageId: string, fsPath: string, text: string, selection: Selection)
  {
    /** The selection lies inside the document. */
    predicate Valid()
    {
      selection.anchor <= |text| && selection.active <= |text|
    }
  }

  /** What `getSelection` returns: the selected text and its range. */
  datatype TextSelection = TextSelection(text: string, range: Selection)

  /** The messages the edit operations throw. */
  const NoActiveEditor: string := "No active editor"
  const NoSelection: string := "No selection to replace"

  /** `getSelection`: nothing without an editor or with an empty selection. */
  function GetSelection(editor: Option<Editor>): (r: Option<TextSelection>)
    requires editor.Some? ==> editor.value.Valid()
    ensures r.Some? <==> editor.Some? && !editor.value.selection.IsEmpty()
    ensures r.Some? ==> var e := editor.value;
                        && r.value.range == e.selection
                        && |r.value.text| == e.selection.End() - e.selection.Start() > 0
                        && e.text == e.text[..e.selection.Start()] + r.value.text + e.text[e.selection.End()..]
  {
    match editor
    case None => None
    case Some(e) =>
      if e.selection.IsEmpty() then None
      else
        var s, t := e.selection.Start(), e.selection.End();
        assert e.text == e.text[..s] + e.text[s..t] + e.text[t..];
        Some(TextSelection(e.text[s..t], e.selection))
  }

  /** `replaceSelection`: the document with the selected range replaced by `text`. */
  function ReplaceSelection(editor: Option<Editor>, text: string): (r: Result<string, string>)
    requires editor.Some? ==> editor.value.Valid()
    ensures r.Ok? <==> editor.Some? && !editor.value.selection.IsEmpty()
    ensures editor.None? ==> r == Err(NoActiveEditor)
    ensures editor.Some? && editor.value.selection.IsEmpty() ==> r == Err(NoSelection)
    ensures r.Ok? ==> var e := editor.value;
                      var s, t := e.selection.Start(), e.selection.End();
                      && |r.value| == |e.text| - (t - s) + |text|
                      && r.value[..s] == e.text[..s]
                      && r.value[s..s + |text|] == text
                      && r.value[s + |text|..] == e.text[t..]
  {
    match editor
    case None => Err(NoActiveEditor)
    case Some(e) =>
      if e.selection.IsEmpty() then Err(NoSelection)
      else
        var s, t := e.selection.Start(), e.selection.End();
        var r := e.text[..s] + text + e.text[t..];
        assert r[..s] == e.text[..s];
        assert r[s..s + |text|] == text;
        assert r[s + |text|..] == e.text[t..];
        Ok(r)
  }

  /** `insertAtCursor`: the document with `text` inserted at the cursor, the active end
      of the selection; a non-empty selection is kept, not replaced. */
  function InsertAtCursor(editor: Option<Editor>, text: string): (r: Result<string, string>)
    requires editor.Some? ==> editor.value.Valid()
    ensures r.Err? <==> editor.None?
    ensures r.Err? ==> r.error == NoActiveEditor
    ensures r.Ok? ==> var e := editor.value;
                      var p := e.selection.active;
                      && |r.value| == |e.text| + |text|
                      && r.value[..p] == e.text[..p]
                      && r.value[p..p + |text|] == text
                      && r.value[p + |text|..] == e.text[p..]
  {
    match editor
    case None => Err(NoActiveEditor)
    case Some(e) =>
      var p := e.selection.active;
      var r := e.text[..p] + text + e.text[p..];
      assert r[..p] == e.text[..p];
      assert r[p..p + |text|] == text;
      assert r[p + |text|..] == e.text[p..];
      Ok(r)
  }

  /** With the cursor at an end of an empty selection, replacing is impossible and
      inserting is the same as replacing an empty range. */
  lemma InsertIsEmptyReplace(e: Editor, text: string)
    requires e.Valid() && e.selection.IsEmpty()
    ensures ReplaceSelection(Some(e), text) == Err(NoSelection)
    ensures InsertAtCursor(Some(e), text).value
            == e.text[..e.selection.Start()] + text + e.text[e.selection.End()..]
  {
    var r := InsertAtCursor(Some(e), text).value;
    var p := e.selection.active;
    assert r == r[..p] + r[p..p + |text|] + r[p + |text|..];
  }

  /** Replacing the selection by the text it already holds leaves the document as it was. */
  lemma ReplaceBySelectedText(e: Editor)
    requires e.Valid() && !e.selection.IsEmpty()
    ensures ReplaceSelection(Some(e), GetSelection(Some(e)).value.text) == Ok(e.text)
  {
    var sel := GetSelection(Some(e)).value.text;
    var r := ReplaceSelection(Some(e), sel).value;
    var s := e.selection.Start();
    assert r == r[..s] + r[s..s + |sel|] + r[s + |sel|..];
  }

  /** `isMarkdownFile`. */
  predicate IsMarkdownFile(editor: Option<Editor>)
  {
    editor.Some? && editor.value.languageId == "markdown"
  }

  /** `getDocumentPath`. */
  function GetDocumentPath(editor: Option<Editor>): (r: Option<string>)
    ensures r.Some? <==> editor.Some?
    ensures r.Some? ==> r.value == editor.value.fsPath
  {
    match editor
    case None => None
    case Some(e) => Some(e.fsPath)
  }

  /** `buildMarkdownImage`: `![alt](path)`, the alt text verbatim and the path with every
      backslash turned into a forward slash. */
  function BuildMarkdownImage(altText: string, imagePath: string): (r: string)
    ensures |r| == |altText| + |imagePath| + 5
    ensures StartsWith(r, "![") && r[|r| - 1] == ')'
    ensures AltOf(r, |altText|) == altText
    ensures '\\' !in TargetOf(r, |altText|)
  {
    var target := ReplaceChar(imagePath, '\\', '/');
    var r := "![" + altText + "](" + target + ")";
    assert r[..2] == "![";
    assert r[2..2 + |altText|] == altText;
    assert r[|altText| + 4..|r| - 1] == target;
    r
  }

  /** The alt text of a reference built with an alt text of length `n`. */
  function AltOf(r: string, n: nat): string
  {
    if 2 + n <= |r| then r[2..2 + n] else []
  }

  /** The link target of a reference built with an alt text of length `n`. */
  function TargetOf(r: string, n: nat): string
  {
    if n + 4 <= |r| - 1 then r[n + 4..|r| - 1] else []
  }

  /** The link target is the path with its separators turned to `/`, and a path that
      already uses forward slashes only is kept as it is. */
  lemma MarkdownImageTarget(altText: string, imagePath: string)
    ensures TargetOf(BuildMarkdownImage(altText, imagePath), |altText|) == ReplaceChar(imagePath, '\\', '/')
    ensures '\\' !in imagePath ==> TargetOf(BuildMarkdownImage(altText, imagePath), |altText|) == imagePath
  {
    var r := BuildMarkdownImage(altText, imagePath);
    var target := ReplaceChar(imagePath, '\\', '/');
    assert r == "![" + altText + "](" + target + ")";
    assert r[|altText| + 4..|r| - 1] == target;
    if '\\' !in imagePath {
      forall i | 0 <= i < |imagePath| ensures target[i] == imagePath[i] {
        assert imagePath[i] in imagePath;
      }
    }
  }

  /** Two references with the same alt text are equal exactly when their paths agree up
      to the direction of the separators. */
  lemma MarkdownImageInjective(altText: string, p: string, q: string)
    ensures BuildMarkdownImage(altText, p) == BuildMarkdownImage(altText, q)
            <==> ReplaceChar(p, '\\', '/') == ReplaceChar(q, '\\', '/')
  {
    MarkdownImageTarget(altText, p);
    MarkdownImageTarget(altText, q);
  }
}
