/** The paste command of `src/commands/pasteImageCommand.ts`: check the editor, read the
    clipboard, name the image, find a free path, save, insert the Markdown reference,
    roll back on a failed edit, report and clean up. Every collaborator's outcome is a
    parameter; the run's observable effects (notifications, writes, deletions, cleanup
    calls), the disk, the document text and the model client's state are the result. */
module PasteCommand {
  import opened Wrappers
  import opened Text
  import opened Signatures
  import opened Paths
  import StringUtils
  import OllamaClient
  import ClipboardManager
  import ImageProcessor
  import opened FileManager
  import opened EditorService

  // ---------------------------------------------------------------------------
  // Inputs and observations
  // ---------------------------------------------------------------------------

  /** What the platform adapter and the text clipboard answer to `hasImage` and `getImage`. */
  datatype Clipboard = Clipboard(
    platformHas: Attempt<bool>, textForHas: Attempt<string>,
    platformGet: Attempt<Option<ImageData>>, textForGet: Attempt<string>)

  /** The `pastemark` settings the command reads. */
  datatype Config = Config(useOllama: bool, imagePath: string)

  /** What the naming step may consult: the model client, the clock and the model's answers. */
  datatype Naming = Naming(client: OllamaClient.Availability, now: int, probe: OllamaClient.Probe,
                           generated: OllamaClient.Generated, clock: StringUtils.LocalTime)

  /** How `editor.edit` settles: applied, resolved `false` (nothing changed), or rejected. */
  datatype EditOutcome = Applied | Refused | Rejected(message: string)

  /** The outcomes of the calls made after the path is chosen: the save's file-system
      calls, the edit, whether the rollback's delete fails, and a failure of the cleanup. */
  datatype Outcomes = Outcomes(save: SaveCalls, edit: EditOutcome,
                               deleteFails: bool, cleanup: Option<string>)

  /** Everything the command observes. `cwd` is the working directory relative paths
      are resolved against. */
  datatype Env = Env(editor: Option<Editor>, clipboard: Clipboard, config: Config, naming: Naming,
                     cwd: FsPath, disk: Disk, outcomes: Outcomes)
  {
    predicate Valid()
    {
      (editor.Some? ==> editor.value.Valid()) && cwd.absolute && Normal(cwd)
    }
  }

  datatype Level = Error | Warning | Info

  /** An observable effect of a run. */
  datatype Effect =
    | Notify(level: Level, message: string)
    | Wrote(path: string)
    | DeleteCalled(path: string)
    | CleanupCalled

  /** The result of a run. */
  datatype Run = Run(effects: seq<Effect>, disk: Disk, text: string, availability: OllamaClient.Availability)

  // The notifications the command shows.
  const NotMarkdown: string := "请在 Markdown 文件中使用此功能"
  const NoImage: string := "剪贴板中没有图片"
  const ImageUnreadable: string := "无法读取剪贴板中的图片"
  const NoDocumentPath: string := "无法获取当前文档路径"
  const SaveFailedPrefix: string := "保存图片失败: "
  const InsertFailedPrefix: string := "插入图片引用失败: "
  const SavedPrefix: string := "图片已保存: "
  const PasteFailedPrefix: string := "粘贴图片失败: "

  /** `${error.message}` of a save failure: a missing message renders as `undefined`. */
  function FailureText(f: Failure): string
  {
    match f.message
    case None => "undefined"
    case Some(m) => m
  }

  /** The document text, or nothing without an editor. */
  function DocumentText(editor: Option<Editor>): string
  {
    if editor.Some? then editor.value.text else []
  }

  // ---------------------------------------------------------------------------
  // The reference that is inserted
  // ---------------------------------------------------------------------------

  /** `selection?.text`. */
  function SelectedText(editor: Editor): (r: Option<string>)
    requires editor.Valid()
    ensures r.Some? <==> !editor.selection.IsEmpty()
    ensures r.Some? ==> r.value == GetSelection(Some(editor)).value.text && r.value != []
  {
    match GetSelection(Some(editor))
    case None => None
    case Some(s) => Some(s.text)
  }

  /** `selectedText || basename(path, extname(path))`: an empty or missing text gives way
      to the file name without its extension. */
  function AltText(selectedText: Option<string>, target: string): string
  {
    if selectedText.Some? && selectedText.value != [] then selectedText.value else Stem(target)
  }

  /** The relative link written into the reference. */
  function LinkPath(cwd: FsPath, documentPath: string, target: string): string
    requires cwd.absolute && Normal(cwd)
  {
    "./" + GetRelativePath(cwd, documentPath, target)
  }

  /** The Markdown reference to the saved image. */
  function Reference(editor: Editor, cwd: FsPath, documentPath: string, target: string): string
    requires editor.Valid() && cwd.absolute && Normal(cwd)
  {
    BuildMarkdownImage(AltText(SelectedText(editor), target), LinkPath(cwd, documentPath, target))
  }

  /** The alt text is the selected text whenever there is a selection, even one that is
      only whitespace and so played no part in naming the file; without one, it is the
      file name without its extension. */
  lemma AltTextFollowsSelection(editor: Editor, target: string)
    requires editor.Valid()
    ensures !editor.selection.IsEmpty() ==>
              AltText(SelectedText(editor), target) == GetSelection(Some(editor)).value.text
    ensures editor.selection.IsEmpty() ==> AltText(SelectedText(editor), target) == Stem(target)
  {
  }

  /** A leading `./` does not change where a relative path leads. */
  lemma DotSlash(base: FsPath, rel: string)
    requires base.absolute && Normal(base) && !IsAbsolute(rel)
    ensures ResolveFrom(base, "./" + rel) == ResolveFrom(base, rel)
  {
    var s := "./" + rel;
    assert s == "." + ['/'] + rel;
    SplitPrefix(".", '/', rel);
    assert !IsAbsolute(s) by { assert s[..1] == "."; }
    var parts := Split(s, '/');
    assert parts == ["."] + Split(rel, '/');
    assert parts[1..] == Split(rel, '/');
  }

  /** Followed from the document's directory, the link leads to the saved image, as long
      as the way there has no backslash for the separator rewrite to change. */
  lemma ReferenceLeadsToImage(cwd: FsPath, documentPath: string, target: string)
    requires cwd.absolute && Normal(cwd)
    requires '\\' !in Relative(cwd, Dirname(documentPath), target)
    ensures ResolveFrom(ResolveFrom(cwd, Dirname(documentPath)), LinkPath(cwd, documentPath, target))
            == ResolveFrom(cwd, target)
  {
    var rel := Relative(cwd, Dirname(documentPath), target);
    var r := GetRelativePath(cwd, documentPath, target);
    forall i | 0 <= i < |rel| ensures r[i] == rel[i] {
      assert rel[i] in rel;
    }
    assert r == rel;
    DotSlash(ResolveFrom(cwd, Dirname(documentPath)), r);
    RelativePathResolves(cwd, documentPath, target);
  }

  // ---------------------------------------------------------------------------
  // After the path is chosen: save, insert, roll back, report, clean up
  // ---------------------------------------------------------------------------

  /** The document after a successful edit: the selection replaced when there is one,
      the reference inserted at the cursor otherwise. */
  function Edited(editor: Editor, reference: string): (r: string)
    requires editor.Valid()
    ensures !editor.selection.IsEmpty() ==> Ok(r) == ReplaceSelection(Some(editor), reference)
    ensures editor.selection.IsEmpty() ==> Ok(r) == InsertAtCursor(Some(editor), reference)
  {
    if SelectedText(editor).Some? then ReplaceSelection(Some(editor), reference).value
    else InsertAtCursor(Some(editor), reference).value
  }

  /** Steps 8 to 12 of the command, and the outer `catch` for a failing cleanup. */
  function Deliver(editor: Editor, cwd: FsPath, documentPath: string, target: string, image: ImageData,
                   disk: Disk, out: Outcomes, availability: OllamaClient.Availability): (run: Run)
    requires editor.Valid() && cwd.absolute && Normal(cwd)
    ensures run.availability == availability
    ensures var saved := SaveImage(disk, target, image.buffer, out.save);
            !SaveSucceeds(disk, target, out.save) ==>
              run == Run([Notify(Error, SaveFailedPrefix + FailureText(saved.error.value))],
                         saved.disk, editor.text, availability)
    ensures var saved := SaveImage(disk, target, image.buffer, out.save);
            SaveSucceeds(disk, target, out.save) && out.edit.Rejected? ==>
              && run.effects == [Wrote(target), DeleteCalled(target), Notify(Error, InsertFailedPrefix + out.edit.message)]
              && run.disk == DeleteFile(saved.disk, target, out.deleteFails)
              && run.text == editor.text
    ensures var saved := SaveImage(disk, target, image.buffer, out.save);
            SaveSucceeds(disk, target, out.save) && !out.edit.Rejected? ==>
              && |run.effects| >= 3 && run.effects[..3] == [Wrote(target), Notify(Info, SavedPrefix + Basename(target)), CleanupCalled]
              && run.disk == saved.disk
              && run.text == (if out.edit.Applied? then Edited(editor, Reference(editor, cwd, documentPath, target))
                              else editor.text)
    ensures CleanupCalled in run.effects <==> SaveSucceeds(disk, target, out.save) && !out.edit.Rejected?
  {
    var result := SaveImage(disk, target, image.buffer, out.save);
    match result.error
    case Some(f) => Run([Notify(Error, SaveFailedPrefix + FailureText(f))], result.disk, editor.text, availability)
    case None =>
      var saved := result.disk;
      if out.edit.Rejected? then
        Run([Wrote(target), DeleteCalled(target), Notify(Error, InsertFailedPrefix + out.edit.message)],
            DeleteFile(saved, target, out.deleteFails), editor.text, availability)
      else
        var text := if out.edit.Applied? then Edited(editor, Reference(editor, cwd, documentPath, target))
                    else editor.text;
        Run(Reported(target, out.cleanup), saved, text, availability)
  }

  /** The effects of a run that saved and inserted: the success message, the cleanup,
      and for a failing cleanup the outer `catch`'s message and a second cleanup. */
  function Reported(target: string, cleanup: Option<string>): (effects: seq<Effect>)
    ensures |effects| >= 3
    ensures effects[..3] == [Wrote(target), Notify(Info, SavedPrefix + Basename(target)), CleanupCalled]
    ensures cleanup.None? ==> |effects| == 3
    ensures cleanup.Some? ==> effects[3..] == [Notify(Error, PasteFailedPrefix + cleanup.value), CleanupCalled]
  {
    var done := [Wrote(target), Notify(Info, SavedPrefix + Basename(target)), CleanupCalled];
    if cleanup.Some? then done + [Notify(Error, PasteFailedPrefix + cleanup.value), CleanupCalled] else done
  }

  /** Only the chosen path can change: every other file on the disk keeps its contents,
      whatever the outcomes. */
  lemma DeliverKeepsOtherFiles(editor: Editor, cwd: FsPath, documentPath: string, target: string,
                               image: ImageData, disk: Disk, out: Outcomes, availability: OllamaClient.Availability)
    requires editor.Valid() && cwd.absolute && Normal(cwd)
    ensures var run := Deliver(editor, cwd, documentPath, target, image, disk, out, availability);
            forall p :: p != target && FileExists(disk, p) ==> p in run.disk && run.disk[p] == disk[p]
  {
  }

  /** A rejected edit undoes the save: when the image's directory already existed, the
      path was unused and the delete succeeds, the disk is as it was before the command. */
  lemma RollbackRestoresDisk(editor: Editor, cwd: FsPath, documentPath: string, target: string,
                             image: ImageData, disk: Disk, out: Outcomes, availability: OllamaClient.Availability)
    requires editor.Valid() && cwd.absolute && Normal(cwd)
    requires SaveSucceeds(disk, target, out.save) && out.edit.Rejected? && !out.deleteFails
    requires target !in disk && Dirname(target) in disk
    ensures var run := Deliver(editor, cwd, documentPath, target, image, disk, out, availability);
            run.disk == disk && run.text == editor.text
  {
    assert SaveImage(disk, target, image.buffer, out.save) == SaveImage(disk, target, image.buffer, SaveCalls(None, None));
    SaveThenDelete(disk, target, image.buffer);
  }

  /** An applied edit puts the reference where the selection was, or at the cursor, and
      changes nothing else in the document. */
  lemma ReferencePlaced(editor: Editor, cwd: FsPath, documentPath: string, target: string,
                        image: ImageData, disk: Disk, out: Outcomes, availability: OllamaClient.Availability)
    requires editor.Valid() && cwd.absolute && Normal(cwd)
    requires SaveSucceeds(disk, target, out.save) && out.edit.Applied?
    ensures var run := Deliver(editor, cwd, documentPath, target, image, disk, out, availability);
            var ref := Reference(editor, cwd, documentPath, target);
            var s := if editor.selection.IsEmpty() then editor.selection.active else editor.selection.Start();
            var e := if editor.selection.IsEmpty() then editor.selection.active else editor.selection.End();
            && run.text[..s] == editor.text[..s]
            && run.text[s..s + |ref|] == ref
            && run.text[s + |ref|..] == editor.text[e..]
  {
    var run := Deliver(editor, cwd, documentPath, target, image, disk, out, availability);
    var ref := Reference(editor, cwd, documentPath, target);
    assert run.text == Edited(editor, ref);
    if editor.selection.IsEmpty() {
      assert Ok(run.text) == InsertAtCursor(Some(editor), ref);
    } else {
      assert Ok(run.text) == ReplaceSelection(Some(editor), ref);
    }
  }

  /** An edit that resolves `false` changes nothing, yet the image stays saved and the
      success message is shown. */
  lemma RefusedEditStillReports(editor: Editor, cwd: FsPath, documentPath: string, target: string,
                                image: ImageData, disk: Disk, out: Outcomes, availability: OllamaClient.Availability)
    requires editor.Valid() && cwd.absolute && Normal(cwd)
    requires SaveSucceeds(disk, target, out.save) && out.edit.Refused?
    ensures var run := Deliver(editor, cwd, documentPath, target, image, disk, out, availability);
            && run.text == editor.text
            && FileExists(run.disk, target) && run.disk[target] == Regular(image.buffer)
            && Notify(Info, SavedPrefix + Basename(target)) in run.effects
  {
    var run := Deliver(editor, cwd, documentPath, target, image, disk, out, availability);
    assert run.effects[1] == Notify(Info, SavedPrefix + Basename(target));
  }

  /** A failing cleanup after a successful paste also shows the generic failure message
      and calls the cleanup a second time. */
  lemma CleanupFailureReportsTwice(editor: Editor, cwd: FsPath, documentPath: string, target: string,
                                   image: ImageData, disk: Disk, out: Outcomes, availability: OllamaClient.Availability)
    requires editor.Valid() && cwd.absolute && Normal(cwd)
    requires SaveSucceeds(disk, target, out.save) && !out.edit.Rejected? && out.cleanup.Some?
    ensures var run := Deliver(editor, cwd, documentPath, target, image, disk, out, availability);
            run.effects == [Wrote(target), Notify(Info, SavedPrefix + Basename(target)), CleanupCalled,
                            Notify(Error, PasteFailedPrefix + out.cleanup.value), CleanupCalled]
  {
  }

  // ---------------------------------------------------------------------------
  // execute
  // ---------------------------------------------------------------------------

  /** The notification of a run that stops early, leaving everything else alone. */
  function Stop(env: Env, level: Level, message: string, availability: OllamaClient.Availability): Run
  {
    Run([Notify(level, message)], env.disk, DocumentText(env.editor), availability)
  }

  /** The name `generateFileName` gives the clipboard image in this environment. */
  function NameFor(env: Env, editor: Editor, image: ImageData): ImageProcessor.Named
    requires editor.Valid()
  {
    ImageProcessor.GenerateFileName(SelectedText(editor), env.config.useOllama, image.format,
                                    env.naming.client, env.naming.now, env.naming.probe,
                                    env.naming.generated, env.naming.clock)
  }

  /** `execute`. `target` is the path the image is saved to, when the command gets that far. */
  method Execute(env: Env) returns (run: Run, target: Option<string>)
    requires env.Valid()
    ensures var image := ClipboardManager.GetImage(env.clipboard.platformGet, env.clipboard.textForGet).value;
            IsMarkdownFile(env.editor) && ClipboardManager.HasImage(env.clipboard.platformHas, env.clipboard.textForHas).value
            && image.Some? ==>
              var e := env.editor.value;
              var named := NameFor(env, e, image.value);
              && run.availability == named.availability
              && (e.fsPath == [] ==> run == Stop(env, Error, NoDocumentPath, named.availability) && target.None?)
              && (e.fsPath != [] ==>
                    && target.Some?
                    && IsUniqueChoice(env.disk, BuildImagePath(e.fsPath, named.fileName, env.config.imagePath), target.value)
                    && run == Deliver(e, env.cwd, e.fsPath, target.value, image.value, env.disk, env.outcomes,
                                      named.availability))
    ensures !IsMarkdownFile(env.editor) ==> run == Stop(env, Error, NotMarkdown, env.naming.client) && target.None?
    ensures IsMarkdownFile(env.editor) && !ClipboardManager.HasImage(env.clipboard.platformHas, env.clipboard.textForHas).value
            ==> run == Stop(env, Warning, NoImage, env.naming.client) && target.None?
    ensures IsMarkdownFile(env.editor) && ClipboardManager.HasImage(env.clipboard.platformHas, env.clipboard.textForHas).value
            && ClipboardManager.GetImage(env.clipboard.platformGet, env.clipboard.textForGet).value.None?
            ==> run == Stop(env, Error, ImageUnreadable, env.naming.client) && target.None?
    ensures target.Some? ==>
              && IsMarkdownFile(env.editor) && env.editor.value.fsPath != []
              && !FileExists(env.disk, target.value)
              && var image := ClipboardManager.GetImage(env.clipboard.platformGet, env.clipboard.textForGet).value;
                 && image.Some?
                 && run == Deliver(env.editor.value, env.cwd, env.editor.value.fsPath, target.value, image.value,
                                   env.disk, env.outcomes, run.availability)
    ensures target.None? ==> run.disk == env.disk && |run.effects| == 1 && run.effects[0].Notify?
    ensures forall p :: FileExists(env.disk, p) ==> p in run.disk && run.disk[p] == env.disk[p]
    ensures CleanupCalled in run.effects ==> target.Some?
  {
    var editor := env.editor;
    if !IsMarkdownFile(editor) {
      return Stop(env, Error, NotMarkdown, env.naming.client), None;
    }
    var clip := env.clipboard;
    if !ClipboardManager.HasImage(clip.platformHas, clip.textForHas).value {
      return Stop(env, Warning, NoImage, env.naming.client), None;
    }
    var image := ClipboardManager.GetImage(clip.platformGet, clip.textForGet).value;
    if image.None? {
      return Stop(env, Error, ImageUnreadable, env.naming.client), None;
    }
    var e := editor.value;
    var named := NameFor(env, e, image.value);
    var documentPath := GetDocumentPath(editor);
    if documentPath.None? || documentPath.value == [] {
      return Stop(env, Error, NoDocumentPath, named.availability), None;
    }
    var full := BuildImagePath(documentPath.value, named.fileName, env.config.imagePath);
    var unique, _ := EnsureUniqueFileName(env.disk, full);
    DeliverKeepsOtherFiles(e, env.cwd, documentPath.value, unique, image.value, env.disk, env.outcomes, named.availability);
    run := Deliver(e, env.cwd, documentPath.value, unique, image.value, env.disk, env.outcomes, named.availability);
    target := Some(unique);
  }
}
