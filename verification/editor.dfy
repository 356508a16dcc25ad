/** The editor's state machine: the window's text, title and current file,
    the files on disk and the undo manager's count of undoable edits, and the
    one transition each menu action makes on them. The dialogs, the outcome
    of each file operation and the text an undo restores are inputs. */
module Editor {
  import opened Files
  import opened Lines

  const DefaultTitle: string := "Notepad"

  /** What a file chooser returned: the approve option with the selected
      file, or any other answer (cancel, close, error). */
  datatype Dialog = Approved(file: FilePath) | Cancelled

  /** What reading the selected file gave: every line the reader returned,
      or an exception, raised on opening the file or part-way through. */
  datatype ReadResult = ReadLines(lines: seq<string>) | ReadFailed

  /** Whether one file operation completed or threw. */
  datatype Io = Done | Failed

  datatype Window = Window(
    text: string,
    title: string,
    currentFile: Option<FilePath>,
    files: map<FilePath, string>,
    undoable: nat)

  /** The window as it is built: titled "Notepad", empty, with no file and
      nothing to undo. */
  function Initial(disk: map<FilePath, string>): Window {
    Window("", DefaultTitle, None, disk, 0)
  }

  /** The edits the undo manager receives when the text area's whole content
      is replaced: one for removing the old content when there was any, one
      for inserting the new content when there is any. */
  function EditsRecorded(before: string, after: string): (n: nat)
    ensures n == 0 <==> before == "" && after == ""
    ensures n == 2 <==> before != "" && after != ""
    ensures n <= 2
  {
    (if before != "" then 1 else 0) + (if after != "" then 1 else 0)
  }

  /** `textArea.setText(s)`, with the edits it hands to the undo manager. */
  function WithText(w: Window, s: string): (r: Window)
    ensures r.text == s && r.undoable >= w.undoable
    ensures r.title == w.title && r.currentFile == w.currentFile && r.files == w.files
  {
    w.(text := s, undoable := w.undoable + EditsRecorded(w.text, s))
  }

  /** New: title back to "Notepad", text emptied, no current file. */
  function AfterNew(w: Window): (r: Window)
    ensures r.text == "" && r.title == DefaultTitle && r.currentFile == None
    ensures r.files == w.files && r.undoable >= w.undoable
  {
    WithText(w.(title := DefaultTitle), "").(currentFile := None)
  }

  /** Open: nothing on a cancelled dialog; otherwise New, then the selected
      file becomes the current file and the title, and only then is the
      file read; a failed read leaves the text empty. */
  function AfterOpen(w: Window, dialog: Dialog, read: ReadResult): (r: Window)
    ensures dialog.Cancelled? ==> r == w
    ensures dialog.Approved? ==> r.currentFile == Some(dialog.file) && r.title == dialog.file.name
    ensures dialog.Approved? ==> r.text == if read.ReadLines? then JoinLines(read.lines) else ""
    ensures dialog.Approved? ==>
      r.undoable == w.undoable + EditsRecorded(w.text, "") + EditsRecorded("", r.text)
    ensures r.files == w.files
  {
    match dialog
    case Cancelled => w
    case Approved(f) =>
      var named := AfterNew(w).(currentFile := Some(f), title := f.name);
      match read
      case ReadFailed => named
      case ReadLines(lines) => WithText(named, JoinLines(lines))
  }

  /** Save As: nothing on a cancelled dialog or when the extension check
      throws; otherwise the file gets the ".txt" extension when it lacks
      one, is created empty when absent, and is written with the text;
      only then do the title (the name as chosen) and the current file
      (the extended file) change. */
  function AfterSaveAs(w: Window, dialog: Dialog, create: Io, write: Io): (r: Window)
    ensures r.text == w.text && r.undoable == w.undoable
    ensures dialog.Cancelled? ==> r == w
    ensures || (r.currentFile == w.currentFile && r.title == w.title)
            || (&& dialog.Approved?
                && r.currentFile == SaveTarget(dialog.file) && r.currentFile.Some?
                && r.title == dialog.file.name
                && r.files == w.files[r.currentFile.value := w.text])
  {
    match dialog
    case Cancelled => w
    case Approved(f) =>
      match SaveTarget(f)
      case None => w
      case Some(target) =>
        if create.Failed? then w
        else
          var created := if target in w.files then w.files else w.files[target := ""];
          if write.Failed? then w.(files := created)
          else w.(files := created[target := w.text], title := f.name, currentFile := Some(target))
  }

  /** Save: Save As first when there is no current file; then, if there is
      a current file, it is overwritten with the text. */
  function AfterSave(w: Window, dialog: Dialog, create: Io, write: Io, rewrite: Io): (r: Window)
    ensures r.text == w.text && r.undoable == w.undoable
    ensures w.currentFile.Some? ==> r.currentFile == w.currentFile && r.title == w.title
    ensures r.currentFile.None? ==> r == AfterSaveAs(w, dialog, create, write)
  {
    var w' := if w.currentFile.None? then AfterSaveAs(w, dialog, create, write) else w;
    match w'.currentFile
    case None => w'
    case Some(p) => if rewrite.Failed? then w' else w'.(files := w'.files[p := w'.text])
  }

  /** Undo: only when the undo manager can undo, which then restores the
      text from before its latest edit (given here as `restored`). */
  function AfterUndo(w: Window, restored: string): (r: Window)
    ensures r.title == w.title && r.currentFile == w.currentFile && r.files == w.files
    ensures r.undoable == w.undoable ==> r == w
    ensures r.undoable != w.undoable ==> r.undoable + 1 == w.undoable && r.text == restored
  {
    if w.undoable > 0 then w.(text := restored, undoable := w.undoable - 1) else w
  }

  /** A change the user makes by typing: one edit for the undo manager. */
  function AfterUserEdit(w: Window, s: string): (r: Window)
    ensures r.text == s && r.undoable > 0
    ensures r.title == w.title && r.currentFile == w.currentFile && r.files == w.files
  {
    w.(text := s, undoable := w.undoable + 1)
  }

  /** The title shows "Notepad" while there is no file, and otherwise the
      name of the current file, possibly without the ".txt" that Save As
      appended to it. */
  ghost predicate TitleNamesFile(w: Window) {
    match w.currentFile
    case None => w.title == DefaultTitle
    case Some(f) => w.title == f.name || f.name == w.title + TxtExtension
  }

  /** The two maps agree everywhere except possibly at `p`. */
  ghost predicate OnlyTouches(before: map<FilePath, string>, after: map<FilePath, string>, p: FilePath) {
    forall q :: q != p ==> (q in after <==> q in before) && (q in after ==> after[q] == before[q])
  }

  /** New forgets the text and the file whatever came before, but not the
      undo history: emptying a non-empty text is itself one more edit. */
  lemma NewResets(w: Window)
    ensures AfterNew(w).text == "" && AfterNew(w).title == DefaultTitle
    ensures AfterNew(w).currentFile == None && AfterNew(w).files == w.files
    ensures AfterNew(w).undoable == if w.text == "" then w.undoable else w.undoable + 1
  {
  }

  /** What a successful Open leaves for Undo: one edit for clearing a
      non-empty old text and one for showing a non-empty read, so opening
      an empty file over an empty text records nothing. */
  lemma OpenShowsLines(w: Window, f: FilePath, lines: seq<string>)
    ensures AfterOpen(w, Approved(f), ReadLines(lines)).undoable ==
      w.undoable + (if w.text == "" then 0 else 1) + (if lines == [] then 0 else 1)
    ensures AfterOpen(w, Approved(f), ReadLines(lines)).undoable == w.undoable <==>
      w.text == "" && lines == []
  {
  }

  /** A failed read ends Open as New followed by naming the file would: the
      undo manager holds only the clearing of the old text. */
  lemma OpenFailedRead(w: Window, f: FilePath)
    ensures AfterOpen(w, Approved(f), ReadFailed) ==
      AfterNew(w).(currentFile := Some(f), title := f.name)
    ensures AfterOpen(w, Approved(f), ReadFailed).undoable ==
      if w.text == "" then w.undoable else w.undoable + 1
  {
  }

  /** Opening a file holding "hello\nworld", read line by line, shows
      "hello\nworld\n". */
  lemma OpenHelloWorld(w: Window, f: FilePath)
    ensures AfterOpen(w, Approved(f), ReadLines(SplitLines("hello\nworld"))).text == "hello\nworld\n"
  {
    HelloWorldSplit();
    HelloWorldJoin();
  }

  /** A name shorter than four UTF-16 code units makes the extension check
      throw: nothing is written and nothing changes. */
  lemma SaveAsShortName(w: Window, f: FilePath, create: Io, write: Io)
    requires Utf16Length(f.name) < 4
    ensures AfterSaveAs(w, Approved(f), create, write) == w
  {
  }

  /** A successful Save As writes the text to the target file and to no
      other, makes the target the current file and puts the name as chosen
      in the title. */
  lemma SaveAsWrites(w: Window, f: FilePath, target: FilePath)
    requires SaveTarget(f) == Some(target)
    ensures AfterSaveAs(w, Approved(f), Done, Done).files == w.files[target := w.text]
    ensures AfterSaveAs(w, Approved(f), Done, Done).currentFile == Some(target)
    ensures AfterSaveAs(w, Approved(f), Done, Done).title == f.name
    ensures AfterSaveAs(w, Approved(f), Done, Done).text == w.text
    ensures EndsWithTxt(target.name)
  {
  }

  /** A Save As whose file operations throw changes neither the text, the
      title nor the current file; on disk, at most an empty target file
      was created. */
  lemma SaveAsFails(w: Window, f: FilePath, target: FilePath, create: Io, write: Io)
    requires SaveTarget(f) == Some(target)
    requires create.Failed? || write.Failed?
    ensures create.Failed? ==> AfterSaveAs(w, Approved(f), create, write) == w
    ensures AfterSaveAs(w, Approved(f), create, write) == w.(files := AfterSaveAs(w, Approved(f), create, write).files)
    ensures OnlyTouches(w.files, AfterSaveAs(w, Approved(f), create, write).files, target)
    ensures target in w.files ==> AfterSaveAs(w, Approved(f), create, write).files == w.files
    ensures target in AfterSaveAs(w, Approved(f), create, write).files && target !in w.files ==>
      AfterSaveAs(w, Approved(f), create, write).files[target] == ""
  {
  }

  /** Save without a current file is Save As followed by a second write of
      the same text: if Save As left no current file, nothing more happens,
      and otherwise the new current file holds the text whether or not the
      second write succeeds. A cancelled dialog writes nothing. */
  lemma SaveWithoutFile(w: Window, dialog: Dialog, create: Io, write: Io, rewrite: Io)
    requires w.currentFile == None
    ensures dialog.Cancelled? ==> AfterSave(w, dialog, create, write, rewrite) == w
    ensures var s := AfterSaveAs(w, dialog, create, write);
      s.currentFile == None ==> AfterSave(w, dialog, create, write, rewrite) == s
    ensures var s := AfterSaveAs(w, dialog, create, write);
      s.currentFile.Some? ==>
        AfterSave(w, dialog, create, write, rewrite) == s &&
        s.files == w.files[s.currentFile.value := w.text]
  {
    var s := AfterSaveAs(w, dialog, create, write);
    if s.currentFile.Some? {
      var f := dialog.file;
      var target := SaveTarget(f).value;
      assert s.currentFile == Some(target);
      var created := if target in w.files then w.files else w.files[target := ""];
      assert s.files == created[target := w.text];
      assert created[target := w.text] == w.files[target := w.text];
      assert s.files[target := s.text] == s.files;
    }
  }

  /** Save with a current file overwrites that file with the text, touches
      no other file, and keeps the current file and the title; a failed
      write changes nothing. */
  lemma SaveToCurrentFile(w: Window, p: FilePath, dialog: Dialog, create: Io, write: Io, rewrite: Io)
    requires w.currentFile == Some(p)
    ensures AfterSave(w, dialog, create, write, rewrite).currentFile == Some(p)
    ensures AfterSave(w, dialog, create, write, rewrite).title == w.title
    ensures AfterSave(w, dialog, create, write, rewrite).text == w.text
    ensures OnlyTouches(w.files, AfterSave(w, dialog, create, write, rewrite).files, p)
    ensures rewrite.Done? ==> AfterSave(w, dialog, create, write, rewrite).files[p] == w.text
    ensures rewrite.Failed? ==> AfterSave(w, dialog, create, write, rewrite) == w
  {
  }

  /** After a Save that ends with a current file, that file holds the text,
      unless it was already current and the write threw. */
  lemma SaveWritesText(w: Window, p: FilePath, dialog: Dialog, create: Io, write: Io, rewrite: Io)
    requires AfterSave(w, dialog, create, write, rewrite).currentFile == Some(p)
    requires w.currentFile == None || rewrite.Done?
    ensures p in AfterSave(w, dialog, create, write, rewrite).files
    ensures AfterSave(w, dialog, create, write, rewrite).files[p] == w.text
  {
  }

  /** Saving and then opening the saved file, read line by line, shows the
      text that was saved with its last line newline-terminated. */
  lemma SaveThenOpen(w: Window, p: FilePath, dialog: Dialog, create: Io, write: Io, rewrite: Io)
    requires AfterSave(w, dialog, create, write, rewrite).currentFile == Some(p)
    requires w.currentFile == None || rewrite.Done?
    ensures var saved := AfterSave(w, dialog, create, write, rewrite);
      p in saved.files &&
      AfterOpen(saved, Approved(p), ReadLines(SplitLines(saved.files[p]))).text == Normalised(w.text)
  {
    SaveWritesText(w, p, dialog, create, write, rewrite);
    JoinSplit(w.text);
  }

  /** Undo acts only when there is an edit to undo. */
  lemma UndoGuard(w: Window, restored: string)
    ensures w.undoable == 0 ==> AfterUndo(w, restored) == w
    ensures w.undoable > 0 ==> AfterUndo(w, restored) == w.(text := restored, undoable := w.undoable - 1)
  {
  }

  /** Every action keeps the title naming the current file. */
  lemma TitleNamesFilePreserved(w: Window, dialog: Dialog, read: ReadResult, create: Io, write: Io,
                                rewrite: Io, s: string)
    requires TitleNamesFile(w)
    ensures TitleNamesFile(AfterNew(w))
    ensures TitleNamesFile(AfterOpen(w, dialog, read))
    ensures TitleNamesFile(AfterSaveAs(w, dialog, create, write))
    ensures TitleNamesFile(AfterSave(w, dialog, create, write, rewrite))
    ensures TitleNamesFile(AfterUndo(w, s))
    ensures TitleNamesFile(AfterUserEdit(w, s))
  {
  }
}
