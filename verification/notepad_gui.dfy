/** The notepad window: its fields and the action listeners of the File and
    Edit menus, each updating the fields step by step as the listener does,
    and each proved to make the transition `Editor` defines for it. */
module NotepadGui {
  import opened Files
  import opened Lines
  import opened Editor

  class Notepad {
    var text: string                    // the text area's content
    var title: string                   // the frame's title
    var currentFile: Option<FilePath>   // null in the window while unsaved
    var files: map<FilePath, string>    // the disk, as far as the editor reads and writes it
    var undoable: nat                   // edits the undo manager can undo

    function Snapshot(): Window
      reads this
    {
      Window(text, title, currentFile, files, undoable)
    }

    ghost predicate Valid()
      reads this
    {
      TitleNamesFile(Snapshot())
    }

    /** The window as constructed, over the files already on disk. */
    constructor (disk: map<FilePath, string>)
      ensures Valid() && Snapshot() == Initial(disk)
    {
      text, title, currentFile, files, undoable := "", DefaultTitle, None, disk, 0;
    }

    /** `textArea.setText(s)`: the content is replaced; the undoable-edit
        listener passes each document edit this makes to the undo manager.
        It leaves the title and the current file alone, so it keeps Valid()
        when that holds; New calls it between setting the title and
        clearing the current file, where Valid() need not hold. */
    method SetText(s: string)
      modifies this
      ensures Snapshot() == WithText(old(Snapshot()), s)
      ensures old(Valid()) ==> Valid()
    {
      undoable := undoable + EditsRecorded(text, s);
      text := s;
    }

    /** The undoable-edit listener receiving one edit the user made by
        typing, which leaves `s` in the text area. */
    method UserEdit(s: string)
      requires Valid()
      modifies this
      ensures Valid() && Snapshot() == AfterUserEdit(old(Snapshot()), s)
    {
      text := s;
      undoable := undoable + 1;
    }

    /** File > New. */
    method New()
      requires Valid()
      modifies this
      ensures Valid() && Snapshot() == AfterNew(old(Snapshot()))
    {
      title := DefaultTitle;
      SetText("");
      currentFile := None;
    }

    /** File > Open. */
    method Open(dialog: Dialog, read: ReadResult)
      requires Valid()
      modifies this
      ensures Valid() && Snapshot() == AfterOpen(old(Snapshot()), dialog, read)
    {
      if dialog.Cancelled? {
        return;
      }
      New();
      var selectedFile := dialog.file;
      currentFile := Some(selectedFile);
      title := selectedFile.name;
      match read
      case ReadFailed =>
        // the exception is caught and only reported
      case ReadLines(lines) =>
        var fileText := ReadAll(lines);
        SetText(fileText);
    }

    /** File > Save As. */
    method SaveAs(dialog: Dialog, create: Io, write: Io)
      requires Valid()
      modifies this
      ensures Valid() && Snapshot() == AfterSaveAs(old(Snapshot()), dialog, create, write)
    {
      if dialog.Cancelled? {
        return;
      }
      var selectedFile := dialog.file;
      var fileName := selectedFile.name;
      var hasTxt := TxtCheck(fileName);
      if hasTxt.None? {
        return;  // substring throws; the exception is caught and only reported
      }
      if !hasTxt.value {
        selectedFile := AppendTxt(selectedFile);
      }
      assert SaveTarget(dialog.file) == Some(selectedFile);
      if create.Failed? {
        return;
      }
      if selectedFile !in files {
        files := files[selectedFile := ""];
      }
      if write.Failed? {
        return;
      }
      files := files[selectedFile := text];
      title := fileName;
      currentFile := Some(selectedFile);
    }

    /** File > Save. */
    method Save(dialog: Dialog, create: Io, write: Io, rewrite: Io)
      requires Valid()
      modifies this
      ensures Valid() && Snapshot() == AfterSave(old(Snapshot()), dialog, create, write, rewrite)
    {
      if currentFile == None {
        SaveAs(dialog, create, write);
      }
      if currentFile == None {
        return;
      }
      if rewrite.Failed? {
        return;
      }
      files := files[currentFile.value := text];
    }

    /** Edit > Undo: `restored` is the text the undo manager's undo brings
        back. */
    method Undo(restored: string)
      requires Valid()
      modifies this
      ensures Valid() && Snapshot() == AfterUndo(old(Snapshot()), restored)
    {
      if undoable > 0 {
        text := restored;
        undoable := undoable - 1;
      }
    }

    /** Edit > Redo: the menu item has no listener, so choosing it runs no
        code. */
    method Redo()
      ensures Snapshot() == old(Snapshot())
    {
    }
  }
}
