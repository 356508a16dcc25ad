# JavaNotepad: a Dafny model of the editor's document and file state

JavaNotepad is a small Swing text editor: one window with a text area, a
File menu (New, Open, Save As, Save, Exit) and an Edit menu (Undo, Redo).
Its logic lives in the action listeners of `NotepadGUI`. Each listener
changes the window's state step by step. That state is:

- the text area's content;
- the frame title;
- the current file (`null` until a file is opened or saved);
- the files on disk the editor reads and writes;
- the edits Swing's undo manager holds.

This project models that state machine in four modules:

- `Files` (`files.dfy`): file paths and the Save As extension rule. The
  rule keeps a name that already ends in `.txt` in any case, appends `.txt`
  otherwise, and throws for names shorter than four UTF-16 code units (what
  Java's `String.length()` counts).
- `Lines` (`lines.dfy`): how Open builds the text from the lines it reads.
  Every line gets a following `"\n"`, the last one too. `ReadAll` is the
  `StringBuilder` loop and `JoinLines` specifies it. `SplitLines` is a
  reference line reader for text whose only terminator is `"\n"`. The
  lemmas relate the two both ways.
- `Editor` (`editor.dfy`): the state as a `Window` value, one transition
  function per listener, and lemmas stating what each action promises.
  Together they show that the title keeps naming the current file and that
  saving then reopening gives back the text with its last line
  newline-terminated.
- `NotepadGui` (`notepad_gui.dfy`): class `Notepad` with the window's
  fields as mutable fields. Its methods `New`, `Open`, `SaveAs`, `Save`
  and `Undo` follow the listeners statement by statement. Each is proved to
  make exactly the transition `Editor` defines. The Redo menu item has no
  listener, so `Redo` runs no code and is proved to change nothing.

Things outside the program are inputs to the model:

- the result of a file chooser: approved with a file, or not approved;
- whether each file operation completes or throws;
- the lines a read returns;
- the text an undo restores.

The model follows the code where it differs from a natural reading of the
actions:

- Open sets the current file and the title before reading. A failed read
  therefore leaves them set over an empty text.
- Save As puts the name as typed in the title, without any appended
  `.txt`. It records the extended file as the current file.
- Save As creates the target file empty before writing it. If the write
  then throws, that empty file stays on disk.
- Save without a current file runs Save As and then writes the same text
  a second time.
- New and Open replace the text through `setText`, and the undo manager
  records those replacements as edits. New therefore does not clear the
  undo history.

## Model

| member | source | states |
|---|---|---|
| `Files.EqualsIgnoreCase` | src/NotepadGUI.java:152 | two strings are equal ignoring case exactly when their lower-cased forms are equal |
| `Files.Utf16Length` | src/NotepadGUI.java:152 | `String.length()`: at least one and at most two UTF-16 code units per character |
| `Files.TxtCheck` | src/NotepadGUI.java:150-152 | the suffix check fails (the `substring` exception) exactly when the name is shorter than 4 UTF-16 code units; otherwise it accepts exactly the names ending in ".txt" in any case |
| `Files.AppendTxt` | src/NotepadGUI.java:153 | the extended file keeps the directory, and its name is the chosen name followed by exactly ".txt" |
| `Files.SaveTarget` | src/NotepadGUI.java:147-154 | the file Save As writes: none exactly for names shorter than 4 UTF-16 code units; the chosen file itself exactly when its name ends in ".txt" in any case; otherwise the same directory with ".txt" appended to the name; the result always ends in ".txt" |
| `Files.AppendedEndsWithTxt` | src/NotepadGUI.java:152-153 | a name with ".txt" appended passes the suffix check |
| `Files.SaveTargetIdempotent` | src/NotepadGUI.java:150-154 | applying the extension rule to the file it produced keeps that file |
| `Files.SaveTargetAppends` | src/NotepadGUI.java:150-154 | "report" becomes "report.txt"; "abc" makes the check throw |
| `Files.SaveTargetSupplementary` | src/NotepadGUI.java:150-154 | "ab" followed by an emoji is 4 UTF-16 code units: it does not throw and becomes the same name followed by ".txt" |
| `Files.SaveTargetKeeps` | src/NotepadGUI.java:150-154 | "report.txt" and "REPORT.TXT" are kept unchanged |
| `Lines.JoinLines` | src/NotepadGUI.java:117-121 | the joined text is empty exactly when no line was read, and otherwise ends in "\n" |
| `Lines.ReadAll` | src/NotepadGUI.java:117-121 | the read loop's text equals JoinLines of all lines read |
| `Lines.JoinLinesCons` | src/NotepadGUI.java:117-121 | joining a first line and the rest gives the line, "\n", then the rest joined |
| `Lines.LineEnd` | src/NotepadGUI.java:119 | the position of the first "\n", or the length when there is none |
| `Lines.SplitLines` | src/NotepadGUI.java:113-121 | the lines a reader returns contain no "\n" |
| `Lines.Normalised` | src/NotepadGUI.java:117-124 | the normalised text is the original or the original followed by "\n"; it is the original exactly when that is empty or already ends in "\n", and it ends in "\n" when not empty |
| `Lines.JoinSplit` | src/NotepadGUI.java:113-124 | reading a text line by line and joining gives the text with its last line newline-terminated |
| `Lines.SplitJoin` | src/NotepadGUI.java:113-121 | splitting joined lines that contain no "\n" gives the lines back |
| `Lines.HelloWorldSplit` | src/NotepadGUI.java:113-121 | "hello\nworld" is read as the lines "hello" and "world" |
| `Lines.HelloWorldJoin` | src/NotepadGUI.java:117-124 | the lines "hello" and "world" become "hello\nworld\n" |
| `Editor.EditsRecorded` | src/NotepadGUI.java:41-48 | replacing the text records no edit exactly when the old and new texts are both empty, two edits exactly when both are non-empty, and so exactly one when only one of them is |
| `Editor.WithText` | src/NotepadGUI.java:41-48 | `setText` replaces the text, never lowers the undo count, and leaves title, current file and files alone |
| `Editor.AfterNew` | src/NotepadGUI.java:72-83 | New's transition: empty text, title "Notepad", no current file, files unchanged, undo count not lowered |
| `Editor.AfterOpen` | src/NotepadGUI.java:89-129 | Open's transition: nothing on cancel; otherwise the selected file is current and titled, the text is the joined lines read or "" on a failed read, and the undo count grows by the edits of emptying the old text and inserting the new one (the history is kept); files unchanged |
| `Editor.AfterSaveAs` | src/NotepadGUI.java:135-178 | Save As's transition: text and undo count unchanged; nothing on cancel; either current file and title are unchanged, or the target file was written with the text, is current and the chosen name is the title |
| `Editor.AfterSave` | src/NotepadGUI.java:185-209 | Save's transition: text and undo count unchanged; an existing current file and title are kept; ending without a current file, the result is exactly that of Save As |
| `Editor.AfterUndo` | src/NotepadGUI.java:231-238 | Undo's transition: title, current file and files unchanged; either nothing changes, or one edit is undone and the text is the restored one |
| `Editor.AfterUserEdit` | src/NotepadGUI.java:41-48 | a typed edit sets the text and leaves something to undo; title, current file and files unchanged |
| `Editor.NewResets` | src/NotepadGUI.java:72-83 | after New the text is "", the title "Notepad" and there is no current file, whatever came before; files are unchanged; undo history is kept (one more edit when the text was not empty) |
| `Editor.OpenShowsLines` | src/NotepadGUI.java:99-124 | a successful Open records one undoable edit for clearing a non-empty old text and one for showing a non-empty read, and records none exactly when both are empty |
| `Editor.OpenFailedRead` | src/NotepadGUI.java:99-128 | when the read throws, the state is New's followed by naming the selected file as current and in the title, and the undo manager holds only the clearing of the old text |
| `Editor.OpenHelloWorld` | src/NotepadGUI.java:113-124 | opening a file holding "hello\nworld" shows "hello\nworld\n" |
| `Editor.SaveAsShortName` | src/NotepadGUI.java:146-177 | a name shorter than 4 UTF-16 code units changes nothing: the exception is caught before any write |
| `Editor.SaveAsWrites` | src/NotepadGUI.java:146-170 | a successful Save As writes the text to the extended file and to no other, makes that file current, and puts the name as chosen in the title |
| `Editor.SaveAsFails` | src/NotepadGUI.java:156-177 | when creating or writing throws, text, title and current file are unchanged; a failed `createNewFile` changes nothing, and a failed write leaves at most an empty target file |
| `Editor.SaveWithoutFile` | src/NotepadGUI.java:188-197 | without a current file, Save is Save As, and nothing more happens when Save As left no current file (on cancel, nothing at all); otherwise the new current file holds the text |
| `Editor.SaveToCurrentFile` | src/NotepadGUI.java:199-208 | with a current file, Save overwrites only that file with the text and keeps the current file and title; a failed write changes nothing |
| `Editor.SaveWritesText` | src/NotepadGUI.java:188-205 | after a Save that ends with a current file, that file holds the text (unless it was already current and the write threw) |
| `Editor.SaveThenOpen` | src/NotepadGUI.java:113-205 | saving and then opening the saved file shows the saved text with its last line newline-terminated |
| `Editor.UndoGuard` | src/NotepadGUI.java:231-238 | Undo is a no-op when nothing can be undone, and otherwise restores the text and removes one edit |
| `Editor.TitleNamesFilePreserved` | src/NotepadGUI.java:76-170 | every action keeps the title "Notepad" while there is no file, and otherwise the current file's name, perhaps without ".txt" |
| `NotepadGui.Notepad.constructor` | src/NotepadGUI.java:21-34 | the new window is titled "Notepad", empty, with no file and nothing to undo |
| `NotepadGui.Notepad.SetText` | src/NotepadGUI.java:41-48 | setting the text replaces it and adds the recorded edits to the undo count, keeping the title-names-file invariant when it held |
| `NotepadGui.Notepad.UserEdit` | src/NotepadGUI.java:41-48 | a typed edit changes the text and is recorded as one undoable edit |
| `NotepadGui.Notepad.New` | src/NotepadGUI.java:72-83 | the New listener makes the transition AfterNew |
| `NotepadGui.Notepad.Open` | src/NotepadGUI.java:89-129 | the Open listener makes the transition AfterOpen, using ReadAll for its loop |
| `NotepadGui.Notepad.SaveAs` | src/NotepadGUI.java:135-178 | the Save As listener makes the transition AfterSaveAs |
| `NotepadGui.Notepad.Save` | src/NotepadGUI.java:185-209 | the Save listener, calling Save As and re-testing the current file, makes the transition AfterSave |
| `NotepadGui.Notepad.Undo` | src/NotepadGUI.java:231-238 | the Undo listener makes the transition AfterUndo |
| `NotepadGui.Notepad.Redo` | src/NotepadGUI.java:242-243 | Redo has no listener and changes nothing |

## Left out

- Window construction: frame size and centring, toolbar and menu building. This is UI plumbing with no state the actions use.
- Exit (`dispose`): closing the window ends the state; nothing is left to model.
- `src/App.java`: it only sets a third-party look-and-feel and shows the window.
- The file chooser is an input: approved with a file, or not approved. Its start directory and `*.txt` filter only affect what the user sees.
- Reads are an input: the lines returned, or a failure at any point, which shows no partial text. `SplitLines` relates the lines to a file's text only for `"\n"` terminators. The reader's handling of `"\r"` and `"\r\n"` and the platform encoding are not modelled.
- The reader opened by Open is never closed, and neither are the writers of Save As (src/NotepadGUI.java:160-164) and Save (src/NotepadGUI.java:201-205) when `write` throws. The leaked file handles are not modelled.
- A write that throws is modelled as leaving the file as it was before that write. A writer that truncates the file and then fails part-way is not modelled.
- `getAbsoluteFile()` is treated as the identity. The chooser is assumed to return absolute paths.
- Files.EqualsIgnoreCase: folds only ASCII letters. Java's Unicode case mapping for other characters is not modelled.
- Files.TxtCheck: folds only ASCII letters, as EqualsIgnoreCase does.
- The undo manager is foreign code. The model keeps only the number of edits it can undo, and `canUndo()` is that number being positive.
- NotepadGui.Notepad.Undo: the text an undo restores is an input, not derived from an edit history.
- The undo manager's default limit of 100 edits and the undone edits it keeps for redo are not modelled. Redo is never wired, so those edits are never used.
- `EditsRecorded` follows `javax.swing.text.AbstractDocument.replace`, which is not part of this model: one edit to remove non-empty old content and one to insert non-empty new content.
- The "Saved File!" message and the stack traces printed on exceptions are output only. The exception paths are modelled as making no further state change.
