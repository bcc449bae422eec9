# TaskManager task list, modelled in Dafny

TaskManager is a terminal task tracker written in Go. A task is one line of text,
`"<name> - <description> - [Pending]"`. The list of tasks is an ordered sequence
of such lines, addressed by 0-based position. The user can add a task, mark one
done or delete one. After every change the whole list is saved to `tasks.txt`,
one task per line, and at startup it is loaded back from that file, keeping the
non-empty lines.

This project models that core of `main.go`:

- `wrappers.dfy` (`Wrappers`): the `Option` type. An unparsable task id and a
  missing tasks file are both `None`.
- `go_strings.dfy` (`GoStrings`): the Go library string functions that the code
  relies on. `IndexOf` is `strings.Index`, found recursively, with the "first
  occurrence" property proved. `Contains` is `strings.Contains`. `ReplaceFirst` is
  `strings.Replace` with a count of 1, a splice at that first occurrence.
  `TrimSpace` is `strings.TrimSpace` over the `unicode.IsSpace` characters.
- `task_line.dfy` (`TaskLine`): the task line codec. It builds a line the way
  `addTask` does, uses `" [Done]"` (with its leading space) as the done check,
  and marks a line done by rewriting the first `" [Pending]"`.
- `task_file.dfy` (`TaskFile`): the file encoding as pure string functions:
  - `Serialize` writes each task followed by `"\n"`;
  - `Parse` splits the text into lines and keeps the non-empty ones;
  - the loop methods `SaveTasks` and `LoadTasks` are proved equal to these
    functions;
  - the round trip `Parse(Serialize(ts)) == ts` is proved for non-empty,
    newline-free tasks.
- `task_list.dfy` (`TaskList`): what `addTask`, `markTask` and `deleteTask` do to
  the list, as the pure functions `AddTask`, `MarkTask` and `DeleteTask`. Next to
  these are the `MarkOutcome` and `DeleteOutcome` checks, which give the branch
  taken, i.e. the message printed. The class `TaskStore` holds two fields:
  - `tasks`: the list in memory;
  - `file`: the contents of the tasks file.

  Its methods make the three changes in place and save after each one. Its
  invariant is that loading the file gives back the list in memory.

The command id is an `Option<int>`, where `None` stands for an input that
`strconv.Atoi` rejects. The name and description passed to `TaskStore.Add` are the
raw input lines as `bufio.Reader.ReadString('\n')` returns them, so a newline can
only be their last character. `TrimSpace` then removes that newline, which is why
every stored line is newline-free.

Behaviour of the code worth knowing:

- `addTask` accepts empty names and descriptions: `AddTask` has no precondition.
- `markTask` has no separate "not pending" outcome. When a line has neither
  marker, `MarkOutcome` is `Ok` and `TaskStore.Mark` returns `Ok`, but
  `MarkTask` leaves the line as it was, and the list is still saved.
- The done check looks for `" [Done]"` with its leading space. A task whose
  trimmed description starts with `[Done]` therefore reads as done as soon as it
  is added. `NewTaskLineDoneIff` states exactly when that happens.

## Model

| member | source | states |
|---|---|---|
| `GoStrings.IndexFrom` | main.go:126-132 | the result is an occurrence of the pattern at or after the start, and no earlier one exists from there; `None` only when the pattern does not occur at or after the start |
| `GoStrings.IndexOf` | main.go:126-132 | `strings.Index`: the least index where the pattern occurs, or `None` exactly when it occurs nowhere |
| `GoStrings.Contains` | main.go:126 | `strings.Contains`: true exactly when the pattern occurs at some index |
| `GoStrings.ReplaceFirst` | main.go:132 | without an occurrence the string is returned unchanged; with one the length changes by `|rep| - |pat|` |
| `GoStrings.ReplaceFirstAt` | main.go:132 | the replacement is spliced in at the first occurrence, wherever that is, and nothing else changes |
| `GoStrings.CountLeading` | main.go:77 | the count of leading runes is where the first non-white-space rune sits: every rune before it is white space and the one at it is not |
| `GoStrings.CountTrailing` | main.go:77 | the count of trailing runes covers only white space, and the rune just before them is not white space |
| `GoStrings.TrimSpace` | main.go:77-81 | the result is no longer than the input and neither starts nor ends with white space |
| `GoStrings.TrimSpaceIsSlice` | main.go:77-81 | the trimmed text is the slice of the input between `TrimStart` and `TrimEnd`, with only white space before and after it |
| `GoStrings.TrimSpaceIdempotent` | main.go:77-81 | trimming an already trimmed string changes nothing |
| `GoStrings.TrimSpaceDropsFinalNewline` | main.go:76-81 | an input line whose only newline is its last character has no newline once trimmed |
| `TaskLine.Fields` | main.go:77-84 | the name-and-description part is at most as long as the raw inputs plus the separator, and the `" - "` separator sits right after the trimmed name |
| `TaskLine.NewTaskLine` | main.go:84 | every line `addTask` builds holds the `" [Pending]"` marker |
| `TaskLine.IsDone` | main.go:126 | the done check: a line is done exactly when `" [Done]"` occurs at some index of it |
| `TaskLine.MarkDone` | main.go:132 | a line without `" [Pending]"` is left as it is; otherwise it becomes 3 characters shorter |
| `TaskLine.NewTaskLineEndsPending` | main.go:84 | a new task line ends with `" - [Pending]"` and so contains the pending marker |
| `TaskLine.NewTaskLineHoldsFields` | main.go:77-84 | a new task line contains the trimmed name and the trimmed description verbatim |
| `TaskLine.SuffixNeverDone` | main.go:126 | the `" - [Pending]"` suffix never produces a `" [Done]"`: `text + suffix` is done exactly when `text` contains `" [Done]"` |
| `TaskLine.NewTaskLineDoneIff` | main.go:126 | a line built by `addTask` (main.go:84) counts as done if and only if its name and description part contains `" [Done]"` |
| `TaskLine.NoBracketNoMarker` | main.go:126-132 | text without a `[` contains neither `" [Pending]"` nor `" [Done]"` |
| `TaskLine.FieldsWithoutBrackets` | main.go:77-84 | a name and description typed without `[` give a fields part with neither marker, so `AddThenMark` applies to them |
| `TaskLine.MarkDoneMakesDone` | main.go:132 | rewriting a line that contains `" [Pending]"` makes it done and 3 characters shorter |
| `TaskLine.MarkDoneWellFormed` | main.go:132 | the rewrite keeps a line non-empty and newline-free |
| `TaskLine.FirstPendingInSuffix` | main.go:132 | if the name and description part has no `" [Pending]"`, the first one in the line is the marker in the status suffix |
| `TaskLine.MarkDoneRewritesSuffix` | main.go:132 | in that case the rewrite turns `" - [Pending]"` into `" - [Done]"` and leaves the rest alone |
| `TaskLine.MarkDoneNewTaskLine` | main.go:132 | Pending to Done for a fresh line: marking gives `fields + " - [Done]"`, which is done |
| `TaskLine.NewTaskLineWellFormed` | main.go:76-84 | a line built from two input lines is non-empty and newline-free, so the file stores it as one line |
| `TaskFile.Lines` | main.go:31-33 | no scanned line contains a newline; with `LinesCons` and `LinesLast`, the text up to each newline is one line and an unterminated last line is still returned |
| `TaskFile.NonEmpty` | main.go:34-36 | the filter keeps exactly the non-empty lines: no result is empty, and a line is kept if and only if it is in the input and non-empty |
| `TaskFile.NonEmptyAppend` | main.go:32-36 | the filter distributes over concatenation, so file order is kept |
| `TaskFile.NonEmptyKeepsAll` | main.go:34-36 | a list with no empty line passes the filter unchanged |
| `TaskFile.LinesCons` | main.go:31-33 | newline-free text followed by a newline scans as that one line, then the lines of the rest |
| `TaskFile.LinesLast` | main.go:31-33 | a non-empty last line without a final newline is still scanned as one line |
| `TaskFile.Parse` | main.go:31-36 | every loaded task is non-empty and newline-free |
| `TaskFile.Serialize` | main.go:59-60 | a saved non-empty list ends with a newline |
| `TaskFile.SerializeAppend` | main.go:59-60 | saving one more task appends exactly that task and a newline |
| `TaskFile.LinesSerialize` | main.go:59-60 | scanning saved text yields every saved task, empty ones included, in order |
| `TaskFile.ParseSerialize` | main.go:32-36 | saving then loading newline-free tasks drops exactly the empty ones |
| `TaskFile.RoundTrip` | main.go:32-36 | saving then loading non-empty, newline-free tasks gives the same list |
| `TaskFile.ReloadStable` | main.go:32-36 | saving a loaded list and loading it again gives the same list |
| `TaskFile.Load` | main.go:19-36 | no file gives the empty list, and every loaded task is non-empty and newline-free |
| `TaskFile.SaveTasks` | main.go:57-65 | the write loop produces exactly `Serialize(tasks)` |
| `TaskFile.LoadTasks` | main.go:15-45 | the read loop returns the non-empty lines in order; no file gives the empty list |
| `TaskList.AddTask` | main.go:84-86 | the list grows by one, the earlier tasks are unchanged, and the last task is the new line |
| `TaskList.MarkOutcome` | main.go:113-129 | the checks of `markTask`: a conversion error exactly when the id does not parse, AlreadyDone exactly when the id is in range and the task is done, and `Ok` exactly when it is in range and not done |
| `TaskList.MarkTask` | main.go:111-132 | the length is kept and no index other than `id` changes. If the id does not parse, is out of range or names a done task, the list is unchanged; otherwise task `id` gets its first `" [Pending]"` rewritten |
| `TaskList.DeleteOutcome` | main.go:150-160 | the checks of `deleteTask`: a conversion error exactly when the id does not parse, `Ok` exactly when it is in range, and never AlreadyDone |
| `TaskList.DeleteTask` | main.go:148-163 | an id that does not parse or is out of range leaves the list unchanged. Otherwise the length drops by one, the tasks before `id` stay, the later ones move down by one in order, and the multiset loses exactly the task at `id` |
| `TaskList.MarkIdempotent` | main.go:126-132 | marking twice at the same id gives the same list as marking once; after a real rewrite the second mark reports AlreadyDone |
| `TaskList.MarkKeepsDone` | main.go:126-132 | no task goes back from Done: a done task is still done after any mark |
| `TaskList.DeleteUndoesAdd` | main.go:163 | deleting the task just added gives back the list before the add |
| `TaskList.AppendThenMark` | main.go:84-132 | a task line made of marker-free text plus `" - [Pending]"` is not done when appended; marking it succeeds and gives that text plus `" - [Done]"`, which is done, with the earlier tasks untouched |
| `TaskList.AddThenMark` | main.go:84-132 | a task added with marker-free fields is not done; marking it succeeds and leaves it ending in `" - [Done]"` and done, with the earlier tasks untouched |
| `TaskList.AddThenMarkDone` | main.go:84-132 | whatever its name and description, a freshly added task is done after it is marked |
| `TaskList.DeleteExample` | main_test.go:76-108 | deleting index 1 of the three test tasks leaves tasks 1 and 3 |
| `TaskList.MarkTaskWellFormed` | main.go:132 | marking keeps every task non-empty and newline-free |
| `TaskList.TaskStore.constructor` | main.go:15-45 | at startup the list is what loading the file gives, and the store invariant holds |
| `TaskList.TaskStore.Save` | main.go:48-69 | the file is rewritten as `Serialize` of the list, and the list is unchanged |
| `TaskList.TaskStore.Add` | main.go:72-92 | the list becomes `AddTask` of the old list, the file is rewritten from it, and loading the file gives the list back |
| `TaskList.TaskStore.Mark` | main.go:106-140 | the list becomes `MarkTask` of the old list and the outcome is the branch taken. The file is rewritten only on `Ok` and otherwise untouched; the invariant is kept |
| `TaskList.TaskStore.Delete` | main.go:143-171 | the list becomes `DeleteTask` of the old list and the outcome is the branch taken. The file is rewritten only on `Ok` and otherwise untouched; the invariant is kept |

## Left out

- Terminal input and output are not modelled. This covers the prompts, the
  `ReadString` calls and every `fmt` message: main.go:74-80, 97-102, 108-110 and
  113-128 for marking, and 145-147 and 150-159 for deleting. The outcome datatype
  stands for which message is printed, and the input lines are parameters.
- `listTasks` (main.go:95-103) only prints the list, so it is not modelled. The
  same goes for its calls after a mark or a delete (main.go:137, 168).
- The recursive command loop `run`, `helpMenu` and `main` (main.go:174-219) are
  not modelled. `TaskStore`'s constructor stands for the startup load.
- File system calls and their failures are not modelled: `os.Open`, `os.Create`,
  `bufio.Writer` write and flush errors, `file.Close`, and `scanner.Err`.
  - In the model, saving always succeeds and replaces the whole file. The case of
    a save that fails partway is not covered.
  - When the file cannot be opened, for any reason, the model receives `None`,
    and loading gives the empty list.
- The `bufio.Scanner` line splitter is modelled as a split on `"\n"`. Its removal
  of a `"\r"` before the newline is not modelled, so files are assumed to have no
  carriage returns. Its 64 KiB line limit is not modelled either.
- `strconv.Atoi` is not modelled: the id arrives as `Option<int>`. `None` covers
  both malformed numbers and numbers outside the 64-bit range.
- Strings are sequences of Unicode characters, not UTF-8 bytes. `TrimSpace` on
  invalid UTF-8 is not modelled.
- Slice aliasing is not modelled. `markTask` writes into the caller's backing
  array, and `deleteTask`'s `append` shifts it in place. The callers only use the
  returned slice, so the model replaces the `tasks` field with the new value.
- `TaskList.TaskStore.Add` requires that its two arguments are input lines, i.e.
  a newline can appear only as their last character. `ReadString('\n')` always
  returns such a line. The code never checks this itself.
