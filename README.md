# ToDoApp task list, modelled in Dafny

The ToDoApp program keeps an ordered list of tasks. A task has a name, a
completion flag, and a snake_case slug of its name. The list can be changed
from a console loop (`a`, `c`, `r`, `q`) and from a Swing window (Add, Complete,
Remove and Save buttons). It is loaded at start-up from the text file
`tasks.txt` and written back on quit or on Save. Each line of the file is
`<name>;<true|false>`.

The model has five modules:

- `Wrappers` (wrappers.dfy): the `Option` datatype. It stands for a cancelled
  dialog and for a missing tasks file.
- `JavaText` (java_text.dfy): the `java.lang.String` and `Boolean` behaviour the
  program relies on. That is `toLowerCase`, `equalsIgnoreCase`, `trim`,
  `replaceAll` of one character, `split` on one character with Java's
  limit-0 rule (trailing empty fields dropped, leading ones kept) and
  `Boolean.parseBoolean`.
- `Tasks` (task.dfy): the `Task` class. It has the fields `name`, `fileName`
  and `completed`, the invariant that `fileName` is always the slug of `name`,
  and the display string used by the console listing.
- `TaskFile` (task_file.dfy): the line format of the tasks file, as pure
  functions.
  - The encoding of one task and of a whole list.
  - The decoding of one line, which skips a line that does not split into
    at least two fields.
  - The text level: lines written with `println` and read back with
    `BufferedReader.readLine`.
  - The round-trip lemmas.
- `TodoApps` (todo_app.dfy): the `TodoApp` class.
  - Its fields are the task list `tasks` and the window's `listModel`, plus
    two ghost fields: `Contents`, the name and flag of every task in order,
    and `Repr`, the objects the application owns.
  - Every operation is a method proved against the pure functions of
    `TaskFile` and against `Completed` and `Removed`.
  - `Valid()` holds after every operation. It says `Contents` matches the
    task objects, every slug is current, and no task object is listed twice.

The model follows the code in these places:

- Adding a task returns nothing.
- Completing or removing a task at an index outside the list does nothing.
- The console's add accepts any name, the empty name included. Only the
  window's add trims the name and rejects a blank one.
- No lock guards the list.
- The save/load round trip holds for every name without `;`, the empty name
  included, because `";false"` splits into `["", "false"]`.

## Model

| member | source | states |
|---|---|---|
| JavaText.LowerChar | src/todoapp/Task.java:23 | the lower-cased character is never an upper-case letter; 'A'..'Z' move up by 32 and every other character is unchanged |
| JavaText.ToLowerCase | src/todoapp/Task.java:23 | `toLowerCase` keeps the length; with ToLowerCaseAt, every character is lower-cased in place |
| JavaText.ToLowerCaseAt | src/todoapp/Task.java:23 | `toLowerCase` keeps the length and lower-cases every character in place |
| JavaText.ReplaceChar | src/todoapp/Task.java:23 | `replaceAll` of one character keeps the length; with ReplaceCharAt, exactly the matching characters are replaced |
| JavaText.ReplaceCharAt | src/todoapp/Task.java:23 | `replaceAll(" ", "_")` turns exactly the spaces into '_' and keeps every other character |
| JavaText.EqualsIgnoreCase | src/todoapp/TodoApp.java:151 | `equalsIgnoreCase` holds exactly when the two strings are equal once both are lower-cased |
| JavaText.LowerCaseEqual | src/todoapp/TodoApp.java:151 | comparing lengths and then characters after lower-casing is the same as comparing the lower-cased strings |
| JavaText.ParseBoolean | src/todoapp/TodoApp.java:191 | `parseBoolean` is true exactly when the text lower-cases to "true", so only for four-character texts |
| JavaText.ParseBooleanOfLiterals | src/todoapp/TodoApp.java:191 | "true" in any case parses as true; "false", "" and "yes" parse as false |
| JavaText.TrimStartIndex | src/todoapp/TodoApp.java:93-94 | the forward scan of `trim` stops at the first character above U+0020 and skips only characters at most U+0020 |
| JavaText.TrimEndIndex | src/todoapp/TodoApp.java:93-94 | the backward scan of `trim` stops after the last character above U+0020, never passes the start, and skips only characters at most U+0020 |
| JavaText.Trim | src/todoapp/TodoApp.java:93-94 | `trim` returns a slice of its input with everything cut off at most U+0020 and both ends above U+0020; it is empty exactly when every character is at most U+0020 |
| JavaText.TrimIdempotent | src/todoapp/TodoApp.java:93-94 | trimming a trimmed name changes nothing |
| JavaText.Fields | src/todoapp/TodoApp.java:188 | there is at least one field and no field holds the delimiter |
| JavaText.JoinFields | src/todoapp/TodoApp.java:188 | the fields a line is cut into, rejoined with the delimiter, give back the line |
| JavaText.DropTrailingEmpty | src/todoapp/TodoApp.java:188 | limit-0 `split` keeps a prefix of the fields whose last element is non-empty, and drops only empty fields |
| JavaText.Split | src/todoapp/TodoApp.java:188 | no field of `split` holds the delimiter; text without the delimiter is its own only field; otherwise the last field kept is non-empty (with Fields, JoinFields and DropTrailingEmpty, the result is the fields up to the last non-empty one) |
| JavaText.SplitTwo | src/todoapp/TodoApp.java:188 | `a;b`, with no delimiter in a or b and b non-empty, splits into exactly [a, b] |
| JavaText.SplitThree | src/todoapp/TodoApp.java:188 | `a;b;c`, with no delimiter in a, b or c and c non-empty, splits into exactly [a, b, c] |
| JavaText.SplitEdgeCases | src/todoapp/TodoApp.java:188 | `x;` splits into [x] because the trailing empty field is dropped; `;x` splits into ["", x] because the leading one is kept |
| Tasks.ToSnakeCase | src/todoapp/Task.java:22-24 | the slug has the name's length |
| Tasks.ToSnakeCaseAt | src/todoapp/Task.java:22-24 | each slug character is '_' where the name has a space, otherwise the lower-cased name character |
| Tasks.ToSnakeCaseNormal | src/todoapp/Task.java:22-24 | a slug holds no space and no upper-case letter |
| Tasks.ToSnakeCaseUnderscores | src/todoapp/Task.java:22-24 | the slug has '_' exactly where the name has a space or an underscore |
| Tasks.ToSnakeCaseFixed | src/todoapp/Task.java:22-24 | a name with no space and no upper-case letter is its own slug |
| Tasks.ToSnakeCaseIdempotent | src/todoapp/Task.java:22-24 | the slug of a slug is the slug |
| Tasks.Display | src/todoapp/Task.java:55-57 | the display string is four characters longer than the name, starts with the status marker and ends with the name |
| Tasks.DisplayInjective | src/todoapp/Task.java:55-57 | two tasks display the same exactly when they have the same name and the same status |
| Tasks.Task.constructor | src/todoapp/Task.java:14-17 | a new task has the given name, is not completed, and its slug is current |
| Tasks.Task.SetName | src/todoapp/Task.java:31-34 | renaming recomputes the slug and leaves the completion flag alone |
| Tasks.Task.SetCompleted | src/todoapp/Task.java:44-46 | sets the flag and leaves the name and slug alone |
| Tasks.Task.ToString | src/todoapp/Task.java:54-57 | the task shows as its four-character status marker followed by its name |
| TaskFile.FlagText | src/todoapp/TodoApp.java:206 | the text a flag is saved as parses back to the same flag |
| TaskFile.EncodeLine | src/todoapp/TodoApp.java:206 | a saved line is longer than the name and has ';' right after it; LineRoundTrip is its inverse |
| TaskFile.EncodeLineParts | src/todoapp/TodoApp.java:206 | a saved line is the name, then ';', then text that is "true" exactly when the task is completed |
| TaskFile.EncodeLineTerminators | src/todoapp/TodoApp.java:206 | a saved line holds '\n' or '\r' only when the name does |
| TaskFile.EncodeAll | src/todoapp/TodoApp.java:205-206 | a save writes exactly one line per task |
| TaskFile.EncodeAllPrefix | src/todoapp/TodoApp.java:205-206 | saving one more task appends exactly that task's line |
| TaskFile.EncodeAllAt | src/todoapp/TodoApp.java:205-206 | the i-th saved line is the line of the i-th task |
| TaskFile.DecodeLine | src/todoapp/TodoApp.java:188-191 | a line without ';' is skipped; a line that loads holds a ';' and the loaded name holds none; LineRoundTrip makes it the inverse of EncodeLine |
| TaskFile.LineRecords | src/todoapp/TodoApp.java:188-193 | a line adds at most one task |
| TaskFile.DecodeAll | src/todoapp/TodoApp.java:187-194 | loading never yields more tasks than lines |
| TaskFile.DecodeAllPrefix | src/todoapp/TodoApp.java:187-194 | reading one more line appends exactly that line's task, if any, to those already loaded |
| TaskFile.DecodeAllSnoc | src/todoapp/TodoApp.java:187-194 | a file with one more line at the end loads the same tasks followed by that line's task, if any |
| TaskFile.DecodeAllPair | src/todoapp/TodoApp.java:187-194 | a two-line file loads the first line's task, if any, then the second's |
| TaskFile.Load | src/todoapp/TodoApp.java:182-183 | a missing file loads no tasks |
| TaskFile.LineRoundTrip | src/todoapp/TodoApp.java:188-191 | a saved line whose name has no ';' loads back as the same name and flag |
| TaskFile.RoundTrip | src/todoapp/TodoApp.java:181-212 | loading the lines of a save gives back every task, in order, when no name holds ';' |
| TaskFile.LineEdgeCases | src/todoapp/TodoApp.java:188-191 | `x;` is skipped, and `;x` loads a task with an empty name and flag parseBoolean(x) |
| TaskFile.SeparatorInNameIsLost | src/todoapp/TodoApp.java:188-191 | a task named `a;b` (a and b without ';') loads back named `a`, and its flag is parseBoolean(b), whatever the saved flag was |
| TaskFile.MalformedLineSkipped | src/todoapp/TodoApp.java:187-194 | a saved line followed by any line without ';' loads exactly the saved task |
| TaskFile.WriteText | src/todoapp/TodoApp.java:204-206 | `println` ends every line with "\n", so the text is at least as long as the number of lines and a non-empty save ends with "\n"; ReadWriteText is its inverse |
| TaskFile.LineEnd | src/todoapp/TodoApp.java:187 | `readLine` ends a line at its first '\n' or '\r', or at the end of the text |
| TaskFile.ReadLines | src/todoapp/TodoApp.java:185-187 | no line returned by `readLine` holds a line terminator |
| TaskFile.ReadWriteText | src/todoapp/TodoApp.java:204-206 | reading back what `println` wrote gives the same lines when none holds '\n' or '\r' |
| TaskFile.SaveLoadRoundTrip | src/todoapp/TodoApp.java:181-212 | saving to text and loading it back gives every task, in order, when no name holds ';', '\n' or '\r' |
| TodoApps.ParseCommand | src/todoapp/TodoApp.java:150-170 | only a one-character input is a command; ParseCommandLetters gives the exact letters |
| TodoApps.EqualsIgnoreCaseLetter | src/todoapp/TodoApp.java:151 | a string equals a letter ignoring case exactly when it is that letter in lower or upper case |
| TodoApps.ParseCommandLetters | src/todoapp/TodoApp.java:150-174 | the console adds, completes, removes or quits exactly on "a"/"A", "c"/"C", "r"/"R", "q"/"Q" |
| TodoApps.Completed | src/todoapp/TodoApp.java:159-160 | completing task i sets its flag, keeps its name and leaves every other task unchanged |
| TodoApps.Removed | src/todoapp/TodoApp.java:166-167 | removing task i keeps the tasks before it and moves each later task down by one |
| TodoApps.TodoApp.constructor | src/todoapp/TodoApp.java:31-46 | the new application holds exactly the tasks the file loads; the window's list shows them unless headless |
| TodoApps.TodoApp.Start | src/todoapp/TodoApp.java:35-42 | appends the loaded tasks, then the list model shows them unless headless |
| TodoApps.TodoApp.LoadTasks | src/todoapp/TodoApp.java:181-198 | appends the tasks of every line that parses, in file order; a missing file adds nothing |
| TodoApps.TodoApp.LoadLine | src/todoapp/TodoApp.java:188-193 | one line adds the task it decodes to, or nothing |
| TodoApps.TodoApp.Append | src/todoapp/TodoApp.java:192 | `tasks.add`: the new task object goes at the end, its name and flag are appended to the contents, and the invariant holds |
| TodoApps.TodoApp.SaveTasks | src/todoapp/TodoApp.java:203-212 | the saved lines are the encoding of every task, in list order, and nothing changes |
| TodoApps.TodoApp.RefreshTaskList | src/todoapp/TodoApp.java:131-136 | afterwards the list model holds exactly the tasks, in order |
| TodoApps.TodoApp.AddTask | src/todoapp/TodoApp.java:151-155 | appends an uncompleted task with the name as typed, and the list model shows it |
| TodoApps.TodoApp.AddTaskGUI | src/todoapp/TodoApp.java:91-98 | appends an uncompleted task with the trimmed name, unless the dialog was cancelled or the trimmed name is empty, in which case nothing changes |
| TodoApps.TodoApp.CompleteTask | src/todoapp/TodoApp.java:156-162 | marks task idx completed and changes nothing else; an index out of range changes nothing |
| TodoApps.TodoApp.CompleteTaskGUI | src/todoapp/TodoApp.java:103-109 | marks the selected task completed; with no selection nothing changes |
| TodoApps.TodoApp.RemoveTask | src/todoapp/TodoApp.java:163-169 | removes task idx and keeps the others in order; an index out of range changes nothing |
| TodoApps.TodoApp.RemoveTaskGUI | src/todoapp/TodoApp.java:114-126 | removes the selected task only when the user confirms; otherwise nothing changes |
| TodoApps.TodoApp.ConsoleStep | src/todoapp/TodoApp.java:150-174 | one console command: a/c/r change the tasks as above and refresh the list model (c and r only for an index in range); q saves every task and exits; anything else changes neither the tasks nor the list model |
| TodoApps.TodoApp.RunCommand | src/todoapp/TodoApp.java:151-173 | the branch the recognised command selects, with the same effect on the tasks, the list model, the saved lines and the exit flag |
| TodoApps.SaveAndReload | src/todoapp/TodoApp.java:181-212 | an application started from the lines another one saved holds the same tasks, when no name holds ';' |

## Left out

- The console thread and concurrency. The constructor starts `consoleLoop` on a
  thread of its own, and the console and the Swing event thread share the
  unsynchronised task list. The model runs one operation at a time.
- The Swing window. `initGUI` builds the frame, buttons and `TaskRenderer`;
  the model keeps only its `refreshTaskList` call. The input dialog is an
  `Option<string>` parameter (None when cancelled). The confirm dialog is a
  `bool`. The list selection is an `int` index, -1 for no selection.
- TodoApps.TodoApp.CompleteTaskGUI: requires the selection to lie inside the
  list, which a `JList` selection always does; a stale index is not modelled.
- TodoApps.TodoApp.RemoveTaskGUI: requires the selection to lie inside the
  list, for the same reason.
- Console input and output. `Scanner.nextLine` becomes the parameters of
  `ConsoleStep`. The menu, the numbered listing, "Task name:", "Tasks saved!"
  and "Goodbye!" are not modelled. `System.exit(0)` becomes the `exit` result.
- `Integer.parseInt` and the `NumberFormatException` it throws on a
  non-number, which ends the console thread. The model takes the already
  parsed index.
- File access. `File.exists`, `FileReader`, `FileWriter` and the printed
  `IOException` messages are not modelled. The tasks file is an
  `Option<seq<string>>` of lines (None when the file is missing), or a string
  at the text level. Saving returns the lines instead of writing them, and a
  failed write is not modelled.
- TaskFile.WriteText: uses "\n" as the line separator; the platform's
  `line.separator` is not modelled.
- Unicode case mapping. `toLowerCase` and `equalsIgnoreCase` are modelled for
  ASCII letters only, with no locale.
- Tasks.ToSnakeCase: states the same length as the name, which holds for ASCII
  case mapping; Java's full Unicode `toLowerCase` can change the length of a
  few characters (U+0130).
- The getters `getName`, `getFile_name` and `isCompleted`. They are read as
  the fields `name`, `fileName` and `completed`.
- The parameterless constructor `TodoApp()`. It is `TodoApp(false)`.
- The `Main.java` launcher and the `TaskRenderer` colours. They are not part
  of this model.
- `String.split` and `replaceAll` take a regular expression. Only the single
  plain characters the program passes (";" and " ") are modelled.
