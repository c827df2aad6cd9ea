/**
 * The application object: the list of tasks in insertion (= display) order,
 * the list model the window shows, and the operations of the console loop and
 * of the window's buttons that change the list, refresh the view, load and
 * save the tasks file.
 */
module TodoApps {
  import opened Wrappers
  import opened JavaText
  import opened Tasks
  import opened TaskFile

  /** The console loop's commands, typed as one letter in either case. */
  datatype Command = Add | Complete | Remove | Quit | Unknown

  function ParseCommand(input: string): (cmd: Command)
    ensures cmd != Unknown ==> |input| == 1
  {
    if EqualsIgnoreCase(input, "a") then Add
    else if EqualsIgnoreCase(input, "c") then Complete
    else if EqualsIgnoreCase(input, "r") then Remove
    else if EqualsIgnoreCase(input, "q") then Quit
    else Unknown
  }

  /** A string equals a lower-case letter ignoring case exactly when it is that letter in either case. */
  lemma EqualsIgnoreCaseLetter(input: string, letter: char)
    requires 'a' <= letter <= 'z'
    ensures EqualsIgnoreCase(input, [letter])
        <==> input == [letter] || input == [(letter as int - 32) as char]
  {
    if EqualsIgnoreCase(input, [letter]) {
      assert LowerChar(input[0]) == letter;
      if IsUpperAscii(input[0]) {
        assert input == [(letter as int - 32) as char];
      } else {
        assert input == [letter];
      }
    }
  }

  lemma ParseCommandLetters(input: string)
    ensures ParseCommand(input) == Add <==> input == "a" || input == "A"
    ensures ParseCommand(input) == Complete <==> input == "c" || input == "C"
    ensures ParseCommand(input) == Remove <==> input == "r" || input == "R"
    ensures ParseCommand(input) == Quit <==> input == "q" || input == "Q"
  {
    EqualsIgnoreCaseLetter(input, 'a');
    EqualsIgnoreCaseLetter(input, 'c');
    EqualsIgnoreCaseLetter(input, 'r');
    EqualsIgnoreCaseLetter(input, 'q');
  }

  /** The records after the i-th task is marked completed. */
  function Completed(rs: seq<TaskRecord>, i: nat): (r: seq<TaskRecord>)
    requires i < |rs|
    ensures |r| == |rs| && r[i] == TaskRecord(rs[i].name, true)
    ensures forall j :: 0 <= j < |rs| && j != i ==> r[j] == rs[j]
  {
    rs[i := TaskRecord(rs[i].name, true)]
  }

  /** The records with the i-th one taken out, the later ones moved down by one. */
  function Removed(rs: seq<TaskRecord>, i: nat): (r: seq<TaskRecord>)
    requires i < |rs|
    ensures |r| == |rs| - 1
    ensures forall j :: 0 <= j < i ==> r[j] == rs[j]
    ensures forall j :: i <= j < |r| ==> r[j] == rs[j + 1]
  {
    rs[..i] + rs[i + 1..]
  }

  class TodoApp {
    var tasks: seq<Task>
    var listModel: seq<Task>
    const headless: bool

    /** The names and flags of the tasks, in list order. */
    ghost var Contents: seq<TaskRecord>
    /** The objects the application owns: itself and every task it has created. */
    ghost var Repr: set<object>

    /**
     * Contents is what the task objects hold, every task's slug is current,
     * and no task object is listed twice.
     */
    ghost predicate Valid()
      reads this, Repr
    {
      && this in Repr
      && |Contents| == |tasks|
      && (forall i :: 0 <= i < |tasks| ==>
            tasks[i] in Repr && tasks[i].Valid() && tasks[i].View() == Contents[i])
      && (forall i, j :: 0 <= i < j < |tasks| ==> tasks[i] != tasks[j])
    }

    /** Loads the tasks file; the window, when there is one, shows the loaded list. */
    constructor (headless: bool, file: Option<seq<string>>)
      ensures Valid() && fresh(Repr)
      ensures Contents == Load(file)
      ensures this.headless == headless
      ensures listModel == if headless then [] else tasks
    {
      this.headless := headless;
      tasks, listModel := [], [];
      Contents, Repr := [], {this};
      new;
      Start(file);
    }

    /** What the constructor does once the fields exist: load the file, then show the list unless headless. */
    method Start(file: Option<seq<string>>)
      requires Valid()
      modifies this`tasks, this`listModel, this`Contents, this`Repr
      ensures Valid() && fresh(Repr - old(Repr))
      ensures Contents == old(Contents) + Load(file)
      ensures listModel == if headless then old(listModel) else tasks
    {
      LoadTasks(file);
      if !headless {
        RefreshTaskList();
      }
    }

    /** Appends the record of every line that parses; an absent file adds nothing. */
    method LoadTasks(file: Option<seq<string>>)
      requires Valid()
      modifies this`tasks, this`Contents, this`Repr
      ensures Valid() && fresh(Repr - old(Repr))
      ensures Contents == old(Contents) + Load(file)
    {
      if file.None? {
        return;
      }
      var lines := file.value;
      var k := 0;
      while k < |lines|
        invariant 0 <= k <= |lines|
        invariant Valid() && fresh(Repr - old(Repr))
        invariant Contents == old(Contents) + DecodeAll(lines[..k])
      {
        DecodeAllPrefix(lines, k);
        LoadLine(lines[k]);
        k := k + 1;
      }
      assert lines[..k] == lines;
    }

    /** One turn of the read loop: split the line on ';' and keep it when it has two fields. */
    method LoadLine(line: string)
      requires Valid()
      modifies this`tasks, this`Contents, this`Repr
      ensures Valid() && fresh(Repr - old(Repr))
      ensures Contents == old(Contents) + LineRecords(line)
    {
      var parts := Split(line, Separator);
      if |parts| >= 2 {
        var t := new Task(parts[0]);
        t.SetCompleted(ParseBoolean(parts[1]));
        Append(t);
      }
    }

    /** tasks.add: a task object the application does not hold yet goes at the end of the list. */
    method Append(t: Task)
      requires Valid() && t.Valid() && t !in Repr
      modifies this`tasks, this`Contents, this`Repr
      ensures Valid() && Repr == old(Repr) + {t}
      ensures tasks == old(tasks) + [t]
      ensures Contents == old(Contents) + [t.View()]
    {
      tasks := tasks + [t];
      Contents := Contents + [t.View()];
      Repr := Repr + {t};
    }

    /** The lines written to the tasks file: one per task, in list order. */
    method SaveTasks() returns (lines: seq<string>)
      requires Valid()
      ensures lines == EncodeAll(Contents)
    {
      lines := [];
      for i := 0 to |tasks|
        invariant lines == EncodeAll(Contents[..i])
      {
        var t := tasks[i];
        EncodeAllPrefix(Contents, i);
        lines := lines + [t.name + [Separator] + FlagText(t.completed)];
      }
      assert Contents[..|tasks|] == Contents;
    }

    /** Clears the list model and copies the tasks into it. */
    method RefreshTaskList()
      requires Valid()
      modifies this`listModel
      ensures Valid()
      ensures listModel == tasks
    {
      listModel := [];
      for i := 0 to |tasks|
        invariant listModel == tasks[..i]
      {
        listModel := listModel + [tasks[i]];
      }
    }

    /** The console's add: the raw name, not completed, at the end. */
    method AddTask(name: string)
      requires Valid()
      modifies this`tasks, this`listModel, this`Contents, this`Repr
      ensures Valid() && fresh(Repr - old(Repr))
      ensures Contents == old(Contents) + [TaskRecord(name, false)]
      ensures listModel == tasks
    {
      var t := new Task(name);
      Append(t);
      RefreshTaskList();
    }

    /**
     * The window's add: the dialog's text (None when cancelled) is trimmed,
     * and a name that is empty after trimming adds nothing.
     */
    method AddTaskGUI(input: Option<string>)
      requires Valid()
      modifies this`tasks, this`listModel, this`Contents, this`Repr
      ensures Valid() && fresh(Repr - old(Repr))
      ensures Contents == if input.Some? && Trim(input.value) != ""
        then old(Contents) + [TaskRecord(Trim(input.value), false)]
        else old(Contents)
      ensures listModel == if input.Some? && Trim(input.value) != "" then tasks else old(listModel)
    {
      if input.Some? && Trim(input.value) != "" {
        var t := new Task(Trim(input.value));
        Append(t);
        RefreshTaskList();
      }
    }

    /** The console's complete: marks task idx done, or does nothing when idx is out of range. */
    method CompleteTask(idx: int)
      requires Valid()
      modifies this`listModel, this`Contents, tasks
      ensures Valid() && Repr == old(Repr) && tasks == old(tasks)
      ensures Contents == if 0 <= idx < |tasks| then Completed(old(Contents), idx) else old(Contents)
      ensures listModel == if 0 <= idx < |tasks| then tasks else old(listModel)
    {
      if idx >= 0 && idx < |tasks| {
        tasks[idx].SetCompleted(true);
        Contents := Contents[idx := TaskRecord(Contents[idx].name, true)];
        RefreshTaskList();
      }
    }

    /** The window's complete: index is the list selection, -1 when nothing is selected. */
    method CompleteTaskGUI(index: int)
      requires Valid()
      requires index < |tasks|
      modifies this`listModel, this`Contents, tasks
      ensures Valid() && Repr == old(Repr) && tasks == old(tasks)
      ensures Contents == if index >= 0 then Completed(old(Contents), index) else old(Contents)
      ensures listModel == if index >= 0 then tasks else old(listModel)
    {
      if index >= 0 {
        tasks[index].SetCompleted(true);
        Contents := Contents[index := TaskRecord(Contents[index].name, true)];
        RefreshTaskList();
      }
    }

    /** The console's remove: drops task idx, or does nothing when idx is out of range. */
    method RemoveTask(idx: int)
      requires Valid()
      modifies this`tasks, this`listModel, this`Contents
      ensures Valid() && Repr == old(Repr)
      ensures Contents == if 0 <= idx < |old(tasks)| then Removed(old(Contents), idx) else old(Contents)
      ensures listModel == if 0 <= idx < |old(tasks)| then tasks else old(listModel)
    {
      if idx >= 0 && idx < |tasks| {
        tasks := tasks[..idx] + tasks[idx + 1..];
        Contents := Contents[..idx] + Contents[idx + 1..];
        RefreshTaskList();
      }
    }

    /** The window's remove: only for a selected task, and only once the user confirms. */
    method RemoveTaskGUI(index: int, confirmed: bool)
      requires Valid()
      requires index < |tasks|
      modifies this`tasks, this`listModel, this`Contents
      ensures Valid() && Repr == old(Repr)
      ensures Contents == if index >= 0 && confirmed then Removed(old(Contents), index) else old(Contents)
      ensures listModel == if index >= 0 && confirmed then tasks else old(listModel)
    {
      if index >= 0 {
        if confirmed {
          tasks := tasks[..index] + tasks[index + 1..];
          Contents := Contents[..index] + Contents[index + 1..];
          RefreshTaskList();
        }
      }
    }

    /**
     * One round of the console loop: input is the command line, name the
     * line read after 'a', idx the number read after 'c' or 'r'. Quitting
     * returns the saved lines and asks the process to exit.
     */
    method ConsoleStep(input: string, name: string, idx: int) returns (saved: Option<seq<string>>, exit: bool)
      requires Valid()
      modifies this`tasks, this`listModel, this`Contents, this`Repr, tasks
      ensures Valid() && fresh(Repr - old(Repr))
      ensures exit <==> ParseCommand(input) == Quit
      ensures saved == if exit then Some(EncodeAll(old(Contents))) else None
      ensures Contents == match ParseCommand(input)
        case Add => old(Contents) + [TaskRecord(name, false)]
        case Complete => if 0 <= idx < |old(tasks)| then Completed(old(Contents), idx) else old(Contents)
        case Remove => if 0 <= idx < |old(tasks)| then Removed(old(Contents), idx) else old(Contents)
        case _ => old(Contents)
      ensures listModel == match ParseCommand(input)
        case Add => tasks
        case Complete | Remove => if 0 <= idx < |old(tasks)| then tasks else old(listModel)
        case _ => old(listModel)
    {
      saved, exit := RunCommand(ParseCommand(input), name, idx);
    }

    /** The branch of the console loop that a recognised command selects. */
    method RunCommand(cmd: Command, name: string, idx: int) returns (saved: Option<seq<string>>, exit: bool)
      requires Valid()
      modifies this`tasks, this`listModel, this`Contents, this`Repr, tasks
      ensures Valid() && fresh(Repr - old(Repr))
      ensures exit <==> cmd == Quit
      ensures saved == if exit then Some(EncodeAll(old(Contents))) else None
      ensures Contents == match cmd
        case Add => old(Contents) + [TaskRecord(name, false)]
        case Complete => if 0 <= idx < |old(tasks)| then Completed(old(Contents), idx) else old(Contents)
        case Remove => if 0 <= idx < |old(tasks)| then Removed(old(Contents), idx) else old(Contents)
        case _ => old(Contents)
      ensures listModel == match cmd
        case Add => tasks
        case Complete | Remove => if 0 <= idx < |old(tasks)| then tasks else old(listModel)
        case _ => old(listModel)
    {
      saved, exit := None, false;
      match cmd
      case Add =>
        AddTask(name);
      case Complete =>
        CompleteTask(idx);
      case Remove =>
        RemoveTask(idx);
      case Quit =>
        var lines := SaveTasks();
        saved, exit := Some(lines), true;
      case Unknown =>
    }
  }

  /** Saving an application's tasks and starting a new one from those lines gives back the same tasks. */
  method SaveAndReload(app: TodoApp) returns (reloaded: TodoApp)
    requires app.Valid()
    requires forall i :: 0 <= i < |app.Contents| ==> Separator !in app.Contents[i].name
    ensures reloaded.Valid() && reloaded.Contents == app.Contents
  {
    var lines := app.SaveTasks();
    RoundTrip(app.Contents);
    reloaded := new TodoApp(true, Some(lines));
  }

  /** The worked example with any two names: add both, complete the first, then remove it. */
  method ExampleSession(first: string, second: string)
  {
    var app := new TodoApp(true, None);
    app.AddTask(first);
    app.AddTask(second);
    var a, b := TaskRecord(first, false), TaskRecord(second, false);
    assert app.Contents == [a, b];
    app.CompleteTask(0);
    assert app.Contents == [a.(completed := true), b];
    app.RemoveTask(0);
    assert app.Contents == [b];
  }
}
