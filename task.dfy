/**
 * A to-do item: its name, whether it is completed, and a snake_case form of
 * the name that is recomputed whenever the name changes.
 */
module Tasks {
  import opened JavaText

  /** What a task holds apart from its derived slug: the value that is saved and listed. */
  datatype TaskRecord = TaskRecord(name: string, completed: bool)

  /** Lower-cases the name, then turns every space into '_'. */
  function ToSnakeCase(s: string): (r: string)
    ensures |r| == |s|
  {
    ReplaceChar(ToLowerCase(s), ' ', '_')
  }

  /** The character the slug holds at a position of the name. */
  function SnakeChar(c: char): char
  {
    if c == ' ' then '_' else LowerChar(c)
  }

  lemma ToSnakeCaseAt(s: string, i: nat)
    requires i < |s|
    ensures ToSnakeCase(s)[i] == SnakeChar(s[i])
  {
    ToLowerCaseAt(s, i);
    ReplaceCharAt(ToLowerCase(s), ' ', '_', i);
  }

  /** The slug holds no space and no upper-case letter. */
  lemma ToSnakeCaseNormal(s: string)
    ensures forall i :: 0 <= i < |s| ==> ToSnakeCase(s)[i] != ' ' && !IsUpperAscii(ToSnakeCase(s)[i])
  {
    forall i | 0 <= i < |s|
      ensures ToSnakeCase(s)[i] != ' ' && !IsUpperAscii(ToSnakeCase(s)[i])
    {
      ToSnakeCaseAt(s, i);
    }
  }

  /** '_' appears in the slug exactly where the name has a space or an underscore. */
  lemma ToSnakeCaseUnderscores(s: string, i: nat)
    requires i < |s|
    ensures ToSnakeCase(s)[i] == '_' <==> s[i] == ' ' || s[i] == '_'
  {
    ToSnakeCaseAt(s, i);
  }

  /** A name that already has no space and no upper-case letter is its own slug. */
  lemma ToSnakeCaseFixed(s: string)
    requires forall i :: 0 <= i < |s| ==> s[i] != ' ' && !IsUpperAscii(s[i])
    ensures ToSnakeCase(s) == s
  {
    forall i | 0 <= i < |s|
      ensures ToSnakeCase(s)[i] == s[i]
    {
      ToSnakeCaseAt(s, i);
    }
  }

  lemma ToSnakeCaseIdempotent(s: string)
    ensures ToSnakeCase(ToSnakeCase(s)) == ToSnakeCase(s)
  {
    ToSnakeCaseNormal(s);
    ToSnakeCaseFixed(ToSnakeCase(s));
  }

  /** The status marker of the console listing: a check mark or a cross in brackets. */
  function Marker(completed: bool): string
  {
    if completed then "[\U{2713}] " else "[\U{2717}] "
  }

  /** The display string of a task: its status marker followed by its name. */
  function Display(name: string, completed: bool): (r: string)
    ensures |r| == |name| + 4
    ensures r[..4] == Marker(completed) && r[4..] == name
  {
    Marker(completed) + name
  }

  /** Distinct tasks display differently: the string determines both name and status. */
  lemma DisplayInjective(n1: string, c1: bool, n2: string, c2: bool)
    ensures Display(n1, c1) == Display(n2, c2) <==> n1 == n2 && c1 == c2
  {
    if Display(n1, c1) == Display(n2, c2) {
      assert Display(n1, c1)[1] == Display(n2, c2)[1];
      assert n1 == Display(n1, c1)[4..];
    }
  }

  class Task {
    var name: string
    var fileName: string
    var completed: bool

    /** The slug is never stale. */
    ghost predicate Valid()
      reads this
    {
      fileName == ToSnakeCase(name)
    }

    /** The task as a value: what getName and isCompleted return. */
    function View(): TaskRecord
      reads this
    {
      TaskRecord(name, completed)
    }

    constructor (taskName: string)
      ensures Valid()
      ensures name == taskName && !completed
    {
      name := taskName;
      fileName := ToSnakeCase(taskName);
      completed := false;
    }

    method SetName(newName: string)
      modifies this`name, this`fileName
      ensures Valid()
      ensures name == newName && completed == old(completed)
    {
      name := newName;
      fileName := ToSnakeCase(newName);
    }

    method SetCompleted(b: bool)
      modifies this`completed
      ensures completed == b
      ensures name == old(name) && fileName == old(fileName)
    {
      completed := b;
    }

    /** The console listing's text for this task. */
    function ToString(): (r: string)
      reads this
      ensures |r| == |name| + 4 && r[..4] == Marker(completed) && r[4..] == name
    {
      Display(name, completed)
    }
  }
}
