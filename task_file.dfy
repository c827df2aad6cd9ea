/**
 * The tasks file: one record per line, `<name>;<true|false>`. Saving writes
 * the record of every task in list order; loading splits each line on ';',
 * skips lines with fewer than two fields, takes field 0 as the name and reads
 * field 1 with Boolean.parseBoolean.
 */
module TaskFile {
  import opened Wrappers
  import opened JavaText
  import opened Tasks

  const Separator: char := ';'

  /** How Java concatenates a boolean into a string. */
  function FlagText(b: bool): (t: string)
    ensures ParseBoolean(t) == b
  {
    if b then "true" else "false"
  }

  /** The line saveTasks writes for one task. */
  function EncodeLine(r: TaskRecord): (line: string)
    ensures |line| > |r.name| && line[|r.name|] == Separator
  {
    r.name + [Separator] + FlagText(r.completed)
  }

  /** A saved line is the name, then ';', then "true" exactly when the task is completed. */
  lemma EncodeLineParts(r: TaskRecord)
    ensures var line := EncodeLine(r);
      && |line| > |r.name| && line[..|r.name|] == r.name && line[|r.name|] == Separator
      && (r.completed <==> line[|r.name| + 1..] == "true")
  {
    var line := EncodeLine(r);
    assert line[|r.name| + 1..] == FlagText(r.completed);
  }

  /** A saved line holds a line terminator only where the name does. */
  lemma EncodeLineTerminators(r: TaskRecord)
    requires '\n' !in r.name && '\r' !in r.name
    ensures '\n' !in EncodeLine(r) && '\r' !in EncodeLine(r)
  {
    var flag := FlagText(r.completed);
    assert '\n' !in flag && '\r' !in flag;
    assert EncodeLine(r) == r.name + ([Separator] + flag);
  }

  /** The record loadTasks builds from one line, or None when the line is skipped. */
  function DecodeLine(line: string): (r: Option<TaskRecord>)
    ensures Separator !in line ==> r == None
    ensures r.Some? ==> Separator in line && Separator !in r.value.name
  {
    var parts := Split(line, Separator);
    if |parts| >= 2 then Some(TaskRecord(parts[0], ParseBoolean(parts[1]))) else None
  }

  /** The lines of a save, one per record, in order. */
  function EncodeAll(rs: seq<TaskRecord>): (lines: seq<string>)
    ensures |lines| == |rs|
  {
    if rs == [] then [] else EncodeAll(rs[..|rs| - 1]) + [EncodeLine(rs[|rs| - 1])]
  }

  /** Saving one more record appends exactly its line. */
  lemma EncodeAllPrefix(rs: seq<TaskRecord>, k: nat)
    requires k < |rs|
    ensures EncodeAll(rs[..k + 1]) == EncodeAll(rs[..k]) + [EncodeLine(rs[k])]
  {
    assert rs[..k + 1][..k] == rs[..k];
  }

  /** The i-th saved line is the line of the i-th record. */
  lemma {:induction false} EncodeAllAt(rs: seq<TaskRecord>, i: nat)
    requires i < |rs|
    ensures EncodeAll(rs)[i] == EncodeLine(rs[i])
  {
    if i < |rs| - 1 {
      EncodeAllAt(rs[..|rs| - 1], i);
    }
  }

  /** What one line contributes to a load: its record, or nothing. */
  function LineRecords(line: string): (rs: seq<TaskRecord>)
    ensures |rs| <= 1
  {
    match DecodeLine(line)
    case Some(r) => [r]
    case None => []
  }

  /** The records loadTasks appends, in line order, skipping lines that do not parse. */
  function DecodeAll(lines: seq<string>): (rs: seq<TaskRecord>)
    ensures |rs| <= |lines|
  {
    if lines == [] then []
    else DecodeAll(lines[..|lines| - 1]) + LineRecords(lines[|lines| - 1])
  }

  lemma DecodeAllPrefix(lines: seq<string>, k: nat)
    requires k < |lines|
    ensures DecodeAll(lines[..k + 1]) == DecodeAll(lines[..k]) + LineRecords(lines[k])
  {
    assert lines[..k + 1][..k] == lines[..k];
  }

  /** Loading one more line appends exactly that line's record, if any. */
  lemma DecodeAllSnoc(lines: seq<string>, line: string)
    ensures DecodeAll(lines + [line]) == DecodeAll(lines) + LineRecords(line)
  {
    assert (lines + [line])[..|lines|] == lines;
  }

  /** An absent file loads no tasks. */
  function Load(file: Option<seq<string>>): (rs: seq<TaskRecord>)
    ensures file.None? ==> rs == []
  {
    match file
    case None => []
    case Some(lines) => DecodeAll(lines)
  }

  /** A name the format can hold: no separator and no line terminator. */
  predicate StorableName(name: string)
  {
    Separator !in name && '\n' !in name && '\r' !in name
  }

  lemma LineRoundTrip(r: TaskRecord)
    requires Separator !in r.name
    ensures DecodeLine(EncodeLine(r)) == Some(r)
    ensures LineRecords(EncodeLine(r)) == [r]
  {
    SplitTwo(r.name, FlagText(r.completed), Separator);
  }

  lemma SplitLast<T>(s: seq<T>)
    requires s != []
    ensures s[..|s| - 1] + [s[|s| - 1]] == s
  {
  }

  /** Loading what was saved gives back the names and flags, in order. */
  lemma {:induction false} RoundTrip(rs: seq<TaskRecord>)
    requires forall i :: 0 <= i < |rs| ==> Separator !in rs[i].name
    ensures DecodeAll(EncodeAll(rs)) == rs
  {
    if rs != [] {
      var n := |rs| - 1;
      var front, line := EncodeAll(rs[..n]), EncodeLine(rs[n]);
      RoundTrip(rs[..n]);
      LineRoundTrip(rs[n]);
      DecodeAllSnoc(front, line);
      SplitLast(rs);
    }
  }

  /** "x;" has one field once the trailing empty one is dropped, so it is skipped;
      ";x" keeps its leading empty field and loads a task with an empty name. */
  lemma LineEdgeCases(x: string)
    requires Separator !in x && x != ""
    ensures DecodeLine(x + [Separator]) == None
    ensures DecodeLine([Separator] + x) == Some(TaskRecord("", ParseBoolean(x)))
  {
    SplitEdgeCases(x, Separator);
  }

  /**
   * A name holding ';' does not survive a save and load: the name comes back
   * cut at its first ';', and the flag is read from the text after it.
   */
  lemma SeparatorInNameIsLost(a: string, b: string, completed: bool)
    requires Separator !in a && Separator !in b
    ensures DecodeLine(EncodeLine(TaskRecord(a + [Separator] + b, completed)))
         == Some(TaskRecord(a, ParseBoolean(b)))
  {
    SplitThree(a, b, FlagText(completed), Separator);
  }

  /** Loading two lines gives the record of the first, then that of the second. */
  lemma DecodeAllPair(first: string, second: string)
    ensures DecodeAll([first, second]) == LineRecords(first) + LineRecords(second)
  {
    assert [first, second][..1] == [first];
    assert [first][..0] == [];
  }

  /** A line without ';' after a saved line is skipped: only the saved task loads. */
  lemma MalformedLineSkipped(r: TaskRecord, bad: string)
    requires Separator !in r.name && Separator !in bad
    ensures DecodeAll([EncodeLine(r), bad]) == [r]
  {
    DecodeAllPair(EncodeLine(r), bad);
    LineRoundTrip(r);
  }

  // ------------------------------------------------ the file as text

  predicate IsLineTerminator(c: char)
  {
    c == '\n' || c == '\r'
  }

  /** PrintWriter.println after each line, with "\n" as the line separator. */
  function WriteText(lines: seq<string>): (text: string)
    ensures |text| >= |lines|
    ensures lines != [] ==> text[|text| - 1] == '\n'
  {
    if lines == [] then "" else lines[0] + "\n" + WriteText(lines[1..])
  }

  /** Where the first line of text ends: its first '\n' or '\r', or the end. */
  function LineEnd(text: string): (k: nat)
    ensures k <= |text|
    ensures k < |text| ==> IsLineTerminator(text[k])
    ensures forall i :: 0 <= i < k ==> !IsLineTerminator(text[i])
  {
    if text == [] || IsLineTerminator(text[0]) then 0 else 1 + LineEnd(text[1..])
  }

  /**
   * The lines BufferedReader.readLine returns until it gives null: a line
   * ends at "\n", "\r" or "\r\n"; a last line without terminator is still a
   * line; text ending in a terminator gives no extra empty line.
   */
  function ReadLines(text: string): (lines: seq<string>)
    ensures forall i, c :: 0 <= i < |lines| && c in lines[i] ==> !IsLineTerminator(c)
    decreases |text|
  {
    if text == [] then []
    else
      var k := LineEnd(text);
      if k == |text| then [text]
      else
        var next := if text[k] == '\r' && k + 1 < |text| && text[k + 1] == '\n' then k + 2 else k + 1;
        [text[..k]] + ReadLines(text[next..])
  }

  lemma {:induction false} ReadWriteText(lines: seq<string>)
    requires forall i :: 0 <= i < |lines| ==> '\n' !in lines[i] && '\r' !in lines[i]
    ensures ReadLines(WriteText(lines)) == lines
  {
    if lines != [] {
      var text := WriteText(lines);
      var line := lines[0];
      assert text == line + ("\n" + WriteText(lines[1..]));
      assert LineEnd(text) == |line| by {
        LineEndAt(line, "\n" + WriteText(lines[1..]));
      }
      assert text[|line| + 1..] == WriteText(lines[1..]);
      ReadWriteText(lines[1..]);
    }
  }

  lemma {:induction false} LineEndAt(line: string, rest: string)
    requires '\n' !in line && '\r' !in line
    requires rest != [] && IsLineTerminator(rest[0])
    ensures LineEnd(line + rest) == |line|
  {
    if line != [] {
      assert (line + rest)[1..] == line[1..] + rest;
      LineEndAt(line[1..], rest);
    }
  }

  /** Saving to text and loading it back reproduces the tasks for storable names. */
  lemma SaveLoadRoundTrip(rs: seq<TaskRecord>)
    requires forall i :: 0 <= i < |rs| ==> StorableName(rs[i].name)
    ensures DecodeAll(ReadLines(WriteText(EncodeAll(rs)))) == rs
  {
    var lines := EncodeAll(rs);
    forall i | 0 <= i < |lines|
      ensures '\n' !in lines[i] && '\r' !in lines[i]
    {
      EncodeAllAt(rs, i);
      EncodeLineTerminators(rs[i]);
    }
    ReadWriteText(lines);
    RoundTrip(rs);
  }
}
