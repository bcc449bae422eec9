/**
 * The task list: an ordered sequence of task lines, addressed by 0-based
 * position. Adding appends, marking rewrites one line in place, deleting
 * removes one line and shifts the later ones down; every change is saved to
 * the tasks file at once. The pure functions say what each command does to the
 * list; the class TaskStore holds the list and the file and performs them.
 */
module TaskList {
  import opened Wrappers
  import opened GoStrings
  import opened TaskLine
  import opened TaskFile

  /**
   * The message markTask or deleteTask prints. Ok is the branch that changes
   * the list and saves it; the others leave both alone.
   */
  datatype Outcome = ConversionError | InvalidId | AlreadyDone | Ok

  /** addTask: the new line goes at the end; nothing is rejected. */
  function AddTask(ts: seq<string>, name: string, desc: string): (r: seq<string>)
    ensures |r| == |ts| + 1
    ensures r[..|ts|] == ts
    ensures r[|ts|] == NewTaskLine(name, desc)
  {
    ts + [NewTaskLine(name, desc)]
  }

  /** The checks of markTask, in order: the id parses, is in range, and names a task not yet done. */
  function MarkOutcome(ts: seq<string>, id: Option<int>): (o: Outcome)
    ensures o == Ok <==> id.Some? && 0 <= id.value < |ts| && !IsDone(ts[id.value])
    ensures o == AlreadyDone <==> id.Some? && 0 <= id.value < |ts| && IsDone(ts[id.value])
    ensures o == ConversionError <==> id.None?
  {
    if id.None? then ConversionError
    else if id.value < 0 || id.value >= |ts| then InvalidId
    else if IsDone(ts[id.value]) then AlreadyDone
    else Ok
  }

  /**
   * markTask: when every check passes, the task at `id` has its first
   * " [Pending]" rewritten; no other task changes, and the length stays.
   */
  function MarkTask(ts: seq<string>, id: Option<int>): (r: seq<string>)
    ensures |r| == |ts|
    ensures MarkOutcome(ts, id) != Ok ==> r == ts
    ensures forall k | 0 <= k < |ts| && id != Some(k) :: r[k] == ts[k]
    ensures MarkOutcome(ts, id) == Ok ==> r[id.value] == MarkDone(ts[id.value])
  {
    if MarkOutcome(ts, id) == Ok then ts[id.value := MarkDone(ts[id.value])] else ts
  }

  /** The checks of deleteTask, in order: the id parses and is in range. */
  function DeleteOutcome(ts: seq<string>, id: Option<int>): (o: Outcome)
    ensures o == Ok <==> id.Some? && 0 <= id.value < |ts|
    ensures o == ConversionError <==> id.None?
    ensures o != AlreadyDone
  {
    if id.None? then ConversionError
    else if id.value < 0 || id.value >= |ts| then InvalidId
    else Ok
  }

  /**
   * deleteTask: when the checks pass, exactly the task at `id` is removed;
   * the ones before it stay put and the ones after it move down by one.
   */
  function DeleteTask(ts: seq<string>, id: Option<int>): (r: seq<string>)
    ensures DeleteOutcome(ts, id) != Ok ==> r == ts
    ensures DeleteOutcome(ts, id) == Ok ==>
      && |r| == |ts| - 1
      && r[..id.value] == ts[..id.value]
      && (forall k | id.value <= k < |r| :: r[k] == ts[k + 1])
      && multiset(r) + multiset{ts[id.value]} == multiset(ts)
  {
    if DeleteOutcome(ts, id) == Ok then
      var k := id.value;
      assert ts == ts[..k] + [ts[k]] + ts[k + 1..];
      ts[..k] + ts[k + 1..]
    else ts
  }

  /**
   * Marking is idempotent: a second mark at the same id changes nothing.
   * When the first one rewrote a " [Pending]", the second reports AlreadyDone.
   */
  lemma MarkIdempotent(ts: seq<string>, id: Option<int>)
    ensures MarkTask(MarkTask(ts, id), id) == MarkTask(ts, id)
    ensures MarkOutcome(ts, id) == Ok && Contains(ts[id.value], PendingMarker) ==>
      MarkOutcome(MarkTask(ts, id), id) == AlreadyDone
  {
    if MarkOutcome(ts, id) == Ok {
      var k := id.value;
      if Contains(ts[k], PendingMarker) {
        MarkDoneMakesDone(ts[k]);
      } else {
        assert MarkTask(ts, id) == ts;
      }
    }
  }

  /** No task goes back from Done: marking keeps every done task done. */
  lemma MarkKeepsDone(ts: seq<string>, id: Option<int>, k: nat)
    requires k < |ts| && IsDone(ts[k])
    ensures IsDone(MarkTask(ts, id)[k])
  {
  }

  /** Deleting the task just added gives back the list before the add. */
  lemma DeleteUndoesAdd(ts: seq<string>, name: string, desc: string)
    ensures DeleteTask(AddTask(ts, name, desc), Some(|ts|)) == ts
  {
    var r := AddTask(ts, name, desc);
    assert r[..|ts|] == ts;
  }

  /**
   * Pending to Done for a fresh task: a task whose name and description part
   * `a` is free of both markers is not done when appended, marking it succeeds,
   * and it then ends in " - [Done]" while the earlier tasks are untouched.
   */
  lemma AppendThenMark(ts: seq<string>, a: string)
    requires !Contains(a, PendingMarker) && !Contains(a, DoneMarker)
    ensures !IsDone((ts + [a + PendingSuffix])[|ts|])
    ensures MarkOutcome(ts + [a + PendingSuffix], Some(|ts|)) == Ok
    ensures MarkTask(ts + [a + PendingSuffix], Some(|ts|)) == ts + [a + DoneSuffix]
    ensures IsDone(MarkTask(ts + [a + PendingSuffix], Some(|ts|))[|ts|])
  {
    var line := a + PendingSuffix;
    SuffixNeverDone(a);
    MarkDoneRewritesSuffix(a);
    SuffixHoldsPending(a);
    MarkDoneMakesDone(line);
    assert (ts + [line])[|ts| := a + DoneSuffix] == ts + [a + DoneSuffix];
  }

  /** The same for a task added with `AddTask` from marker-free fields. */
  lemma AddThenMark(ts: seq<string>, name: string, desc: string)
    requires !Contains(Fields(name, desc), PendingMarker)
    requires !Contains(Fields(name, desc), DoneMarker)
    ensures !IsDone(AddTask(ts, name, desc)[|ts|])
    ensures MarkOutcome(AddTask(ts, name, desc), Some(|ts|)) == Ok
    ensures MarkTask(AddTask(ts, name, desc), Some(|ts|)) == ts + [Fields(name, desc) + DoneSuffix]
    ensures IsDone(MarkTask(AddTask(ts, name, desc), Some(|ts|))[|ts|])
  {
    AppendThenMark(ts, Fields(name, desc));
  }

  /**
   * Every freshly added task is done once it is marked, whatever its fields:
   * either its fields already read as done and the mark reports AlreadyDone,
   * or the rewrite of the " [Pending]" it always holds makes it done.
   */
  lemma AddThenMarkDone(ts: seq<string>, name: string, desc: string)
    ensures IsDone(MarkTask(AddTask(ts, name, desc), Some(|ts|))[|ts|])
  {
    var line := NewTaskLine(name, desc);
    if !IsDone(line) {
      MarkDoneMakesDone(line);
    }
  }

  /** The deletion example: removing task 1 of three shifts task 3 down to index 1. */
  lemma DeleteExample()
    ensures DeleteTask(["Task 1 - Description 1 - [Pending]", "Task 2 - Description 2 - [Pending]",
                        "Task 3 - Description 3 - [Done]"], Some(1))
         == ["Task 1 - Description 1 - [Pending]", "Task 3 - Description 3 - [Done]"]
  {
  }

  /** Marking keeps every task storable. */
  lemma MarkTaskWellFormed(ts: seq<string>, id: Option<int>)
    requires forall k | 0 <= k < |ts| :: WellFormed(ts[k])
    ensures forall k | 0 <= k < |ts| :: WellFormed(MarkTask(ts, id)[k])
  {
    if MarkOutcome(ts, id) == Ok {
      MarkDoneWellFormed(ts[id.value]);
    }
  }

  /**
   * The task tracker's state: the task list in memory and the tasks file on
   * disk. The object invariant is that loading the file gives the list in
   * memory, which every command keeps by saving after each change.
   */
  class TaskStore {
    var tasks: seq<string>
    /** The contents of the tasks file; None while there is no file. */
    var file: Option<string>

    ghost predicate Valid()
      reads this
    {
      Load(file) == tasks
    }

    /** Startup: the list is what loadTasks reads from the file. */
    constructor (file: Option<string>)
      ensures Valid()
      ensures this.file == file && tasks == Load(file)
    {
      var loaded := LoadTasks(file);
      this.file := file;
      tasks := loaded;
    }

    /** saveTasks on the current list: the file is truncated and rewritten. */
    method Save()
      modifies this
      ensures tasks == old(tasks)
      ensures file == Some(Serialize(tasks))
    {
      var text := SaveTasks(tasks);
      file := Some(text);
    }

    /**
     * addTask: `name` and `desc` are the two input lines as read, so a newline
     * can only be their last character.
     */
    method Add(name: string, desc: string)
      requires Valid()
      requires IsInputLine(name) && IsInputLine(desc)
      modifies this
      ensures Valid()
      ensures tasks == AddTask(old(tasks), name, desc)
      ensures file == Some(Serialize(tasks))
    {
      NewTaskLineWellFormed(name, desc);
      tasks := tasks + [NewTaskLine(name, desc)];
      Save();
      RoundTrip(tasks);
    }

    /** markTask: the list and the file change only when every check passes. */
    method Mark(id: Option<int>) returns (outcome: Outcome)
      requires Valid()
      modifies this
      ensures Valid()
      ensures outcome == MarkOutcome(old(tasks), id)
      ensures tasks == MarkTask(old(tasks), id)
      ensures file == if outcome == Ok then Some(Serialize(tasks)) else old(file)
    {
      if id.None? {
        return ConversionError;
      }
      var k := id.value;
      if k < 0 || k >= |tasks| {
        return InvalidId;
      }
      if IsDone(tasks[k]) {
        return AlreadyDone;
      }
      MarkTaskWellFormed(tasks, id);
      tasks := tasks[k := MarkDone(tasks[k])];
      Save();
      RoundTrip(tasks);
      outcome := Ok;
    }

    /** deleteTask: the list and the file change only when the id is valid. */
    method Delete(id: Option<int>) returns (outcome: Outcome)
      requires Valid()
      modifies this
      ensures Valid()
      ensures outcome == DeleteOutcome(old(tasks), id)
      ensures tasks == DeleteTask(old(tasks), id)
      ensures file == if outcome == Ok then Some(Serialize(tasks)) else old(file)
    {
      if id.None? {
        return ConversionError;
      }
      var k := id.value;
      if k < 0 || k >= |tasks| {
        return InvalidId;
      }
      ghost var before := tasks;
      tasks := tasks[..k] + tasks[k + 1..];
      assert forall j | 0 <= j < |tasks| :: tasks[j] in before;
      Save();
      RoundTrip(tasks);
      outcome := Ok;
    }
  }
}
