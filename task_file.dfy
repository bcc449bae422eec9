/**
 * The line-oriented encoding of the task list in the tasks file: saving
 * writes every task followed by a newline; loading reads the file line by line
 * and keeps the non-empty lines in order. The file itself is a parameter: its
 * contents when it could be read, or None when it could not be opened.
 */
module TaskFile {
  import opened Wrappers
  import opened GoStrings
  import opened TaskLine

  /** `p` occurs at `k` exactly when `s` has a newline there, for p the one-character "\n". */
  lemma NewlineAt(s: string, k: nat)
    ensures OccursAt(s, "\n", k) <==> k < |s| && s[k] == '\n'
  {
    if k < |s| && s[k] == '\n' {
      assert s[k..k + 1] == "\n";
    }
  }

  /**
   * The lines a bufio.Scanner with the line splitter yields for `s`: the text
   * between newlines, and a last line that has no newline after it; a final
   * newline does not start an empty last line.
   */
  function Lines(s: string): (ls: seq<string>)
    ensures forall k | 0 <= k < |ls| :: '\n' !in ls[k]
    decreases |s|
  {
    if s == [] then []
    else match IndexOf(s, "\n")
      case None =>
        assert forall k | 0 <= k < |s| :: s[k] != '\n' by {
          forall k | 0 <= k < |s| { NewlineAt(s, k); }
        }
        [s]
      case Some(i) =>
        assert forall k | 0 <= k < i :: s[k] != '\n' by {
          forall k | 0 <= k < i { NewlineAt(s, k); }
        }
        NewlineAt(s, i);
        [s[..i]] + Lines(s[i + 1..])
  }

  /** The filter of the load loop: the non-empty lines, in their order. */
  function NonEmpty(ls: seq<string>): (r: seq<string>)
    ensures |r| <= |ls|
    ensures forall k | 0 <= k < |r| :: r[k] != ""
    ensures forall x :: x in r <==> x in ls && x != ""
  {
    if ls == [] then []
    else (if ls[0] == "" then [] else [ls[0]]) + NonEmpty(ls[1..])
  }

  /** What loading reads from file contents `s`: every line is a storable task. */
  function Parse(s: string): (ts: seq<string>)
    ensures forall k | 0 <= k < |ts| :: WellFormed(ts[k])
  {
    var ls := Lines(s);
    var ts := NonEmpty(ls);
    assert forall k | 0 <= k < |ts| :: ts[k] in ls;
    ts
  }

  /** What loading returns: no file gives the empty list. */
  function Load(file: Option<string>): (ts: seq<string>)
    ensures file.None? ==> ts == []
    ensures forall k | 0 <= k < |ts| :: WellFormed(ts[k])
  {
    match file
    case None => []
    case Some(s) => Parse(s)
  }

  /** What saving writes: every task followed by a newline. */
  function Serialize(ts: seq<string>): (s: string)
    ensures ts != [] ==> |s| > 0 && s[|s| - 1] == '\n'
  {
    if ts == [] then "" else ts[0] + "\n" + Serialize(ts[1..])
  }

  lemma {:induction false} SerializeAppend(ts: seq<string>, t: string)
    ensures Serialize(ts + [t]) == Serialize(ts) + t + "\n"
  {
    if ts == [] {
      assert ts + [t] == [t];
    } else {
      assert (ts + [t])[1..] == ts[1..] + [t];
      SerializeAppend(ts[1..], t);
    }
  }

  /** Filtering distributes over concatenation: the loop keeps file order. */
  lemma {:induction false} NonEmptyAppend(a: seq<string>, b: seq<string>)
    ensures NonEmpty(a + b) == NonEmpty(a) + NonEmpty(b)
  {
    if a == [] {
      assert a + b == b;
    } else {
      assert (a + b)[1..] == a[1..] + b;
      NonEmptyAppend(a[1..], b);
    }
  }

  /** Filtering a list without empty lines keeps every line. */
  lemma {:induction false} NonEmptyKeepsAll(ls: seq<string>)
    requires forall k | 0 <= k < |ls| :: ls[k] != ""
    ensures NonEmpty(ls) == ls
  {
    if ls != [] {
      NonEmptyKeepsAll(ls[1..]);
    }
  }

  /** A line without a newline, then a newline, is one scanned line. */
  lemma LinesCons(t: string, rest: string)
    requires '\n' !in t
    ensures Lines(t + "\n" + rest) == [t] + Lines(rest)
  {
    var s := t + "\n" + rest;
    NewlineAt(s, |t|);
    forall j: nat | j < |t|
      ensures !OccursAt(s, "\n", j)
    {
      NewlineAt(s, j);
      assert s[j] == t[j];
    }
    var i := IndexOf(s, "\n");
    assert i == Some(|t|);
    assert s[..|t|] == t;
    assert s[|t| + 1..] == rest;
  }

  /** A last line without a final newline is still scanned as a line. */
  lemma LinesLast(t: string)
    requires t != [] && '\n' !in t
    ensures Lines(t) == [t]
  {
    forall j: nat
      ensures !OccursAt(t, "\n", j)
    {
      NewlineAt(t, j);
    }
  }

  /** Scanning what was saved gives back every saved line, empty ones included. */
  lemma {:induction false} LinesSerialize(ts: seq<string>)
    requires forall k | 0 <= k < |ts| :: '\n' !in ts[k]
    ensures Lines(Serialize(ts)) == ts
  {
    if ts != [] {
      LinesCons(ts[0], Serialize(ts[1..]));
      LinesSerialize(ts[1..]);
    }
  }

  /** Saving then loading drops exactly the empty tasks. */
  lemma ParseSerialize(ts: seq<string>)
    requires forall k | 0 <= k < |ts| :: '\n' !in ts[k]
    ensures Parse(Serialize(ts)) == NonEmpty(ts)
  {
    LinesSerialize(ts);
  }

  /** Round trip: saving then loading a list of storable tasks gives it back. */
  lemma RoundTrip(ts: seq<string>)
    requires forall k | 0 <= k < |ts| :: WellFormed(ts[k])
    ensures Parse(Serialize(ts)) == ts
    ensures Load(Some(Serialize(ts))) == ts
  {
    ParseSerialize(ts);
    NonEmptyKeepsAll(ts);
  }

  /** Saving what was loaded and loading it again gives the same list. */
  lemma ReloadStable(s: string)
    ensures Parse(Serialize(Parse(s))) == Parse(s)
  {
    RoundTrip(Parse(s));
  }

  /** saveTasks: the text the tasks file holds once every task has been written. */
  method SaveTasks(tasks: seq<string>) returns (written: string)
    ensures written == Serialize(tasks)
  {
    written := "";
    for i := 0 to |tasks|
      invariant written == Serialize(tasks[..i])
    {
      SerializeAppend(tasks[..i], tasks[i]);
      assert tasks[..i + 1] == tasks[..i] + [tasks[i]];
      written := written + tasks[i] + "\n";
    }
    assert tasks[..|tasks|] == tasks;
  }

  /** loadTasks: the non-empty lines of the file, in order; no file gives no tasks. */
  method LoadTasks(file: Option<string>) returns (tasks: seq<string>)
    ensures tasks == Load(file)
  {
    tasks := [];
    if file.None? {
      return;
    }
    var lines := Lines(file.value);
    for i := 0 to |lines|
      invariant tasks == NonEmpty(lines[..i])
    {
      var line := lines[i];
      if line != "" {
        tasks := tasks + [line];
      }
      NonEmptyAppend(lines[..i], [line]);
      assert lines[..i + 1] == lines[..i] + [line];
    }
    assert lines[..|lines|] == lines;
  }
}
