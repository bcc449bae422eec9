/**
 * The task line codec. A task is one line of text,
 * "<name> - <description> - [Pending]" when it is created; its status is read
 * by looking for " [Done]" and changed by rewriting the first " [Pending]".
 */
module TaskLine {
  import opened Wrappers
  import opened GoStrings

  const Separator: string := " - "
  const PendingMarker: string := " [Pending]"
  const DoneMarker: string := " [Done]"
  /** What addTask appends after the description. */
  const PendingSuffix: string := " - [Pending]"
  /** What that suffix becomes once the task is marked. */
  const DoneSuffix: string := " - [Done]"

  /** The trimmed name and description joined by the separator. */
  function Fields(name: string, desc: string): (r: string)
    ensures |r| <= |name| + |desc| + |Separator|
    ensures OccursAt(r, Separator, |TrimSpace(name)|)
  {
    var r := TrimSpace(name) + Separator + TrimSpace(desc);
    assert r[|TrimSpace(name)|..|TrimSpace(name)| + |Separator|] == Separator;
    r
  }

  /** The line addTask builds from the raw name and description input. */
  function NewTaskLine(name: string, desc: string): (r: string)
    ensures Contains(r, PendingMarker)
  {
    SuffixHoldsPending(Fields(name, desc));
    Fields(name, desc) + PendingSuffix
  }

  /** The done check of markTask. */
  predicate IsDone(line: string)
    ensures IsDone(line) <==> exists j: nat :: OccursAt(line, DoneMarker, j)
  {
    Contains(line, DoneMarker)
  }

  /** The rewrite of markTask: the first " [Pending]" becomes " [Done]". */
  function MarkDone(line: string): (r: string)
    ensures !Contains(line, PendingMarker) ==> r == line
    ensures Contains(line, PendingMarker) ==> |r| == |line| - 3
  {
    ReplaceFirst(line, PendingMarker, DoneMarker)
  }

  /** A line that the line-oriented file stores and reads back as itself. */
  predicate WellFormed(line: string) {
    line != "" && '\n' !in line
  }

  /** What bufio.Reader.ReadString('\n') can return: a newline only at the very end. */
  predicate IsInputLine(s: string)
  {
    forall k | 0 <= k < |s| - 1 :: s[k] != '\n'
  }

  /**
   * An occurrence of a pattern ending in ']' in `a + PendingSuffix` lies
   * inside `a` or ends with the suffix, whose only ']' is its last character.
   */
  lemma OccursAcrossSuffix(a: string, p: string, j: nat)
    requires 0 < |p| <= |PendingSuffix| && p[|p| - 1] == ']'
    requires OccursAt(a + PendingSuffix, p, j)
    ensures || OccursAt(a, p, j)
            || (|a| <= j && j + |p| == |a| + |PendingSuffix| && p == PendingSuffix[j - |a|..])
  {
    var s := a + PendingSuffix;
    if j + |p| <= |a| {
      assert s[j..j + |p|] == a[j..j + |p|];
    } else {
      var e := j + |p| - 1;
      assert s[e] == s[j..j + |p|][|p| - 1] == ']';
      assert PendingSuffix[e - |a|] == ']';
      assert s[j..j + |p|] == PendingSuffix[j - |a|..];
    }
  }

  /** The status suffix holds the pending marker, so any line ending with it does. */
  lemma SuffixHoldsPending(a: string)
    ensures Contains(a + PendingSuffix, PendingMarker)
  {
    assert OccursAt(PendingSuffix, PendingMarker, 2);
    OccursInConcat(a, PendingSuffix, PendingMarker, 2);
  }

  /** A freshly built line ends with " - [Pending]", so it holds the pending marker. */
  lemma NewTaskLineEndsPending(name: string, desc: string)
    ensures var line := NewTaskLine(name, desc);
      |line| >= |PendingSuffix| && line[|line| - |PendingSuffix|..] == PendingSuffix
    ensures Contains(NewTaskLine(name, desc), PendingMarker)
  {
    var a := Fields(name, desc);
    SuffixHoldsPending(a);
    assert (a + PendingSuffix)[|a|..] == PendingSuffix;
  }

  /** Both fields occur verbatim in a line built from them. */
  lemma LineHoldsFields(n: string, d: string)
    ensures Contains(n + Separator + d + PendingSuffix, n)
    ensures Contains(n + Separator + d + PendingSuffix, d)
  {
    var line := n + Separator + d + PendingSuffix;
    assert line[..|n|] == n;
    assert OccursAt(line, n, 0);
    var k := |n| + |Separator|;
    assert line[k..k + |d|] == d;
    assert OccursAt(line, d, k);
  }

  /** A freshly built line holds the trimmed name and the trimmed description verbatim. */
  lemma NewTaskLineHoldsFields(name: string, desc: string)
    ensures Contains(NewTaskLine(name, desc), TrimSpace(name))
    ensures Contains(NewTaskLine(name, desc), TrimSpace(desc))
  {
    LineHoldsFields(TrimSpace(name), TrimSpace(desc));
  }

  /** The status suffix never reads as done: `a + PendingSuffix` is done exactly when `a` is. */
  lemma SuffixNeverDone(a: string)
    ensures IsDone(a + PendingSuffix) <==> Contains(a, DoneMarker)
  {
    var line := a + PendingSuffix;
    if Contains(a, DoneMarker) {
      OccursInConcat(a, PendingSuffix, DoneMarker, IndexOf(a, DoneMarker).value);
    }
    if IsDone(line) {
      var j := IndexOf(line, DoneMarker).value;
      assert DoneMarker != PendingSuffix[|PendingSuffix| - |DoneMarker|..];
      OccursAcrossSuffix(a, DoneMarker, j);
    }
  }

  /**
   * A fresh line counts as done exactly when its name and description part
   * already contains " [Done]".
   */
  lemma NewTaskLineDoneIff(name: string, desc: string)
    ensures IsDone(NewTaskLine(name, desc)) <==> Contains(Fields(name, desc), DoneMarker)
  {
    SuffixNeverDone(Fields(name, desc));
  }

  /** The second character of an occurrence is the pattern's second character. */
  lemma SecondCharOfOccurrence(a: string, p: string, j: nat)
    requires |p| >= 2 && OccursAt(a, p, j)
    ensures j + 1 < |a| && a[j + 1] == p[1]
  {
    assert a[j + 1] == a[j..j + |p|][1];
  }

  /** Text without a '[' holds neither status marker. */
  lemma NoBracketNoMarker(a: string)
    requires '[' !in a
    ensures !Contains(a, PendingMarker) && !Contains(a, DoneMarker)
  {
    forall j: nat
      ensures !OccursAt(a, PendingMarker, j)
    {
      if OccursAt(a, PendingMarker, j) {
        SecondCharOfOccurrence(a, PendingMarker, j);
      }
    }
    forall j: nat
      ensures !OccursAt(a, DoneMarker, j)
    {
      if OccursAt(a, DoneMarker, j) {
        SecondCharOfOccurrence(a, DoneMarker, j);
      }
    }
  }

  /** Fields typed without a '[' hold neither status marker. */
  lemma FieldsWithoutBrackets(name: string, desc: string)
    requires '[' !in name && '[' !in desc
    ensures !Contains(Fields(name, desc), PendingMarker)
    ensures !Contains(Fields(name, desc), DoneMarker)
  {
    TrimSpaceIsSlice(name);
    TrimSpaceIsSlice(desc);
    NoBracketNoMarker(Fields(name, desc));
  }

  /** Marking a line that holds " [Pending]" makes it done and three characters shorter. */
  lemma MarkDoneMakesDone(line: string)
    requires Contains(line, PendingMarker)
    ensures IsDone(MarkDone(line))
    ensures |MarkDone(line)| == |line| - 3
  {
    var i := IndexOf(line, PendingMarker).value;
    var r := MarkDone(line);
    assert r[i..i + |DoneMarker|] == DoneMarker;
    assert OccursAt(r, DoneMarker, i);
  }

  /** Marking keeps a line storable: it stays non-empty and gains no newline. */
  lemma MarkDoneWellFormed(line: string)
    requires WellFormed(line)
    ensures WellFormed(MarkDone(line))
  {
    if Contains(line, PendingMarker) {
      var i := IndexOf(line, PendingMarker).value;
      var r := MarkDone(line);
      assert r == line[..i] + DoneMarker + line[i + |PendingMarker|..];
      assert '\n' !in line[..i] && '\n' !in line[i + |PendingMarker|..];
      assert '\n' !in DoneMarker;
    }
  }

  /** When `a` has no " [Pending]" of its own, the first one in `a + PendingSuffix` is the marker of the suffix. */
  lemma FirstPendingInSuffix(a: string)
    requires !Contains(a, PendingMarker)
    ensures OccursAt(a + PendingSuffix, PendingMarker, |a| + 2)
    ensures forall j: nat | j < |a| + 2 :: !OccursAt(a + PendingSuffix, PendingMarker, j)
  {
    var line := a + PendingSuffix;
    var i := |a| + 2;
    assert line[i..i + |PendingMarker|] == PendingSuffix[2..];
    forall j: nat | j < i
      ensures !OccursAt(line, PendingMarker, j)
    {
      if OccursAt(line, PendingMarker, j) {
        OccursAcrossSuffix(a, PendingMarker, j);
      }
    }
  }

  /** ... and marking rewrites exactly that marker. */
  lemma MarkDoneRewritesSuffix(a: string)
    requires !Contains(a, PendingMarker)
    ensures MarkDone(a + PendingSuffix) == a + DoneSuffix
  {
    var line := a + PendingSuffix;
    var i := |a| + 2;
    FirstPendingInSuffix(a);
    ReplaceFirstAt(line, PendingMarker, DoneMarker, i);
    assert line[..i] == a + " -";
    assert line[i + |PendingMarker|..] == [];
  }

  /**
   * Pending to Done for a fresh task: when the name and description part has
   * no " [Pending]" of its own, marking turns the " - [Pending]" suffix into
   * " - [Done]", and the line is then done.
   */
  lemma MarkDoneNewTaskLine(name: string, desc: string)
    requires !Contains(Fields(name, desc), PendingMarker)
    ensures MarkDone(NewTaskLine(name, desc)) == Fields(name, desc) + DoneSuffix
    ensures IsDone(MarkDone(NewTaskLine(name, desc)))
  {
    MarkDoneRewritesSuffix(Fields(name, desc));
    NewTaskLineEndsPending(name, desc);
    MarkDoneMakesDone(NewTaskLine(name, desc));
  }

  /** A line built from two fields without a newline is storable. */
  lemma LineWellFormed(n: string, d: string)
    requires '\n' !in n && '\n' !in d
    ensures WellFormed(n + Separator + d + PendingSuffix)
  {
    assert '\n' !in Separator && '\n' !in PendingSuffix;
  }

  /** A line built from two input lines is storable. */
  lemma NewTaskLineWellFormed(name: string, desc: string)
    requires IsInputLine(name) && IsInputLine(desc)
    ensures WellFormed(NewTaskLine(name, desc))
  {
    TrimSpaceDropsFinalNewline(name);
    TrimSpaceDropsFinalNewline(desc);
    LineWellFormed(TrimSpace(name), TrimSpace(desc));
  }
}
