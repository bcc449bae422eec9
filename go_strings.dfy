/**
 * The behaviour of the few functions of Go's `strings` package that the task
 * tracker relies on: `strings.Index` (through `Contains` and `Replace`),
 * `strings.Contains`, `strings.Replace` with a count of 1, and
 * `strings.TrimSpace`. Strings are sequences of characters (runes).
 */
module GoStrings {
  import opened Wrappers

  /** `p` occurs in `s` starting at index `i`. */
  predicate OccursAt(s: string, p: string, i: nat) {
    i + |p| <= |s| && s[i..i + |p|] == p
  }

  /** The first index at or after `from` where `p` occurs in `s`. */
  function IndexFrom(s: string, p: string, from: nat): (r: Option<nat>)
    ensures r.Some? ==> from <= r.value && OccursAt(s, p, r.value)
    ensures r.Some? ==> forall j: nat | from <= j < r.value :: !OccursAt(s, p, j)
    ensures r.None? ==> forall j: nat | from <= j :: !OccursAt(s, p, j)
    decreases |s| - from
  {
    if from + |p| > |s| then None
    else if s[from..from + |p|] == p then Some(from)
    else IndexFrom(s, p, from + 1)
  }

  /** strings.Index: the first occurrence of `p` in `s`, if any. */
  function IndexOf(s: string, p: string): (r: Option<nat>)
    ensures r.Some? ==> OccursAt(s, p, r.value)
    ensures r.Some? ==> forall j: nat | j < r.value :: !OccursAt(s, p, j)
    ensures r.None? ==> forall j: nat :: !OccursAt(s, p, j)
  {
    IndexFrom(s, p, 0)
  }

  /** strings.Contains: `p` occurs somewhere in `s`. */
  predicate Contains(s: string, p: string)
    ensures Contains(s, p) <==> exists j: nat :: OccursAt(s, p, j)
  {
    IndexOf(s, p).Some?
  }

  /** An occurrence of `p` inside a part of `s` is an occurrence in `s`. */
  lemma OccursInConcat(a: string, b: string, p: string, i: nat)
    ensures OccursAt(a, p, i) ==> OccursAt(a + b, p, i)
    ensures OccursAt(b, p, i) ==> OccursAt(a + b, p, |a| + i)
  {
    if OccursAt(a, p, i) {
      assert (a + b)[i..i + |p|] == a[i..i + |p|];
    }
    if OccursAt(b, p, i) {
      assert (a + b)[|a| + i..|a| + i + |p|] == b[i..i + |p|];
    }
  }

  /** strings.Replace(s, pat, rep, 1): the first occurrence of `pat` becomes `rep`. */
  function ReplaceFirst(s: string, pat: string, rep: string): (r: string)
    ensures !Contains(s, pat) ==> r == s
    ensures Contains(s, pat) ==> |r| == |s| - |pat| + |rep|
  {
    match IndexOf(s, pat)
    case None => s
    case Some(i) => s[..i] + rep + s[i + |pat|..]
  }

  /** ReplaceFirst splices `rep` in at the first occurrence, wherever that is. */
  lemma ReplaceFirstAt(s: string, pat: string, rep: string, i: nat)
    requires OccursAt(s, pat, i)
    requires forall j: nat | j < i :: !OccursAt(s, pat, j)
    ensures ReplaceFirst(s, pat, rep) == s[..i] + rep + s[i + |pat|..]
  {
    var k := IndexOf(s, pat);
    assert k.Some? && k.value == i;
  }

  /** The white-space runes of unicode.IsSpace, which strings.TrimSpace removes. */
  const WhiteSpace: set<char> := {
    '\t', '\n', '\U{000B}', '\U{000C}', '\r', ' ', '\U{0085}', '\U{00A0}', '\U{1680}',
    '\U{2000}', '\U{2001}', '\U{2002}', '\U{2003}', '\U{2004}', '\U{2005}',
    '\U{2006}', '\U{2007}', '\U{2008}', '\U{2009}', '\U{200A}',
    '\U{2028}', '\U{2029}', '\U{202F}', '\U{205F}', '\U{3000}'
  }

  predicate IsSpace(c: char) {
    c in WhiteSpace
  }

  /** The number of white-space runes at the start of `s`. */
  function CountLeading(s: string): (n: nat)
    ensures n <= |s|
    ensures forall k | 0 <= k < n :: IsSpace(s[k])
    ensures n < |s| ==> !IsSpace(s[n])
  {
    if s == [] || !IsSpace(s[0]) then 0 else 1 + CountLeading(s[1..])
  }

  /** The number of white-space runes at the end of `s`. */
  function CountTrailing(s: string): (n: nat)
    ensures n <= |s|
    ensures forall k | |s| - n <= k < |s| :: IsSpace(s[k])
    ensures n < |s| ==> !IsSpace(s[|s| - n - 1])
  {
    if s == [] || !IsSpace(s[|s| - 1]) then 0 else 1 + CountTrailing(s[..|s| - 1])
  }

  /** Where the trimmed text starts in `s`. */
  function TrimStart(s: string): nat {
    CountLeading(s)
  }

  /** Where the trimmed text ends in `s`; all white space when it meets the start. */
  function TrimEnd(s: string): (j: nat)
    ensures TrimStart(s) <= j <= |s|
  {
    |s| - CountTrailing(s[TrimStart(s)..])
  }

  /**
   * strings.TrimSpace: `s` with its leading and trailing white space removed;
   * the result neither starts nor ends with white space.
   */
  function TrimSpace(s: string): (r: string)
    ensures |r| <= |s|
    ensures r != [] ==> !IsSpace(r[0]) && !IsSpace(r[|r| - 1])
  {
    var t := s[TrimStart(s)..];
    assert t != [] ==> !IsSpace(t[0]);
    t[..|t| - CountTrailing(t)]
  }

  /** TrimSpace returns the slice of `s` that only white space surrounds. */
  lemma TrimSpaceIsSlice(s: string)
    ensures TrimSpace(s) == s[TrimStart(s)..TrimEnd(s)]
    ensures forall k | 0 <= k < TrimStart(s) :: IsSpace(s[k])
    ensures forall k | TrimEnd(s) <= k < |s| :: IsSpace(s[k])
  {
    var i := TrimStart(s);
    var t := s[i..];
    forall k | TrimEnd(s) <= k < |s|
      ensures IsSpace(s[k])
    {
      assert s[k] == t[k - i];
    }
  }

  /** Trimming twice trims nothing more. */
  lemma TrimSpaceIdempotent(s: string)
    ensures TrimSpace(TrimSpace(s)) == TrimSpace(s)
  {
    var r := TrimSpace(s);
    assert CountLeading(r) == 0;
    assert r[0..] == r;
    assert CountTrailing(r) == 0;
  }

  /** A newline can survive TrimSpace only if it is not at the end of `s`. */
  lemma TrimSpaceDropsFinalNewline(s: string)
    requires forall k | 0 <= k < |s| - 1 :: s[k] != '\n'
    ensures '\n' !in TrimSpace(s)
  {
    var r := TrimSpace(s);
    var i := TrimStart(s);
    TrimSpaceIsSlice(s);
    forall k | 0 <= k < |r|
      ensures r[k] != '\n'
    {
      if k < |r| - 1 {
        assert r[k] == s[i + k] && i + k < |s| - 1;
      }
    }
  }
}
