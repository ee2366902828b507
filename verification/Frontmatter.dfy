/** Stripping a leading YAML frontmatter block: a substring search against a reading line by line. */
module Frontmatter {
  import opened Markers
  import opened Text
  import opened Wrappers

  const FENCE := "---"
  const FENCE_LINE := "---\n"

  // ---------------------------------------------------------------------------------------------
  // Line by line
  // ---------------------------------------------------------------------------------------------

  /** What follows the first line that is exactly the fence. */
  function AfterFenceLine(text: string): Option<string> {
    var end := IndexOf(text, '\n');
    var rest := if end < |text| then text[end + 1..] else "";
    if text[..end] == FENCE then Some(rest)
    else if end < |text| then AfterFenceLine(rest)
    else None
  }

  /** The intended meaning: an opening fence line, and a later closing one. */
  function Stripped(input: string): string {
    if FENCE_LINE <= input
    then
      var after := AfterFenceLine(input[4..]);
      if after.Some? then after.value else input
    else input
  }

  // ---------------------------------------------------------------------------------------------
  // Fences by position
  // ---------------------------------------------------------------------------------------------

  predicate LineStart(text: string, p: nat)
    requires p <= |text|
  {
    p == 0 || text[p - 1] == '\n'
  }

  predicate Dashes(text: string, p: nat) {
    p + 3 <= |text| && text[p] == '-' && text[p + 1] == '-' && text[p + 2] == '-'
  }

  /** A whole line at `p` is the fence. */
  predicate FenceAt(text: string, p: nat) {
    Dashes(text, p) && LineStart(text, p) && (p + 3 == |text| || text[p + 3] == '\n')
  }

  predicate NoFenceIn(text: string, lo: nat, hi: nat) {
    forall p :: lo <= p < hi ==> !FenceAt(text, p)
  }

  lemma FenceChars(text: string, p: nat)
    ensures HasAt(text, p, FENCE) <==> Dashes(text, p)
    ensures HasAt(text, p, FENCE_LINE) <==> Dashes(text, p) && p + 3 < |text| && text[p + 3] == '\n'
  {
    HasAtChars(text, p, FENCE);
    HasAtChars(text, p, FENCE_LINE);
    assert FENCE_LINE[0] == FENCE_LINE[1] == FENCE_LINE[2] == '-' && FENCE_LINE[3] == '\n';
  }

  /** The first line is the fence exactly when there is one at 0. */
  lemma FirstLineIsFence(text: string)
    ensures text[..IndexOf(text, '\n')] == FENCE <==> FenceAt(text, 0)
    ensures FenceAt(text, 0) ==> IndexOf(text, '\n') == 3
  {
    var end := IndexOf(text, '\n');
    assert forall i :: 0 <= i < end ==> text[i] == text[..end][i] != '\n';
    assert end == 3 && Dashes(text, 0) ==> text[..end] == FENCE;
    assert text[..end] == FENCE ==> end == 3 && text[0] == FENCE[0] && text[1] == FENCE[1] && text[2] == FENCE[2];
  }

  /** Beyond a newline, fences are those of the remaining lines. */
  lemma FenceShift(text: string, start: nat, q: nat)
    requires 0 < start <= |text| && text[start - 1] == '\n'
    ensures FenceAt(text, start + q) <==> FenceAt(text[start..], q)
  {
    var rest := text[start..];
    assert forall i :: 0 <= i < |rest| ==> rest[i] == text[start + i];
    if q > 0 && q <= |rest| {
      assert rest[q - 1] == text[start + q - 1];
    }
  }

  lemma NoFenceInsideLine(text: string, p: nat)
    requires 0 < p <= IndexOf(text, '\n')
    ensures !FenceAt(text, p)
  {
    assert text[p - 1] in text[..IndexOf(text, '\n')];
  }

  lemma RestHasNoFence(text: string, start: nat, q: nat)
    requires 0 < start && start + q <= |text| && text[start - 1] == '\n' && NoFenceIn(text, 0, start + q)
    ensures NoFenceIn(text[start..], 0, q)
  {
    forall r | 0 <= r < q ensures !FenceAt(text[start..], r) {
      FenceShift(text, start, r);
    }
  }

  lemma FenceMoves(text: string, start: nat, p: nat, rest: string, q: nat)
    requires FenceAt(text, p) && NoFenceIn(text, 0, p)
    requires 0 < start <= p && text[start - 1] == '\n' && rest == text[start..] && q == p - start
    ensures FenceAt(rest, q) && NoFenceIn(rest, 0, q)
  {
    FenceShift(text, start, q);
    RestHasNoFence(text, start, q);
  }

  /** What is left after a fence line at `p`. */
  function Beyond(text: string, p: nat): string {
    if p + 4 <= |text| then text[p + 4..] else ""
  }

  lemma BeyondShift(text: string, start: nat, q: nat)
    requires start <= |text|
    ensures Beyond(text[start..], q) == Beyond(text, start + q)
  {
    if start + q + 4 <= |text| {
      assert text[start..][q + 4..] == text[start + q + 4..];
    }
  }

  lemma FenceFirst(text: string)
    requires FenceAt(text, 0)
    ensures AfterFenceLine(text) == Some(Beyond(text, 0))
  {
    FirstLineIsFence(text);
  }

  lemma OtherLine(text: string)
    requires !FenceAt(text, 0)
    ensures var end := IndexOf(text, '\n');
            AfterFenceLine(text) == if end < |text| then AfterFenceLine(text[end + 1..]) else None
  {
    FirstLineIsFence(text);
  }

  /** A fence beyond the first line is one of the rest, with that line skipped. */
  lemma SecondLine(text: string, p: nat) returns (rest: string, q: nat)
    requires 0 < p && FenceAt(text, p) && NoFenceIn(text, 0, p)
    ensures q < p && FenceAt(rest, q) && NoFenceIn(rest, 0, q)
    ensures AfterFenceLine(text) == AfterFenceLine(rest) && Beyond(text, p) == Beyond(rest, q)
  {
    var end := IndexOf(text, '\n');
    if p <= end {
      NoFenceInsideLine(text, p);
    }
    rest, q := text[end + 1..], p - end - 1;
    FenceMoves(text, end + 1, p, rest, q);
    BeyondShift(text, end + 1, q);
    OtherLine(text);
  }

  lemma {:induction false} AfterFirstFence(text: string, p: nat)
    requires FenceAt(text, p) && NoFenceIn(text, 0, p)
    ensures AfterFenceLine(text) == Some(Beyond(text, p))
    decreases p
  {
    if p == 0 {
      FenceFirst(text);
    } else {
      var rest, q := SecondLine(text, p);
      AfterFirstFence(rest, q);
    }
  }

  lemma {:induction false} NoFenceNoLine(text: string)
    requires NoFenceIn(text, 0, |text|)
    ensures AfterFenceLine(text) == None
  {
    var end := IndexOf(text, '\n');
    OtherLine(text);
    if end < |text| {
      RestHasNoFence(text, end + 1, |text| - end - 1);
      NoFenceNoLine(text[end + 1..]);
    }
  }

  // ---------------------------------------------------------------------------------------------
  // What is stripped, by position
  // ---------------------------------------------------------------------------------------------

  /** From `p` on, after the opening line, there is a line of exactly three dashes. */
  ghost predicate ClosesAt(input: string, p: nat) {
    && 4 <= p && p + 3 <= |input| && input[p - 1] == '\n'
    && input[p] == '-' && input[p + 1] == '-' && input[p + 2] == '-' && (p + 3 < |input| ==> input[p + 3] == '\n')
  }

  lemma ClosesIsFence(input: string, q: nat)
    requires "---\n" <= input
    ensures ClosesAt(input, q + 4) <==> FenceAt(input[4..], q)
  {
    assert input[3] == "---\n"[3];
    assert q < |input[4..]| ==> input[4..][q] == input[q + 4];
    assert 0 < q <= |input[4..]| ==> input[4..][q - 1] == input[q + 3];
  }

  /** An opened block is cut after the first line of three dashes, with its newline if it has one. */
  lemma StrippedAfterFence(input: string, p: nat)
    requires "---\n" <= input && ClosesAt(input, p) && forall q :: 0 <= q < p ==> !ClosesAt(input, q)
    ensures Stripped(input) == if p + 4 <= |input| then input[p + 4..] else ""
  {
    forall q | 0 <= q < p - 4 ensures !FenceAt(input[4..], q) {
      ClosesIsFence(input, q);
    }
    ClosesIsFence(input, p - 4);
    AfterFirstFence(input[4..], p - 4);
    BeyondShift(input, 4, p - 4);
  }

  /** Without an opening line of three dashes, or without a closing one, nothing is cut. */
  lemma StrippedNothing(input: string)
    requires "---\n" <= input ==> forall q :: 0 <= q < |input| ==> !ClosesAt(input, q)
    ensures Stripped(input) == input
  {
    if "---\n" <= input {
      forall q | 0 <= q < |input[4..]| ensures !FenceAt(input[4..], q) {
        ClosesIsFence(input, q);
      }
      NoFenceNoLine(input[4..]);
    }
  }

  // ---------------------------------------------------------------------------------------------
  // The search loop
  // ---------------------------------------------------------------------------------------------

  /** `str::find`: the leftmost occurrence. */
  function Find(s: string, pat: string): (r: Option<nat>)
    ensures r.Some? ==> HasAt(s, r.value, pat) && forall i :: 0 <= i < r.value ==> !HasAt(s, i, pat)
    ensures r.None? ==> forall i :: 0 <= i <= |s| ==> !HasAt(s, i, pat)
  {
    FindFrom(s, pat, 0)
  }

  function FindFrom(s: string, pat: string, from: nat): (r: Option<nat>)
    requires from <= |s|
    ensures r.Some? ==>
              from <= r.value && HasAt(s, r.value, pat) && forall i :: from <= i < r.value ==> !HasAt(s, i, pat)
    ensures r.None? ==> forall i :: from <= i <= |s| ==> !HasAt(s, i, pat)
    decreases |s| - from
  {
    if HasAt(s, from, pat) then Some(from)
    else if from == |s| then None
    else FindFrom(s, pat, from + 1)
  }

  lemma FenceInSlice(text: string, from: nat, i: nat)
    requires from <= |text|
    ensures HasAt(text[from..], i, FENCE) <==> Dashes(text, from + i)
    ensures HasAt(text[from..], i, FENCE_LINE)
            <==> Dashes(text, from + i) && from + i + 3 < |text| && text[from + i + 3] == '\n'
  {
    FenceChars(text[from..], i);
  }

  /** No fence line starts before or inside the leftmost fence-and-newline that is not one. */
  lemma SkipFourIsSafe(text: string, from: nat, rel: nat)
    requires from <= |text| && Find(text[from..], FENCE_LINE) == Some(rel) && NoFenceIn(text, 0, from)
    ensures from + rel + 4 <= |text|
    ensures NoFenceIn(text, 0, from + rel)
    ensures FenceAt(text, from + rel) <==> LineStart(text, from + rel)
    ensures !LineStart(text, from + rel) ==> NoFenceIn(text, 0, from + rel + 4)
  {
    var abs := from + rel;
    FenceInSlice(text, from, rel);
    forall p | 0 <= p < abs ensures !FenceAt(text, p) {
      if from <= p {
        FenceInSlice(text, from, p - from);
      }
    }
  }

  /** With no fence-and-newline ahead, only the very end can hold a fence, and skipping three keeps it. */
  lemma SkipThreeIsSafe(text: string, from: nat, rel: nat)
    requires from <= |text| && Find(text[from..], FENCE_LINE).None? && NoFenceIn(text, 0, from)
    requires Find(text[from..], FENCE) == Some(rel)
    ensures from + rel + 3 <= |text|
    ensures NoFenceIn(text, 0, from + rel)
    ensures FenceAt(text, from + rel) <==> LineStart(text, from + rel) && from + rel + 3 == |text|
    ensures !FenceAt(text, from + rel) ==> NoFenceIn(text, 0, from + rel + 3)
  {
    var abs := from + rel;
    FenceInSlice(text, from, rel);
    forall p | 0 <= p < abs ensures !FenceAt(text, p) {
      if from <= p {
        FenceInSlice(text, from, p - from);
      }
    }
  }

  lemma NothingAhead(text: string, from: nat)
    requires from <= |text| && Find(text[from..], FENCE).None? && NoFenceIn(text, 0, from)
    ensures NoFenceIn(text, 0, |text|)
  {
    forall p | from <= p < |text| ensures !FenceAt(text, p) {
      FenceInSlice(text, from, p - from);
    }
  }

  lemma SkipFour(text: string, from: nat, rel: nat) returns (start: nat)
    requires from <= |text| && Find(text[from..], FENCE_LINE) == Some(rel) && NoFenceIn(text, 0, from)
    ensures start == from + rel && start + 4 <= |text|
    ensures if LineStart(text, start) then AfterFenceLine(text) == Some(text[start + 4..])
            else NoFenceIn(text, 0, start + 4)
  {
    start := from + rel;
    SkipFourIsSafe(text, from, rel);
    if LineStart(text, start) {
      AfterFirstFence(text, start);
    }
  }

  /** A fence and a newline, at `rel` from where the search stands: a fence line, or text to skip. */
  method AtFenceLine(text: string, from: nat, rel: nat) returns (found: bool, next: nat)
    requires from <= |text| && Find(text[from..], FENCE_LINE) == Some(rel) && NoFenceIn(text, 0, from)
    ensures from < next <= |text|
    ensures if found then AfterFenceLine(text) == Some(text[next..]) else NoFenceIn(text, 0, next)
  {
    ghost var start := SkipFour(text, from, rel);
    var abs := from + rel;
    found, next := LineStart(text, abs), abs + 4;
  }

  /** A fence with no newline-terminated one ahead: the last line, or text to skip. */
  method AtFence(text: string, from: nat, rel: nat) returns (found: bool, next: nat)
    requires from <= |text| && Find(text[from..], FENCE_LINE).None? && NoFenceIn(text, 0, from)
    requires Find(text[from..], FENCE) == Some(rel)
    ensures from < next <= |text|
    ensures if found then AfterFenceLine(text) == Some("") else NoFenceIn(text, 0, next)
  {
    var abs := from + rel;
    SkipThreeIsSafe(text, from, rel);
    found, next := LineStart(text, abs) && abs + 3 == |text|, abs + 3;
    if found {
      AfterFirstFence(text, abs);
    }
  }

  /** The search loop reads frontmatter exactly as a line reader would, on every input. */
  method StripFrontmatter(input: string) returns (out: string)
    ensures out == Stripped(input)
  {
    if !(FENCE_LINE <= input) {
      return input;
    }
    var afterOpen := input[4..];
    var searchFrom := 0;
    while true
      invariant searchFrom <= |afterOpen| && NoFenceIn(afterOpen, 0, searchFrom)
      decreases |afterOpen| - searchFrom
    {
      var found, next;
      var slice := afterOpen[searchFrom..];
      var line := Find(slice, FENCE_LINE);
      if line.Some? {
        found, next := AtFenceLine(afterOpen, searchFrom, line.value);
        if found {
          return afterOpen[next..];
        }
      } else {
        var fence := Find(slice, FENCE);
        if fence.None? {
          NothingAhead(afterOpen, searchFrom);
          NoFenceNoLine(afterOpen);
          return input;
        }
        found, next := AtFence(afterOpen, searchFrom, fence.value);
        if found {
          return "";
        }
      }
      searchFrom := next;
    }
  }
}
