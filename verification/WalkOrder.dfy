/** In which order the walk goes through a directory: its own entries first, then its subdirectories, last one first. */
module WalkOrder {
  import opened Seqs
  import opened Walk
  import opened WalkPaths
  import opened Wrappers

  /** What is done below the first n entries. */
  ghost function BelowFirst(tree: Tree, limits: Limits, f: Frame, entries: seq<Entry>, n: nat): seq<Action>
    requires f.depth <= limits.maxDepth && n <= |entries|
  {
    VisitStack(tree, limits, Children(limits, f, entries, n), f.depth + 1)
  }

  /** The last of them first. */
  lemma BelowLast(tree: Tree, limits: Limits, f: Frame, entries: seq<Entry>, n: nat)
    returns (all: seq<Action>, top: seq<Action>, rest: seq<Action>)
    requires f.depth <= limits.maxDepth && 0 < n <= |entries|
    ensures all == BelowFirst(tree, limits, f, entries, n) == top + rest
    ensures rest == BelowFirst(tree, limits, f, entries, n - 1)
    ensures Descends(limits, f, entries[n - 1]) ==> top == Visit(tree, limits, ChildFrame(f, entries[n - 1]))
  {
    all, rest := BelowFirst(tree, limits, f, entries, n), BelowFirst(tree, limits, f, entries, n - 1);
    top := if Descends(limits, f, entries[n - 1]) then Visit(tree, limits, ChildFrame(f, entries[n - 1])) else [];
  }

  lemma {:induction false} BelowFirstEnds(tree: Tree, limits: Limits, f: Frame, entries: seq<Entry>, n: nat, m: nat)
    returns (all: seq<Action>, before: seq<Action>, after: seq<Action>)
    requires f.depth <= limits.maxDepth && m <= n <= |entries|
    ensures all == BelowFirst(tree, limits, f, entries, n) && after == BelowFirst(tree, limits, f, entries, m)
    ensures all == before + after
    decreases n
  {
    all, before := BelowFirst(tree, limits, f, entries, n), [];
    after := all;
    if m < n {
      var top, rest;
      all, top, rest := BelowLast(tree, limits, f, entries, n);
      rest, before, after := BelowFirstEnds(tree, limits, f, entries, n - 1, m);
      Regroup([], top, before, after);
      before := top + before;
    }
  }

  /** Everything below entry `j` comes before everything below the directories listed before it. */
  lemma BelowEntry(tree: Tree, limits: Limits, f: Frame, entries: seq<Entry>, n: nat, j: nat)
    returns (all: seq<Action>, before: seq<Action>, below: seq<Action>, after: seq<Action>)
    requires f.depth <= limits.maxDepth && j < n <= |entries| && Descends(limits, f, entries[j])
    ensures all == BelowFirst(tree, limits, f, entries, n) && after == BelowFirst(tree, limits, f, entries, j)
    ensures below == Visit(tree, limits, ChildFrame(f, entries[j]))
    ensures all == before + below + after
  {
    var rest;
    all, before, rest := BelowFirstEnds(tree, limits, f, entries, n, j + 1);
    rest, below, after := BelowLast(tree, limits, f, entries, j + 1);
    Regroup([], before, below, after);
  }

  lemma Whole(tree: Tree, limits: Limits, f: Frame, entries: seq<Entry>)
    returns (whole: seq<Action>, first: seq<Action>, rest: seq<Action>)
    requires f.depth <= limits.maxDepth && tree(f.dir).Some? && entries == Kept(limits, tree(f.dir).value)
    ensures whole == Visit(tree, limits, f) && first == Here(tree, limits, f) && whole == first + rest
    ensures rest == BelowFirst(tree, limits, f, entries, |entries|)
  {
    whole, first := Visit(tree, limits, f), Here(tree, limits, f);
    rest := VisitStack(tree, limits, Subdirs(tree, limits, f), f.depth + 1);
  }

  lemma BothEntries(tree: Tree, limits: Limits, f: Frame, entries: seq<Entry>, k: nat, l: nat, fk: Frame, fl: Frame)
    returns (a: seq<Action>, b: seq<Action>, c: seq<Action>, later: seq<Action>, earlier: seq<Action>,
             whole: seq<Action>, first: seq<Action>)
    requires f.depth <= limits.maxDepth && tree(f.dir).Some? && entries == Kept(limits, tree(f.dir).value)
    requires k < l < |entries| && Descends(limits, f, entries[k]) && Descends(limits, f, entries[l])
    requires fk == ChildFrame(f, entries[k]) && fl == ChildFrame(f, entries[l])
    ensures whole == Visit(tree, limits, f) && first == Here(tree, limits, f)
    ensures fl.depth <= limits.maxDepth && later == Visit(tree, limits, fl)
    ensures fk.depth <= limits.maxDepth && earlier == Visit(tree, limits, fk)
    ensures whole == first + a + later + b + earlier + c
  {
    var inside, rest, below;
    whole, first, inside := Whole(tree, limits, f, entries);
    below, a, later, rest := BelowEntry(tree, limits, f, entries, |entries|, l);
    below, b, earlier, c := BelowEntry(tree, limits, f, entries, l, k);
    InOrder(first, a, later, rest, b, earlier, c, whole);
  }

  lemma InOrder(first: seq<Action>, a: seq<Action>, later: seq<Action>, rest: seq<Action>, b: seq<Action>,
                earlier: seq<Action>, c: seq<Action>, all: seq<Action>)
    requires all == first + (a + later + rest) && rest == b + earlier + c
    ensures all == first + a + later + b + earlier + c
  {
  }

  /** Entry i of a listing is looked at, and is this directory, which the walk goes into. */
  ghost predicate Opens(limits: Limits, f: Frame, raw: seq<Entry>, i: nat, child: Frame) {
    && LooksAt(limits, raw, i) && raw[i].node.Directory? && raw[i].node.opens.None?
    && !limits.neverDir(raw[i].name, Below(f.rel, raw[i].name)) && f.depth < limits.maxDepth
    && child == Frame(raw[i].node.id, Below(f.rel, raw[i].name), f.depth + 1)
  }

  lemma KeptPlaces(limits: Limits, f: Frame, raw: seq<Entry>, i: nat, j: nat, fi: Frame, fj: Frame)
    returns (entries: seq<Entry>, k: nat, l: nat)
    requires i < j && Opens(limits, f, raw, i, fi) && Opens(limits, f, raw, j, fj)
    ensures entries == Kept(limits, raw) && k < l < |entries|
    ensures Descends(limits, f, entries[k]) && Descends(limits, f, entries[l])
    ensures fi == ChildFrame(f, entries[k]) && fj == ChildFrame(f, entries[l])
  {
    var at := KeptExactly(limits, raw);
    entries := Kept(limits, raw);
    k :| k < |at| && at[k] == i;
    l :| l < |at| && at[l] == j;
  }

  /**
   Of two directories the walk looks at and goes into, the one listed later comes first, whole, before anything
   below the other; what the directory itself gives comes before both.
   */
  lemma LaterListedFirst(tree: Tree, limits: Limits, f: Frame, raw: seq<Entry>, i: nat, j: nat, fi: Frame, fj: Frame)
    returns (a: seq<Action>, b: seq<Action>, c: seq<Action>)
    requires tree(f.dir) == Some(raw) && i < j && Opens(limits, f, raw, i, fi) && Opens(limits, f, raw, j, fj)
    ensures Visit(tree, limits, f) ==
            Here(tree, limits, f) + a + Visit(tree, limits, fj) + b + Visit(tree, limits, fi) + c
  {
    var entries, k, l := KeptPlaces(limits, f, raw, i, j, fi, fj);
    var later, earlier, whole, first;
    a, b, c, later, earlier, whole, first := BothEntries(tree, limits, f, entries, k, l, fi, fj);
  }
}
