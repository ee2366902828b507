/**
 The safe walk of one grant: an explicit stack of open directories over a directory graph that may be
 cyclic, with never-touch filters, depth, entry and size caps, a wall-clock budget and inode dedup.

 A run is described by its trace of actions. The recursive specification gives the trace of the whole
 walk; the stack loop performs it, or a prefix of it when the clock runs out or a directory cannot be read.
 */
module Walk {
  import opened Seqs
  import opened Wrappers

  datatype OpenResult = Opened | OpenTooLarge | Refused(why: string)

  datatype Node =
    | Symlink
    | Directory(id: nat, opens: Option<string>)
    | Regular(inode: nat, size: nat, open: OpenResult)
    | Special
    | StatFails(why: string)

  datatype Entry = Entry(name: string, node: Node)

  /** What reading a directory yields, in readdir order; `None` if it cannot be read. */
  type Tree = nat -> Option<seq<Entry>>

  /**
   The never-touch filters, the byte cap by file name, the depth and entry caps, and the entry positions
   at which a directory's loop reads the clock (every 16384th in the source).
   */
  datatype Limits = Limits(neverDir: (string, string) -> bool, neverFile: string -> bool, capOf: string -> nat,
                           maxDepth: nat, maxEntries: nat, readsClock: nat -> bool)

  datatype Frame = Frame(dir: nat, rel: string, depth: nat)

  datatype Action =
    | Skipped(path: string, reason: string)
    | Failed(path: string, why: string)
    | Found(path: string, inode: nat)
    | ReadError(path: string)

  function Child(rel: string, name: string): string {
    if rel == "" then name else rel + "/" + name
  }

  // ---------------------------------------------------------------------------------------------
  // One directory
  // ---------------------------------------------------------------------------------------------

  function Dotless(raw: seq<Entry>, n: nat): seq<Entry>
    requires n <= |raw|
  {
    if n == 0 then []
    else if raw[n - 1].name == "." || raw[n - 1].name == ".." then Dotless(raw, n - 1)
    else Dotless(raw, n - 1) + [raw[n - 1]]
  }

  /** The entries the walk looks at: everything but the dot entries, up to the cap. */
  function Kept(limits: Limits, raw: seq<Entry>): seq<Entry> {
    var all := Dotless(raw, |raw|);
    if |all| <= limits.maxEntries then all else all[..limits.maxEntries]
  }

  function CapNote(limits: Limits, f: Frame, raw: seq<Entry>): seq<Action> {
    if |Dotless(raw, |raw|)| <= limits.maxEntries then [] else [Skipped(f.rel, "directory entry cap exceeded")]
  }

  predicate Descends(limits: Limits, f: Frame, e: Entry) {
    && e.node.Directory? && !limits.neverDir(e.name, Child(f.rel, e.name))
    && f.depth + 1 <= limits.maxDepth && e.node.opens.None?
  }

  predicate Ingestible(limits: Limits, e: Entry) {
    && e.node.Regular? && !limits.neverFile(e.name) && e.node.open.Opened?
    && e.node.size <= limits.capOf(e.name)
  }

  function EntryActions(limits: Limits, f: Frame, e: Entry): (actions: seq<Action>)
    ensures |actions| <= 1
    ensures forall a :: a in actions && a.Found? ==>
              Ingestible(limits, e) && a == Found(Child(f.rel, e.name), e.node.inode)
    ensures Ingestible(limits, e) ==> actions == [Found(Child(f.rel, e.name), e.node.inode)]
  {
    var path := Child(f.rel, e.name);
    match e.node
    case StatFails(why) => [Skipped(path, "stat failed: " + why)]
    case Symlink => []
    case Special => []
    case Directory(_, opens) =>
      if limits.neverDir(e.name, path) then [Skipped(path, "never-touch dir")]
      else if f.depth + 1 > limits.maxDepth then [Skipped(path, "max depth exceeded")]
      else if opens.Some? then [Skipped(path, "dir open refused: " + opens.value)]
      else []
    case Regular(inode, size, open) =>
      if limits.neverFile(e.name) then [Skipped(path, "never-touch file")]
      else match open
        case OpenTooLarge => [Skipped(path, "oversize")]
        case Refused(why) => [Failed(path, why)]
        case Opened => if size > limits.capOf(e.name) then [Skipped(path, "oversize")] else [Found(path, inode)]
  }

  /** The actions of the first n entries, and the directories among them, in order. */
  function Actions(limits: Limits, f: Frame, entries: seq<Entry>, n: nat): seq<Action>
    requires n <= |entries|
  {
    if n == 0 then [] else Actions(limits, f, entries, n - 1) + EntryActions(limits, f, entries[n - 1])
  }

  function ChildFrame(f: Frame, e: Entry): Frame
    requires e.node.Directory?
  {
    Frame(e.node.id, Child(f.rel, e.name), f.depth + 1)
  }

  /** The open directories still to visit; the source keeps them in a vector it pushes to and pops from. */
  datatype Stack = Empty | Push(top: Frame, below: Stack)

  function Onto(above: Stack, below: Stack): Stack {
    match above
    case Empty => below
    case Push(f, rest) => Push(f, Onto(rest, below))
  }

  predicate Within(limits: Limits, stack: Stack, depth: nat) {
    stack.Push? ==> depth <= stack.top.depth <= limits.maxDepth && Within(limits, stack.below, depth)
  }

  function Children(limits: Limits, f: Frame, entries: seq<Entry>, n: nat): (frames: Stack)
    requires n <= |entries|
    ensures Within(limits, frames, f.depth + 1)
  {
    if n == 0 then Empty
    else if Descends(limits, f, entries[n - 1]) then
      Push(ChildFrame(f, entries[n - 1]), Children(limits, f, entries, n - 1))
    else Children(limits, f, entries, n - 1)
  }

  function Subdirs(tree: Tree, limits: Limits, f: Frame): (frames: Stack)
    ensures Within(limits, frames, f.depth + 1)
  {
    match tree(f.dir)
    case None => Empty
    case Some(raw) => Children(limits, f, Kept(limits, raw), |Kept(limits, raw)|)
  }

  function Listing(limits: Limits, f: Frame, raw: seq<Entry>): seq<Action> {
    CapNote(limits, f, raw) + Actions(limits, f, Kept(limits, raw), |Kept(limits, raw)|)
  }

  /** What the walk does in the directory itself. */
  function Here(tree: Tree, limits: Limits, f: Frame): seq<Action> {
    match tree(f.dir)
    case None => [ReadError(f.rel)]
    case Some(raw) => Listing(limits, f, raw)
  }

  // ---------------------------------------------------------------------------------------------
  // The recursive specification
  // ---------------------------------------------------------------------------------------------

  /** A directory, then its subdirectories, last one first. */
  ghost function Visit(tree: Tree, limits: Limits, f: Frame): seq<Action>
    requires f.depth <= limits.maxDepth
    decreases limits.maxDepth + 1 - f.depth, 0, Empty
  {
    Here(tree, limits, f) + VisitStack(tree, limits, Subdirs(tree, limits, f), f.depth + 1)
  }

  ghost function VisitStack(tree: Tree, limits: Limits, stack: Stack, depth: nat): seq<Action>
    requires depth <= limits.maxDepth + 1 && Within(limits, stack, depth)
    decreases limits.maxDepth + 1 - depth, 1, stack
  {
    match stack
    case Empty => []
    case Push(f, below) => Visit(tree, limits, f) + VisitStack(tree, limits, below, depth)
  }

  /** How many directories a walk of the directory opens: each counts once for every route to it. */
  ghost function WorkIn(tree: Tree, limits: Limits, f: Frame): nat
    requires f.depth <= limits.maxDepth
    decreases limits.maxDepth + 1 - f.depth, 0, Empty
  {
    1 + Work(tree, limits, Subdirs(tree, limits, f), f.depth + 1)
  }

  ghost function Work(tree: Tree, limits: Limits, stack: Stack, depth: nat): nat
    requires depth <= limits.maxDepth + 1 && Within(limits, stack, depth)
    decreases limits.maxDepth + 1 - depth, 1, stack
  {
    match stack
    case Empty => 0
    case Push(f, below) => WorkIn(tree, limits, f) + Work(tree, limits, below, depth)
  }

  lemma {:induction false} WithinOnto(limits: Limits, above: Stack, below: Stack, d: nat)
    requires Within(limits, below, 0) && Within(limits, above, d)
    ensures Within(limits, Onto(above, below), 0)
  {
    match above
    case Empty =>
    case Push(f, rest) => WithinOnto(limits, rest, below, d);
  }

  /** Frames pushed on a stack are visited before what lies below; the depth argument only bounds the recursion. */
  lemma {:induction false} VisitSplits(tree: Tree, limits: Limits, above: Stack, below: Stack, d: nat)
    requires d <= limits.maxDepth + 1 && Within(limits, below, 0) && Within(limits, above, d)
    requires Within(limits, Onto(above, below), 0)
    ensures VisitStack(tree, limits, Onto(above, below), 0) ==
            VisitStack(tree, limits, above, d) + VisitStack(tree, limits, below, 0)
  {
    match above
    case Empty =>
    case Push(f, rest) =>
      VisitSplits(tree, limits, rest, below, d);
      Regroup([], Visit(tree, limits, f), VisitStack(tree, limits, rest, d), VisitStack(tree, limits, below, 0));
  }

  lemma {:induction false} WorkSplits(tree: Tree, limits: Limits, above: Stack, below: Stack, d: nat)
    requires d <= limits.maxDepth + 1 && Within(limits, below, 0) && Within(limits, above, d)
    requires Within(limits, Onto(above, below), 0)
    ensures Work(tree, limits, Onto(above, below), 0) == Work(tree, limits, above, d) + Work(tree, limits, below, 0)
  {
    match above
    case Empty =>
    case Push(f, rest) =>
      WorkSplits(tree, limits, rest, below, d);
  }

  // ---------------------------------------------------------------------------------------------
  // What a trace leaves in the report and in the sink
  // ---------------------------------------------------------------------------------------------

  function Inodes(trace: seq<Action>): set<nat> {
    set a | a in trace && a.Found? :: a.inode
  }

  /** The finds whose inode was not seen before. */
  function Sunk(trace: seq<Action>, seen: set<nat>): (sunk: seq<Action>)
  {
    if trace == [] then [] else
      var before, last := trace[..|trace| - 1], trace[|trace| - 1];
      if last.Found? && last.inode !in seen + Inodes(before) then Sunk(before, seen) + [last] else Sunk(before, seen)
  }

  function Skips(trace: seq<Action>): seq<Action> {
    if trace == [] then []
    else if trace[|trace| - 1].Skipped? then Skips(trace[..|trace| - 1]) + [trace[|trace| - 1]]
    else Skips(trace[..|trace| - 1])
  }

  function Failures(trace: seq<Action>): seq<Action> {
    if trace == [] then []
    else if trace[|trace| - 1].Failed? then Failures(trace[..|trace| - 1]) + [trace[|trace| - 1]]
    else Failures(trace[..|trace| - 1])
  }

  /** The k-th action finds an inode that was neither seen before the walk nor found earlier in it. */
  ghost predicate FirstFind(trace: seq<Action>, seen: set<nat>, k: nat) {
    k < |trace| && trace[k].Found? && trace[k].inode !in seen
    && forall j :: 0 <= j < k && trace[j].Found? ==> trace[j].inode != trace[k].inode
  }

  ghost predicate FirstFound(trace: seq<Action>, seen: set<nat>, a: Action) {
    exists k: nat :: FirstFind(trace, seen, k) && trace[k] == a
  }

  /** Each inode found and not seen before is sunk exactly once, at its first find, and nothing else is. */
  lemma SunkOnce(trace: seq<Action>, seen: set<nat>)
    ensures var sunk := Sunk(trace, seen);
            && (forall a :: a in sunk <==> FirstFound(trace, seen, a))
            && (forall a :: a in sunk ==> a in trace && a.Found?)
            && Inodes(sunk) == Inodes(trace) - seen
            && (forall i, j :: 0 <= i < j < |sunk| ==> sunk[i].inode != sunk[j].inode)
  {
    forall a ensures a in Sunk(trace, seen) <==> FirstFound(trace, seen, a) {
      SunkAtFirst(trace, seen, a);
    }
    SunkMembers(trace, seen);
    SunkInodes(trace, seen);
    SunkApart(trace, seen);
  }

  lemma {:induction false} SunkAtFirst(trace: seq<Action>, seen: set<nat>, a: Action)
    ensures a in Sunk(trace, seen) <==> FirstFound(trace, seen, a)
  {
    if trace != [] {
      SunkAtFirst(trace[..|trace| - 1], seen, a);
      LastIsFirst(trace, seen);
      FirstFoundLast(trace, seen, a);
    }
  }

  /** A first find is one of the shorter trace, or the last action. */
  lemma FirstFoundLast(trace: seq<Action>, seen: set<nat>, a: Action)
    requires trace != []
    ensures var n: nat := |trace| - 1;
            FirstFound(trace, seen, a) <==>
              FirstFound(trace[..n], seen, a) || (FirstFind(trace, seen, n) && trace[n] == a)
  {
    var n: nat := |trace| - 1;
    if FirstFound(trace[..n], seen, a) {
      var k: nat :| FirstFind(trace[..n], seen, k) && trace[..n][k] == a;
      assert FirstFind(trace, seen, k) && trace[k] == a;
    }
    if FirstFound(trace, seen, a) {
      var k: nat :| FirstFind(trace, seen, k) && trace[k] == a;
      if k < n {
        assert FirstFind(trace[..n], seen, k) && trace[..n][k] == a;
      }
    }
  }

  lemma InodesAt(trace: seq<Action>, inode: nat)
    ensures inode in Inodes(trace) <==> exists j :: 0 <= j < |trace| && trace[j].Found? && trace[j].inode == inode
  {
  }

  lemma LastIsFirst(trace: seq<Action>, seen: set<nat>)
    requires trace != []
    ensures var n: nat := |trace| - 1;
            FirstFind(trace, seen, n) <==> trace[n].Found? && trace[n].inode !in seen + Inodes(trace[..n])
  {
    var n := |trace| - 1;
    if trace[n].Found? {
      InodesAt(trace[..n], trace[n].inode);
      assert forall j :: 0 <= j < n ==> trace[..n][j] == trace[j];
    }
  }

  lemma {:induction false} SunkMembers(trace: seq<Action>, seen: set<nat>)
    ensures forall a :: a in Sunk(trace, seen) ==> a in trace && a.Found?
  {
    if trace != [] {
      SunkMembers(trace[..|trace| - 1], seen);
    }
  }

  lemma {:induction false} SunkInodes(trace: seq<Action>, seen: set<nat>)
    ensures Inodes(Sunk(trace, seen)) == Inodes(trace) - seen
  {
    if trace != [] {
      var before, last := trace[..|trace| - 1], trace[|trace| - 1];
      SunkInodes(before, seen);
      assert trace == before + [last];
      InodesAppend(before, last);
      InodesAppend(Sunk(before, seen), last);
    }
  }

  lemma {:induction false} SunkApart(trace: seq<Action>, seen: set<nat>)
    ensures DistinctInodes(Sunk(trace, seen))
  {
    if trace != [] {
      var before, last := trace[..|trace| - 1], trace[|trace| - 1];
      SunkApart(before, seen);
      SunkInodes(before, seen);
      if last.Found? && last.inode !in seen + Inodes(before) {
        DistinctSnoc(Sunk(before, seen), last);
      }
    }
  }

  ghost predicate DistinctInodes(sunk: seq<Action>) {
    forall i, j :: 0 <= i < j < |sunk| && sunk[i].Found? && sunk[j].Found? ==> sunk[i].inode != sunk[j].inode
  }

  lemma DistinctSnoc(sunk: seq<Action>, a: Action)
    requires DistinctInodes(sunk) && a.Found? && a.inode !in Inodes(sunk)
    ensures DistinctInodes(sunk + [a])
  {
    assert forall i :: 0 <= i < |sunk| && sunk[i].Found? ==> sunk[i].inode in Inodes(sunk);
  }

  lemma InodesAppend(trace: seq<Action>, a: Action)
    ensures Inodes(trace + [a]) == Inodes(trace) + (if a.Found? then {a.inode} else {})
  {
    var all := trace + [a];
    assert forall b :: b in all <==> b in trace || b == a;
    if a.Found? {
      assert a in all && a.inode in Inodes(all);
    }
  }

  // ---------------------------------------------------------------------------------------------
  // The stack loop
  // ---------------------------------------------------------------------------------------------

  /** Every directory gone into could be read. */
  ghost predicate ReadsAll(trace: seq<Action>) {
    forall a :: a in trace ==> !a.ReadError?
  }

  datatype Outcome = Finished | BudgetSpent | Unreadable

  datatype Sink = Sink(sunk: seq<Action>, seen: set<nat>, skipped: seq<Action>, failed: seq<Action>)

  function Put(s: Sink, a: Action): Sink {
    match a
    case Skipped(_, _) => s.(skipped := s.skipped + [a])
    case Failed(_, _) => s.(failed := s.failed + [a])
    case Found(_, inode) => if inode in s.seen then s else s.(sunk := s.sunk + [a], seen := s.seen + {inode})
    case ReadError(_) => s
  }

  /** The sink and report after performing a trace, one action at a time. */
  function Collect(trace: seq<Action>, seen: set<nat>): Sink {
    if trace == [] then Sink([], seen, [], []) else Put(Collect(trace[..|trace| - 1], seen), trace[|trace| - 1])
  }

  /** They hold the first find of every new inode, the inodes seen, and the skips and failures in order. */
  lemma {:induction false} CollectHolds(trace: seq<Action>, seen: set<nat>)
    ensures Collect(trace, seen) == Sink(Sunk(trace, seen), seen + Inodes(trace), Skips(trace), Failures(trace))
  {
    if trace == [] {
      assert Inodes(trace) == {};
    } else {
      var before := trace[..|trace| - 1];
      assert trace == before + [trace[|trace| - 1]];
      CollectHolds(before, seen);
      InodesAppend(before, trace[|trace| - 1]);
    }
  }

  method ReadEntries(limits: Limits, f: Frame, raw: seq<Entry>) returns (entries: seq<Entry>, capped: bool)
    ensures entries == Kept(limits, raw)
    ensures capped <==> CapNote(limits, f, raw) != []
  {
    entries, capped := [], false;
    for i := 0 to |raw|
      invariant entries == Dotless(raw, i) && |entries| <= limits.maxEntries
    {
      if raw[i].name == "." || raw[i].name == ".." {
        continue;
      }
      if |entries| >= limits.maxEntries {
        capped := true;
        DotlessGrows(raw, i + 1, |raw|);
        return;
      }
      entries := entries + [raw[i]];
    }
  }

  lemma {:induction false} DotlessGrows(raw: seq<Entry>, n: nat, m: nat)
    requires n <= m <= |raw|
    ensures Dotless(raw, n) <= Dotless(raw, m)
    decreases m - n
  {
    if n < m {
      DotlessGrows(raw, n, m - 1);
    }
  }

  const BUDGET_NOTE := "wall-clock budget exceeded"

  /** The `ticks`-th read of the clock finds the budget spent; time only moves on, and `None` never expires. */
  predicate Expired(deadline: Option<nat>, ticks: nat) {
    deadline.Some? && ticks >= deadline.value
  }

  class Walker {
    var sink: Sink
    var ticks: nat
    var stack: Stack
    ghost var trace: seq<Action>

    constructor (seen: set<nat>)
      ensures sink == Sink([], seen, [], []) && ticks == 0 && stack == Empty && trace == []
    {
      sink, ticks, stack, trace := Sink([], seen, [], []), 0, Empty, [];
    }

    method CheckClock(deadline: Option<nat>) returns (expired: bool)
      modifies this`ticks
      ensures expired == Expired(deadline, old(ticks)) && ticks == old(ticks) + 1
    {
      expired := Expired(deadline, ticks);
      ticks := ticks + 1;
    }

    method Perform(a: Action, ghost seen: set<nat>)
      requires sink == Collect(trace, seen)
      modifies this`sink, this`trace
      ensures sink == Collect(trace, seen) && trace == old(trace) + [a]
    {
      assert (trace + [a])[..|trace|] == trace;
      sink := Put(sink, a);
      trace := trace + [a];
    }

    /** One entry: record what it gives, and push it if it is a directory to descend into. */
    method Look(limits: Limits, f: Frame, e: Entry, ghost seen: set<nat>)
      requires sink == Collect(trace, seen)
      modifies this`sink, this`trace, this`stack
      ensures sink == Collect(trace, seen)
      ensures trace == old(trace) + EntryActions(limits, f, e)
      ensures stack == if Descends(limits, f, e) then Push(ChildFrame(f, e), old(stack)) else old(stack)
    {
      var actions := EntryActions(limits, f, e);
      if actions != [] {
        Perform(actions[0], seen);
      }
      assert trace == old(trace) + actions;
      if Descends(limits, f, e) {
        stack := Push(ChildFrame(f, e), stack);
      }
    }

    /** The last read of the clock, if there was one since `before`, decided. */
    ghost predicate ClockDecides(deadline: Option<nat>, before: nat, spent: bool)
      reads this
    {
      before <= ticks && (spent <==> before < ticks && Expired(deadline, ticks - 1))
    }

    /** The entries of one directory; `spent` when the clock ran out after the first n of them. */
    method Enter(limits: Limits, f: Frame, entries: seq<Entry>, deadline: Option<nat>, ghost seen: set<nat>,
                 ghost start: seq<Action>, ghost base: Stack)
      returns (spent: bool, ghost n: nat)
      requires Entered(limits, f, entries, 0, seen, start, base)
      modifies this
      ensures n <= |entries| && Entered(limits, f, entries, n, seen, start, base)
      ensures !spent ==> n == |entries|
      ensures ClockDecides(deadline, old(ticks), spent)
    {
      n, spent := 0, false;
      for i := 0 to |entries|
        invariant n == i && !spent && Entered(limits, f, entries, n, seen, start, base)
        invariant ClockDecides(deadline, old(ticks), spent)
      {
        spent := EnterTurn(limits, f, entries, i, deadline, seen, start, base);
        if spent {
          break;
        }
        n := i + 1;
      }
    }

    /** One turn of that loop. */
    method EnterTurn(limits: Limits, f: Frame, entries: seq<Entry>, i: nat, deadline: Option<nat>, ghost seen: set<nat>,
                     ghost start: seq<Action>, ghost base: Stack)
      returns (spent: bool)
      requires i < |entries| && Entered(limits, f, entries, i, seen, start, base)
      modifies this
      ensures Entered(limits, f, entries, if spent then i else i + 1, seen, start, base)
      ensures ClockDecides(deadline, old(ticks), spent)
    {
      spent := Glance(limits, i, deadline);
      if !spent {
        EnterOne(limits, f, entries, i, seen, start, base);
      }
    }

    /** The clock is read only at some of the entries. */
    method Glance(limits: Limits, i: nat, deadline: Option<nat>) returns (spent: bool)
      modifies this`ticks
      ensures ClockDecides(deadline, old(ticks), spent)
    {
      spent := false;
      if limits.readsClock(i) {
        spent := CheckClock(deadline);
      }
    }

    /** The first n entries have been gone through. */
    ghost predicate Entered(limits: Limits, f: Frame, entries: seq<Entry>, n: nat, seen: set<nat>,
                            start: seq<Action>, base: Stack)
      requires n <= |entries|
      reads this
    {
      sink == Collect(trace, seen)
      && trace == start + Actions(limits, f, entries, n)
      && stack == Onto(Children(limits, f, entries, n), base)
    }

    method EnterOne(limits: Limits, f: Frame, entries: seq<Entry>, i: nat, ghost seen: set<nat>,
                    ghost start: seq<Action>, ghost base: Stack)
      requires i < |entries| && Entered(limits, f, entries, i, seen, start, base)
      modifies this`sink, this`trace, this`stack
      ensures Entered(limits, f, entries, i + 1, seen, start, base)
    {
      EnterStep(limits, f, entries, i, start, base);
      Look(limits, f, entries[i], seen);
    }

    /** The report notes where the budget ran out. */
    method NoteBudget(f: Frame, ghost seen: set<nat>)
      requires sink == Collect(trace, seen)
      modifies this`sink, this`trace
      ensures sink == Collect(trace, seen) && trace == old(trace) + [Skipped(f.rel, BUDGET_NOTE)]
    {
      Perform(Skipped(f.rel, BUDGET_NOTE), seen);
    }

    /** A readable directory: collect its entries up to the cap, then go through them. */
    method List(limits: Limits, f: Frame, raw: seq<Entry>, deadline: Option<nat>, ghost seen: set<nat>)
      returns (spent: bool)
      requires sink == Collect(trace, seen)
      modifies this
      ensures sink == Collect(trace, seen)
      ensures !spent ==> trace == old(trace) + Listing(limits, f, raw)
      ensures !spent ==> stack == Onto(Children(limits, f, Kept(limits, raw), |Kept(limits, raw)|), old(stack))
      ensures spent ==> StoppedWithin(f, trace, old(trace), old(trace) + Listing(limits, f, raw))
      ensures ClockDecides(deadline, old(ticks), spent)
    {
      ghost var start := trace;
      var entries := Collected(limits, f, raw, seen);
      ghost var noted, n := trace, 0;
      spent, n := Enter(limits, f, entries, deadline, seen, trace, stack);
      CutShort(limits, f, raw, start, noted, n, trace);
      if spent {
        StopNoted(f, trace, start, start + Listing(limits, f, raw));
        NoteBudget(f, seen);
      }
    }

    /** The entries of a directory, with a note if there are more than the cap. */
    method Collected(limits: Limits, f: Frame, raw: seq<Entry>, ghost seen: set<nat>) returns (entries: seq<Entry>)
      requires sink == Collect(trace, seen)
      modifies this`sink, this`trace
      ensures entries == Kept(limits, raw) && trace == old(trace) + CapNote(limits, f, raw)
      ensures Entered(limits, f, entries, 0, seen, trace, stack)
    {
      var capped;
      entries, capped := ReadEntries(limits, f, raw);
      if capped {
        Perform(Skipped(f.rel, "directory entry cap exceeded"), seen);
      }
    }

    /** One popped directory: check the clock, read it, and go through its entries. */
    method VisitDirectory(tree: Tree, limits: Limits, f: Frame, deadline: Option<nat>, ghost seen: set<nat>)
      returns (outcome: Outcome)
      requires sink == Collect(trace, seen)
      modifies this
      ensures sink == Collect(trace, seen)
      ensures ReadsAll(old(trace)) ==> ReadsAll(trace)
      ensures match outcome
              case Finished =>
                trace == old(trace) + Here(tree, limits, f)
                && stack == Onto(Subdirs(tree, limits, f), old(stack))
              case BudgetSpent => StoppedWithin(f, trace, old(trace), old(trace) + Here(tree, limits, f))
              case Unreadable => trace == old(trace) && Here(tree, limits, f) == [ReadError(f.rel)]
      ensures old(ticks) < ticks && (outcome.BudgetSpent? <==> Expired(deadline, ticks - 1))
    {
      var expired := CheckClock(deadline);
      if expired {
        NoteBudget(f, seen);
        return BudgetSpent;
      }
      var raw := tree(f.dir);
      if raw.None? {
        return Unreadable;
      }
      ghost var start := trace;
      var spent := List(limits, f, raw.value, deadline, seen);
      if ReadsAll(start) {
        ListingReads(limits, f, raw.value, start, trace);
      }
      outcome := if spent then BudgetSpent else Finished;
    }

    /**
     `walk_grant` once the root is open. It performs the whole recursive walk, unless some directory cannot
     be read or a read of the clock finds the budget spent: then a prefix of it, in the second case with a
     note where it stopped. It ends on cyclic graphs too: the number of directories still to open strictly
     decreases.
     */
    method Walk(tree: Tree, limits: Limits, rootDir: nat, deadline: Option<nat>, ghost seen: set<nat>)
      returns (outcome: Outcome)
      requires sink == Sink([], seen, [], []) && ticks == 0 && trace == []
      modifies this
      ensures sink == Sink(Sunk(trace, seen), seen + Inodes(trace), Skips(trace), Failures(trace))
      ensures var full := Visit(tree, limits, Frame(rootDir, "", 0));
              match outcome
              case Finished => trace == full
              case BudgetSpent => StoppedIn(trace, full)
              case Unreadable => exists rel :: trace + [ReadError(rel)] <= full
      ensures 0 < ticks && (outcome.BudgetSpent? <==> Expired(deadline, ticks - 1))
      ensures ReadsAll(trace)
    {
      ghost var full := Visit(tree, limits, Frame(rootDir, "", 0));
      stack := Push(Frame(rootDir, "", 0), Empty);
      outcome := Finished;
      while stack.Push?
        invariant outcome.Finished? && Within(limits, stack, 0) && sink == Collect(trace, seen)
        invariant trace + VisitStack(tree, limits, stack, 0) == full && ReadsAll(trace)
        invariant if ticks == 0 then stack == Push(Frame(rootDir, "", 0), Empty) else !Expired(deadline, ticks - 1)
        decreases Work(tree, limits, stack, 0)
      {
        var f, below := stack.top, stack.below;
        TurnSplits(tree, limits, f, below, trace);
        stack := below;
        ghost var was := trace;
        outcome := VisitDirectory(tree, limits, f, deadline, seen);
        if !outcome.Finished? {
          StoppedPart(f, trace, was, was + Here(tree, limits, f), full);
          break;
        }
      }
      CollectHolds(trace, seen);
    }
  }

  /** The trace goes on from `start` along `whole`, and then notes that the budget ran out in this directory. */
  ghost predicate StoppedWithin(f: Frame, trace: seq<Action>, start: seq<Action>, whole: seq<Action>) {
    trace != [] && trace[|trace| - 1] == Skipped(f.rel, BUDGET_NOTE)
    && start <= trace[..|trace| - 1] <= whole
  }

  ghost predicate StoppedIn(trace: seq<Action>, full: seq<Action>) {
    exists f :: StoppedWithin(f, trace, [], full)
  }

  lemma StoppedPart(f: Frame, trace: seq<Action>, start: seq<Action>, whole: seq<Action>, full: seq<Action>)
    requires whole <= full
    ensures StoppedWithin(f, trace, start, whole) ==> StoppedIn(trace, full)
  {
    if StoppedWithin(f, trace, start, whole) {
      assert StoppedWithin(f, trace, [], full);
    }
  }

  lemma EnterStep(limits: Limits, f: Frame, entries: seq<Entry>, i: nat, start: seq<Action>, base: Stack)
    requires i < |entries|
    ensures start + Actions(limits, f, entries, i + 1) ==
            start + Actions(limits, f, entries, i) + EntryActions(limits, f, entries[i])
    ensures Onto(Children(limits, f, entries, i + 1), base) ==
            var pushed := Onto(Children(limits, f, entries, i), base);
            if Descends(limits, f, entries[i]) then Push(ChildFrame(f, entries[i]), pushed) else pushed
  {
  }

  lemma {:induction false} ActionsGrow(limits: Limits, f: Frame, entries: seq<Entry>, n: nat, m: nat)
    requires n <= m <= |entries|
    ensures Actions(limits, f, entries, n) <= Actions(limits, f, entries, m)
    decreases m - n
  {
    if n < m {
      ActionsGrow(limits, f, entries, n, m - 1);
    }
  }

  lemma {:induction false} ActionsRead(limits: Limits, f: Frame, entries: seq<Entry>, n: nat)
    requires n <= |entries|
    ensures ReadsAll(Actions(limits, f, entries, n))
  {
    if n > 0 {
      ActionsRead(limits, f, entries, n - 1);
      EntryReads(limits, f, entries[n - 1]);
      ReadsBoth(Actions(limits, f, entries, n - 1), EntryActions(limits, f, entries[n - 1]));
    }
  }

  lemma EntryReads(limits: Limits, f: Frame, e: Entry)
    ensures ReadsAll(EntryActions(limits, f, e))
  {
  }

  lemma ReadsBoth(a: seq<Action>, b: seq<Action>)
    requires ReadsAll(a) && ReadsAll(b)
    ensures ReadsAll(a + b)
  {
  }

  /** What is done in a readable directory, whole or cut short, adds no read error. */
  lemma ListingReads(limits: Limits, f: Frame, raw: seq<Entry>, start: seq<Action>, trace: seq<Action>)
    requires ReadsAll(start)
    requires trace == start + Listing(limits, f, raw) || StoppedWithin(f, trace, start, start + Listing(limits, f, raw))
    ensures ReadsAll(trace)
  {
    var whole := start + Listing(limits, f, raw);
    ActionsRead(limits, f, Kept(limits, raw), |Kept(limits, raw)|);
    assert ReadsAll(whole);
    if trace != whole {
      var part := trace[..|trace| - 1];
      assert forall i :: 0 <= i < |part| ==> part[i] == whole[i];
      assert trace == part + [trace[|trace| - 1]];
    }
  }

  /** One turn of the loop over the specification: the directory's own actions, its subdirectories, the rest. */
  lemma TurnSplits(tree: Tree, limits: Limits, f: Frame, below: Stack, start: seq<Action>)
    requires f.depth <= limits.maxDepth && Within(limits, below, 0)
    ensures var subdirs := Subdirs(tree, limits, f);
            && Within(limits, Onto(subdirs, below), 0)
            && start + VisitStack(tree, limits, Push(f, below), 0)
               == (start + Here(tree, limits, f)) + VisitStack(tree, limits, Onto(subdirs, below), 0)
            && Work(tree, limits, Onto(subdirs, below), 0) < Work(tree, limits, Push(f, below), 0)
  {
    WithinOnto(limits, Subdirs(tree, limits, f), below, f.depth + 1);
    TurnWorks(tree, limits, f, below);
    TurnVisits(tree, limits, f, below, start);
  }

  lemma TurnWorks(tree: Tree, limits: Limits, f: Frame, below: Stack)
    requires f.depth <= limits.maxDepth && Within(limits, below, 0)
    requires Within(limits, Onto(Subdirs(tree, limits, f), below), 0)
    ensures Work(tree, limits, Onto(Subdirs(tree, limits, f), below), 0) < Work(tree, limits, Push(f, below), 0)
  {
    WorkSplits(tree, limits, Subdirs(tree, limits, f), below, f.depth + 1);
  }

  lemma TurnVisits(tree: Tree, limits: Limits, f: Frame, below: Stack, start: seq<Action>)
    requires f.depth <= limits.maxDepth && Within(limits, below, 0)
    requires Within(limits, Onto(Subdirs(tree, limits, f), below), 0)
    ensures start + VisitStack(tree, limits, Push(f, below), 0)
         == (start + Here(tree, limits, f)) + VisitStack(tree, limits, Onto(Subdirs(tree, limits, f), below), 0)
  {
    var here, inside, after, pushed, onto := TurnParts(tree, limits, f, below);
    Regroup(start, here, inside, after);
    assert start + pushed == (start + here) + onto;
  }

  lemma TurnParts(tree: Tree, limits: Limits, f: Frame, below: Stack)
    returns (here: seq<Action>, inside: seq<Action>, after: seq<Action>, pushed: seq<Action>, onto: seq<Action>)
    requires f.depth <= limits.maxDepth && Within(limits, below, 0)
    requires Within(limits, Onto(Subdirs(tree, limits, f), below), 0)
    ensures here == Here(tree, limits, f) && pushed == VisitStack(tree, limits, Push(f, below), 0)
    ensures onto == VisitStack(tree, limits, Onto(Subdirs(tree, limits, f), below), 0)
    ensures pushed == (here + inside) + after && onto == inside + after
  {
    here, pushed := Here(tree, limits, f), VisitStack(tree, limits, Push(f, below), 0);
    inside := VisitStack(tree, limits, Subdirs(tree, limits, f), f.depth + 1);
    after := VisitStack(tree, limits, below, 0);
    onto := VisitStack(tree, limits, Onto(Subdirs(tree, limits, f), below), 0);
    VisitSplits(tree, limits, Subdirs(tree, limits, f), below, f.depth + 1);
  }

  /** What the clock cuts short inside one directory is a prefix of what the walk does there. */
  lemma CutShort(limits: Limits, f: Frame, raw: seq<Entry>, start: seq<Action>, noted: seq<Action>, n: nat,
                 trace: seq<Action>)
    requires n <= |Kept(limits, raw)| && noted == start + CapNote(limits, f, raw)
    requires trace == noted + Actions(limits, f, Kept(limits, raw), n)
    ensures start <= trace <= start + Listing(limits, f, raw)
    ensures n == |Kept(limits, raw)| ==> trace == start + Listing(limits, f, raw)
  {
    var entries := Kept(limits, raw);
    ActionsGrow(limits, f, entries, n, |entries|);
    var whole := Actions(limits, f, entries, |entries|);
    assert noted + whole == start + (CapNote(limits, f, raw) + whole);
  }

  lemma StopNoted(f: Frame, part: seq<Action>, start: seq<Action>, whole: seq<Action>)
    requires start <= part <= whole
    ensures StoppedWithin(f, part + [Skipped(f.rel, BUDGET_NOTE)], start, whole)
  {
    assert (part + [Skipped(f.rel, BUDGET_NOTE)])[..|part|] == part;
  }
}
