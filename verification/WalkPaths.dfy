/**
 Which files the walk finds, and under which paths: exactly the admissible ones, and no path twice.
 */
module WalkPaths {
  import opened Seqs
  import opened Walk

  // ---------------------------------------------------------------------------------------------
  // What the whole walk finds
  // ---------------------------------------------------------------------------------------------

  /** The directories a stack holds. */
  function Frames(stack: Stack): set<Frame> {
    match stack
    case Empty => {}
    case Push(f, below) => {f} + Frames(below)
  }

  predicate IsDots(name: string) {
    name == "." || name == ".."
  }

  /** The entries among the first n of a listing, whatever their kind, that are not the two dot entries. */
  function RealBefore(raw: seq<Entry>, n: nat): nat
    requires n <= |raw|
  {
    if n == 0 then 0 else RealBefore(raw, n - 1) + if IsDots(raw[n - 1].name) then 0 else 1
  }

  /** The walk looks at entry i of a listing: it is not a dot entry, and fewer than the cap of others come first. */
  predicate LooksAt(limits: Limits, raw: seq<Entry>, i: nat) {
    i < |raw| && !IsDots(raw[i].name) && RealBefore(raw, i) < limits.maxEntries
  }

  /** An entry of the directory that the walk looks at. */
  ghost predicate Has(tree: Tree, limits: Limits, f: Frame, e: Entry) {
    tree(f.dir).Some? && exists i: nat :: LooksAt(limits, tree(f.dir).value, i) && tree(f.dir).value[i] == e
  }

  /** Their positions. */
  function RealAt(raw: seq<Entry>, n: nat): (at: seq<nat>)
    requires n <= |raw|
    ensures |at| == RealBefore(raw, n)
  {
    if n == 0 then [] else RealAt(raw, n - 1) + if IsDots(raw[n - 1].name) then [] else [n - 1]
  }

  lemma {:induction false} RealAtIs(raw: seq<Entry>, n: nat, k: nat)
    requires n <= |raw| && k < RealBefore(raw, n)
    ensures var i := RealAt(raw, n)[k]; i < n && !IsDots(raw[i].name) && RealBefore(raw, i) == k
    ensures |Dotless(raw, n)| == RealBefore(raw, n) && Dotless(raw, n)[k] == raw[RealAt(raw, n)[k]]
  {
    DotlessLength(raw, n - 1);
    if k < RealBefore(raw, n - 1) {
      RealAtIs(raw, n - 1, k);
    }
  }

  lemma {:induction false} DotlessLength(raw: seq<Entry>, n: nat)
    requires n <= |raw|
    ensures |Dotless(raw, n)| == RealBefore(raw, n)
  {
    if n > 0 {
      DotlessLength(raw, n - 1);
    }
  }

  lemma {:induction false} RealAtHas(raw: seq<Entry>, n: nat, i: nat)
    requires i < n <= |raw| && !IsDots(raw[i].name)
    ensures RealBefore(raw, i) < RealBefore(raw, n) && RealAt(raw, n)[RealBefore(raw, i)] == i
  {
    if i < n - 1 {
      RealAtHas(raw, n - 1, i);
    }
  }

  lemma {:induction false} RealAtRises(raw: seq<Entry>, n: nat, k: nat, l: nat)
    requires n <= |raw| && k < l < RealBefore(raw, n)
    ensures RealAt(raw, n)[k] < RealAt(raw, n)[l]
  {
    if l < RealBefore(raw, n - 1) {
      RealAtRises(raw, n - 1, k, l);
    } else {
      RealAtIs(raw, n - 1, k);
    }
  }

  /** The walk looks at exactly those entries, each once, in the order of the listing. */
  lemma KeptExactly(limits: Limits, raw: seq<Entry>) returns (at: seq<nat>)
    ensures |at| == |Kept(limits, raw)|
    ensures forall k :: 0 <= k < |at| ==> LooksAt(limits, raw, at[k]) && Kept(limits, raw)[k] == raw[at[k]]
    ensures forall k, l :: 0 <= k < l < |at| ==> at[k] < at[l]
    ensures forall i: nat :: LooksAt(limits, raw, i) ==> i in at
  {
    var n := |raw|;
    DotlessLength(raw, n);
    at := RealAt(raw, n);
    if |at| > limits.maxEntries {
      at := at[..limits.maxEntries];
    }
    forall k | 0 <= k < |at|
      ensures LooksAt(limits, raw, at[k]) && Kept(limits, raw)[k] == raw[at[k]]
    {
      RealAtIs(raw, n, k);
    }
    forall k, l | 0 <= k < l < |at|
      ensures at[k] < at[l]
    {
      RealAtRises(raw, n, k, l);
    }
    forall i: nat | LooksAt(limits, raw, i)
      ensures i in at
    {
      RealAtHas(raw, n, i);
      assert at[RealBefore(raw, i)] == i;
    }
  }

  lemma HasIsKept(tree: Tree, limits: Limits, f: Frame)
    ensures forall e :: Has(tree, limits, f, e) <==> tree(f.dir).Some? && e in Kept(limits, tree(f.dir).value)
  {
    if tree(f.dir).Some? {
      var raw := tree(f.dir).value;
      var at := KeptExactly(limits, raw);
      forall e
        ensures Has(tree, limits, f, e) <==> e in Kept(limits, raw)
      {
        if i: nat :| LooksAt(limits, raw, i) && raw[i] == e {
          var k :| 0 <= k < |at| && at[k] == i;
          assert Kept(limits, raw)[k] == e;
        }
        if k :| 0 <= k < |at| && Kept(limits, raw)[k] == e {
          assert LooksAt(limits, raw, at[k]) && raw[at[k]] == e;
        }
      }
    }
  }

  /**
   A route of names leads from the directory to a regular file with this inode: every name but the last is
   a directory that is not never-touch, opens, and keeps the depth within the limit; the last is a file that
   is not never-touch, opens, and is within its byte cap.
   */
  ghost predicate Admits(tree: Tree, limits: Limits, f: Frame, route: seq<string>, inode: nat)
    decreases |route|
  {
    if |route| == 0 then false
    else if |route| == 1 then
      exists e :: Has(tree, limits, f, e) && e.name == route[0]
                  && e.node.Regular? && e.node.inode == inode && !limits.neverFile(e.name)
                  && e.node.open.Opened? && e.node.size <= limits.capOf(e.name)
    else
      exists e :: Has(tree, limits, f, e) && e.name == route[0]
                  && e.node.Directory? && e.node.opens.None? && f.depth + 1 <= limits.maxDepth
                  && !limits.neverDir(e.name, Below(f.rel, e.name))
                  && Admits(tree, limits, Frame(e.node.id, Below(f.rel, e.name), f.depth + 1), route[1..], inode)
  }

  /** A name below a directory. */
  function Below(rel: string, name: string): string {
    if rel == "" then name else rel + "/" + name
  }

  function PathOf(rel: string, route: seq<string>): string
    decreases |route|
  {
    if route == [] then rel else PathOf(Below(rel, route[0]), route[1..])
  }

  lemma {:induction false} InStack(tree: Tree, limits: Limits, stack: Stack, d: nat, a: Action)
    requires d <= limits.maxDepth + 1 && Within(limits, stack, d)
    ensures forall g :: g in Frames(stack) ==> d <= g.depth <= limits.maxDepth
    ensures a in VisitStack(tree, limits, stack, d) <==> DoneIn(tree, limits, stack, a)
  {
    match stack
    case Empty =>
    case Push(f, below) =>
      InStack(tree, limits, below, d, a);
      assert VisitStack(tree, limits, stack, d) == Visit(tree, limits, f) + VisitStack(tree, limits, below, d);
  }

  /** The walk of one of the directories of the stack does it. */
  ghost predicate DoneIn(tree: Tree, limits: Limits, stack: Stack, a: Action) {
    exists g :: g in Frames(stack) && g.depth <= limits.maxDepth && a in Visit(tree, limits, g)
  }

  lemma {:induction false} InChildren(limits: Limits, f: Frame, entries: seq<Entry>, n: nat, c: Frame)
    requires n <= |entries|
    ensures c in Frames(Children(limits, f, entries, n)) <==>
            exists i :: 0 <= i < n && Descends(limits, f, entries[i]) && c == ChildFrame(f, entries[i])
  {
    if n > 0 {
      InChildren(limits, f, entries, n - 1, c);
    }
  }

  lemma {:induction false} InActions(limits: Limits, f: Frame, entries: seq<Entry>, n: nat, a: Action)
    requires n <= |entries|
    ensures a in Actions(limits, f, entries, n) <==> exists i :: 0 <= i < n && a in EntryActions(limits, f, entries[i])
  {
    if n > 0 {
      InActions(limits, f, entries, n - 1, a);
    }
  }

  lemma SubdirsAre(tree: Tree, limits: Limits, f: Frame, c: Frame)
    ensures c in Frames(Subdirs(tree, limits, f)) <==>
            exists e :: Has(tree, limits, f, e) && Descends(limits, f, e) && c == ChildFrame(f, e)
  {
    HasIsKept(tree, limits, f);
    if tree(f.dir).Some? {
      var entries := Kept(limits, tree(f.dir).value);
      InChildren(limits, f, entries, |entries|, c);
      forall e | Has(tree, limits, f, e) && Descends(limits, f, e) && c == ChildFrame(f, e)
        ensures c in Frames(Subdirs(tree, limits, f))
      {
        var i :| 0 <= i < |entries| && entries[i] == e;
      }
    }
  }

  /** The ingestible entries of a directory are found in it, and nothing else is found in it. */
  lemma FoundHere(tree: Tree, limits: Limits, f: Frame, path: string, inode: nat)
    ensures Found(path, inode) in Here(tree, limits, f) <==>
            exists e :: Has(tree, limits, f, e) && Ingestible(limits, e)
                        && e.node.inode == inode && path == Child(f.rel, e.name)
  {
    HasIsKept(tree, limits, f);
    if tree(f.dir).Some? {
      var entries, a := Kept(limits, tree(f.dir).value), Found(path, inode);
      InActions(limits, f, entries, |entries|, a);
      forall e | Has(tree, limits, f, e) && Ingestible(limits, e) && e.node.inode == inode
        && path == Child(f.rel, e.name)
        ensures a in Here(tree, limits, f)
      {
        var i :| 0 <= i < |entries| && entries[i] == e;
        assert a in EntryActions(limits, f, entries[i]);
      }
    }
  }

  /** Why the walk passes over an entry it looks at. */
  ghost predicate PassedOver(limits: Limits, f: Frame, e: Entry, reason: string) {
    match e.node
    case StatFails(why) => reason == "stat failed: " + why
    case Directory(_, opens) =>
      if limits.neverDir(e.name, Below(f.rel, e.name)) then reason == "never-touch dir"
      else if f.depth >= limits.maxDepth then reason == "max depth exceeded"
      else opens.Some? && reason == "dir open refused: " + opens.value
    case Regular(_, size, open) =>
      if limits.neverFile(e.name) then reason == "never-touch file"
      else (open.OpenTooLarge? || (open.Opened? && size > limits.capOf(e.name))) && reason == "oversize"
    case _ => false
  }

  lemma EntrySkips(limits: Limits, f: Frame, e: Entry, path: string, reason: string)
    ensures Skipped(path, reason) in EntryActions(limits, f, e) <==>
            PassedOver(limits, f, e, reason) && path == Below(f.rel, e.name)
  {
  }

  lemma SkippedAmong(limits: Limits, f: Frame, entries: seq<Entry>, path: string, reason: string)
    ensures Skipped(path, reason) in Actions(limits, f, entries, |entries|) <==>
            exists e :: e in entries && PassedOver(limits, f, e, reason) && path == Below(f.rel, e.name)
  {
    var a := Skipped(path, reason);
    InActions(limits, f, entries, |entries|, a);
    forall e
      ensures a in EntryActions(limits, f, e) <==> PassedOver(limits, f, e, reason) && path == Below(f.rel, e.name)
    {
      EntrySkips(limits, f, e, path, reason);
    }
    if e :| e in entries && PassedOver(limits, f, e, reason) && path == Below(f.rel, e.name) {
      var i :| 0 <= i < |entries| && entries[i] == e;
      assert a in EntryActions(limits, f, entries[i]);
    }
  }

  lemma CapNoteIff(limits: Limits, f: Frame, raw: seq<Entry>)
    ensures CapNote(limits, f, raw) ==
            if RealBefore(raw, |raw|) > limits.maxEntries then [Skipped(f.rel, "directory entry cap exceeded")] else []
  {
    DotlessLength(raw, |raw|);
  }

  /** A directory is noted if it has more entries than the cap; besides, every note has its entry, and the reason. */
  lemma SkippedHere(tree: Tree, limits: Limits, f: Frame, path: string, reason: string)
    ensures Skipped(path, reason) in Here(tree, limits, f) <==>
            || (exists e :: Has(tree, limits, f, e) && PassedOver(limits, f, e, reason) && path == Below(f.rel, e.name))
            || (tree(f.dir).Some? && RealBefore(tree(f.dir).value, |tree(f.dir).value|) > limits.maxEntries
                && path == f.rel && reason == "directory entry cap exceeded")
  {
    HasIsKept(tree, limits, f);
    if tree(f.dir).Some? {
      var raw := tree(f.dir).value;
      SkippedAmong(limits, f, Kept(limits, raw), path, reason);
      CapNoteIff(limits, f, raw);
      InBoth(CapNote(limits, f, raw), Actions(limits, f, Kept(limits, raw), |Kept(limits, raw)|),
        Skipped(path, reason));
    }
  }

  lemma InBoth<T>(a: seq<T>, b: seq<T>, x: T)
    ensures x in a + b <==> x in a || x in b
  {
  }

  /** A file that is there but cannot be opened safely is reported as failed, with the reason. */
  lemma FailedHere(tree: Tree, limits: Limits, f: Frame, path: string, why: string)
    ensures Failed(path, why) in Here(tree, limits, f) <==>
            exists e :: Has(tree, limits, f, e) && e.node.Regular? && !limits.neverFile(e.name)
                        && e.node.open == Refused(why) && path == Below(f.rel, e.name)
  {
    HasIsKept(tree, limits, f);
    if tree(f.dir).Some? {
      var entries, a := Kept(limits, tree(f.dir).value), Failed(path, why);
      InActions(limits, f, entries, |entries|, a);
      forall e | Has(tree, limits, f, e) && e.node.Regular? && !limits.neverFile(e.name)
                 && e.node.open == Refused(why) && path == Below(f.rel, e.name)
        ensures a in Here(tree, limits, f)
      {
        var i :| 0 <= i < |entries| && entries[i] == e;
        assert a in EntryActions(limits, f, entries[i]);
      }
    }
  }

  /** An action of the walk is an action in the directory itself or of the walk of a directory it descends to. */
  lemma VisitMember(tree: Tree, limits: Limits, f: Frame, a: Action)
    requires f.depth <= limits.maxDepth
    ensures a in Visit(tree, limits, f) <==>
            a in Here(tree, limits, f) || DoneIn(tree, limits, Subdirs(tree, limits, f), a)
  {
    var here, below := Here(tree, limits, f), VisitStack(tree, limits, Subdirs(tree, limits, f), f.depth + 1);
    assert a in here + below <==> a in here || a in below;
    InStack(tree, limits, Subdirs(tree, limits, f), f.depth + 1, a);
  }

  lemma {:induction false} FoundIsAdmitted(tree: Tree, limits: Limits, f: Frame, path: string, inode: nat)
    returns (route: seq<string>)
    requires f.depth <= limits.maxDepth && Found(path, inode) in Visit(tree, limits, f)
    ensures Admits(tree, limits, f, route, inode) && PathOf(f.rel, route) == path
    decreases limits.maxDepth - f.depth
  {
    var a := Found(path, inode);
    VisitMember(tree, limits, f, a);
    if a in Here(tree, limits, f) {
      FoundHere(tree, limits, f, path, inode);
      var e :| Has(tree, limits, f, e) && Ingestible(limits, e) && e.node.inode == inode
        && path == Child(f.rel, e.name);
      route := [e.name];
      PathStep(f.rel, e.name, []);
    } else {
      var g :| g in Frames(Subdirs(tree, limits, f)) && g.depth <= limits.maxDepth && a in Visit(tree, limits, g);
      SubdirsAre(tree, limits, f, g);
      var e :| Has(tree, limits, f, e) && Descends(limits, f, e) && g == ChildFrame(f, e);
      var rest := FoundIsAdmitted(tree, limits, g, path, inode);
      route := [e.name] + rest;
      PathStep(f.rel, e.name, rest);
      assert route[1..] == rest;
    }
  }

  lemma PathStep(rel: string, name: string, rest: seq<string>)
    ensures PathOf(rel, [name] + rest) == PathOf(Child(rel, name), rest)
  {
    assert ([name] + rest)[1..] == rest;
  }

  /** The entry at the end of an admissible route. */
  lemma AdmittedFile(tree: Tree, limits: Limits, f: Frame, route: seq<string>, inode: nat) returns (e: Entry)
    requires Admits(tree, limits, f, route, inode) && |route| == 1
    ensures Has(tree, limits, f, e) && e.name == route[0] && Ingestible(limits, e) && e.node.inode == inode
  {
    e :| Has(tree, limits, f, e) && e.name == route[0]
         && e.node.Regular? && e.node.inode == inode && !limits.neverFile(e.name)
         && e.node.open.Opened? && e.node.size <= limits.capOf(e.name);
  }

  /** The first directory of a longer one. */
  lemma AdmittedDirectory(tree: Tree, limits: Limits, f: Frame, route: seq<string>, inode: nat) returns (e: Entry)
    requires Admits(tree, limits, f, route, inode) && |route| > 1
    ensures Has(tree, limits, f, e) && e.name == route[0] && Descends(limits, f, e)
    ensures Admits(tree, limits, ChildFrame(f, e), route[1..], inode)
  {
    e :| Has(tree, limits, f, e) && e.name == route[0]
         && e.node.Directory? && e.node.opens.None? && f.depth + 1 <= limits.maxDepth
         && !limits.neverDir(e.name, Below(f.rel, e.name))
         && Admits(tree, limits, Frame(e.node.id, Below(f.rel, e.name), f.depth + 1), route[1..], inode);
  }

  lemma {:induction false} AdmittedIsFound(tree: Tree, limits: Limits, f: Frame, route: seq<string>, inode: nat)
    requires f.depth <= limits.maxDepth && Admits(tree, limits, f, route, inode)
    ensures Found(PathOf(f.rel, route), inode) in Visit(tree, limits, f)
    decreases |route|
  {
    var a := Found(PathOf(f.rel, route), inode);
    assert route == [route[0]] + route[1..];
    PathStep(f.rel, route[0], route[1..]);
    VisitMember(tree, limits, f, a);
    if |route| == 1 {
      var e := AdmittedFile(tree, limits, f, route, inode);
      FoundHere(tree, limits, f, a.path, inode);
    } else {
      var e := AdmittedDirectory(tree, limits, f, route, inode);
      AdmittedIsFound(tree, limits, ChildFrame(f, e), route[1..], inode);
      SubdirsAre(tree, limits, f, ChildFrame(f, e));
    }
  }

  /** The whole walk finds exactly the admissible regular files. */
  lemma WalkFindsAdmissible(tree: Tree, limits: Limits, rootDir: nat, path: string, inode: nat)
    ensures var root := Frame(rootDir, "", 0);
            Found(path, inode) in Visit(tree, limits, root) <==>
            exists route :: Admits(tree, limits, root, route, inode) && PathOf("", route) == path
  {
    var root := Frame(rootDir, "", 0);
    if Found(path, inode) in Visit(tree, limits, root) {
      var route := FoundIsAdmitted(tree, limits, root, path, inode);
    }
    if route :| Admits(tree, limits, root, route, inode) && PathOf("", route) == path {
      AdmittedIsFound(tree, limits, root, route, inode);
    }
  }

  // ---------------------------------------------------------------------------------------------
  // Paths
  // ---------------------------------------------------------------------------------------------

  predicate ProperName(name: string) {
    name != "" && '/' !in name
  }

  /** Directories as file systems keep them: proper names, no two entries of one directory alike. */
  ghost predicate WellNamed(tree: Tree, limits: Limits) {
    forall dir :: tree(dir).Some? ==>
      var raw := tree(dir).value;
      && (forall i: nat :: LooksAt(limits, raw, i) ==> ProperName(raw[i].name))
      && (forall i: nat, j: nat :: LooksAt(limits, raw, i) && LooksAt(limits, raw, j) && raw[i].name == raw[j].name ==>
        i == j)
  }

  lemma HasProper(tree: Tree, limits: Limits, f: Frame, e: Entry)
    requires WellNamed(tree, limits) && Has(tree, limits, f, e)
    ensures ProperName(e.name)
  {
    var i: nat :| LooksAt(limits, tree(f.dir).value, i) && tree(f.dir).value[i] == e;
  }

  lemma KeptIsThere(tree: Tree, limits: Limits, f: Frame, i: nat)
    requires tree(f.dir).Some? && i < |Kept(limits, tree(f.dir).value)|
    ensures Has(tree, limits, f, Kept(limits, tree(f.dir).value)[i])
  {
    HasIsKept(tree, limits, f);
  }

  lemma KeptNames(tree: Tree, limits: Limits, dir: nat)
    requires WellNamed(tree, limits) && tree(dir).Some?
    ensures var entries := Kept(limits, tree(dir).value);
            && (forall e :: e in entries ==> ProperName(e.name))
            && (forall i, j :: 0 <= i < j < |entries| ==> entries[i].name != entries[j].name)
  {
    var raw := tree(dir).value;
    var at := KeptExactly(limits, raw);
    var entries := Kept(limits, raw);
    forall i, j | 0 <= i < j < |entries|
      ensures entries[i].name != entries[j].name
    {
      assert LooksAt(limits, raw, at[i]) && LooksAt(limits, raw, at[j]) && at[i] < at[j];
    }
    forall e | e in entries
      ensures ProperName(e.name)
    {
      var k :| 0 <= k < |entries| && entries[k] == e;
      assert LooksAt(limits, raw, at[k]);
    }
  }

  function Base(rel: string): string {
    if rel == "" then "" else rel + "/"
  }

  /** After the directory's own path, the path goes on with `name`, whole. */
  ghost predicate Heads(rel: string, name: string, path: string) {
    exists tail: string :: (tail == "" || tail[0] == '/') && path == Base(rel) + name + tail
  }

  lemma HeadsItself(rel: string, name: string)
    ensures Heads(rel, name, Child(rel, name))
  {
    assert Child(rel, name) == Base(rel) + name + "";
  }

  lemma HeadNotShorter(a: string, s: string, b: string, t: string)
    requires a + s == b + t && ProperName(b) && (s == "" || s[0] == '/')
    ensures |b| <= |a|
  {
    var whole := a + s;
    assert s != "" ==> whole[|a|] == '/';
    assert forall i :: 0 <= i < |b| ==> whole[i] == b[i];
  }

  lemma HeadUnique(rel: string, a: string, b: string, path: string)
    requires ProperName(a) && ProperName(b) && Heads(rel, a, path) && Heads(rel, b, path)
    ensures a == b
  {
    var s: string :| (s == "" || s[0] == '/') && path == Base(rel) + a + s;
    var t: string :| (t == "" || t[0] == '/') && path == Base(rel) + b + t;
    var rest := path[|Base(rel)|..];
    assert rest == a + s && rest == b + t;
    HeadNotShorter(a, s, b, t);
    HeadNotShorter(b, t, a, s);
    assert a == rest[..|a|] && b == rest[..|b|];
  }

  lemma HeadDeeper(rel: string, name: string, next: string, path: string)
    requires ProperName(name) && Heads(Child(rel, name), next, path)
    ensures Heads(rel, name, path)
  {
    var tail: string :| (tail == "" || tail[0] == '/') && path == Base(Child(rel, name)) + next + tail;
    Regroup([], Base(rel) + name, "/", next);
    Regroup([], Base(rel) + name, "/" + next, tail);
    var longer := "/" + next + tail;
    assert (longer == "" || longer[0] == '/') && path == Base(rel) + name + longer;
  }

  lemma {:induction false} PathHeads(rel: string, name: string, rest: seq<string>)
    requires ProperName(name) && forall n :: n in rest ==> ProperName(n)
    ensures Heads(rel, name, PathOf(Child(rel, name), rest))
    decreases |rest|
  {
    if rest == [] {
      assert PathOf(Child(rel, name), rest) == Base(rel) + name + "";
    } else {
      PathHeads(Child(rel, name), rest[0], rest[1..]);
      HeadDeeper(rel, name, rest[0], PathOf(Child(rel, name), rest));
    }
  }

  lemma {:induction false} RouteProper(tree: Tree, limits: Limits, f: Frame, route: seq<string>, inode: nat)
    requires WellNamed(tree, limits) && Admits(tree, limits, f, route, inode)
    ensures forall n :: n in route ==> ProperName(n)
    decreases |route|
  {
    if |route| > 1 {
      var e := AdmittedDirectory(tree, limits, f, route, inode);
      HasProper(tree, limits, f, e);
      RouteProper(tree, limits, ChildFrame(f, e), route[1..], inode);
    } else {
      var e := AdmittedFile(tree, limits, f, route, inode);
      HasProper(tree, limits, f, e);
    }
    assert route == [route[0]] + route[1..];
  }

  ghost predicate DistinctFinds(trace: seq<Action>) {
    forall i, j :: 0 <= i < j < |trace| && trace[i].Found? && trace[j].Found? ==> trace[i].path != trace[j].path
  }

  lemma DistinctConcat(a: seq<Action>, b: seq<Action>)
    requires DistinctFinds(a) && DistinctFinds(b)
    requires forall x, y :: x in a && y in b && x.Found? && y.Found? ==> x.path != y.path
    ensures DistinctFinds(a + b)
  {
  }

  lemma {:induction false} ActionsDistinct(tree: Tree, limits: Limits, f: Frame, entries: seq<Entry>, n: nat)
    requires n <= |entries| && forall i, j :: 0 <= i < j < |entries| ==> entries[i].name != entries[j].name
    ensures DistinctFinds(Actions(limits, f, entries, n))
  {
    if n > 0 {
      ActionsDistinct(tree, limits, f, entries, n - 1);
      forall x | x in Actions(limits, f, entries, n - 1) && x.Found?
        ensures x.path != Child(f.rel, entries[n - 1].name)
      {
        InActions(limits, f, entries, n - 1, x);
        var i :| 0 <= i < n - 1 && x in EntryActions(limits, f, entries[i]);
        ChildInjective(f.rel, entries[i].name, entries[n - 1].name);
      }
      DistinctConcat(Actions(limits, f, entries, n - 1), EntryActions(limits, f, entries[n - 1]));
    }
  }

  lemma ChildInjective(rel: string, a: string, b: string)
    requires a != b
    ensures Child(rel, a) != Child(rel, b)
  {
    assert Child(rel, a)[|Base(rel)|..] == a && Child(rel, b)[|Base(rel)|..] == b;
  }

  /** Whatever the walk of a subdirectory finds has that subdirectory's name next in its path. */
  lemma FoundHeads(tree: Tree, limits: Limits, f: Frame, e: Entry, a: Action)
    requires WellNamed(tree, limits) && Has(tree, limits, f, e) && Descends(limits, f, e)
    requires a.Found? && a in Visit(tree, limits, ChildFrame(f, e))
    ensures Heads(f.rel, e.name, a.path)
  {
    var route := FoundIsAdmitted(tree, limits, ChildFrame(f, e), a.path, a.inode);
    RouteProper(tree, limits, ChildFrame(f, e), route, a.inode);
    PathHeads(f.rel, e.name, route);
  }

  lemma {:induction false} VisitDistinct(tree: Tree, limits: Limits, f: Frame)
    requires WellNamed(tree, limits) && f.depth <= limits.maxDepth
    ensures DistinctFinds(Visit(tree, limits, f))
    decreases limits.maxDepth - f.depth, 1
  {
    var here, below := Here(tree, limits, f), VisitStack(tree, limits, Subdirs(tree, limits, f), f.depth + 1);
    if tree(f.dir).Some? {
      var raw := tree(f.dir).value;
      var entries := Kept(limits, raw);
      KeptNames(tree, limits, f.dir);
      ActionsDistinct(tree, limits, f, entries, |entries|);
      DistinctConcat(CapNote(limits, f, raw), Actions(limits, f, entries, |entries|));
      if f.depth < limits.maxDepth {
        ChildrenDistinct(tree, limits, f, entries, |entries|);
      } else {
        NoChildren(limits, f, entries, |entries|);
      }
      forall x, y | x in here && y in below && x.Found? && y.Found?
        ensures x.path != y.path
      {
        HereBelowApart(tree, limits, f, x, y);
      }
    }
    DistinctConcat(here, below);
  }

  lemma {:induction false} NoChildren(limits: Limits, f: Frame, entries: seq<Entry>, n: nat)
    requires n <= |entries| && f.depth == limits.maxDepth
    ensures Children(limits, f, entries, n) == Empty
  {
    if n > 0 {
      NoChildren(limits, f, entries, n - 1);
    }
  }

  lemma HereBelowApart(tree: Tree, limits: Limits, f: Frame, x: Action, y: Action)
    requires WellNamed(tree, limits) && f.depth <= limits.maxDepth
    requires x.Found? && y.Found? && x in Here(tree, limits, f)
    requires y in VisitStack(tree, limits, Subdirs(tree, limits, f), f.depth + 1)
    ensures x.path != y.path
  {
    var file := FileOf(tree, limits, f, x);
    var dir := DirectoryOf(tree, limits, f, y);
    if x.path == y.path {
      HeadUnique(f.rel, file.name, dir.name, x.path);
      SameNameSameEntry(tree, limits, f, file, dir);
    }
  }

  /** The entry behind a find in the directory itself. */
  lemma FileOf(tree: Tree, limits: Limits, f: Frame, x: Action) returns (e: Entry)
    requires WellNamed(tree, limits) && x.Found? && x in Here(tree, limits, f)
    ensures Has(tree, limits, f, e) && Ingestible(limits, e) && ProperName(e.name) && Heads(f.rel, e.name, x.path)
  {
    FoundHere(tree, limits, f, x.path, x.inode);
    e :| Has(tree, limits, f, e) && Ingestible(limits, e) && e.node.inode == x.inode && x.path == Child(f.rel, e.name);
    HasProper(tree, limits, f, e);
    HeadsItself(f.rel, e.name);
  }

  /** The entry behind a find below the directory. */
  lemma DirectoryOf(tree: Tree, limits: Limits, f: Frame, y: Action) returns (e: Entry)
    requires WellNamed(tree, limits) && f.depth <= limits.maxDepth
    requires y.Found? && y in VisitStack(tree, limits, Subdirs(tree, limits, f), f.depth + 1)
    ensures Has(tree, limits, f, e) && Descends(limits, f, e) && ProperName(e.name) && Heads(f.rel, e.name, y.path)
  {
    var entries := if tree(f.dir).Some? then Kept(limits, tree(f.dir).value) else [];
    var i := ChildOf(tree, limits, f, entries, |entries|, y);
    e := entries[i];
    KeptIsThere(tree, limits, f, i);
    HasProper(tree, limits, f, e);
    FoundHeads(tree, limits, f, e, y);
  }

  /** What is found below a directory is found below one of the entries it descends to. */
  lemma ChildOf(tree: Tree, limits: Limits, f: Frame, entries: seq<Entry>, n: nat, a: Action) returns (i: nat)
    requires f.depth <= limits.maxDepth && n <= |entries|
    requires a in VisitStack(tree, limits, Children(limits, f, entries, n), f.depth + 1)
    ensures i < n && Descends(limits, f, entries[i]) && a in Visit(tree, limits, ChildFrame(f, entries[i]))
  {
    var kids := Children(limits, f, entries, n);
    InStack(tree, limits, kids, f.depth + 1, a);
    var g :| g in Frames(kids) && g.depth <= limits.maxDepth && a in Visit(tree, limits, g);
    InChildren(limits, f, entries, n, g);
    i :| i < n && Descends(limits, f, entries[i]) && g == ChildFrame(f, entries[i]);
  }

  lemma SameNameSameEntry(tree: Tree, limits: Limits, f: Frame, a: Entry, b: Entry)
    requires WellNamed(tree, limits) && Has(tree, limits, f, a) && Has(tree, limits, f, b) && a.name == b.name
    ensures a == b
  {
    var raw := tree(f.dir).value;
    var i: nat :| LooksAt(limits, raw, i) && raw[i] == a;
    var j: nat :| LooksAt(limits, raw, j) && raw[j] == b;
    assert i == j;
  }

  lemma {:induction false} ChildrenDistinct(tree: Tree, limits: Limits, f: Frame, entries: seq<Entry>, n: nat)
    requires WellNamed(tree, limits) && f.depth < limits.maxDepth
    requires tree(f.dir).Some? && entries == Kept(limits, tree(f.dir).value) && n <= |entries|
    ensures DistinctFinds(VisitStack(tree, limits, Children(limits, f, entries, n), f.depth + 1))
    decreases limits.maxDepth - f.depth, 0, n
  {
    if n > 0 {
      var e := entries[n - 1];
      ChildrenDistinct(tree, limits, f, entries, n - 1);
      if Descends(limits, f, e) {
        VisitDistinct(tree, limits, ChildFrame(f, e));
        var rest := VisitStack(tree, limits, Children(limits, f, entries, n - 1), f.depth + 1);
        forall x, y | x in Visit(tree, limits, ChildFrame(f, e)) && y in rest && x.Found? && y.Found?
          ensures x.path != y.path
        {
          SiblingsApart(tree, limits, f, entries, n - 1, x, y);
        }
        DistinctConcat(Visit(tree, limits, ChildFrame(f, e)), rest);
      }
    }
  }

  lemma SiblingsApart(tree: Tree, limits: Limits, f: Frame, entries: seq<Entry>, n: nat, x: Action, y: Action)
    requires WellNamed(tree, limits) && f.depth < limits.maxDepth
    requires tree(f.dir).Some? && entries == Kept(limits, tree(f.dir).value) && n < |entries|
    requires Descends(limits, f, entries[n]) && x.Found? && x in Visit(tree, limits, ChildFrame(f, entries[n]))
    requires y.Found? && y in VisitStack(tree, limits, Children(limits, f, entries, n), f.depth + 1)
    ensures x.path != y.path
  {
    var i := ChildOf(tree, limits, f, entries, n, y);
    KeptNames(tree, limits, f.dir);
    KeptIsThere(tree, limits, f, n);
    KeptIsThere(tree, limits, f, i);
    FoundHeads(tree, limits, f, entries[n], x);
    FoundHeads(tree, limits, f, entries[i], y);
    if x.path == y.path {
      HeadUnique(f.rel, entries[n].name, entries[i].name, x.path);
    }
  }

  lemma {:induction false} SunkDistinct(trace: seq<Action>, seen: set<nat>)
    requires DistinctFinds(trace)
    ensures DistinctFinds(Sunk(trace, seen))
  {
    if trace != [] {
      var before, last := trace[..|trace| - 1], trace[|trace| - 1];
      SunkDistinct(before, seen);
      SunkOnce(before, seen);
    }
  }

  /** What a run of the walk performed: all of it, part of it, or part of it and the note that the budget ran out. */
  ghost predicate Performed(trace: seq<Action>, full: seq<Action>) {
    trace <= full || StoppedIn(trace, full)
  }

  /** It found nothing but what the whole walk finds. */
  lemma PerformedFinds(trace: seq<Action>, full: seq<Action>)
    requires Performed(trace, full)
    ensures forall a :: a in trace && a.Found? ==> a in full
  {
    if !(trace <= full) {
      var f :| StoppedWithin(f, trace, [], full);
      assert trace == trace[..|trace| - 1] + [trace[|trace| - 1]];
    }
  }

  /** No two files of a walk, whole or cut short, have the same path. */
  lemma WalkedPathsDistinct(tree: Tree, limits: Limits, rootDir: nat, trace: seq<Action>, seen: set<nat>)
    requires WellNamed(tree, limits) && Performed(trace, Visit(tree, limits, Frame(rootDir, "", 0)))
    ensures DistinctFinds(Sunk(trace, seen))
  {
    var full := Visit(tree, limits, Frame(rootDir, "", 0));
    VisitDistinct(tree, limits, Frame(rootDir, "", 0));
    if trace <= full {
      SunkDistinct(trace, seen);
    } else {
      SunkDistinct(trace[..|trace| - 1], seen);
    }
  }
}
