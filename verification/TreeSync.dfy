/**
 Walking and ingesting together: what a run over all grants leaves in the projection for every file of the
 tree. The grants may overlap; their walks share the set of inodes seen.
 */
module TreeSync {
  import opened Convergence
  import opened Current
  import opened Events
  import opened Ingest
  import opened IngestLoop
  import opened TreePaths
  import opened Walk
  import opened WalkPaths
  import opened Wrappers

  /** One grant's walk: the names that lead to its canonical root, the directory there, what it performed. */
  datatype Walked = Walked(route: seq<string>, dir: nat, trace: seq<Action>)

  /** The bytes behind every inode and the parser's answer to them; neither changes while the run goes on. */
  datatype World = World(read: nat -> Read, parse: (string, seq<bv8>) -> Converted)

  function RootFrame(w: Walked): Frame {
    Frame(w.dir, "", 0)
  }

  // ---------------------------------------------------------------------------------------------
  // All walks as one
  // ---------------------------------------------------------------------------------------------

  /** Finds carry the absolute path from here on. */
  function Rebase(root: string, a: Action): Action {
    if a.Found? then Found(Joined(root, a.path), a.inode) else a
  }

  function RebaseAll(root: string, trace: seq<Action>): (named: seq<Action>)
    ensures |named| == |trace| && forall i :: 0 <= i < |trace| ==> named[i] == Rebase(root, trace[i])
  {
    seq(|trace|, i requires 0 <= i < |trace| => Rebase(root, trace[i]))
  }

  /** What all walks did, in order. */
  function AllNamed(walks: seq<Walked>): seq<Action> {
    if walks == [] then [] else RebaseAll(Absolute(walks[0].route), walks[0].trace) + AllNamed(walks[1..])
  }

  lemma RebaseInodes(root: string, trace: seq<Action>)
    ensures Inodes(RebaseAll(root, trace)) == Inodes(trace)
  {
    var named := RebaseAll(root, trace);
    assert forall i :: 0 <= i < |trace| ==> named[i].Found? == trace[i].Found?;
    forall n | n in Inodes(trace)
      ensures n in Inodes(named)
    {
      var i :| 0 <= i < |trace| && trace[i].Found? && trace[i].inode == n;
      assert named[i] in named && named[i].inode == n;
    }
    forall n | n in Inodes(named)
      ensures n in Inodes(trace)
    {
      var i :| 0 <= i < |trace| && named[i].Found? && named[i].inode == n;
      assert trace[i] in trace && trace[i].inode == n;
    }
  }

  lemma {:induction false} RebaseSunk(root: string, trace: seq<Action>, seen: set<nat>)
    ensures Sunk(RebaseAll(root, trace), seen) == RebaseAll(root, Sunk(trace, seen))
  {
    if trace != [] {
      var before, last := trace[..|trace| - 1], trace[|trace| - 1];
      var named := RebaseAll(root, trace);
      assert named[..|trace| - 1] == RebaseAll(root, before) && named[|trace| - 1] == Rebase(root, last);
      RebaseSunk(root, before, seen);
      RebaseInodes(root, before);
    }
  }

  lemma InodesConcat(a: seq<Action>, b: seq<Action>)
    ensures Inodes(a + b) == Inodes(a) + Inodes(b)
  {
    assert forall x :: x in a + b <==> x in a || x in b;
  }

  lemma SunkSnoc(trace: seq<Action>, a: Action, seen: set<nat>)
    ensures Sunk(trace + [a], seen) ==
            Sunk(trace, seen) + if a.Found? && a.inode !in seen + Inodes(trace) then [a] else []
  {
    assert (trace + [a])[..|trace|] == trace;
  }

  /** A second walk that goes on with the inodes the first one saw sinks what one long walk would. */
  lemma {:induction false} SunkConcat(a: seq<Action>, b: seq<Action>, seen: set<nat>)
    ensures Sunk(a + b, seen) == Sunk(a, seen) + Sunk(b, seen + Inodes(a))
  {
    if b == [] {
      assert a + b == a;
    } else {
      var before, last := b[..|b| - 1], b[|b| - 1];
      assert b == before + [last] && a + b == (a + before) + [last];
      SunkConcat(a, before, seen);
      InodesConcat(a, before);
      SunkSnoc(a + before, last, seen);
      SunkSnoc(before, last, seen + Inodes(a));
    }
  }

  /** The file reached for ingest is the one sunk: its path, its inode's bytes, and the parser's answer to those. */
  predicate CarriesOne(world: World, p: Probe, a: Action) {
    && a.Found? && p.path == a.path && p.read == world.read(a.inode)
    && (p.read.Bytes? ==> p.converted == world.parse(p.path, p.read.raw))
  }

  ghost predicate Carries(world: World, probes: seq<Probe>, sunk: seq<Action>) {
    |probes| == |sunk| && forall i :: 0 <= i < |probes| ==> CarriesOne(world, probes[i], sunk[i])
  }

  /** Each grant ingests what its walk sank; the walks share the set of inodes seen. */
  ghost predicate Supplies(world: World, walks: seq<Walked>, seen: set<nat>, grants: seq<GrantRun>)
    decreases |walks|
  {
    |grants| == |walks| &&
    (walks != [] ==>
       var root := Absolute(walks[0].route);
       && grants[0].root == root
       && Carries(world, grants[0].probes, RebaseAll(root, Sunk(walks[0].trace, seen)))
       && Supplies(world, walks[1..], seen + Inodes(walks[0].trace), grants[1..]))
  }

  lemma CarriesConcat(world: World, p: seq<Probe>, a: seq<Action>, q: seq<Probe>, b: seq<Action>)
    requires Carries(world, p, a) && Carries(world, q, b)
    ensures Carries(world, p + q, a + b)
  {
  }

  /** All grants together ingest what one walk through all of them would sink. */
  lemma {:induction false} FlatIsSunk(world: World, walks: seq<Walked>, seen: set<nat>, grants: seq<GrantRun>)
    requires Supplies(world, walks, seen, grants)
    ensures Carries(world, Flat(grants), Sunk(AllNamed(walks), seen))
    decreases |walks|
  {
    if walks != [] {
      var root, trace := Absolute(walks[0].route), walks[0].trace;
      FlatIsSunk(world, walks[1..], seen + Inodes(trace), grants[1..]);
      RebaseSunk(root, trace, seen);
      RebaseInodes(root, trace);
      SunkConcat(RebaseAll(root, trace), AllNamed(walks[1..]), seen);
      CarriesConcat(world, grants[0].probes, Sunk(RebaseAll(root, trace), seen),
                    Flat(grants[1..]), Sunk(AllNamed(walks[1..]), seen + Inodes(trace)));
    }
  }

  // ---------------------------------------------------------------------------------------------
  // Paths and inodes
  // ---------------------------------------------------------------------------------------------

  /** The walks start at canonical roots of one tree, and are whole or cut short. */
  ghost predicate WalkedFrom(tree: Tree, limits: Limits, top: nat, walks: seq<Walked>) {
    UniqueNames(tree) &&
    forall w :: w in walks ==>
      LeadsTo(tree, top, w.route, w.dir) && Performed(w.trace, Visit(tree, limits, RootFrame(w)))
  }

  ghost predicate AllFinished(tree: Tree, limits: Limits, walks: seq<Walked>) {
    forall w :: w in walks ==> w.trace == Visit(tree, limits, RootFrame(w))
  }

  /** A grant admits the file: its root's names and then an admissible route of names lead to it. */
  ghost predicate Admissible(tree: Tree, limits: Limits, walks: seq<Walked>, route: seq<string>, inode: nat) {
    exists w, rel :: w in walks && route == w.route + rel && Admits(tree, limits, RootFrame(w), rel, inode)
  }

  lemma {:induction false} InAllNamed(walks: seq<Walked>, a: Action)
    ensures a in AllNamed(walks) <==> exists w :: w in walks && a in RebaseAll(Absolute(w.route), w.trace)
  {
    if walks != [] {
      InAllNamed(walks[1..], a);
      assert forall w :: w in walks <==> w == walks[0] || w in walks[1..];
    }
  }

  /** An admissible route is a route of the tree, and its path is the root's joined with the walk's. */
  lemma RouteOf(tree: Tree, limits: Limits, top: nat, w: Walked, rel: seq<string>, inode: nat)
    requires UniqueNames(tree) && LeadsTo(tree, top, w.route, w.dir) && Admits(tree, limits, RootFrame(w), rel, inode)
    ensures FileAt(tree, top, w.route + rel, inode) && AllProper(w.route + rel)
    ensures Joined(Absolute(w.route), PathOf("", rel)) == Absolute(w.route + rel)
  {
    AdmittedIsThere(tree, limits, RootFrame(w), rel, inode);
    FileBelow(tree, top, w.route, w.dir, rel, inode);
    FileProper(tree, top, w.route + rel, inode);
    FileProper(tree, w.dir, rel, inode);
    RootProper(tree, top, w.route, w.dir);
    JoinedIsAbsolute(w.route, rel);
  }

  /** Whatever the walks find is admissible, at its absolute path. */
  lemma NamedIsAdmissible(tree: Tree, limits: Limits, top: nat, walks: seq<Walked>, a: Action)
    returns (route: seq<string>)
    requires WalkedFrom(tree, limits, top, walks) && a in AllNamed(walks) && a.Found?
    ensures Admissible(tree, limits, walks, route, a.inode) && a.path == Absolute(route)
    ensures FileAt(tree, top, route, a.inode) && AllProper(route)
  {
    InAllNamed(walks, a);
    var w :| w in walks && a in RebaseAll(Absolute(w.route), w.trace);
    var i :| 0 <= i < |w.trace| && a == Rebase(Absolute(w.route), w.trace[i]);
    PerformedFinds(w.trace, Visit(tree, limits, RootFrame(w)));
    var rel := FoundIsAdmitted(tree, limits, RootFrame(w), w.trace[i].path, a.inode);
    RouteOf(tree, limits, top, w, rel, a.inode);
    route := w.route + rel;
  }

  /** Walks that finish find every admissible file, at its absolute path. */
  lemma AdmissibleIsNamed(tree: Tree, limits: Limits, top: nat, walks: seq<Walked>, route: seq<string>, inode: nat)
    requires WalkedFrom(tree, limits, top, walks) && AllFinished(tree, limits, walks)
    requires Admissible(tree, limits, walks, route, inode)
    ensures Found(Absolute(route), inode) in AllNamed(walks)
    ensures FileAt(tree, top, route, inode) && AllProper(route)
  {
    var w, rel :| w in walks && route == w.route + rel && Admits(tree, limits, RootFrame(w), rel, inode);
    RouteOf(tree, limits, top, w, rel, inode);
    AdmittedIsFound(tree, limits, RootFrame(w), rel, inode);
    var i :| 0 <= i < |w.trace| && w.trace[i] == Found(PathOf("", rel), inode);
    assert RebaseAll(Absolute(w.route), w.trace)[i] == Found(Absolute(route), inode);
    InAllNamed(walks, Found(Absolute(route), inode));
  }

  /** One absolute path, one inode: finds of one path, in one walk or in different ones, are of one file. */
  lemma SamePathSameFile(tree: Tree, limits: Limits, top: nat, walks: seq<Walked>, a: Action, b: Action)
    requires WalkedFrom(tree, limits, top, walks) && a in AllNamed(walks) && b in AllNamed(walks)
    requires a.Found? && b.Found? && a.path == b.path
    ensures a == b
  {
    var r := NamedIsAdmissible(tree, limits, top, walks, a);
    var s := NamedIsAdmissible(tree, limits, top, walks, b);
    assert PathOf("", r) == Absolute(r)[1..] && PathOf("", s) == Absolute(s)[1..];
    PathInjective("", r, s);
    FileUnique(tree, top, r, a.inode, b.inode);
  }

  /** However the grants overlap and wherever the walks stop, no path is ingested twice. */
  lemma SharedSeenKeepsPathsApart(tree: Tree, limits: Limits, top: nat, world: World, walks: seq<Walked>,
                                  seen: set<nat>, grants: seq<GrantRun>)
    requires WalkedFrom(tree, limits, top, walks) && Supplies(world, walks, seen, grants)
    ensures DistinctPaths(Flat(grants))
  {
    var probes, sunk := Flat(grants), Sunk(AllNamed(walks), seen);
    FlatIsSunk(world, walks, seen, grants);
    SunkOnce(AllNamed(walks), seen);
    forall i, j | 0 <= i < j < |probes|
      ensures probes[i].path != probes[j].path
    {
      assert CarriesOne(world, probes[i], sunk[i]) && CarriesOne(world, probes[j], sunk[j]);
      if sunk[i].path == sunk[j].path {
        SamePathSameFile(tree, limits, top, walks, sunk[i], sunk[j]);
      }
    }
  }

  // ---------------------------------------------------------------------------------------------
  // Convergence over the tree
  // ---------------------------------------------------------------------------------------------

  /** The projection shows the file's current bytes under the path, if they give text at all. */
  predicate Shown(sha: Digest, world: World, files: map<string, Record>, path: string, inode: nat) {
    var read := world.read(inode);
    read.Bytes? && world.parse(path, read.raw).Plain? && !Text.Blank(world.parse(path, read.raw).text) ==>
      var r := At(files, path);
      r.Some? && r.value.File? && r.value.contentHash == sha.bytes(read.raw)
  }

  /** A run over all grants of one tree that is about to start in sync, with time for every file. */
  ghost predicate Sweep(sha: Digest, tree: Tree, limits: Limits, top: nat, world: World, walks: seq<Walked>,
                        files: map<string, Record>, events: seq<Event>, grants: seq<GrantRun>)
  {
    && WalkedFrom(tree, limits, top, walks) && Supplies(world, walks, {}, grants)
    && InSync(files, events) && UniqueIds(events) && OnePerPath(events) && FreshIds(events, Flat(grants))
    && AllComplete(sha, files, events, grants)
    && forall p :: p in Flat(grants) ==> !p.budgetSpent && p.grantActive
  }

  lemma SweepSettles(sha: Digest, tree: Tree, limits: Limits, top: nat, world: World, walks: seq<Walked>,
                     files: map<string, Record>, events: seq<Event>, grants: seq<GrantRun>)
    requires Sweep(sha, tree, limits, top, world, walks, files, events, grants)
    ensures Ready(events, Flat(grants))
    ensures var all := events + AllAppended(sha, files, events, grants);
            OnePerPath(all) && forall p :: p in Flat(grants) ==> Settled(sha, Projection(Files, all), p)
  {
    SharedSeenKeepsPathsApart(tree, limits, top, world, walks, {}, grants);
    AllRunsConverge(sha, files, events, grants);
  }

  /**
   A completed run decides every name of every file. The name under which the walks found its inode first
   is projected with the hash of the file's bytes; any other name, of a hard link, keeps the records it had.
   */
  lemma EveryNameDecided(sha: Digest, tree: Tree, limits: Limits, top: nat, world: World, walks: seq<Walked>,
                         files: map<string, Record>, events: seq<Event>, grants: seq<GrantRun>,
                         path: string, inode: nat)
    requires Sweep(sha, tree, limits, top, world, walks, files, events, grants)
    requires Found(path, inode) in AllNamed(walks)
    ensures var all := events + AllAppended(sha, files, events, grants);
            if FirstFound(AllNamed(walks), {}, Found(path, inode))
            then Shown(sha, world, Projection(Files, all), path, inode)
            else LiveRecords(Files, all, path) == LiveRecords(Files, events, path)
  {
    var a, probes, sunk := Found(path, inode), Flat(grants), Sunk(AllNamed(walks), {});
    SweepSettles(sha, tree, limits, top, world, walks, files, events, grants);
    FlatIsSunk(world, walks, {}, grants);
    SunkOnce(AllNamed(walks), {});
    if FirstFound(AllNamed(walks), {}, a) {
      var i :| 0 <= i < |sunk| && sunk[i] == a;
      assert CarriesOne(world, probes[i], sunk[i]) && probes[i] in probes;
    } else {
      forall p | p in probes
        ensures p.path != path
      {
        var i :| 0 <= i < |probes| && probes[i] == p;
        assert CarriesOne(world, probes[i], sunk[i]) && sunk[i] in sunk;
        if p.path == path {
          SamePathSameFile(tree, limits, top, walks, sunk[i], a);
        }
      }
      UnwalkedUntouched(sha, files, events, grants, path);
    }
  }

  /** A path that no admissible route leads to keeps its records: nothing outside the grants is ingested. */
  lemma OthersUntouched(sha: Digest, tree: Tree, limits: Limits, top: nat, world: World, walks: seq<Walked>,
                        files: map<string, Record>, events: seq<Event>, grants: seq<GrantRun>, path: string)
    requires Sweep(sha, tree, limits, top, world, walks, files, events, grants)
    requires forall route, inode :: Admissible(tree, limits, walks, route, inode) ==> Absolute(route) != path
    ensures LiveRecords(Files, events + AllAppended(sha, files, events, grants), path) ==
            LiveRecords(Files, events, path)
  {
    var probes, sunk := Flat(grants), Sunk(AllNamed(walks), {});
    SweepSettles(sha, tree, limits, top, world, walks, files, events, grants);
    FlatIsSunk(world, walks, {}, grants);
    SunkOnce(AllNamed(walks), {});
    forall p | p in probes
      ensures p.path != path
    {
      var i :| 0 <= i < |probes| && probes[i] == p;
      assert CarriesOne(world, probes[i], sunk[i]) && sunk[i] in sunk;
      var route := NamedIsAdmissible(tree, limits, top, walks, sunk[i]);
    }
    UnwalkedUntouched(sha, files, events, grants, path);
  }

  /** No two admissible routes lead to one inode: there are no hard links among the granted files. */
  ghost predicate Unlinked(tree: Tree, limits: Limits, walks: seq<Walked>) {
    forall r, s, inode ::
      Admissible(tree, limits, walks, r, inode) && Admissible(tree, limits, walks, s, inode) ==> r == s
  }

  /**
   Convergence: when the walks finish and there are no hard links, a completed run leaves every admissible
   file of the tree projected, under its absolute path, with the hash of its bytes.
   */
  lemma EveryFileProjected(sha: Digest, tree: Tree, limits: Limits, top: nat, world: World, walks: seq<Walked>,
                           files: map<string, Record>, events: seq<Event>, grants: seq<GrantRun>,
                           route: seq<string>, inode: nat)
    requires Sweep(sha, tree, limits, top, world, walks, files, events, grants)
    requires AllFinished(tree, limits, walks) && Unlinked(tree, limits, walks)
    requires Admissible(tree, limits, walks, route, inode)
    ensures var all := events + AllAppended(sha, files, events, grants);
            Shown(sha, world, Projection(Files, all), Absolute(route), inode)
  {
    AdmissibleIsNamed(tree, limits, top, walks, route, inode);
    UnlinkedIsFirst(tree, limits, top, walks, route, inode);
    EveryNameDecided(sha, tree, limits, top, world, walks, files, events, grants, Absolute(route), inode);
  }

  lemma UnlinkedIsFirst(tree: Tree, limits: Limits, top: nat, walks: seq<Walked>, route: seq<string>, inode: nat)
    requires WalkedFrom(tree, limits, top, walks) && Unlinked(tree, limits, walks)
    requires Admissible(tree, limits, walks, route, inode) && Found(Absolute(route), inode) in AllNamed(walks)
    ensures FirstFound(AllNamed(walks), {}, Found(Absolute(route), inode))
  {
    var trace := AllNamed(walks);
    SunkOnce(trace, {});
    assert inode in Inodes(trace);
    assert inode in Inodes(Sunk(trace, {}));
    var a :| a in Sunk(trace, {}) && a.Found? && a.inode == inode;
    var other := NamedIsAdmissible(tree, limits, top, walks, a);
    assert other == route;
  }

  /** Walking and ingesting the unchanged tree again appends nothing, whatever ids, clock and embedder it meets. */
  lemma SecondSweepAppendsNothing(sha: Digest, tree: Tree, limits: Limits, top: nat, world: World, walks: seq<Walked>,
                                  files: map<string, Record>, events: seq<Event>, grants: seq<GrantRun>,
                                  again: seq<GrantRun>)
    requires Sweep(sha, tree, limits, top, world, walks, files, events, grants)
    requires Supplies(world, walks, {}, again)
    ensures var all := events + AllAppended(sha, files, events, grants);
            && AllAppended(sha, Projection(Files, all), all, again) == []
            && (Unfailing(again) ==> AllComplete(sha, Projection(Files, all), all, again))
  {
    SweepSettles(sha, tree, limits, top, world, walks, files, events, grants);
    FlatIsSunk(world, walks, {}, grants);
    FlatIsSunk(world, walks, {}, again);
    CarriedAgain(world, Flat(grants), Flat(again), Sunk(AllNamed(walks), {}));
    SecondIngestAllAppendsNothing(sha, files, events, grants, again);
  }

  lemma CarriedAgain(world: World, first: seq<Probe>, second: seq<Probe>, sunk: seq<Action>)
    requires Carries(world, first, sunk) && Carries(world, second, sunk)
    ensures forall q :: q in second ==> exists p :: p in first && SameFile(p, q)
  {
    forall q | q in second
      ensures exists p :: p in first && SameFile(p, q)
    {
      var i :| 0 <= i < |second| && second[i] == q;
      assert CarriesOne(world, first[i], sunk[i]) && CarriesOne(world, second[i], sunk[i]);
      assert first[i] in first && SameFile(first[i], q);
    }
  }

  // ---------------------------------------------------------------------------------------------
  // The run
  // ---------------------------------------------------------------------------------------------

  /** An active grant: the names that lead to its canonical root, and the directory there. */
  datatype Root = Root(route: seq<string>, dir: nat)

  /** The sunk file when the ingest loop reaches it; `given` holds the answers of clock, grants, log and embedder. */
  function Reach(world: World, given: Probe, a: Action): (p: Probe)
    requires a.Found?
    ensures CarriesOne(world, p, a)
  {
    var read := world.read(a.inode);
    given.(path := a.path, read := read,
           converted := if read.Bytes? then world.parse(a.path, read.raw) else given.converted)
  }

  function NotesOf(root: string, notes: seq<Action>): seq<Note> {
    if notes == [] then [] else
      var last := notes[|notes| - 1];
      NotesOf(root, notes[..|notes| - 1]) +
      match last
      case Skipped(path, reason) => [Note(Joined(root, path), reason)]
      case Failed(path, why) => [Note(Joined(root, path), why)]
      case _ => []
  }

  /** The walk's skips and failures come before those of the files it found. */
  function Noted(report: Report, root: string, skips: seq<Action>, failures: seq<Action>): Report {
    report.(skipped := report.skipped + NotesOf(root, skips), failed := report.failed + NotesOf(root, failures))
  }

  /** The report of all grants: what each walk noted, and what became of the files it found. */
  ghost function Reported(sha: Digest, files: map<string, Record>, events: seq<Event>, walks: seq<Walked>,
                          grants: seq<GrantRun>, report: Report): Report
    requires |walks| == |grants|
    decreases |walks|
  {
    if walks == [] then report else
      var first := Tally(sha, files, grants[0].probes,
        Noted(report, grants[0].root, Skips(walks[0].trace), Failures(walks[0].trace)));
      var next := events + Appended(sha, grants[0].root, files, grants[0].probes);
      Reported(sha, Projection(Files, next), next, walks[1..], grants[1..], first)
  }

  method ReachAll(world: World, root: string, sunk: seq<Action>, given: nat -> Probe) returns (probes: seq<Probe>)
    requires forall a :: a in sunk ==> a.Found?
    ensures Carries(world, probes, RebaseAll(root, sunk))
  {
    probes := [];
    for i := 0 to |sunk|
      invariant |probes| == i
      invariant forall j :: 0 <= j < i ==> CarriesOne(world, probes[j], Rebase(root, sunk[j]))
    {
      assert sunk[i] in sunk;
      probes := probes + [Reach(world, given(i), Rebase(root, sunk[i]))];
    }
  }

  /** One grant more after a run that completed. */
  lemma {:induction false} AllSnoc(sha: Digest, files: map<string, Record>, events: seq<Event>, grants: seq<GrantRun>,
                                   g: GrantRun)
    requires AllComplete(sha, files, events, grants)
    ensures var all, now := events + AllAppended(sha, files, events, grants), AllFiles(sha, files, events, grants);
            && events + AllAppended(sha, files, events, grants + [g]) == all + Appended(sha, g.root, now, g.probes)
            && (AllComplete(sha, files, events, grants + [g]) <==> EndsWell(sha, now, g))
            && AllFiles(sha, files, events, grants + [g]) ==
               if EndsWell(sha, now, g)
               then Projection(Files, all + Appended(sha, g.root, now, g.probes)) else now
    decreases |grants|
  {
    var more := grants + [g];
    AllAppendedFirst(sha, files, events, more);
    if grants == [] {
      assert more[1..] == [] && events + [] == events;
      var next := events + Appended(sha, g.root, files, g.probes);
      assert next + [] == next;
    } else {
      assert more[1..] == grants[1..] + [g];
      AllAppendedFirst(sha, files, events, grants);
      var next := events + Appended(sha, grants[0].root, files, grants[0].probes);
      AllSnoc(sha, Projection(Files, next), next, grants[1..], g);
    }
  }

  lemma {:induction false} SuppliesSnoc(world: World, walks: seq<Walked>, seen: set<nat>, grants: seq<GrantRun>,
                                        w: Walked, g: GrantRun)
    requires Supplies(world, walks, seen, grants) && g.root == Absolute(w.route)
    requires Carries(world, g.probes, RebaseAll(g.root, Sunk(w.trace, seen + Inodes(AllNamed(walks)))))
    ensures Supplies(world, walks + [w], seen, grants + [g])
    ensures Inodes(AllNamed(walks + [w])) == Inodes(AllNamed(walks)) + Inodes(w.trace)
    decreases |walks|
  {
    if walks == [] {
      assert (walks + [w])[1..] == [] && (grants + [g])[1..] == [] && Inodes(AllNamed([])) == {};
      assert seen + {} == seen;
      RebaseInodes(g.root, w.trace);
      assert RebaseAll(g.root, w.trace) + [] == RebaseAll(g.root, w.trace);
    } else {
      assert (walks + [w])[1..] == walks[1..] + [w] && (grants + [g])[1..] == grants[1..] + [g];
      var root, trace := Absolute(walks[0].route), walks[0].trace;
      RebaseInodes(root, trace);
      InodesConcat(RebaseAll(root, trace), AllNamed(walks[1..]));
      InodesConcat(RebaseAll(root, trace), AllNamed(walks[1..] + [w]));
      assert seen + Inodes(AllNamed(walks)) == (seen + Inodes(trace)) + Inodes(AllNamed(walks[1..]));
      SuppliesSnoc(world, walks[1..], seen + Inodes(trace), grants[1..], w, g);
    }
  }

  lemma {:induction false} ReportedSnoc(sha: Digest, files: map<string, Record>, events: seq<Event>, walks: seq<Walked>,
                                        grants: seq<GrantRun>, w: Walked, g: GrantRun, report: Report)
    requires |walks| == |grants| && AllComplete(sha, files, events, grants)
    ensures Reported(sha, files, events, walks + [w], grants + [g], report) ==
            Tally(sha, AllFiles(sha, files, events, grants), g.probes,
                  Noted(Reported(sha, files, events, walks, grants, report), g.root, Skips(w.trace), Failures(w.trace)))
    decreases |walks|
  {
    if walks != [] {
      assert (walks + [w])[1..] == walks[1..] + [w] && (grants + [g])[1..] == grants[1..] + [g];
      var next := events + Appended(sha, grants[0].root, files, grants[0].probes);
      var first := Tally(sha, files, grants[0].probes,
        Noted(report, grants[0].root, Skips(walks[0].trace), Failures(walks[0].trace)));
      ReportedSnoc(sha, Projection(Files, next), next, walks[1..], grants[1..], w, g, first);
    }
  }

  /** The log and the projection are in step and hold one record per path, and the run finds fresh ids and time. */
  ghost predicate Prepared(files: map<string, Record>, events: seq<Event>, grants: seq<GrantRun>) {
    && InSync(files, events) && UniqueIds(events) && OnePerPath(events) && FreshIds(events, Flat(grants))
    && forall p :: p in Flat(grants) ==> !p.budgetSpent && p.grantActive
  }

  /** What a run has walked and ingested so far, and what that made of the log and the projection it started from. */
  ghost predicate Ran(sha: Digest, world: World, files: map<string, Record>, events: seq<Event>, walks: seq<Walked>,
                      grants: seq<GrantRun>, log: seq<Event>, now: map<string, Record>)
  {
    && Supplies(world, walks, {}, grants)
    && log == events + AllAppended(sha, files, events, grants) && now == AllFiles(sha, files, events, grants)
  }

  lemma RanOn(sha: Digest, world: World, files: map<string, Record>, events: seq<Event>, walks: seq<Walked>,
              grants: seq<GrantRun>, log: seq<Event>, now: map<string, Record>, w: Walked, g: GrantRun)
    requires Ran(sha, world, files, events, walks, grants, log, now) && AllComplete(sha, files, events, grants)
    requires g.root == Absolute(w.route)
    requires Carries(world, g.probes, RebaseAll(g.root, Sunk(w.trace, Inodes(AllNamed(walks)))))
    ensures var after := log + Appended(sha, g.root, now, g.probes);
            Ran(sha, world, files, events, walks + [w], grants + [g], after,
                if EndsWell(sha, now, g) then Projection(Files, after) else now)
    ensures AllComplete(sha, files, events, grants + [g]) <==> EndsWell(sha, now, g)
    ensures Inodes(AllNamed(walks + [w])) == Inodes(AllNamed(walks)) + Inodes(w.trace)
    ensures Reported(sha, files, events, walks + [w], grants + [g], EMPTY_REPORT) ==
            Tally(sha, now, g.probes, Noted(Reported(sha, files, events, walks, grants, EMPTY_REPORT), g.root,
                                            Skips(w.trace), Failures(w.trace)))
  {
    assert {} + Inodes(AllNamed(walks)) == Inodes(AllNamed(walks));
    AllSnoc(sha, files, events, grants, g);
    SuppliesSnoc(world, walks, {}, grants, w, g);
    ReportedSnoc(sha, files, events, walks, grants, w, g, EMPTY_REPORT);
  }

  /** The walks so far were those of the first roots. */
  ghost predicate Covered(tree: Tree, limits: Limits, roots: seq<Root>, deadline: nat -> Option<nat>,
                          walks: seq<Walked>)
  {
    && |walks| <= |roots|
    && (forall i :: 0 <= i < |walks| ==> walks[i].route == roots[i].route && walks[i].dir == roots[i].dir)
    && (forall w :: w in walks ==> Performed(w.trace, Visit(tree, limits, RootFrame(w))))
    && (forall w :: w in walks ==> ReadsAll(w.trace))
    && ((forall i :: deadline(i).None?) ==> AllFinished(tree, limits, walks))
  }

  /** Some directory of the root's whole walk cannot be read. */
  ghost predicate Blocked(tree: Tree, limits: Limits, root: Root) {
    exists rel :: ReadError(rel) in Visit(tree, limits, Frame(root.dir, "", 0))
  }

  lemma CoveredIsWalked(tree: Tree, limits: Limits, top: nat, roots: seq<Root>, deadline: nat -> Option<nat>,
                        walks: seq<Walked>)
    requires UniqueNames(tree) && forall i :: 0 <= i < |roots| ==> LeadsTo(tree, top, roots[i].route, roots[i].dir)
    requires Covered(tree, limits, roots, deadline, walks)
    ensures WalkedFrom(tree, limits, top, walks)
  {
  }

  lemma CoveredOn(tree: Tree, limits: Limits, roots: seq<Root>, deadline: nat -> Option<nat>, walks: seq<Walked>,
                  w: Walked)
    requires Covered(tree, limits, roots, deadline, walks) && |walks| < |roots|
    requires w.route == roots[|walks|].route && w.dir == roots[|walks|].dir
    requires Performed(w.trace, Visit(tree, limits, RootFrame(w))) && ReadsAll(w.trace)
    requires deadline(|walks|).None? ==> w.trace == Visit(tree, limits, RootFrame(w))
    ensures Covered(tree, limits, roots, deadline, walks + [w])
  {
    assert forall v :: v in walks + [w] <==> v in walks || v == w;
  }

  lemma BlockedAhead(tree: Tree, limits: Limits, root: Root, trace: seq<Action>)
    requires exists rel :: trace + [ReadError(rel)] <= Visit(tree, limits, Frame(root.dir, "", 0))
    ensures Blocked(tree, limits, root)
  {
    var rel :| trace + [ReadError(rel)] <= Visit(tree, limits, Frame(root.dir, "", 0));
    assert (trace + [ReadError(rel)])[|trace|] == ReadError(rel);
  }

  /** The walk of the next grant, from the inodes seen so far. */
  method WalkNext(tree: Tree, limits: Limits, roots: seq<Root>, i: nat, deadline: nat -> Option<nat>, seen: set<nat>,
                  ghost walks: seq<Walked>)
    returns (ok: bool, sink: Sink, ghost w: Walked)
    requires i == |walks| < |roots| && Covered(tree, limits, roots, deadline, walks)
    ensures ok ==> w.route == roots[i].route && Covered(tree, limits, roots, deadline, walks + [w])
    ensures ok ==> sink == Sink(Sunk(w.trace, seen), seen + Inodes(w.trace), Skips(w.trace), Failures(w.trace))
    ensures !ok ==> Blocked(tree, limits, roots[i])
  {
    var walker := new Walker(seen);
    var outcome := walker.Walk(tree, limits, roots[i].dir, deadline(i), seen);
    ok, sink, w := !outcome.Unreadable?, walker.sink, Walked(roots[i].route, roots[i].dir, walker.trace);
    if ok {
      CoveredOn(tree, limits, roots, deadline, walks, w);
    } else {
      BlockedAhead(tree, limits, roots[i], walker.trace);
    }
  }

  /** The ingest of what that walk sank. */
  method IngestNext(log: EventLog, sha: Digest, world: World, root: Root, sink: Sink, given: nat -> Probe,
                    rebuilds: bool, before: Report, ghost files: map<string, Record>, ghost events: seq<Event>,
                    ghost walks: seq<Walked>, ghost grants: seq<GrantRun>, ghost w: Walked)
    returns (ok: bool, report: Report, ghost g: GrantRun)
    requires Ran(sha, world, files, events, walks, grants, log.events, log.files)
             && AllComplete(sha, files, events, grants)
    requires before == Reported(sha, files, events, walks, grants, EMPTY_REPORT)
    requires w.route == root.route && var seen := Inodes(AllNamed(walks));
             sink == Sink(Sunk(w.trace, seen), seen + Inodes(w.trace), Skips(w.trace), Failures(w.trace))
    modifies log
    ensures Ran(sha, world, files, events, walks + [w], grants + [g], log.events, log.files)
    ensures ok <==> AllComplete(sha, files, events, grants + [g])
    ensures report == Reported(sha, files, events, walks + [w], grants + [g], EMPTY_REPORT)
    ensures sink.seen == Inodes(AllNamed(walks + [w]))
  {
    var path := Absolute(root.route);
    SunkOnce(w.trace, Inodes(AllNamed(walks)));
    var probes := ReachAll(world, path, sink.sunk, given);
    var run := GrantRun(path, probes, rebuilds);
    g := run;
    RanOn(sha, world, files, events, walks, grants, log.events, log.files, w, g);
    ok, report := log.IngestGrant(sha, run, Noted(before, path, sink.skipped, sink.failed));
  }

  /**
   `ingest_all`: every active grant is walked and its files ingested, in turn; the walks share the inodes
   seen. A directory that cannot be read and a file that aborts end the run.
   */
  method IngestAll(log: EventLog, sha: Digest, tree: Tree, limits: Limits, world: World, roots: seq<Root>,
                   deadline: nat -> Option<nat>, given: (nat, nat) -> Probe, rebuilds: nat -> bool)
    returns (ok: bool, report: Report, ghost walks: seq<Walked>, ghost grants: seq<GrantRun>)
    modifies log
    ensures Covered(tree, limits, roots, deadline, walks)
    ensures Ran(sha, world, old(log.files), old(log.events), walks, grants, log.events, log.files)
    ensures ok <==> |walks| == |roots| && AllComplete(sha, old(log.files), old(log.events), grants)
    ensures !ok ==> !AllComplete(sha, old(log.files), old(log.events), grants)
                    || (|walks| < |roots| && Blocked(tree, limits, roots[|walks|]))
    ensures ok ==> report == Reported(sha, old(log.files), old(log.events), walks, grants, EMPTY_REPORT)
  {
    ok, report, walks, grants := true, EMPTY_REPORT, [], [];
    ghost var files, events := log.files, log.events;
    var seen: set<nat> := {};
    for i := 0 to |roots|
      invariant ok && |walks| == i && Covered(tree, limits, roots, deadline, walks)
      invariant Ran(sha, world, files, events, walks, grants, log.events, log.files)
      invariant seen == Inodes(AllNamed(walks)) && AllComplete(sha, files, events, grants)
      invariant report == Reported(sha, files, events, walks, grants, EMPTY_REPORT)
    {
      var sink;
      ghost var w;
      ok, sink, w := WalkNext(tree, limits, roots, i, deadline, seen, walks);
      if !ok {
        return;
      }
      ghost var g;
      ok, report, g := IngestNext(log, sha, world, roots[i], sink, (j: nat) => given(i, j), rebuilds(i), report,
        files, events, walks, grants, w);
      seen, walks, grants := sink.seen, walks + [w], grants + [g];
      if !ok {
        return;
      }
    }
  }

  /** What `IngestAll` promises of a run. */
  ghost predicate Outcome(sha: Digest, tree: Tree, limits: Limits, world: World, roots: seq<Root>,
                          deadline: nat -> Option<nat>, files: map<string, Record>, events: seq<Event>,
                          walks: seq<Walked>, grants: seq<GrantRun>, ok: bool)
  {
    && Covered(tree, limits, roots, deadline, walks) && Supplies(world, walks, {}, grants)
    && (ok <==> |walks| == |roots| && AllComplete(sha, files, events, grants))
    && (!ok ==> !AllComplete(sha, files, events, grants)
                || (|walks| < |roots| && Blocked(tree, limits, roots[|walks|])))
  }

  /**
   A run that ends well, from a log in sync, with fresh ids and time for every file, is one the theorems
   above speak of.
   */
  lemma RunIsSweep(sha: Digest, tree: Tree, limits: Limits, top: nat, world: World, roots: seq<Root>,
                   deadline: nat -> Option<nat>, files: map<string, Record>, events: seq<Event>, walks: seq<Walked>,
                   grants: seq<GrantRun>)
    requires UniqueNames(tree) && forall i :: 0 <= i < |roots| ==> LeadsTo(tree, top, roots[i].route, roots[i].dir)
    requires Outcome(sha, tree, limits, world, roots, deadline, files, events, walks, grants, true)
    requires Prepared(files, events, grants)
    ensures Sweep(sha, tree, limits, top, world, walks, files, events, grants)
  {
    CoveredIsWalked(tree, limits, top, roots, deadline, walks);
  }

  /** No lookup, append, embedding or rebuild fails. */
  ghost predicate Works(grants: seq<GrantRun>) {
    forall g :: g in grants ==> g.rebuilds && forall p :: p in g.probes ==> Answered(p) && p.appends && p.embeds
  }

  lemma {:induction false} WorkingCompletes(sha: Digest, files: map<string, Record>, events: seq<Event>,
                                            grants: seq<GrantRun>)
    requires Works(grants)
    ensures AllComplete(sha, files, events, grants)
    decreases |grants|
  {
    if grants != [] {
      var g, next := grants[0], events + Appended(sha, grants[0].root, files, grants[0].probes);
      assert g in grants && forall i :: 0 <= i < |g.probes| ==> g.probes[i] in g.probes;
      WorkingCompletes(sha, Projection(Files, next), next, grants[1..]);
    }
  }

  lemma ReadableWhenFinished(tree: Tree, limits: Limits, roots: seq<Root>, deadline: nat -> Option<nat>,
                             walks: seq<Walked>, i: nat)
    requires Covered(tree, limits, roots, deadline, walks) && AllFinished(tree, limits, walks) && i < |walks|
    ensures !Blocked(tree, limits, roots[i])
  {
    assert walks[i] in walks && RootFrame(walks[i]) == Frame(roots[i].dir, "", 0);
  }

  /**
   A run in which nothing but directories fails, and which no deadline cuts short, ends well exactly when every
   directory the walks reach can be read; every walk of it is then whole.
   */
  lemma EndsWellIffReadable(sha: Digest, tree: Tree, limits: Limits, world: World, roots: seq<Root>,
                            deadline: nat -> Option<nat>, files: map<string, Record>, events: seq<Event>,
                            walks: seq<Walked>, grants: seq<GrantRun>, ok: bool)
    requires Outcome(sha, tree, limits, world, roots, deadline, files, events, walks, grants, ok)
    requires Works(grants) && forall i :: deadline(i).None?
    ensures ok <==> forall i :: 0 <= i < |roots| ==> !Blocked(tree, limits, roots[i])
    ensures ok ==> |walks| == |roots| && AllFinished(tree, limits, walks)
  {
    WorkingCompletes(sha, files, events, grants);
    if ok {
      forall i | 0 <= i < |roots| ensures !Blocked(tree, limits, roots[i]) {
        ReadableWhenFinished(tree, limits, roots, deadline, walks, i);
      }
    }
  }

  /**
   So: readable directories, a log in sync, time and working outside calls, and no hard links, and every file
   that any grant admits is projected with the hash of its bytes when the run is over.
   */
  lemma ReadableTreeIsProjected(sha: Digest, tree: Tree, limits: Limits, top: nat, world: World, roots: seq<Root>,
                                deadline: nat -> Option<nat>, files: map<string, Record>, events: seq<Event>,
                                walks: seq<Walked>, grants: seq<GrantRun>, ok: bool, i: nat, rel: seq<string>,
                                inode: nat)
    requires UniqueNames(tree) && forall j :: 0 <= j < |roots| ==> LeadsTo(tree, top, roots[j].route, roots[j].dir)
    requires Outcome(sha, tree, limits, world, roots, deadline, files, events, walks, grants, ok)
    requires Works(grants) && Prepared(files, events, grants) && forall j :: deadline(j).None?
    requires forall j :: 0 <= j < |roots| ==> !Blocked(tree, limits, roots[j])
    requires Unlinked(tree, limits, walks)
    requires i < |roots| && Admits(tree, limits, Frame(roots[i].dir, "", 0), rel, inode)
    ensures ok
    ensures var all := events + AllAppended(sha, files, events, grants);
            OnePerPath(all) && Shown(sha, world, Projection(Files, all), Absolute(roots[i].route + rel), inode)
  {
    EndsWellIffReadable(sha, tree, limits, world, roots, deadline, files, events, walks, grants, ok);
    RunIsSweep(sha, tree, limits, top, world, roots, deadline, files, events, walks, grants);
    SweepSettles(sha, tree, limits, top, world, walks, files, events, grants);
    assert walks[i] in walks && RootFrame(walks[i]) == Frame(roots[i].dir, "", 0);
    EveryFileProjected(sha, tree, limits, top, world, walks, files, events, grants, roots[i].route + rel, inode);
  }
}
