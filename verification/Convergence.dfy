/**
 What ingest runs do to the log: the exact effect of one run on the live records of every path, when it
 keeps one per path, and convergence and idempotence over runs, grants and whole histories.
 */
module Convergence {
  import opened Wrappers
  import opened Events
  import opened Current
  import opened Ingest

  // ---------------------------------------------------------------------------------------------
  // What a run does to the live records of every path
  // ---------------------------------------------------------------------------------------------

  /** Every projected record is stated, under its own path, by an event of the log. */
  ghost predicate Honest(files: map<string, Record>, events: seq<Event>) {
    forall path: string :: path in files ==>
      Key(files[path]) == path && exists i :: 0 <= i < |events| && RecordOf(Files, events[i]) == Some(files[path])
  }

  ghost predicate InSync(files: map<string, Record>, events: seq<Event>) {
    files == Projection(Files, events)
  }

  /** At most one un-superseded `file_ingested` per path. */
  ghost predicate OnePerPath(events: seq<Event>) {
    forall path: string :: |LiveRecords(Files, events, path)| <= 1
  }

  /** Id `id` is borne and mentioned by no event so far. */
  ghost predicate Unused(events: seq<Event>, id: string) {
    (forall i :: 0 <= i < |events| ==> events[i].id != id) && id !in RetiredIds(events)
  }

  ghost predicate UnusedIds(events: seq<Event>, p: Probe) {
    Unused(events, p.fileId) && Unused(events, p.supersedeId) && p.fileId != p.supersedeId
  }

  /** The ids the run draws are new to the log and distinct from one another. */
  ghost predicate FreshIds(events: seq<Event>, probes: seq<Probe>) {
    && (forall i :: 0 <= i < |probes| ==> UnusedIds(events, probes[i]))
    && (forall i, j :: 0 <= i < j < |probes| ==>
          {probes[i].fileId, probes[i].supersedeId} !! {probes[j].fileId, probes[j].supersedeId})
  }

  ghost predicate DistinctPaths(probes: seq<Probe>) {
    forall i, j :: 0 <= i < j < |probes| ==> probes[i].path != probes[j].path
  }

  /** A log, a projection of it and files that a run is about to go through. */
  ghost predicate Starting(files: map<string, Record>, events: seq<Event>, probes: seq<Probe>) {
    InSync(files, events) && UniqueIds(events) && FreshIds(events, probes) && DistinctPaths(probes)
  }

  /** An empty log with its empty projection is a starting point for any files with fresh ids and distinct paths. */
  lemma EmptyLogStarts(probes: seq<Probe>)
    requires FreshIds([], probes) && DistinctPaths(probes)
    ensures Starting(map[], [], probes) && OnePerPath([])
  {
    ProjectionKeys(Files, []);
    assert Projection(Files, []) == map[];
  }

  /** The probe whose file the run appended under `path`, if any. */
  function WrittenBy(sha: Digest, files: map<string, Record>, probes: seq<Probe>, path: string): (w: Option<Probe>)
    ensures w.Some? ==> w.value.path == path && Writes(sha, files, w.value)
  {
    if probes == [] then None
    else if probes[0].path == path && Writes(sha, files, probes[0]) then Some(probes[0])
    else if Aborts(sha, files, probes[0]) then None
    else WrittenBy(sha, files, probes[1..], path)
  }

  predicate Writes(sha: Digest, files: map<string, Record>, p: Probe) {
    Decide(sha, files, p).Append? && p.appends
  }

  function LiveAfterOne(sha: Digest, root: string, files: map<string, Record>, p: Probe, path: string,
                        live: seq<Record>): seq<Record>
  {
    if p.path == path && Writes(sha, files, p)
    then (if path in files then Without(live, files[path].eventId) else live) + [Ingested(sha, root, p)]
    else live
  }

  /** The live records of `path` after the run: what was live and not projected, then the new record. */
  function LiveAfterRun(sha: Digest, root: string, files: map<string, Record>, probes: seq<Probe>, path: string,
                        live: seq<Record>): seq<Record>
  {
    var w := WrittenBy(sha, files, probes, path);
    if w.Some? then LiveAfterOne(sha, root, files, w.value, path, live) else live
  }

  /** A projected record of another path is never among the live records of `path`. */
  lemma ProjectedElsewhere(files: map<string, Record>, events: seq<Event>, path: string, other: string)
    requires Honest(files, events) && UniqueIds(events)
    requires other in files && other != path
    ensures Without(LiveRecords(Files, events, path), files[other].eventId) == LiveRecords(Files, events, path)
  {
    LiveStated(Files, events, path, RetiredIds(events), |events|);
    WithoutAbsent(LiveRecords(Files, events, path), files[other].eventId);
  }

  lemma FileAppended(sha: Digest, root: string, events: seq<Event>, p: Probe, path: string)
    requires p.read.Bytes? && p.converted.Plain? && p.fileId !in RetiredIds(events)
    ensures LiveRecords(Files, events + [FileEvent(sha, root, p)], path) ==
            LiveRecords(Files, events, path) + (if p.path == path then [Ingested(sha, root, p)] else [])
  {
    FileEventReadsBack(sha, root, p);
    LiveAfter(Files, events, FileEvent(sha, root, p), path);
  }

  lemma PriorRetired(files: map<string, Record>, events: seq<Event>, p: Probe, path: string)
    requires Honest(files, events) && UniqueIds(events) && UnusedIds(events, p) && p.path in files
    ensures var next := events + [SupersedeEvent(p, files[p.path].eventId)];
            && p.fileId !in RetiredIds(next)
            && LiveRecords(Files, next, path) ==
               if path == p.path then Without(LiveRecords(Files, events, path), files[path].eventId)
               else LiveRecords(Files, events, path)
  {
    LiveAfter(Files, events, SupersedeEvent(p, files[p.path].eventId), path);
    if path != p.path {
      ProjectedElsewhere(files, events, path, p.path);
    }
  }

  lemma StepLive(sha: Digest, root: string, files: map<string, Record>, events: seq<Event>, p: Probe, path: string)
    requires Honest(files, events) && UniqueIds(events) && UnusedIds(events, p)
    ensures LiveRecords(Files, events + Adds(sha, root, files, p), path) ==
            LiveAfterOne(sha, root, files, p, path, LiveRecords(Files, events, path))
  {
    var adds := Adds(sha, root, files, p);
    if Writes(sha, files, p) && p.path in files {
      var sup := SupersedeEvent(p, files[p.path].eventId);
      PriorRetired(files, events, p, path);
      FileAppended(sha, root, events + [sup], p, path);
      assert events + [sup] + [FileEvent(sha, root, p)] == events + adds;
    } else if Writes(sha, files, p) {
      FileAppended(sha, root, events, p, path);
      assert adds == [FileEvent(sha, root, p)];
    } else {
      assert events + [] == events;
    }
  }

  lemma StepKeeps(sha: Digest, root: string, files: map<string, Record>, events: seq<Event>, probes: seq<Probe>)
    requires probes != [] && Honest(files, events) && UniqueIds(events) && FreshIds(events, probes)
    ensures var next := events + Adds(sha, root, files, probes[0]);
            Honest(files, next) && UniqueIds(next) && FreshIds(next, probes[1..])
  {
    var adds := Adds(sha, root, files, probes[0]);
    var next := events + adds;
    assert UnusedIds(events, probes[0]);
    assert forall i :: 0 <= i < |adds| ==> adds[i].id in {probes[0].fileId, probes[0].supersedeId};
    HonestLonger(files, events, adds);
    forall i | 0 <= i < |probes[1..]|
      ensures UnusedIds(next, probes[1..][i])
    {
      OtherIdsUnused(sha, root, files, events, probes[0], probes[i + 1]);
    }
  }

  lemma HonestLonger(files: map<string, Record>, events: seq<Event>, adds: seq<Event>)
    requires Honest(files, events)
    ensures Honest(files, events + adds)
  {
    var next := events + adds;
    forall path: string | path in files
      ensures Key(files[path]) == path && exists i :: 0 <= i < |next| && RecordOf(Files, next[i]) == Some(files[path])
    {
      var i :| 0 <= i < |events| && RecordOf(Files, events[i]) == Some(files[path]);
      assert next[i] == events[i];
    }
  }

  /** What one file adds uses no id of another. */
  lemma OtherIdsUnused(sha: Digest, root: string, files: map<string, Record>, events: seq<Event>, p: Probe, q: Probe)
    requires Honest(files, events) && UnusedIds(events, q)
    requires {p.fileId, p.supersedeId} !! {q.fileId, q.supersedeId}
    ensures UnusedIds(events + Adds(sha, root, files, p), q)
  {
    var adds := Adds(sha, root, files, p);
    assert forall i :: 0 <= i < |adds| ==> adds[i].id in {p.fileId, p.supersedeId};
    AddsRetires(sha, root, files, events, p);
  }

  /** A file's appends retire nothing but the projected record of its path. */
  lemma AddsRetires(sha: Digest, root: string, files: map<string, Record>, events: seq<Event>, p: Probe)
    requires Honest(files, events)
    ensures forall id :: id in RetiredIds(events + Adds(sha, root, files, p)) ==>
              id in RetiredIds(events) || exists i :: 0 <= i < |events| && events[i].id == id
  {
    var all := events + Adds(sha, root, files, p);
    forall id | id in RetiredIds(all) && id !in RetiredIds(events)
      ensures exists i :: 0 <= i < |events| && events[i].id == id
    {
      var j :| 0 <= j < |all| && Retires(all[j]) == Some(id);
      if j < |events| {
        assert Retires(events[j]) == Some(id);
      }
      assert RecordOf(Files, FileEvent(sha, root, p)).Some? by {
        FileEventReadsBack(sha, root, p);
      }
      assert id == files[p.path].eventId;
    }
  }

  lemma {:induction false} WrittenByListed(sha: Digest, files: map<string, Record>, probes: seq<Probe>, path: string)
    requires WrittenBy(sha, files, probes, path).Some?
    ensures WrittenBy(sha, files, probes, path).value in probes
  {
    if !(probes[0].path == path && Writes(sha, files, probes[0])) {
      WrittenByListed(sha, files, probes[1..], path);
    }
  }

  /**
   The exact effect of one run, aborted or not, on the live records of every path: a path the run wrote
   loses the one record the projection showed and gains the new one; every other path is untouched.
   */
  lemma {:induction false} RunLive(sha: Digest, root: string, files: map<string, Record>, events: seq<Event>,
                                   probes: seq<Probe>, path: string)
    requires Honest(files, events) && UniqueIds(events) && FreshIds(events, probes) && DistinctPaths(probes)
    ensures UniqueIds(events + Appended(sha, root, files, probes))
    ensures LiveRecords(Files, events + Appended(sha, root, files, probes), path) ==
            LiveAfterRun(sha, root, files, probes, path, LiveRecords(Files, events, path))
    decreases |probes|
  {
    if probes == [] {
      assert events + [] == events;
    } else {
      StepLive(sha, root, files, events, probes[0], path);
      StepKeeps(sha, root, files, events, probes);
      AppendedFirst(sha, root, files, events, probes);
      LiveFirst(sha, root, files, probes, path, LiveRecords(Files, events, path));
      if !Aborts(sha, files, probes[0]) {
        RunLive(sha, root, files, events + Adds(sha, root, files, probes[0]), probes[1..], path);
      }
    }
  }

  lemma AppendedFirst(sha: Digest, root: string, files: map<string, Record>, events: seq<Event>, probes: seq<Probe>)
    requires probes != []
    ensures var next := events + Adds(sha, root, files, probes[0]);
            events + Appended(sha, root, files, probes) ==
            if Aborts(sha, files, probes[0]) then next else next + Appended(sha, root, files, probes[1..])
  {
  }

  lemma LiveFirst(sha: Digest, root: string, files: map<string, Record>, probes: seq<Probe>, path: string,
                  live: seq<Record>)
    requires probes != [] && DistinctPaths(probes)
    ensures var next := LiveAfterOne(sha, root, files, probes[0], path, live);
            LiveAfterRun(sha, root, files, probes, path, live) ==
            if Aborts(sha, files, probes[0]) then next else LiveAfterRun(sha, root, files, probes[1..], path, next)
  {
    if probes[0].path == path {
      WrittenFirst(sha, files, probes, path);
    }
  }

  /** With distinct paths, a path the first file writes is written by no later file. */
  lemma WrittenFirst(sha: Digest, files: map<string, Record>, probes: seq<Probe>, path: string)
    requires probes != [] && DistinctPaths(probes) && probes[0].path == path
    ensures WrittenBy(sha, files, probes[1..], path).None?
  {
    if WrittenBy(sha, files, probes[1..], path).Some? {
      WrittenByListed(sha, files, probes[1..], path);
    }
  }

  // ---------------------------------------------------------------------------------------------
  // Convergence and idempotence
  // ---------------------------------------------------------------------------------------------

  /** The lookups on the way to a decision work. */
  predicate Answered(p: Probe) {
    p.grantsRead && p.looksUp
  }

  /** The file was reached in time, under an active grant, and its bytes gave text worth keeping. */
  predicate Ingestible(p: Probe) {
    && !p.budgetSpent && p.grantActive && p.read.Bytes? && p.converted.Plain?
    && !Text.Blank(p.converted.text) && Answered(p)
  }

  /** The projection already shows the file's bytes, if it is one to ingest: deciding again appends nothing. */
  predicate Settled(sha: Digest, files: map<string, Record>, p: Probe) {
    p.read.Bytes? && p.converted.Plain? && !Text.Blank(p.converted.text) ==>
      var r := At(files, p.path);
      r.Some? && r.value.File? && r.value.contentHash == sha.bytes(p.read.raw)
  }

  lemma ProjectionIsHonest(events: seq<Event>)
    ensures Honest(Projection(Files, events), events)
  {
    forall path: string | path in Projection(Files, events)
      ensures var r := Projection(Files, events)[path];
              Key(r) == path && exists i :: 0 <= i < |events| && RecordOf(Files, events[i]) == Some(r)
    {
      assert At(Projection(Files, events), path) == CurrentRecord(Files, events, path);
      LiveStated(Files, events, path, RetiredIds(events), |events|);
    }
  }

  lemma {:induction false} WrittenIfReached(sha: Digest, files: map<string, Record>, probes: seq<Probe>, i: nat)
    requires i < |probes| && DistinctPaths(probes) && Completes(sha, files, probes)
    ensures WrittenBy(sha, files, probes, probes[i].path) ==
            if Writes(sha, files, probes[i]) then Some(probes[i]) else None
  {
    if i == 0 {
      WrittenFirst(sha, files, probes, probes[0].path);
    } else {
      assert probes[1..][i - 1] == probes[i] && probes[0].path != probes[i].path;
      assert forall j :: 0 <= j < |probes| - 1 ==> probes[1..][j] == probes[j + 1];
      WrittenIfReached(sha, files, probes[1..], i - 1);
    }
  }

  /**
   Convergence: after a run that starts in sync and completes, the projection shows, for every file it
   got to read as text, the hash of that file's current bytes.
   */
  lemma RunConverges(sha: Digest, root: string, files: map<string, Record>, events: seq<Event>, probes: seq<Probe>,
                     i: nat)
    requires Starting(files, events, probes)
    requires Completes(sha, files, probes) && i < |probes|
    requires !probes[i].budgetSpent && probes[i].grantActive
    ensures Settled(sha, Projection(Files, events + Appended(sha, root, files, probes)), probes[i])
  {
    var p := probes[i];
    ProjectionIsHonest(events);
    RunLive(sha, root, files, events, probes, p.path);
    WrittenIfReached(sha, files, probes, i);
    assert At(Projection(Files, events + Appended(sha, root, files, probes)), p.path) ==
           CurrentRecord(Files, events + Appended(sha, root, files, probes), p.path);
    assert At(files, p.path) == CurrentRecord(Files, events, p.path);
  }

  ghost predicate AllSettled(sha: Digest, files: map<string, Record>, probes: seq<Probe>) {
    forall i :: 0 <= i < |probes| ==> Settled(sha, files, probes[i])
  }

  lemma SettledAddsNothing(sha: Digest, root: string, files: map<string, Record>, p: Probe)
    requires Settled(sha, files, p)
    ensures Adds(sha, root, files, p) == [] && (Answered(p) ==> !Aborts(sha, files, p))
    ensures Ingestible(p) ==> Decide(sha, files, p).Dedup?
  {
  }

  /** Deciding on settled files appends nothing, and aborts nothing unless a lookup fails. */
  lemma {:induction false} SettledRunAppendsNothing(sha: Digest, root: string, files: map<string, Record>,
                                                    probes: seq<Probe>, report: Report)
    requires AllSettled(sha, files, probes)
    ensures Appended(sha, root, files, probes) == []
    ensures (forall i :: 0 <= i < |probes| ==> Answered(probes[i])) ==> Completes(sha, files, probes)
    ensures (forall i :: 0 <= i < |probes| ==> Ingestible(probes[i])) ==>
              Tally(sha, files, probes, report) == report.(deduped := report.deduped + |probes|)
  {
    if probes != [] {
      assert forall i :: 0 <= i < |probes| - 1 ==> probes[1..][i] == probes[i + 1];
      SettledAddsNothing(sha, root, files, probes[0]);
      SettledRunAppendsNothing(sha, root, files, probes[1..], Count(report, probes[0], Decide(sha, files, probes[0])));
    }
  }

  /** The same file with the same bytes and the same parse, whatever clock, grant and log do this time. */
  predicate SameFile(p: Probe, q: Probe) {
    p.path == q.path && p.read == q.read && (p.read.Bytes? ==> p.converted == q.converted)
  }

  /** The second walk found the same files, in the same order. */
  ghost predicate SameTree(probes: seq<Probe>, again: seq<Probe>) {
    |again| == |probes| && forall i :: 0 <= i < |probes| ==> SameFile(probes[i], again[i])
  }

  /** The run had time for every file, and the grant stayed active. */
  ghost predicate ReachedAll(probes: seq<Probe>) {
    forall i :: 0 <= i < |probes| ==> !probes[i].budgetSpent && probes[i].grantActive
  }

  /** What a completed run leaves settled is settled for the same tree seen again. */
  lemma SecondRunIsSettled(sha: Digest, root: string, files: map<string, Record>, events: seq<Event>,
                           probes: seq<Probe>, again: seq<Probe>, next: map<string, Record>)
    requires Starting(files, events, probes) && Completes(sha, files, probes)
    requires ReachedAll(probes) && SameTree(probes, again)
    requires next == Projection(Files, events + Appended(sha, root, files, probes))
    ensures AllSettled(sha, next, again)
  {
    forall i | 0 <= i < |again|
      ensures Settled(sha, next, again[i])
    {
      RunConverges(sha, root, files, events, probes, i);
      assert SameFile(probes[i], again[i]);
    }
  }

  /** A second run over the same tree appends nothing, whatever fails in it, and aborts only if a lookup fails. */
  lemma SecondRunAppendsNothing(sha: Digest, root: string, files: map<string, Record>, events: seq<Event>,
                                probes: seq<Probe>, again: seq<Probe>, next: map<string, Record>)
    requires Starting(files, events, probes) && Completes(sha, files, probes)
    requires ReachedAll(probes) && SameTree(probes, again)
    requires next == Projection(Files, events + Appended(sha, root, files, probes))
    ensures Appended(sha, root, next, again) == []
    ensures (forall i :: 0 <= i < |again| ==> Answered(again[i])) ==> Completes(sha, next, again)
  {
    SecondRunIsSettled(sha, root, files, events, probes, again, next);
    SettledRunAppendsNothing(sha, root, next, again, EMPTY_REPORT);
  }

  /** It reports every file that gives text as `deduped`. */
  lemma SecondRunOnlyDedups(sha: Digest, root: string, files: map<string, Record>, events: seq<Event>,
                            probes: seq<Probe>, again: seq<Probe>, next: map<string, Record>, report: Report)
    requires Starting(files, events, probes) && Completes(sha, files, probes)
    requires ReachedAll(probes) && SameTree(probes, again)
    requires next == Projection(Files, events + Appended(sha, root, files, probes))
    requires forall i :: 0 <= i < |again| ==> Ingestible(again[i])
    ensures Tally(sha, next, again, report) == report.(deduped := report.deduped + |again|)
  {
    SecondRunIsSettled(sha, root, files, events, probes, again, next);
    SettledRunAppendsNothing(sha, root, next, again, report);
  }

  // ---------------------------------------------------------------------------------------------
  // One live record per path
  // ---------------------------------------------------------------------------------------------

  /** Whatever is live under the paths this run writes is what the projection shows there. */
  ghost predicate ProjectsWhatItWrites(sha: Digest, files: map<string, Record>, events: seq<Event>,
                                       probes: seq<Probe>)
  {
    forall path: string :: WrittenBy(sha, files, probes, path).Some? && CurrentRecord(Files, events, path).Some? ==>
      At(files, path).Some? && At(files, path).value.eventId == CurrentRecord(Files, events, path).value.eventId
  }

  lemma WithoutOne(live: seq<Record>, id: string)
    requires |live| == 1
    ensures Without(live, id) == if live[0].eventId == id then [] else live
  {
    assert live[..0] == [];
  }

  /**
   From a log with at most one live record per path, a run, completed or aborted, keeps that exactly when
   the projection it decides from shows what is live under every path it writes.
   */
  lemma OnePerPathExactly(sha: Digest, root: string, files: map<string, Record>, events: seq<Event>, probes: seq<Probe>)
    requires Honest(files, events) && UniqueIds(events) && FreshIds(events, probes) && DistinctPaths(probes)
    requires OnePerPath(events)
    ensures OnePerPath(events + Appended(sha, root, files, probes)) <==>
            ProjectsWhatItWrites(sha, files, events, probes)
  {
    var all := events + Appended(sha, root, files, probes);
    forall path: string
      ensures |LiveRecords(Files, all, path)| <= 1 <==>
              (WrittenBy(sha, files, probes, path).Some? && CurrentRecord(Files, events, path).Some? ==>
                 At(files, path).Some?
                 && At(files, path).value.eventId == CurrentRecord(Files, events, path).value.eventId)
    {
      var live := LiveRecords(Files, events, path);
      RunLive(sha, root, files, events, probes, path);
      if path in files && live != [] {
        WithoutOne(live, files[path].eventId);
      }
    }
  }

  /** In particular a run that starts in sync keeps it, even if it aborts. */
  lemma InSyncKeepsOnePerPath(sha: Digest, root: string, files: map<string, Record>, events: seq<Event>,
                              probes: seq<Probe>)
    requires Starting(files, events, probes)
    requires OnePerPath(events)
    ensures OnePerPath(events + Appended(sha, root, files, probes))
  {
    ProjectionIsHonest(events);
    OnePerPathExactly(sha, root, files, events, probes);
  }

  /**
   An aborted run leaves the projection behind the log, and the next run then breaks the invariant: a new
   file is appended, its embedding fails, and ingesting the same bytes again leaves two live records.
   */
  lemma AbortedRunDuplicates(sha: Digest, root: string, p: Probe, q: Probe)
    requires Ingestible(p) && p.appends && !p.embeds
    requires SameFile(p, q) && Ingestible(q) && q.appends && q.embeds
    requires FreshIds([], [p]) && FreshIds(Appended(sha, root, map[], [p]), [q])
    ensures !Completes(sha, map[], [p]) && Completes(sha, map[], [q])
    ensures var twice := Appended(sha, root, map[], [p]) + Appended(sha, root, map[], [q]);
            LiveRecords(Files, twice, p.path) == [Ingested(sha, root, p), Ingested(sha, root, q)]
  {
    assert [p][0] == p && Aborts(sha, map[], [p][0]);
    var first := Appended(sha, root, map[], [p]);
    assert [] + first == first;
    RunLive(sha, root, map[], [], [p], p.path);
    RunLive(sha, root, map[], first, [q], p.path);
    assert LiveRecords(Files, [], p.path) == [];
    assert WrittenBy(sha, map[], [p], p.path) == Some(p) && WrittenBy(sha, map[], [q], p.path) == Some(q);
  }

  // ---------------------------------------------------------------------------------------------
  // All grants
  // ---------------------------------------------------------------------------------------------

  /** Every file of every grant, in the order the run reaches them. */
  function Flat(grants: seq<GrantRun>): seq<Probe> {
    if grants == [] then [] else grants[0].probes + Flat(grants[1..])
  }

  /** A log and files ready for a run over `probes`. */
  ghost predicate Ready(events: seq<Event>, probes: seq<Probe>) {
    UniqueIds(events) && FreshIds(events, probes) && DistinctPaths(probes)
  }

  lemma ReadyParts(events: seq<Event>, probes: seq<Probe>, more: seq<Probe>)
    requires Ready(events, probes + more)
    ensures Ready(events, probes) && Ready(events, more)
  {
    var all := probes + more;
    assert forall i :: 0 <= i < |probes| ==> probes[i] == all[i];
    assert forall i :: 0 <= i < |more| ==> more[i] == all[|probes| + i];
  }

  lemma FreshParts(events: seq<Event>, probes: seq<Probe>, more: seq<Probe>)
    requires FreshIds(events, probes + more)
    ensures FreshIds(events, probes) && FreshIds(events, more)
  {
    var all := probes + more;
    assert forall i :: 0 <= i < |probes| ==> probes[i] == all[i];
    assert forall i :: 0 <= i < |more| ==> more[i] == all[|probes| + i];
  }

  /** What one run appends uses none of the ids later runs will draw. */
  lemma {:induction false} RunKeepsFresh(sha: Digest, root: string, files: map<string, Record>, events: seq<Event>,
                                         probes: seq<Probe>, more: seq<Probe>)
    requires Honest(files, events) && UniqueIds(events) && FreshIds(events, probes + more)
    ensures UniqueIds(events + Appended(sha, root, files, probes))
    ensures FreshIds(events + Appended(sha, root, files, probes), more)
    decreases |probes|
  {
    if probes == [] {
      assert probes + more == more && events + [] == events;
    } else {
      var all := probes + more;
      assert all[0] == probes[0] && all[1..] == probes[1..] + more;
      StepKeeps(sha, root, files, events, all);
      var next := events + Adds(sha, root, files, probes[0]);
      AppendedFirst(sha, root, files, events, probes);
      FreshParts(next, probes[1..], more);
      if !Aborts(sha, files, probes[0]) {
        RunKeepsFresh(sha, root, files, next, probes[1..], more);
      }
    }
  }

  lemma RunKeepsReady(sha: Digest, root: string, files: map<string, Record>, events: seq<Event>,
                      probes: seq<Probe>, more: seq<Probe>)
    requires Honest(files, events) && Ready(events, probes + more)
    ensures Ready(events + Appended(sha, root, files, probes), more)
  {
    RunKeepsFresh(sha, root, files, events, probes, more);
    ReadyParts(events, probes, more);
  }

  /**
   Over any history of completed runs, of the same or of different grants, with any files and any outside
   answers, the log never holds more than one live record for a path.
   */
  lemma {:induction false} HistoryKeepsOnePerPath(sha: Digest, events: seq<Event>, runs: seq<GrantRun>)
    requires UniqueIds(events) && OnePerPath(events) && FreshIds(events, Flat(runs))
    requires forall i :: 0 <= i < |runs| ==> DistinctPaths(runs[i].probes)
    requires AllComplete(sha, Projection(Files, events), events, runs)
    ensures OnePerPath(events + AllAppended(sha, Projection(Files, events), events, runs))
    decreases |runs|
  {
    var files := Projection(Files, events);
    if runs == [] {
      assert events + [] == events;
    } else {
      var g, rest := runs[0], runs[1..];
      var next := events + Appended(sha, g.root, files, g.probes);
      ProjectionIsHonest(events);
      FreshParts(events, g.probes, Flat(rest));
      RunKeepsFresh(sha, g.root, files, events, g.probes, Flat(rest));
      InSyncKeepsOnePerPath(sha, g.root, files, events, g.probes);
      AllAppendedFirst(sha, files, events, runs);
      HistoryKeepsOnePerPath(sha, next, rest);
    }
  }

  /** A path no grant walks keeps its live records through the whole run. */
  lemma {:induction false} UnwalkedUntouched(sha: Digest, files: map<string, Record>, events: seq<Event>,
                                             grants: seq<GrantRun>, path: string)
    requires InSync(files, events) && Ready(events, Flat(grants))
    requires forall p :: p in Flat(grants) ==> p.path != path
    ensures LiveRecords(Files, events + AllAppended(sha, files, events, grants), path) ==
            LiveRecords(Files, events, path)
    decreases |grants|
  {
    if grants == [] {
      assert events + [] == events;
    } else {
      var g, next := grants[0], events + Appended(sha, grants[0].root, files, grants[0].probes);
      ProjectionIsHonest(events);
      ReadyParts(events, g.probes, Flat(grants[1..]));
      RunLive(sha, g.root, files, events, g.probes, path);
      if WrittenBy(sha, files, g.probes, path).Some? {
        WrittenByListed(sha, files, g.probes, path);
        assert false;
      }
      AllAppendedFirst(sha, files, events, grants);
      if EndsWell(sha, files, g) {
        RunKeepsReady(sha, g.root, files, events, g.probes, Flat(grants[1..]));
        UnwalkedUntouched(sha, Projection(Files, next), next, grants[1..], path);
      }
    }
  }

  /** A run over all grants that completes leaves every file it got to settled, and one live record per path. */
  lemma {:induction false} AllRunsConverge(sha: Digest, files: map<string, Record>, events: seq<Event>,
                                           grants: seq<GrantRun>)
    requires InSync(files, events) && Ready(events, Flat(grants)) && OnePerPath(events)
    requires AllComplete(sha, files, events, grants)
    requires forall p :: p in Flat(grants) ==> !p.budgetSpent && p.grantActive
    ensures var all := events + AllAppended(sha, files, events, grants);
            OnePerPath(all) && forall p :: p in Flat(grants) ==> Settled(sha, Projection(Files, all), p)
    decreases |grants|
  {
    if grants == [] {
      assert events + [] == events;
    } else {
      var g, rest := grants[0], grants[1..];
      var next := events + Appended(sha, g.root, files, g.probes);
      var all := events + AllAppended(sha, files, events, grants);
      ReadyParts(events, g.probes, Flat(rest));
      ProjectionIsHonest(events);
      RunKeepsReady(sha, g.root, files, events, g.probes, Flat(rest));
      InSyncKeepsOnePerPath(sha, g.root, files, events, g.probes);
      AllAppendedFirst(sha, files, events, grants);
      AllRunsConverge(sha, Projection(Files, next), next, rest);
      forall i | 0 <= i < |g.probes|
        ensures Settled(sha, Projection(Files, all), g.probes[i])
      {
        GrantStaysSettled(sha, files, events, grants, i);
      }
    }
  }

  lemma GrantStaysSettled(sha: Digest, files: map<string, Record>, events: seq<Event>, grants: seq<GrantRun>, i: nat)
    requires grants != [] && i < |grants[0].probes|
    requires InSync(files, events) && Ready(events, Flat(grants)) && AllComplete(sha, files, events, grants)
    requires !grants[0].probes[i].budgetSpent && grants[0].probes[i].grantActive
    ensures Settled(sha, Projection(Files, events + AllAppended(sha, files, events, grants)), grants[0].probes[i])
  {
    var g, rest, p := grants[0], grants[1..], grants[0].probes[i];
    var next := events + Appended(sha, g.root, files, g.probes);
    var all := events + AllAppended(sha, files, events, grants);
    ReadyParts(events, g.probes, Flat(rest));
    ProjectionIsHonest(events);
    RunKeepsReady(sha, g.root, files, events, g.probes, Flat(rest));
    RunConverges(sha, g.root, files, events, g.probes, i);
    AllAppendedFirst(sha, files, events, grants);
    PathElsewhere(g.probes, Flat(rest), i);
    UnwalkedUntouched(sha, Projection(Files, next), next, rest, p.path);
    assert At(Projection(Files, all), p.path) == CurrentRecord(Files, all, p.path);
    assert At(Projection(Files, next), p.path) == CurrentRecord(Files, next, p.path);
  }

  lemma PathElsewhere(probes: seq<Probe>, more: seq<Probe>, i: nat)
    requires DistinctPaths(probes + more) && i < |probes|
    ensures forall q :: q in more ==> q.path != probes[i].path
  {
    var all := probes + more;
    forall q | q in more
      ensures q.path != probes[i].path
    {
      var j :| 0 <= j < |more| && more[j] == q;
      assert all[i] == probes[i] && all[|probes| + j] == q;
    }
  }

  /** No lookup and no rebuild fails. */
  ghost predicate Unfailing(grants: seq<GrantRun>) {
    forall g :: g in grants ==> g.rebuilds && forall p :: p in g.probes ==> Answered(p)
  }

  lemma {:induction false} SettledGrantsAppendNothing(sha: Digest, events: seq<Event>, again: seq<GrantRun>)
    requires forall p :: p in Flat(again) ==> Settled(sha, Projection(Files, events), p)
    ensures AllAppended(sha, Projection(Files, events), events, again) == []
    ensures Unfailing(again) ==> AllComplete(sha, Projection(Files, events), events, again)
    decreases |again|
  {
    if again != [] {
      var g := again[0];
      assert forall p :: p in g.probes ==> p in Flat(again);
      SettledRunAppendsNothing(sha, g.root, Projection(Files, events), g.probes, EMPTY_REPORT);
      assert events + [] == events;
      SettledGrantsAppendNothing(sha, events, again[1..]);
    }
  }

  /** Every file gives text and is projected as it is. */
  ghost predicate AllDeduped(sha: Digest, files: map<string, Record>, probes: seq<Probe>) {
    forall p :: p in probes ==> Settled(sha, files, p) && Ingestible(p)
  }

  lemma DedupedTally(sha: Digest, root: string, files: map<string, Record>, probes: seq<Probe>, report: Report)
    requires AllDeduped(sha, files, probes)
    ensures Appended(sha, root, files, probes) == [] && Completes(sha, files, probes)
    ensures Tally(sha, files, probes, report) == report.(deduped := report.deduped + |probes|)
  {
    SettledRunAppendsNothing(sha, root, files, probes, report);
  }

  lemma NothingAppendedFirst(sha: Digest, files: map<string, Record>, events: seq<Event>, grants: seq<GrantRun>,
                             report: Report)
    requires grants != [] && grants[0].rebuilds
    requires files == Projection(Files, events) && AllDeduped(sha, files, grants[0].probes)
    ensures AllTally(sha, files, events, grants, report)
         == AllTally(sha, files, events, grants[1..], report.(deduped := report.deduped + |grants[0].probes|))
  {
    DedupedTally(sha, grants[0].root, files, grants[0].probes, report);
    assert events + [] == events;
  }

  lemma {:induction false} SettledGrantsReport(sha: Digest, files: map<string, Record>, events: seq<Event>,
                                               again: seq<GrantRun>, report: Report)
    requires files == Projection(Files, events) && AllDeduped(sha, files, Flat(again)) && Unfailing(again)
    ensures AllTally(sha, files, events, again, report) == report.(deduped := report.deduped + |Flat(again)|)
    decreases |again|
  {
    if again != [] {
      assert AllDeduped(sha, files, again[0].probes) && AllDeduped(sha, files, Flat(again[1..]));
      NothingAppendedFirst(sha, files, events, again, report);
      SettledGrantsReport(sha, files, events, again[1..], report.(deduped := report.deduped + |again[0].probes|));
    }
  }

  /** A second `ingest_all` over the same trees appends nothing; unless something fails it completes and only dedups. */
  lemma SecondIngestAllAppendsNothing(sha: Digest, files: map<string, Record>, events: seq<Event>,
                                      grants: seq<GrantRun>, again: seq<GrantRun>)
    requires InSync(files, events) && Ready(events, Flat(grants)) && OnePerPath(events)
    requires AllComplete(sha, files, events, grants)
    requires forall p :: p in Flat(grants) ==> !p.budgetSpent && p.grantActive
    requires forall q :: q in Flat(again) ==> exists p :: p in Flat(grants) && SameFile(p, q)
    ensures var all := events + AllAppended(sha, files, events, grants);
            && AllAppended(sha, Projection(Files, all), all, again) == []
            && (Unfailing(again) ==> AllComplete(sha, Projection(Files, all), all, again))
            && (Unfailing(again) && (forall q :: q in Flat(again) ==> Ingestible(q)) ==>
                  AllTally(sha, Projection(Files, all), all, again, EMPTY_REPORT)
                  == EMPTY_REPORT.(deduped := |Flat(again)|))
  {
    var all := events + AllAppended(sha, files, events, grants);
    AllRunsConverge(sha, files, events, grants);
    forall q | q in Flat(again)
      ensures Settled(sha, Projection(Files, all), q)
    {
      var p :| p in Flat(grants) && SameFile(p, q);
      assert Settled(sha, Projection(Files, all), p);
    }
    SettledGrantsAppendNothing(sha, all, again);
    if Unfailing(again) && forall q :: q in Flat(again) ==> Ingestible(q) {
      SettledGrantsReport(sha, Projection(Files, all), all, again, EMPTY_REPORT);
    }
  }
}
