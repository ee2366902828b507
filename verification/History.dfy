/**
 Whole histories of the log: ingest runs that complete or abort, other appended events and rebuilds, in any
 order, and which orders keep one live record per path.
 */
module History {
  import opened Convergence
  import opened Current
  import opened Events
  import opened Ingest

  datatype Step =
    | Run(grant: GrantRun)
    | Other(ev: Event)
    | Rebuild

  /** The log and the projection the next run will decide from. */
  datatype State = State(events: seq<Event>, files: map<string, Record>)

  function After(sha: Digest, s: State, step: Step): State {
    match step
    case Run(g) =>
      var events := s.events + Appended(sha, g.root, s.files, g.probes);
      State(events, if EndsWell(sha, s.files, g) then Projection(Files, events) else s.files)
    case Other(ev) => s.(events := s.events + [ev])
    case Rebuild => s.(files := Projection(Files, s.events))
  }

  /**
   At every step the ids drawn are new to the log, a run's files have distinct paths, and only runs append
   `file_ingested` events; the other events may retire any id whatever.
   */
  ghost predicate Feasible(sha: Digest, s: State, steps: seq<Step>)
    decreases |steps|
  {
    UniqueIds(s.events) &&
    (steps != [] ==>
       && (steps[0].Run? ==> FreshIds(s.events, steps[0].grant.probes) && DistinctPaths(steps[0].grant.probes))
       && (steps[0].Other? ==> RecordOf(Files, steps[0].ev).None?)
       && Feasible(sha, After(sha, s, steps[0]), steps[1..]))
  }

  /** At no time in the history does a path have two live records. */
  ghost predicate KeptThroughout(sha: Digest, s: State, steps: seq<Step>)
    decreases |steps|
  {
    OnePerPath(s.events) && (steps != [] ==> KeptThroughout(sha, After(sha, s, steps[0]), steps[1..]))
  }

  /** Every run finds, under the paths it writes, the projection showing what is live. */
  ghost predicate EachProjects(sha: Digest, s: State, steps: seq<Step>)
    decreases |steps|
  {
    steps != [] ==>
      && (steps[0].Run? ==> ProjectsWhatItWrites(sha, s.files, s.events, steps[0].grant.probes))
      && EachProjects(sha, After(sha, s, steps[0]), steps[1..])
  }

  lemma OtherShrinks(events: seq<Event>, ev: Event, path: string)
    requires RecordOf(Files, ev).None?
    ensures var live, after := LiveRecords(Files, events, path), LiveRecords(Files, events + [ev], path);
            after == live || (Retires(ev).Some? && after == Without(live, Retires(ev).value))
  {
    LiveAfter(Files, events, ev, path);
  }

  lemma {:induction false} WithoutSmaller(records: seq<Record>, id: string)
    ensures |Without(records, id)| <= |records|
    ensures forall r :: r in Without(records, id) ==> r in records
  {
    if records != [] {
      WithoutSmaller(records[..|records| - 1], id);
    }
  }

  lemma OtherKeeps(events: seq<Event>, ev: Event)
    requires RecordOf(Files, ev).None? && OnePerPath(events)
    ensures OnePerPath(events + [ev])
  {
    forall path: string ensures |LiveRecords(Files, events + [ev], path)| <= 1 {
      OtherShrinks(events, ev, path);
      if Retires(ev).Some? {
        WithoutSmaller(LiveRecords(Files, events, path), Retires(ev).value);
      }
    }
  }

  lemma StepHonest(sha: Digest, s: State, step: Step)
    requires Honest(s.files, s.events)
    ensures Honest(After(sha, s, step).files, After(sha, s, step).events)
  {
    match step
    case Run(g) =>
      HonestLonger(s.files, s.events, Appended(sha, g.root, s.files, g.probes));
      ProjectionIsHonest(After(sha, s, step).events);
    case Other(ev) => HonestLonger(s.files, s.events, [ev]);
    case Rebuild => ProjectionIsHonest(s.events);
  }

  lemma StepExactly(sha: Digest, s: State, step: Step)
    requires Honest(s.files, s.events) && OnePerPath(s.events) && Feasible(sha, s, [step])
    ensures OnePerPath(After(sha, s, step).events) <==>
            (step.Run? ==> ProjectsWhatItWrites(sha, s.files, s.events, step.grant.probes))
  {
    assert [step][0] == step;
    match step
    case Run(g) => OnePerPathExactly(sha, g.root, s.files, s.events, g.probes);
    case Other(ev) => OtherKeeps(s.events, ev);
    case Rebuild =>
  }

  lemma FeasibleFirst(sha: Digest, s: State, steps: seq<Step>)
    requires steps != [] && Feasible(sha, s, steps)
    ensures Feasible(sha, s, [steps[0]]) && Feasible(sha, After(sha, s, steps[0]), steps[1..])
  {
    assert [steps[0]][0] == steps[0] && [steps[0]][1..] == [];
    assert UniqueIds(After(sha, s, steps[0]).events);
  }

  /**
   Over any history, one live record per path is kept at all times exactly when every run decides from what
   is live.
   */
  lemma {:induction false} ThroughoutExactly(sha: Digest, s: State, steps: seq<Step>)
    requires Honest(s.files, s.events) && OnePerPath(s.events) && Feasible(sha, s, steps)
    ensures KeptThroughout(sha, s, steps) <==> EachProjects(sha, s, steps)
    decreases |steps|
  {
    if steps != [] {
      var next := After(sha, s, steps[0]);
      FeasibleFirst(sha, s, steps);
      StepExactly(sha, s, steps[0]);
      if OnePerPath(next.events) {
        StepHonest(sha, s, steps[0]);
        ThroughoutExactly(sha, next, steps[1..]);
      }
    }
  }

  // ---------------------------------------------------------------------------------------------
  // Orders that keep it
  // ---------------------------------------------------------------------------------------------

  /** The projection shows whatever is live. */
  ghost predicate Covers(s: State) {
    forall path: string :: CurrentRecord(Files, s.events, path).Some? ==>
      At(s.files, path).Some? && At(s.files, path).value.eventId == CurrentRecord(Files, s.events, path).value.eventId
  }

  /** The projection is rebuilt before the next run. */
  predicate RebuiltFirst(steps: seq<Step>) {
    steps != [] && !steps[0].Rebuild? ==> steps[0].Other? && RebuiltFirst(steps[1..])
  }

  /** After every run that aborts, the projection is rebuilt before the next run. */
  ghost predicate Repaired(sha: Digest, s: State, steps: seq<Step>)
    decreases |steps|
  {
    steps != [] ==>
      && (steps[0].Run? && !EndsWell(sha, s.files, steps[0].grant) ==> RebuiltFirst(steps[1..]))
      && Repaired(sha, After(sha, s, steps[0]), steps[1..])
  }

  lemma OtherCovers(sha: Digest, s: State, ev: Event)
    requires Covers(s) && OnePerPath(s.events) && RecordOf(Files, ev).None?
    ensures Covers(After(sha, s, Step.Other(ev)))
  {
    var events := s.events + [ev];
    forall path: string | CurrentRecord(Files, events, path).Some?
      ensures CurrentRecord(Files, s.events, path) == CurrentRecord(Files, events, path)
    {
      OtherShrinks(s.events, ev, path);
      if Retires(ev).Some? {
        WithoutSmaller(LiveRecords(Files, s.events, path), Retires(ev).value);
      }
    }
  }

  /**
   From a log with one live record per path and a projection that shows what is live, every history that
   rebuilds the projection between an aborted run and the next run keeps one live record per path at all
   times, whatever the other events retire. `Convergence.AbortedRunDuplicates` is a history that does not.
   */
  lemma {:induction false} RepairedKeepsOnePerPath(sha: Digest, s: State, steps: seq<Step>)
    requires Honest(s.files, s.events) && OnePerPath(s.events) && Feasible(sha, s, steps)
    requires (Covers(s) || RebuiltFirst(steps)) && Repaired(sha, s, steps)
    ensures KeptThroughout(sha, s, steps)
    decreases |steps|
  {
    if steps != [] {
      var next := After(sha, s, steps[0]);
      FeasibleFirst(sha, s, steps);
      StepHonest(sha, s, steps[0]);
      StepExactly(sha, s, steps[0]);
      if steps[0].Other? && Covers(s) {
        OtherCovers(sha, s, steps[0].ev);
      }
      RepairedKeepsOnePerPath(sha, next, steps[1..]);
    }
  }
}
