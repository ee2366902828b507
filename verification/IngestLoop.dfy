/** The ingest loop over the event log: one file, one grant, and all grants in turn. */
module IngestLoop {
  import opened Current
  import opened Events
  import opened Ingest
  import opened RunReport

  class EventLog {
    var events: seq<Event>
    var files: map<string, Record>

    constructor ()
      ensures events == [] && files == map[]
    {
      events, files := [], map[];
    }

    /** The rebuild is one transaction: it may fail, and then changes nothing. */
    method RebuildGraph(works: bool) returns (ok: bool)
      modifies this`files
      ensures ok == works && files == if works then Projection(Files, events) else old(files)
    {
      ok := works;
      if works {
        files := FoldCurrent(Files, events);
      }
    }

    /** One turn of the loop: the dedup/supersede decision and its appends. `ok` is false when it aborts the run. */
    method Settle(sha: Digest, root: string, p: Probe, decision: Decision) returns (ok: bool)
      requires decision == Decide(sha, files, p)
      modifies this`events
      ensures events == old(events) + Adds(sha, root, files, p)
      ensures ok <==> !Aborts(sha, files, p)
    {
      ok := !decision.Stop?;
      if decision.Append? {
        if p.appends {
          if decision.previous.Some? {
            events := events + [SupersedeEvent(p, decision.previous.value.eventId)];
          }
          events := events + [FileEvent(sha, root, p)];
        }
        ok := p.appends && p.embeds;
      }
    }

    /** The loop over the files of a grant, up to the one that aborts the run. */
    method TakeFiles(sha: Digest, root: string, probes: seq<Probe>, before: Report) returns (ok: bool, report: Report)
      modifies this`events
      ensures events == old(events) + Appended(sha, root, files, probes)
      ensures ok <==> Completes(sha, files, probes)
      ensures report == Tally(sha, files, probes, before)
    {
      ok, report := true, before;
      for i := 0 to |probes|
        invariant ok && forall j :: 0 <= j < i ==> !Aborts(sha, files, probes[j])
        invariant events + Appended(sha, root, files, probes[i..]) == old(events) + Appended(sha, root, files, probes)
        invariant Tally(sha, files, probes[i..], report) == Tally(sha, files, probes, before)
      {
        var p := probes[i];
        LoopTurn(sha, root, files, probes, i, events, report);
        var decision := Decide(sha, files, p);
        ok := Settle(sha, root, p, decision);
        if !ok {
          return;
        }
        report := Count(report, p, decision);
      }
      assert probes[|probes|..] == [];
    }

    /** `ingest_grant_inner`, after the walk. The projection is rebuilt only if no file aborted the run. */
    method IngestGrant(sha: Digest, g: GrantRun, before: Report) returns (ok: bool, report: Report)
      modifies this
      ensures events == old(events) + Appended(sha, g.root, old(files), g.probes)
      ensures ok <==> EndsWell(sha, old(files), g)
      ensures report == Tally(sha, old(files), g.probes, before)
      ensures files == if ok then Projection(Files, events) else old(files)
      // Told from the log: every event it adds, and, if it ends well, what became of every file and of the counts.
      ensures Told(sha, g, old(files), before, ok, events[|old(events)|..], report)
    {
      RunTold(sha, g, files, before);
      ok, report := TakeFiles(sha, g.root, g.probes, before);
      assert events[|old(events)|..] == Appended(sha, g.root, files, g.probes);
      if ok {
        ok := RebuildGraph(g.rebuilds);
      }
    }

    /** `ingest_all`: every active grant in turn, stopping at the first that fails. */
    method IngestAll(sha: Digest, grants: seq<GrantRun>) returns (ok: bool, report: Report)
      modifies this
      ensures events == old(events) + AllAppended(sha, old(files), old(events), grants)
      ensures ok <==> AllComplete(sha, old(files), old(events), grants)
      ensures report == AllTally(sha, old(files), old(events), grants, EMPTY_REPORT)
      ensures files == AllFiles(sha, old(files), old(events), grants)
    {
      ok := true;
      report := EMPTY_REPORT;
      for i := 0 to |grants|
        invariant ok
        invariant events + AllAppended(sha, files, events, grants[i..])
               == old(events) + AllAppended(sha, old(files), old(events), grants)
        invariant AllComplete(sha, files, events, grants[i..]) == AllComplete(sha, old(files), old(events), grants)
        invariant AllTally(sha, files, events, grants[i..], report)
               == AllTally(sha, old(files), old(events), grants, EMPTY_REPORT)
        invariant AllFiles(sha, files, events, grants[i..]) == AllFiles(sha, old(files), old(events), grants)
      {
        assert grants[i..][0] == grants[i] && grants[i..][1..] == grants[i + 1..];
        ghost var was, adds := events, Appended(sha, grants[i].root, files, grants[i].probes);
        AllAppendedFirst(sha, files, events, grants[i..]);
        ok, report := IngestGrant(sha, grants[i], report);
        assert events == was + adds;
        if !ok {
          return;
        }
      }
      assert grants[|grants|..] == [];
    }
  }

  lemma LoopTurn(sha: Digest, root: string, files: map<string, Record>, probes: seq<Probe>, i: nat,
                 events: seq<Event>, report: Report)
    requires i < |probes|
    ensures var p, adds := probes[i], Adds(sha, root, files, probes[i]);
            if Aborts(sha, files, p)
            then events + Appended(sha, root, files, probes[i..]) == events + adds
                 && Tally(sha, files, probes[i..], report) == report
            else events + Appended(sha, root, files, probes[i..])
                 == (events + adds) + Appended(sha, root, files, probes[i + 1..])
                 && Tally(sha, files, probes[i..], report)
                    == Tally(sha, files, probes[i + 1..], Count(report, p, Decide(sha, files, p)))
  {
    assert probes[i..][0] == probes[i] && probes[i..][1..] == probes[i + 1..];
  }
}
