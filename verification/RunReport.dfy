/**
 What a run writes and reports, told from its log: which event states which file, what the counts of the
 report count, and that every file ends up in exactly one of them.
 */
module RunReport {
  import opened Wrappers
  import opened Events
  import opened Current
  import opened Ingest

  // ---------------------------------------------------------------------------------------------
  // What becomes of a file
  // ---------------------------------------------------------------------------------------------

  /** The loop gets to read the file. */
  predicate Reached(p: Probe) {
    !p.budgetSpent && p.grantsRead && p.grantActive
  }

  /** Reading and parsing it gives text worth keeping. */
  predicate Legible(p: Probe) {
    Reached(p) && p.read.Bytes? && p.converted.Plain? && !Text.Blank(p.converted.text)
  }

  predicate SkippedFor(p: Probe, reason: string) {
    || (p.budgetSpent && reason == "wall-clock budget exceeded")
    || (!p.budgetSpent && p.grantsRead && !p.grantActive && reason == "grant revoked mid-ingest")
    || (Reached(p) && p.read.TooLarge? && reason == "oversize")
    || (Reached(p) && p.read.Bytes? && p.converted.Unsuitable? && reason == p.converted.why)
    || (Reached(p) && p.read.Bytes? && p.converted.Plain? && Text.Blank(p.converted.text)
        && reason == "no extractable text")
  }

  predicate FailedFor(p: Probe, reason: string) {
    || (Reached(p) && p.read.ReadFailed? && reason == p.read.why)
    || (Reached(p) && p.read.Bytes? && p.converted.Broken? && reason == p.converted.why)
  }

  /** The projection shows the file's bytes already. */
  predicate Known(sha: Digest, files: map<string, Record>, p: Probe) {
    p.path in files && files[p.path].File? && p.read.Bytes? && files[p.path].contentHash == sha.bytes(p.read.raw)
  }

  /** Each decision is taken exactly for the files it is meant for. */
  lemma DecisionExact(sha: Digest, files: map<string, Record>, p: Probe)
    ensures var d := Decide(sha, files, p);
            && (forall reason :: d == Skip(reason) <==> SkippedFor(p, reason))
            && (forall reason :: d == Fail(reason) <==> FailedFor(p, reason))
            && (d.Dedup? <==> Legible(p) && p.looksUp && Known(sha, files, p))
            && (d.Append? <==> Legible(p) && p.looksUp && !Known(sha, files, p))
            && (d.Append? ==> (d.previous.Some? <==> p.path in files)
                              && (p.path in files ==> d.previous == Some(files[p.path])))
            && (d.Stop? <==> (!p.budgetSpent && !p.grantsRead) || (Legible(p) && !p.looksUp))
  {
  }

  // ---------------------------------------------------------------------------------------------
  // The events of a run
  // ---------------------------------------------------------------------------------------------

  /** Event i states the file of the probe, first retiring what the projection showed under its path. */
  ghost predicate WroteAt(sha: Digest, root: string, files: map<string, Record>, log: seq<Event>, i: nat, p: Probe) {
    && i < |log| && Legible(p) && !Known(sha, files, p) && States(sha, root, p, log[i])
    && if p.path in files
       then i > 0 && log[i - 1].eventType == "supersede"
            && GetStr(log[i - 1].content, "supersedes") == Some(files[p.path].eventId)
       else i == 0 || log[i - 1].eventType == "file_ingested"
  }

  lemma AddsRead(sha: Digest, root: string, files: map<string, Record>, p: Probe)
    ensures var adds := Adds(sha, root, files, p);
            adds != [] <==> Legible(p) && p.looksUp && !Known(sha, files, p) && p.appends
    ensures var adds := Adds(sha, root, files, p);
            adds != [] ==>
              && |adds| == (if p.path in files then 2 else 1)
              && WroteAt(sha, root, files, adds, |adds| - 1, p)
  {
    DecisionExact(sha, files, p);
    if Adds(sha, root, files, p) != [] {
      FileEventStates(sha, root, p);
    }
  }

  /** What follows a file's own events does not change what they say; what precedes them ends in a file event. */
  lemma WroteLater(sha: Digest, root: string, files: map<string, Record>, before: seq<Event>, log: seq<Event>,
                   after: seq<Event>, i: nat, p: Probe)
    requires WroteAt(sha, root, files, log, i, p)
    requires before == [] || before[|before| - 1].eventType == "file_ingested"
    ensures WroteAt(sha, root, files, before + log + after, |before| + i, p)
  {
    var all := before + log + after;
    assert all[|before| + i] == log[i];
    if i > 0 {
      assert all[|before| + i - 1] == log[i - 1];
    } else if before != [] {
      assert all[|before| - 1] == before[|before| - 1];
    }
  }

  ghost predicate Written(sha: Digest, root: string, files: map<string, Record>, log: seq<Event>, p: Probe) {
    exists i: nat :: WroteAt(sha, root, files, log, i, p)
  }

  lemma WrittenFirst(sha: Digest, root: string, files: map<string, Record>, p: Probe, rest: seq<Event>)
    requires Adds(sha, root, files, p) != []
    ensures Written(sha, root, files, Adds(sha, root, files, p) + rest, p)
  {
    var adds := Adds(sha, root, files, p);
    var i: nat := |adds| - 1;
    AddsRead(sha, root, files, p);
    WroteLater(sha, root, files, [], adds, rest, i, p);
    assert [] + adds + rest == adds + rest;
    assert WroteAt(sha, root, files, adds + rest, i, p);
  }

  lemma WroteAfter(sha: Digest, root: string, files: map<string, Record>, adds: seq<Event>, rest: seq<Event>, k: nat,
                   p: Probe) returns (l: nat, log: seq<Event>)
    requires WroteAt(sha, root, files, rest, k, p)
    requires adds == [] || adds[|adds| - 1].eventType == "file_ingested"
    ensures l == |adds| + k && log == adds + rest && WroteAt(sha, root, files, log, l, p)
  {
    l, log := |adds| + k, adds + rest;
    WroteLater(sha, root, files, adds, rest, [], k, p);
    assert adds + rest + [] == log;
  }

  lemma WrittenLater(sha: Digest, root: string, files: map<string, Record>, adds: seq<Event>, rest: seq<Event>,
                     p: Probe)
    requires Written(sha, root, files, rest, p)
    requires adds == [] || adds[|adds| - 1].eventType == "file_ingested"
    ensures Written(sha, root, files, adds + rest, p)
  {
    var k: nat :| WroteAt(sha, root, files, rest, k, p);
    var l, log := WroteAfter(sha, root, files, adds, rest, k, p);
  }

  /** A completed run writes every file that gives text and is not known yet, as it is. */
  lemma {:induction false} EveryNewFileWritten(sha: Digest, root: string, files: map<string, Record>,
                                               probes: seq<Probe>, p: Probe)
    requires Completes(sha, files, probes) && p in probes && Legible(p) && !Known(sha, files, p)
    ensures Written(sha, root, files, Appended(sha, root, files, probes), p)
  {
    var first, log := AppendedParts(sha, root, files, probes);
    var rest := Appended(sha, root, files, probes[1..]);
    assert !Aborts(sha, files, probes[0]);
    AddsRead(sha, root, files, probes[0]);
    if p == probes[0] {
      DecisionExact(sha, files, p);
      WrittenFirst(sha, root, files, p, rest);
    } else {
      assert forall j :: 0 <= j < |probes| - 1 ==> probes[1..][j] == probes[j + 1];
      EveryNewFileWritten(sha, root, files, probes[1..], p);
      WrittenLater(sha, root, files, first, rest, p);
    }
  }

  /** Event i of the run is of one of its files: the event that states it, or the supersede before that. */
  ghost predicate Explained(sha: Digest, root: string, files: map<string, Record>, probes: seq<Probe>,
                            log: seq<Event>, i: nat) {
    exists p, k: nat :: p in probes && WroteAt(sha, root, files, log, k, p)
                        && (k == i || (k == i + 1 && p.path in files))
  }

  lemma ExplainedFirst(sha: Digest, root: string, files: map<string, Record>, probes: seq<Probe>, rest: seq<Event>,
                       i: nat)
    requires probes != [] && i < |Adds(sha, root, files, probes[0])|
    ensures Explained(sha, root, files, probes, Adds(sha, root, files, probes[0]) + rest, i)
  {
    var p, adds := probes[0], Adds(sha, root, files, probes[0]);
    var k: nat := |adds| - 1;
    AddsRead(sha, root, files, p);
    WroteLater(sha, root, files, [], adds, rest, k, p);
    assert [] + adds + rest == adds + rest;
    assert WroteAt(sha, root, files, adds + rest, k, p);
  }

  lemma ExplainedLater(sha: Digest, root: string, files: map<string, Record>, probes: seq<Probe>, adds: seq<Event>,
                       rest: seq<Event>, i: nat)
    requires probes != [] && Explained(sha, root, files, probes[1..], rest, i)
    requires adds == [] || adds[|adds| - 1].eventType == "file_ingested"
    ensures Explained(sha, root, files, probes, adds + rest, |adds| + i)
  {
    var p, k: nat :| p in probes[1..] && WroteAt(sha, root, files, rest, k, p)
                     && (k == i || (k == i + 1 && p.path in files));
    var l, log := WroteAfter(sha, root, files, adds, rest, k, p);
    assert p in probes;
  }

  /** A run, completed or aborted, writes nothing else. */
  lemma {:induction false} NothingElseWritten(sha: Digest, root: string, files: map<string, Record>,
                                              probes: seq<Probe>, i: nat)
    requires i < |Appended(sha, root, files, probes)|
    ensures Explained(sha, root, files, probes, Appended(sha, root, files, probes), i)
  {
    var first, log := AppendedParts(sha, root, files, probes);
    AddsRead(sha, root, files, probes[0]);
    if i < |first| {
      ExplainedFirst(sha, root, files, probes, log[|first|..], i);
      assert first + log[|first|..] == log;
    } else {
      var rest := Appended(sha, root, files, probes[1..]);
      NothingElseWritten(sha, root, files, probes[1..], i - |first|);
      ExplainedLater(sha, root, files, probes, first, rest, i - |first|);
    }
  }

  /** The first file's events, and the whole list they begin. */
  lemma AppendedParts(sha: Digest, root: string, files: map<string, Record>, probes: seq<Probe>)
    returns (first: seq<Event>, log: seq<Event>)
    requires probes != []
    ensures first == Adds(sha, root, files, probes[0]) && log == Appended(sha, root, files, probes) && first <= log
    ensures log == if Aborts(sha, files, probes[0]) then first else first + Appended(sha, root, files, probes[1..])
  {
    first, log := Adds(sha, root, files, probes[0]), Appended(sha, root, files, probes);
  }

  // ---------------------------------------------------------------------------------------------
  // The counts of the report
  // ---------------------------------------------------------------------------------------------

  function Supersedes(log: seq<Event>): nat {
    if log == [] then 0
    else Supersedes(log[..|log| - 1]) + if log[|log| - 1].eventType == "supersede" then 1 else 0
  }

  /** The file events that no supersede stands right before. */
  function FirstTimes(log: seq<Event>): nat {
    if log == [] then 0
    else
      var n := |log| - 1;
      FirstTimes(log[..n]) +
      if log[n].eventType == "file_ingested" && (n == 0 || log[n - 1].eventType != "supersede") then 1 else 0
  }

  /** The files that give text and are known. */
  function KnownFiles(sha: Digest, files: map<string, Record>, probes: seq<Probe>): nat {
    if probes == [] then 0
    else (if Legible(probes[0]) && Known(sha, files, probes[0]) then 1 else 0) + KnownFiles(sha, files, probes[1..])
  }

  lemma CountsSnoc(log: seq<Event>, ev: Event)
    ensures Supersedes(log + [ev]) == Supersedes(log) + if ev.eventType == "supersede" then 1 else 0
    ensures FirstTimes(log + [ev]) == FirstTimes(log) +
            if ev.eventType == "file_ingested" && (log == [] || log[|log| - 1].eventType != "supersede") then 1 else 0
  {
    assert (log + [ev])[..|log|] == log;
  }

  lemma LastPart(a: seq<Event>, b: seq<Event>) returns (front: seq<Event>, last: Event, middle: seq<Event>)
    requires b != []
    ensures |front| == |b| - 1 && b == front + [last] && middle == a + front && a + b == middle + [last]
    ensures front == [] ==> middle == a
    ensures front != [] ==> middle != [] && middle[|middle| - 1] == front[|front| - 1]
  {
    front, last := b[..|b| - 1], b[|b| - 1];
    middle := a + front;
    assert a + b == middle + [last];
  }

  lemma {:induction false} CountsConcat(a: seq<Event>, b: seq<Event>)
    requires a == [] || a[|a| - 1].eventType != "supersede"
    ensures Supersedes(a + b) == Supersedes(a) + Supersedes(b)
    ensures FirstTimes(a + b) == FirstTimes(a) + FirstTimes(b)
    decreases |b|
  {
    if b == [] {
      assert a + b == a;
    } else {
      var front, last, middle := LastPart(a, b);
      CountsConcat(a, front);
      CountsSnoc(front, last);
      CountsSnoc(middle, last);
    }
  }

  lemma AddsCount(sha: Digest, root: string, files: map<string, Record>, p: Probe)
    ensures var adds := Adds(sha, root, files, p);
            && (adds == [] || adds[|adds| - 1].eventType != "supersede")
            && Supersedes(adds) == (if adds != [] && p.path in files then 1 else 0)
            && FirstTimes(adds) == (if adds != [] && p.path !in files then 1 else 0)
  {
    var adds := Adds(sha, root, files, p);
    AddsRead(sha, root, files, p);
    if adds != [] {
      assert "file_ingested"[0] != "supersede"[0];
      assert adds[..1] == [adds[0]] && adds[..1][..0] == [];
      assert Supersedes(adds[..1]) == if adds[0].eventType == "supersede" then 1 else 0;
      assert FirstTimes(adds[..1]) == if adds[0].eventType == "file_ingested" then 1 else 0;
    }
  }

  /** The report has one note, with its reason, for every file that is skipped or fails. */
  ghost predicate NotesAre(probes: seq<Probe>, skipped: seq<Note>, failed: seq<Note>) {
    && (forall n :: n in skipped <==> exists p :: p in probes && n.path == p.path && SkippedFor(p, n.reason))
    && (forall n :: n in failed <==> exists p :: p in probes && n.path == p.path && FailedFor(p, n.reason))
  }

  /** What a run adds to its report. */
  ghost predicate Grew(before: Report, after: Report, ingested: nat, superseded: nat, deduped: nat,
                       skipped: seq<Note>, failed: seq<Note>) {
    && after.ingested == before.ingested + ingested && after.superseded == before.superseded + superseded
    && after.deduped == before.deduped + deduped
    && after.skipped == before.skipped + skipped && after.failed == before.failed + failed
  }

  lemma NotesOfOne(sha: Digest, files: map<string, Record>, p: Probe, report: Report)
    returns (skipped: seq<Note>, failed: seq<Note>)
    requires !Aborts(sha, files, p)
    ensures var log := Adds(sha, "", files, p);
            && Grew(report, Count(report, p, Decide(sha, files, p)), FirstTimes(log), Supersedes(log),
                    KnownFiles(sha, files, [p]), skipped, failed)
            && FirstTimes(log) + Supersedes(log) + KnownFiles(sha, files, [p]) + |skipped| + |failed| == 1
    ensures NotesAre([p], skipped, failed)
  {
    var d := Decide(sha, files, p);
    DecisionExact(sha, files, p);
    AddsRead(sha, "", files, p);
    AddsCount(sha, "", files, p);
    assert [p][1..] == [];
    skipped := if d.Skip? then [Note(p.path, d.reason)] else [];
    failed := if d.Fail? then [Note(p.path, d.reason)] else [];
    assert report.skipped + [] == report.skipped && report.failed + [] == report.failed;
    NotesOfDecision(p, d, skipped, failed);
  }

  lemma NotesOfDecision(p: Probe, d: Decision, skipped: seq<Note>, failed: seq<Note>)
    requires forall reason :: d == Skip(reason) <==> SkippedFor(p, reason)
    requires forall reason :: d == Fail(reason) <==> FailedFor(p, reason)
    requires skipped == if d.Skip? then [Note(p.path, d.reason)] else []
    requires failed == if d.Fail? then [Note(p.path, d.reason)] else []
    ensures NotesAre([p], skipped, failed)
  {
    forall n
      ensures n in skipped <==> exists q :: q in [p] && n.path == q.path && SkippedFor(q, n.reason)
    {
      assert p in [p] && forall q :: q in [p] ==> q == p;
    }
    forall n
      ensures n in failed <==> exists q :: q in [p] && n.path == q.path && FailedFor(q, n.reason)
    {
      assert p in [p] && forall q :: q in [p] ==> q == p;
    }
  }

  lemma NotesConcat(a: seq<Probe>, skippedA: seq<Note>, failedA: seq<Note>,
                    b: seq<Probe>, skippedB: seq<Note>, failedB: seq<Note>)
    requires NotesAre(a, skippedA, failedA) && NotesAre(b, skippedB, failedB)
    ensures NotesAre(a + b, skippedA + skippedB, failedA + failedB)
  {
    assert forall p :: p in a + b <==> p in a || p in b;
    assert forall n :: n in skippedA + skippedB <==> n in skippedA || n in skippedB;
    assert forall n :: n in failedA + failedB <==> n in failedA || n in failedB;
  }

  /**
   The report of a completed run, told from the log: `ingested` grows by the file events with no supersede
   before them, `superseded` by the supersedes, `deduped` by the known files; the notes are those of the files
   skipped and failed; and every file is counted exactly once.
   */
  lemma {:induction false} ReportTellsTheLog(sha: Digest, root: string, files: map<string, Record>,
                                             probes: seq<Probe>, before: Report)
    returns (skipped: seq<Note>, failed: seq<Note>)
    requires Completes(sha, files, probes)
    ensures var log, known := Appended(sha, root, files, probes), KnownFiles(sha, files, probes);
            && Grew(before, Tally(sha, files, probes, before), FirstTimes(log), Supersedes(log), known, skipped, failed)
            && FirstTimes(log) + Supersedes(log) + known + |skipped| + |failed| == |probes|
    ensures NotesAre(probes, skipped, failed)
    decreases |probes|
  {
    if probes == [] {
      skipped, failed := [], [];
    } else {
      var p := probes[0];
      assert !Aborts(sha, files, p);
      assert forall j :: 0 <= j < |probes| - 1 ==> probes[1..][j] == probes[j + 1];
      var s1, f1 := NotesOfOne(sha, files, p, before);
      var middle := Count(before, p, Decide(sha, files, p));
      var s2, f2 := ReportTellsTheLog(sha, root, files, probes[1..], middle);
      LogCounts(sha, root, files, probes);
      NotesConcat([p], s1, f1, probes[1..], s2, f2);
      assert [p] + probes[1..] == probes;
      skipped, failed := s1 + s2, f1 + f2;
      var one, rest := Adds(sha, "", files, p), Appended(sha, root, files, probes[1..]);
      GrewTwice(before, middle, Tally(sha, files, probes[1..], middle),
                FirstTimes(one), Supersedes(one), KnownFiles(sha, files, [p]), s1, f1,
                FirstTimes(rest), Supersedes(rest), KnownFiles(sha, files, probes[1..]), s2, f2);
    }
  }

  lemma LogCounts(sha: Digest, root: string, files: map<string, Record>, probes: seq<Probe>)
    requires probes != [] && !Aborts(sha, files, probes[0])
    ensures var one, rest, log := Adds(sha, "", files, probes[0]), Appended(sha, root, files, probes[1..]),
                                  Appended(sha, root, files, probes);
            && FirstTimes(log) == FirstTimes(one) + FirstTimes(rest)
            && Supersedes(log) == Supersedes(one) + Supersedes(rest)
    ensures KnownFiles(sha, files, probes) == KnownFiles(sha, files, [probes[0]]) + KnownFiles(sha, files, probes[1..])
  {
    var p := probes[0];
    var first, log := AppendedParts(sha, root, files, probes);
    AddsCount(sha, root, files, p);
    AddsCount(sha, "", files, p);
    AddsRead(sha, root, files, p);
    AddsRead(sha, "", files, p);
    CountsConcat(first, Appended(sha, root, files, probes[1..]));
    assert [p][1..] == [];
  }

  lemma GrewTwice(a: Report, b: Report, c: Report, i1: nat, u1: nat, d1: nat, s1: seq<Note>, f1: seq<Note>,
                  i2: nat, u2: nat, d2: nat, s2: seq<Note>, f2: seq<Note>)
    requires Grew(a, b, i1, u1, d1, s1, f1) && Grew(b, c, i2, u2, d2, s2, f2)
    ensures Grew(a, c, i1 + i2, u1 + u2, d1 + d2, s1 + s2, f1 + f2)
  {
  }

  /**
   One run over a grant, from the events it appended: each states a new file as it is or retires the record
   before it, and if the run ends well every new file has been written, and the counts are those of the events.
   */
  ghost predicate Told(sha: Digest, g: GrantRun, files: map<string, Record>, before: Report, ok: bool, log: seq<Event>,
                       after: Report) {
    && (forall i :: 0 <= i < |log| ==> Explained(sha, g.root, files, g.probes, log, i))
    && (ok ==> forall p :: p in g.probes && Legible(p) && !Known(sha, files, p) ==>
                 Written(sha, g.root, files, log, p))
    && (ok ==> after.ingested == before.ingested + FirstTimes(log)
               && after.superseded == before.superseded + Supersedes(log)
               && after.deduped == before.deduped + KnownFiles(sha, files, g.probes))
  }

  lemma RunTold(sha: Digest, g: GrantRun, files: map<string, Record>, before: Report)
    ensures Told(sha, g, files, before, EndsWell(sha, files, g), Appended(sha, g.root, files, g.probes),
              Tally(sha, files, g.probes, before))
  {
    forall i | 0 <= i < |Appended(sha, g.root, files, g.probes)|
      ensures Explained(sha, g.root, files, g.probes, Appended(sha, g.root, files, g.probes), i)
    {
      NothingElseWritten(sha, g.root, files, g.probes, i);
    }
    if EndsWell(sha, files, g) {
      forall p | p in g.probes && Legible(p) && !Known(sha, files, p)
        ensures Written(sha, g.root, files, Appended(sha, g.root, files, g.probes), p)
      {
        EveryNewFileWritten(sha, g.root, files, g.probes, p);
      }
      var skipped, failed := ReportTellsTheLog(sha, g.root, files, g.probes, before);
    }
  }
}
