/**
 What the ingest loop decides for a walked file, what it appends, and how the runs over one and all grants add up.

 A `Probe` is one walked file with the answers its outside calls give when the loop reaches it: the
 clock, the grant check, the read, the parser, the lookup of the path, the log write and the embedder. The
 ids and the time stamp the log would assign are part of it, so every statement holds for all of them.
 */
module Ingest {
  import opened Wrappers
  import opened Events
  import opened Current
  import Text

  datatype Read = Bytes(raw: seq<bv8>) | TooLarge | ReadFailed(why: string)

  datatype Converted = Plain(text: string) | Unsuitable(why: string) | Broken(why: string)

  datatype Probe = Probe(path: string, budgetSpent: bool, grantsRead: bool, grantActive: bool, read: Read,
                         converted: Converted, modifiedAt: string, parserId: string, looksUp: bool, appends: bool,
                         embeds: bool, supersedeId: string, fileId: string, stamp: string)

  /** `hex::encode(Sha256::digest(..))` over bytes and over text. */
  datatype Digest = Digest(bytes: seq<bv8> -> string, text: string -> string)

  datatype Note = Note(path: string, reason: string)

  datatype Report = Report(ingested: nat, superseded: nat, deduped: nat, skipped: seq<Note>, failed: seq<Note>)

  datatype Decision =
    | Skip(reason: string)
    | Fail(reason: string)
    | Dedup
    | Append(previous: Option<Record>)
    | Stop

  // ---------------------------------------------------------------------------------------------
  // One file
  // ---------------------------------------------------------------------------------------------

  /**
   What the loop does with a file, given the files projection it looks the path up in. It stops when the
   grants or the path cannot be looked up.
   */
  function Decide(sha: Digest, files: map<string, Record>, p: Probe): Decision {
    if p.budgetSpent then Skip("wall-clock budget exceeded")
    else if !p.grantsRead then Stop
    else if !p.grantActive then Skip("grant revoked mid-ingest")
    else match p.read
      case TooLarge => Skip("oversize")
      case ReadFailed(why) => Fail(why)
      case Bytes(raw) =>
        match p.converted
        case Unsuitable(why) => Skip(why)
        case Broken(why) => Fail(why)
        case Plain(text) =>
          if Text.Blank(text) then Skip("no extractable text")
          else if !p.looksUp then Stop
          else
            var previous := At(files, p.path);
            if previous.Some? && previous.value.File? && previous.value.contentHash == sha.bytes(raw) then Dedup
            else Append(previous)
  }

  function FileContent(sha: Digest, root: string, p: Probe): Json
    requires p.read.Bytes? && p.converted.Plain?
  {
    Obj(map["text" := Str(p.converted.text), "origin" := Str("external"),
            "provenance" := Provenance(sha, root, p)])
  }

  function Provenance(sha: Digest, root: string, p: Probe): Json
    requires p.read.Bytes? && p.converted.Plain?
  {
    Obj(map["canonical_path" := Str(p.path), "content_hash" := Str(sha.bytes(p.read.raw)),
            "text_hash" := Str(sha.text(p.converted.text)), "size_bytes" := Num(|p.read.raw|),
            "modified_at" := Str(p.modifiedAt), "parser_id" := Str(p.parserId), "grant_root" := Str(root)])
  }

  function FileEvent(sha: Digest, root: string, p: Probe): Event
    requires p.read.Bytes? && p.converted.Plain?
  {
    Event(p.fileId, p.stamp, None, FILE_INGESTED, FileContent(sha, root, p), None)
  }

  function SupersedeEvent(p: Probe, retired: string): Event {
    Event(p.supersedeId, p.stamp, None, SUPERSEDE, Obj(map["supersedes" := Str(retired)]), None)
  }

  /** The record the fold reads back from an appended `file_ingested` event. */
  function Ingested(sha: Digest, root: string, p: Probe): Record
    requires p.read.Bytes?
  {
    File(p.path, p.fileId, sha.bytes(p.read.raw), root)
  }

  lemma FileEventReadsBack(sha: Digest, root: string, p: Probe)
    requires p.read.Bytes? && p.converted.Plain?
    ensures RecordOf(Files, FileEvent(sha, root, p)) == Some(Ingested(sha, root, p))
  {
    var v, c := Provenance(sha, root, p), FileContent(sha, root, p);
    assert Get(c, "provenance") == Some(v) by {
      assert "text"[0] != "provenance"[0] && "origin"[0] != "provenance"[0];
    }
    assert GetStr(v, "grant_root") == Some(root);
    assert |"content_hash"| == 12 && |"text_hash"| == 9 && |"size_bytes"| == 10 && |"modified_at"| == 11
           && |"parser_id"| == 9 && |"grant_root"| == 10 && |"canonical_path"| == 14;
    assert GetStr(v, "content_hash") == Some(sha.bytes(p.read.raw));
    assert GetStr(v, "canonical_path") == Some(p.path);
  }

  /** The event says of the file, member by member, what the probe found. */
  ghost predicate States(sha: Digest, root: string, p: Probe, ev: Event)
    requires p.read.Bytes? && p.converted.Plain?
  {
    && ev.eventType == "file_ingested" && ev.id == p.fileId && ev.ts == p.stamp
    && ev.validTime == None && ev.modelId == None
    && GetStr(ev.content, "text") == Some(p.converted.text)
    && GetStr(ev.content, "origin") == Some("external")
    && var v := Get(ev.content, "provenance");
    && v.Some?
    && GetStr(v.value, "canonical_path") == Some(p.path)
    && GetStr(v.value, "content_hash") == Some(sha.bytes(p.read.raw))
    && GetStr(v.value, "text_hash") == Some(sha.text(p.converted.text))
    && Get(v.value, "size_bytes") == Some(Num(|p.read.raw|))
    && GetStr(v.value, "modified_at") == Some(p.modifiedAt)
    && GetStr(v.value, "parser_id") == Some(p.parserId)
    && GetStr(v.value, "grant_root") == Some(root)
  }

  /** The members' names differ, so none hides another. */
  lemma MemberNames()
    ensures |"canonical_path"| == 14 && |"content_hash"| == 12 && |"text_hash"| == 9 && |"size_bytes"| == 10
    ensures |"modified_at"| == 11 && |"parser_id"| == 9 && |"grant_root"| == 10 && |"provenance"| == 10
    ensures |"text"| == 4 && |"origin"| == 6
    ensures "text_hash"[0] != "parser_id"[0] && "size_bytes"[0] != "grant_root"[0]
  {
  }

  lemma FileEventStates(sha: Digest, root: string, p: Probe)
    requires p.read.Bytes? && p.converted.Plain?
    ensures States(sha, root, p, FileEvent(sha, root, p))
  {
    MemberNames();
    ProvenanceStates(sha, root, p);
    var c := FileContent(sha, root, p);
    assert Get(c, "provenance") == Some(Provenance(sha, root, p));
    assert Get(c, "origin") == Some(Str("external"));
    assert Get(c, "text") == Some(Str(p.converted.text));
  }

  lemma ProvenanceStates(sha: Digest, root: string, p: Probe)
    requires p.read.Bytes? && p.converted.Plain?
    ensures var v := Provenance(sha, root, p);
            && GetStr(v, "canonical_path") == Some(p.path)
            && GetStr(v, "content_hash") == Some(sha.bytes(p.read.raw))
            && GetStr(v, "text_hash") == Some(sha.text(p.converted.text))
            && Get(v, "size_bytes") == Some(Num(|p.read.raw|))
            && GetStr(v, "modified_at") == Some(p.modifiedAt)
            && GetStr(v, "parser_id") == Some(p.parserId)
            && GetStr(v, "grant_root") == Some(root)
  {
    MemberNames();
  }

  /** The events one file adds to the log: none, the file event, or a supersede and the file event. */
  function Adds(sha: Digest, root: string, files: map<string, Record>, p: Probe): seq<Event> {
    match Decide(sha, files, p)
    case Append(previous) =>
      if !p.appends then []
      else (if previous.Some? then [SupersedeEvent(p, previous.value.eventId)] else []) + [FileEvent(sha, root, p)]
    case _ => []
  }

  /** A failed lookup, a failed append or a failed embedding ends the run with an error. */
  predicate Aborts(sha: Digest, files: map<string, Record>, p: Probe) {
    var d := Decide(sha, files, p);
    d.Stop? || (d.Append? && !(p.appends && p.embeds))
  }

  function Count(report: Report, p: Probe, d: Decision): Report {
    match d
    case Skip(reason) => report.(skipped := report.skipped + [Note(p.path, reason)])
    case Fail(reason) => report.(failed := report.failed + [Note(p.path, reason)])
    case Dedup => report.(deduped := report.deduped + 1)
    case Append(None) => report.(ingested := report.ingested + 1)
    case Append(Some(_)) => report.(superseded := report.superseded + 1)
    case Stop => report
  }

  // ---------------------------------------------------------------------------------------------
  // One grant
  // ---------------------------------------------------------------------------------------------

  /** Everything the loop appends, up to and including the file that aborts it. */
  function Appended(sha: Digest, root: string, files: map<string, Record>, probes: seq<Probe>): seq<Event> {
    if probes == [] then []
    else if Aborts(sha, files, probes[0]) then Adds(sha, root, files, probes[0])
    else Adds(sha, root, files, probes[0]) + Appended(sha, root, files, probes[1..])
  }

  predicate Completes(sha: Digest, files: map<string, Record>, probes: seq<Probe>) {
    forall i :: 0 <= i < |probes| ==> !Aborts(sha, files, probes[i])
  }

  function Tally(sha: Digest, files: map<string, Record>, probes: seq<Probe>, report: Report): Report {
    if probes == [] || Aborts(sha, files, probes[0]) then report
    else Tally(sha, files, probes[1..], Count(report, probes[0], Decide(sha, files, probes[0])))
  }

  /** The files of one grant, and whether the rebuild after them works. */
  datatype GrantRun = GrantRun(root: string, probes: seq<Probe>, rebuilds: bool)

  predicate EndsWell(sha: Digest, files: map<string, Record>, g: GrantRun) {
    Completes(sha, files, g.probes) && g.rebuilds
  }

  /** Everything a run over all grants appends, up to the first grant that fails. */
  function AllAppended(sha: Digest, files: map<string, Record>, events: seq<Event>, grants: seq<GrantRun>): seq<Event>
    decreases |grants|
  {
    if grants == [] then [] else
      var adds := Appended(sha, grants[0].root, files, grants[0].probes);
      if !EndsWell(sha, files, grants[0]) then adds
      else adds + AllAppended(sha, Projection(Files, events + adds), events + adds, grants[1..])
  }

  predicate AllComplete(sha: Digest, files: map<string, Record>, events: seq<Event>, grants: seq<GrantRun>)
    decreases |grants|
  {
    grants == [] ||
    (EndsWell(sha, files, grants[0]) &&
     var next := events + Appended(sha, grants[0].root, files, grants[0].probes);
     AllComplete(sha, Projection(Files, next), next, grants[1..]))
  }

  /** The projection a run over all grants ends with: a grant that fails leaves it as the grant before it did. */
  function AllFiles(sha: Digest, files: map<string, Record>, events: seq<Event>, grants: seq<GrantRun>)
    : map<string, Record>
    decreases |grants|
  {
    if grants == [] || !EndsWell(sha, files, grants[0]) then files
    else
      var next := events + Appended(sha, grants[0].root, files, grants[0].probes);
      AllFiles(sha, Projection(Files, next), next, grants[1..])
  }

  const EMPTY_REPORT := Report(0, 0, 0, [], [])

  /** The report of a run over all grants, up to the first grant that fails. */
  function AllTally(sha: Digest, files: map<string, Record>, events: seq<Event>, grants: seq<GrantRun>,
                    report: Report): Report
    decreases |grants|
  {
    if grants == [] then report
    else
      var first := Tally(sha, files, grants[0].probes, report);
      var next := events + Appended(sha, grants[0].root, files, grants[0].probes);
      if EndsWell(sha, files, grants[0]) then AllTally(sha, Projection(Files, next), next, grants[1..], first)
      else first
  }

  lemma AllAppendedFirst(sha: Digest, files: map<string, Record>, events: seq<Event>, grants: seq<GrantRun>)
    requires grants != []
    ensures var next := events + Appended(sha, grants[0].root, files, grants[0].probes);
            events + AllAppended(sha, files, events, grants) ==
            if EndsWell(sha, files, grants[0])
            then next + AllAppended(sha, Projection(Files, next), next, grants[1..]) else next
  {
  }
}
