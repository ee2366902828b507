/**
 The two-pass supersede folds: `fold_pages` (one dossier per topic) and `fold_files` (one record per
 path) are the same loops over two kinds of record. The second half proves them equal to an
 incremental fold that never rereads the log.
 */
module Current {
  import opened Wrappers
  import opened Events

  datatype Kind = Pages | Files

  datatype Record =
    | Page(topicId: string, eventId: string, title: string, text: string)
    | File(path: string, eventId: string, contentHash: string, grantRoot: string)

  function Key(r: Record): string {
    if r.Page? then r.topicId else r.path
  }

  function ParsePage(ev: Event): Option<Record> {
    match (GetStr(ev.content, "topic_id"), GetStr(ev.content, "title"), GetStr(ev.content, "text"))
    case (Some(topic), Some(title), Some(text)) => Some(Page(topic, ev.id, title, text))
    case _ => None
  }

  function ParseFile(ev: Event): Option<Record> {
    match Get(ev.content, "provenance")
    case None => None
    case Some(p) =>
      match (GetStr(p, "canonical_path"), GetStr(p, "content_hash"), GetStr(p, "grant_root"))
      case (Some(path), Some(hash), Some(root)) => Some(File(path, ev.id, hash, root))
      case _ => None
  }

  /** The record an event states, if it is a well-formed event of this kind. */
  function RecordOf(kind: Kind, ev: Event): (r: Option<Record>)
    ensures r.Some? ==> r.value.eventId == ev.id && ev.eventType != SUPERSEDE
  {
    assert PAGE[0] != SUPERSEDE[0] && FILE_INGESTED[0] != SUPERSEDE[0];
    match kind
    case Pages => if ev.eventType == PAGE then ParsePage(ev) else None
    case Files => if ev.eventType == FILE_INGESTED then ParseFile(ev) else None
  }

  /** The id a `supersede` event retires. */
  function Retires(ev: Event): Option<string> {
    if ev.eventType == SUPERSEDE then GetStr(ev.content, "supersedes") else None
  }

  function RetiredIds(events: seq<Event>): set<string> {
    set i | 0 <= i < |events| && Retires(events[i]).Some? :: Retires(events[i]).value
  }

  /** The record event i states under `key`, unless its id is retired. */
  function Live(kind: Kind, ev: Event, key: string, retired: set<string>): Option<Record> {
    var r := RecordOf(kind, ev);
    if r.Some? && Key(r.value) == key && ev.id !in retired then r else None
  }

  /** The live records of `key` among the first n events, oldest first. */
  function LiveUpTo(kind: Kind, events: seq<Event>, key: string, retired: set<string>, n: nat): (live: seq<Record>)
    requires n <= |events|
    ensures forall r :: r in live ==> r.eventId !in retired && Key(r) == key
  {
    if n == 0 then [] else
      var r := Live(kind, events[n - 1], key, retired);
      LiveUpTo(kind, events, key, retired, n - 1) + (if r.Some? then [r.value] else [])
  }

  /** Every record of `key` that no supersede in the whole log retires. */
  function LiveRecords(kind: Kind, events: seq<Event>, key: string): seq<Record> {
    LiveUpTo(kind, events, key, RetiredIds(events), |events|)
  }

  function Last(records: seq<Record>): Option<Record> {
    if records == [] then None else Some(records[|records| - 1])
  }

  /** The current record of `key`: the latest live one. */
  function CurrentRecord(kind: Kind, events: seq<Event>, key: string): Option<Record> {
    Last(LiveRecords(kind, events, key))
  }

  function At(m: map<string, Record>, key: string): Option<Record> {
    if key in m then Some(m[key]) else None
  }

  function Keys(kind: Kind, events: seq<Event>): set<string> {
    set i | 0 <= i < |events| && RecordOf(kind, events[i]).Some? :: Key(RecordOf(kind, events[i]).value)
  }

  /** The projection a rebuild writes: the current record of every key that has one. */
  function Projection(kind: Kind, events: seq<Event>): (byKey: map<string, Record>)
    ensures forall key: string :: At(byKey, key) == CurrentRecord(kind, events, key)
  {
    ProjectionKeys(kind, events);
    map key | key in Keys(kind, events) && CurrentRecord(kind, events, key).Some? ::
      CurrentRecord(kind, events, key).value
  }

  lemma ProjectionKeys(kind: Kind, events: seq<Event>)
    ensures forall key: string :: CurrentRecord(kind, events, key).Some? ==> key in Keys(kind, events)
  {
    forall key: string | CurrentRecord(kind, events, key).Some?
      ensures key in Keys(kind, events)
    {
      LiveStated(kind, events, key, RetiredIds(events), |events|);
    }
  }

  /** Every live record is stated by one of the events. */
  lemma {:induction false} LiveStated(kind: Kind, events: seq<Event>, key: string, retired: set<string>, n: nat)
    requires n <= |events|
    ensures forall r :: r in LiveUpTo(kind, events, key, retired, n) ==>
              Key(r) == key && exists i :: 0 <= i < n && RecordOf(kind, events[i]) == Some(r)
  {
    if n > 0 {
      LiveStated(kind, events, key, retired, n - 1);
      var r := Live(kind, events[n - 1], key, retired);
      assert r.Some? ==> RecordOf(kind, events[n - 1]) == r;
    }
  }

  method FoldCurrent(kind: Kind, events: seq<Event>) returns (byKey: map<string, Record>)
    ensures byKey == Projection(kind, events)
  {
    var superseded: set<string> := {};
    for i := 0 to |events|
      invariant superseded == set j | 0 <= j < i && Retires(events[j]).Some? :: Retires(events[j]).value
    {
      var target := Retires(events[i]);
      if target.Some? {
        superseded := superseded + {target.value};
      }
    }
    byKey := map[];
    for n := 0 to |events|
      invariant forall key: string :: At(byKey, key) == Last(LiveUpTo(kind, events, key, superseded, n))
    {
      var r := RecordOf(kind, events[n]);
      if r.Some? && events[n].id !in superseded {
        byKey := byKey[Key(r.value) := r.value];
      }
    }
    SameProjection(byKey, Projection(kind, events)) by {
      assert superseded == RetiredIds(events);
    }
  }

  lemma SameProjection(a: map<string, Record>, b: map<string, Record>)
    requires forall key: string :: At(a, key) == At(b, key)
    ensures a == b
  {
    assert forall key: string :: key in a <==> At(a, key).Some?;
    assert forall key: string :: key in b <==> At(b, key).Some?;
    assert forall key: string :: key in a ==> a[key] == At(a, key).value;
  }

  // ---------------------------------------------------------------------------------------------
  // The same answers online
  // ---------------------------------------------------------------------------------------------

  datatype Online = Online(retired: set<string>, live: map<string, seq<Record>>)

  function LiveIn(st: Online, key: string): seq<Record> {
    if key in st.live then st.live[key] else []
  }

  function Without(records: seq<Record>, id: string): seq<Record> {
    if records == [] then [] else
      var last := records[|records| - 1];
      Without(records[..|records| - 1], id) + (if last.eventId == id then [] else [last])
  }

  function Step(kind: Kind, st: Online, ev: Event): Online {
    var target, r := Retires(ev), RecordOf(kind, ev);
    if target.Some? then
      Online(st.retired + {target.value}, map key | key in st.live :: Without(st.live[key], target.value))
    else if r.Some? && ev.id !in st.retired then
      st.(live := st.live[Key(r.value) := LiveIn(st, Key(r.value)) + [r.value]])
    else st
  }

  function OnlineFold(kind: Kind, events: seq<Event>): Online {
    if events == [] then Online({}, map[])
    else Step(kind, OnlineFold(kind, events[..|events| - 1]), events[|events| - 1])
  }

  lemma {:induction false} LivePrefix(kind: Kind, a: seq<Event>, b: seq<Event>, key: string, retired: set<string>,
                                      n: nat)
    requires n <= |a|
    ensures LiveUpTo(kind, a + b, key, retired, n) == LiveUpTo(kind, a, key, retired, n)
  {
    if n > 0 {
      LivePrefix(kind, a, b, key, retired, n - 1);
    }
  }

  lemma WithoutSnoc(records: seq<Record>, r: Record, id: string)
    ensures Without(records + [r], id) == Without(records, id) + (if r.eventId == id then [] else [r])
  {
    assert (records + [r])[..|records|] == records;
  }

  lemma {:induction false} RetireFilters(kind: Kind, events: seq<Event>, key: string, retired: set<string>,
                                         id: string, n: nat)
    requires n <= |events|
    ensures LiveUpTo(kind, events, key, retired + {id}, n) == Without(LiveUpTo(kind, events, key, retired, n), id)
  {
    if n > 0 {
      RetireFilters(kind, events, key, retired, id, n - 1);
      var r := Live(kind, events[n - 1], key, retired);
      if r.Some? {
        WithoutSnoc(LiveUpTo(kind, events, key, retired, n - 1), r.value, id);
      } else {
        assert LiveUpTo(kind, events, key, retired, n) == LiveUpTo(kind, events, key, retired, n - 1);
      }
    }
  }

  /** How one appended event changes the live records of a key, read off the whole log. */
  lemma LiveAfter(kind: Kind, events: seq<Event>, ev: Event, key: string)
    ensures RetiredIds(events + [ev]) == RetiredIds(events) + (if Retires(ev).Some? then {Retires(ev).value} else {})
    ensures Retires(ev).Some? ==>
              LiveRecords(kind, events + [ev], key) == Without(LiveRecords(kind, events, key), Retires(ev).value)
    ensures Retires(ev).None? ==>
              LiveRecords(kind, events + [ev], key) ==
              LiveRecords(kind, events, key) +
              (var r := Live(kind, ev, key, RetiredIds(events)); if r.Some? then [r.value] else [])
  {
    var all, retired := events + [ev], RetiredIds(events);
    RetiredAfter(events, ev);
    LivePrefix(kind, events, [ev], key, RetiredIds(all), |events|);
    if Retires(ev).Some? {
      RetireFilters(kind, events, key, retired, Retires(ev).value, |events|);
      assert RecordOf(kind, ev).None?;
    } else {
      assert RetiredIds(all) == retired;
    }
  }

  lemma RetiredAfter(events: seq<Event>, ev: Event)
    ensures RetiredIds(events + [ev]) == RetiredIds(events) + (if Retires(ev).Some? then {Retires(ev).value} else {})
  {
    var all, retired := events + [ev], RetiredIds(events);
    assert all[|events|] == ev;
    forall id
      ensures id in RetiredIds(all) <==> id in retired || Retires(ev) == Some(id)
    {
      if id in retired {
        var i :| 0 <= i < |events| && Retires(events[i]) == Some(id);
        assert Retires(all[i]) == Some(id);
      }
      if Retires(ev) == Some(id) {
        assert Retires(all[|events|]) == Some(id);
      }
    }
  }

  /** At every prefix the online state holds exactly the retired ids and, per key, all live records in order. */
  lemma {:induction false} OnlineIsExact(kind: Kind, events: seq<Event>)
    ensures OnlineFold(kind, events).retired == RetiredIds(events)
    ensures forall key: string :: LiveIn(OnlineFold(kind, events), key) == LiveRecords(kind, events, key)
  {
    if events != [] {
      var before, ev := events[..|events| - 1], events[|events| - 1];
      OnlineIsExact(kind, before);
      assert events == before + [ev];
      forall key: string
        ensures LiveIn(OnlineFold(kind, events), key) == LiveRecords(kind, events, key)
      {
        LiveAfter(kind, before, ev, key);
      }
      LiveAfter(kind, before, ev, "");
    }
  }

  /** Once an id is retired, no extension of the log makes it live, let alone current, again. */
  lemma RetiredNeverReturns(kind: Kind, a: seq<Event>, b: seq<Event>, id: string, key: string)
    requires id in RetiredIds(a)
    ensures forall r :: r in LiveRecords(kind, a + b, key) ==> r.eventId != id
  {
    var i :| 0 <= i < |a| && Retires(a[i]) == Some(id);
    assert Retires((a + b)[i]) == Some(id);
    assert id in RetiredIds(a + b);
  }

  lemma {:induction false} LiveIdsDistinct(kind: Kind, events: seq<Event>, key: string, retired: set<string>, n: nat)
    requires n <= |events| && UniqueIds(events)
    ensures var live := LiveUpTo(kind, events, key, retired, n);
            && (forall r :: r in live ==> exists i :: 0 <= i < n && events[i].id == r.eventId)
            && (forall j, k :: 0 <= j < k < |live| ==> live[j].eventId != live[k].eventId)
  {
    if n > 0 {
      LiveIdsDistinct(kind, events, key, retired, n - 1);
      assert forall r :: r in LiveUpTo(kind, events, key, retired, n - 1) ==> r.eventId != events[n - 1].id;
    }
  }

  lemma {:induction false} WithoutAbsent(records: seq<Record>, id: string)
    requires forall r :: r in records ==> r.eventId != id
    ensures Without(records, id) == records
  {
    if records != [] {
      var init, last := records[..|records| - 1], records[|records| - 1];
      WithoutAbsent(init, id);
      assert records == init + [last] && last in records;
    }
  }

  /** Retiring the current record re-exposes the latest older live record of that key, or leaves none. */
  lemma RetiringCurrentReexposes(kind: Kind, events: seq<Event>, key: string, ev: Event)
    requires UniqueIds(events) && CurrentRecord(kind, events, key).Some?
    requires Retires(ev) == Some(CurrentRecord(kind, events, key).value.eventId)
    ensures var live := LiveRecords(kind, events, key);
            && LiveRecords(kind, events + [ev], key) == live[..|live| - 1]
            && CurrentRecord(kind, events + [ev], key) == Last(live[..|live| - 1])
  {
    var live := LiveRecords(kind, events, key);
    LiveAfter(kind, events, ev, key);
    LiveIdsDistinct(kind, events, key, RetiredIds(events), |events|);
    WithoutAbsent(live[..|live| - 1], Retires(ev).value);
  }

  // ---------------------------------------------------------------------------------------------
  // What a current record says, read off the log
  // ---------------------------------------------------------------------------------------------

  /** The event states this record, member by member. */
  ghost predicate Records(ev: Event, r: Record) {
    && ev.id == r.eventId
    && match r
       case Page(topic, _, title, text) =>
         && ev.eventType == "page" && GetStr(ev.content, "topic_id") == Some(topic)
         && GetStr(ev.content, "title") == Some(title) && GetStr(ev.content, "text") == Some(text)
       case File(path, _, hash, root) =>
         && ev.eventType == "file_ingested"
         && var v := Get(ev.content, "provenance");
         && v.Some? && GetStr(v.value, "canonical_path") == Some(path)
         && GetStr(v.value, "content_hash") == Some(hash) && GetStr(v.value, "grant_root") == Some(root)
  }

  ghost predicate Superseded(events: seq<Event>, id: string) {
    exists j :: && 0 <= j < |events| && events[j].eventType == "supersede"
                && GetStr(events[j].content, "supersedes") == Some(id)
  }

  /** A record of this kind and key. */
  predicate IsRecord(kind: Kind, key: string, r: Record) {
    if kind.Pages? then r.Page? && r.topicId == key else r.File? && r.path == key
  }

  lemma LiveStates(kind: Kind, events: seq<Event>, i: nat, key: string, r: Record)
    requires i < |events|
    ensures Live(kind, events[i], key, RetiredIds(events)) == Some(r) <==>
            IsRecord(kind, key, r) && Records(events[i], r) && !Superseded(events, events[i].id)
  {
    var id := events[i].id;
    assert id in RetiredIds(events) <==> Superseded(events, id) by {
      if id in RetiredIds(events) {
        var j :| 0 <= j < |events| && Retires(events[j]) == Some(id);
      }
      if Superseded(events, id) {
        var j :| && 0 <= j < |events| && events[j].eventType == "supersede"
                 && GetStr(events[j].content, "supersedes") == Some(id);
        assert Retires(events[j]) == Some(id);
      }
    }
  }

  lemma {:induction false} LastLive(kind: Kind, events: seq<Event>, key: string, retired: set<string>, n: nat)
    returns (i: nat)
    requires n <= |events|
    ensures var live := LiveUpTo(kind, events, key, retired, n);
            if live == [] then i == 0 && forall j :: 0 <= j < n ==> Live(kind, events[j], key, retired).None?
            else i < n && Live(kind, events[i], key, retired) == Last(live)
                 && forall j :: i < j < n ==> Live(kind, events[j], key, retired).None?
  {
    i := 0;
    if n > 0 {
      if Live(kind, events[n - 1], key, retired).Some? {
        i := n - 1;
      } else {
        i := LastLive(kind, events, key, retired, n - 1);
      }
    }
  }

  /**
   The current record of a key is what the latest event that states one and is not superseded states, with its
   id and all its members; there is none exactly if every such event is superseded.
   */
  lemma CurrentTellsTheLog(kind: Kind, events: seq<Event>, key: string) returns (i: nat)
    ensures var current := CurrentRecord(kind, events, key);
            && (current.Some? ==>
                  && i < |events| && IsRecord(kind, key, current.value) && Records(events[i], current.value)
                  && !Superseded(events, events[i].id))
            && forall j, r ::
                 (if current.Some? then i else -1) < j < |events| && IsRecord(kind, key, r) && Records(events[j], r) ==>
                   Superseded(events, events[j].id)
  {
    i := LastLive(kind, events, key, RetiredIds(events), |events|);
    var current := CurrentRecord(kind, events, key);
    if current.Some? {
      LiveStates(kind, events, i, key, current.value);
    }
    forall j, r | (if current.Some? then i else -1) < j < |events| && IsRecord(kind, key, r) && Records(events[j], r)
      ensures Superseded(events, events[j].id)
    {
      LiveStates(kind, events, j, key, r);
    }
  }
}
