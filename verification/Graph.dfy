/**
 The bi-temporal edge fold. `FoldEdges` is the loop of the source with its map of open edges; its
 contract is the declarative meaning of the event history.
 */
module Graph {
  import opened Wrappers
  import opened Events

  const LINK := "link"
  const INVALIDATE := "invalidate"
  const MANUAL := "manual"
  const MACHINE := "machine"

  /** `normalize_ts`, whose calendar arithmetic belongs to another library. */
  type Normalizer = string -> string

  datatype EdgeKey = EdgeKey(src: string, relation: string, dst: string)

  datatype LinkContent = LinkContent(key: EdgeKey, confidence: Option<int>)

  datatype Edge = Edge(edgeId: string, key: EdgeKey, validFrom: string, validTo: Option<string>,
                       ingestedAt: string, invalidatedAt: Option<string>, invalidatedBy: Option<string>,
                       origin: string, confidenceMilli: Option<int>)

  predicate IsCurrent(e: Edge) {
    e.invalidatedAt.None?
  }

  function ParseLink(content: Json): Option<LinkContent> {
    match (GetStr(content, "src"), GetStr(content, "relation"), GetStr(content, "dst"))
    case (Some(s), Some(r), Some(d)) => Some(LinkContent(EdgeKey(s, r, d), GetI64(content, "confidence_milli")))
    case _ => None
  }

  function WorldTime(norm: Normalizer, ev: Event): string {
    norm(if ev.validTime.Some? then ev.validTime.value else ev.ts)
  }

  function Origin(ev: Event): string {
    if ev.modelId.Some? && ev.modelId.value != MANUAL then MACHINE else MANUAL
  }

  predicate Opens(ev: Event) {
    ev.eventType == LINK && ParseLink(ev.content).Some?
  }

  predicate Closes(ev: Event, key: EdgeKey) {
    && ev.eventType == INVALIDATE
    && var p := ParseLink(ev.content);
    && p.Some?
    && p.value.key == key
  }

  function KeyOf(ev: Event): EdgeKey
    requires Opens(ev)
  {
    ParseLink(ev.content).value.key
  }

  function OpenEdge(norm: Normalizer, ev: Event): Edge
    requires Opens(ev)
  {
    var p := ParseLink(ev.content).value;
    Edge(ev.id, p.key, WorldTime(norm, ev), None, norm(ev.ts), None, None, Origin(ev),
         if Origin(ev) == MANUAL then None else p.confidence)
  }

  function CloseEdge(norm: Normalizer, e: Edge, ev: Event): Edge {
    e.(validTo := Some(WorldTime(norm, ev)), invalidatedAt := Some(norm(ev.ts)), invalidatedBy := Some(ev.id))
  }

  // ---------------------------------------------------------------------------------------------
  // Declarative meaning
  // ---------------------------------------------------------------------------------------------

  /** The first event in [from, n) that invalidates `key`, or n if there is none. */
  function FirstClose(events: seq<Event>, key: EdgeKey, from: nat, n: nat): (c: nat)
    requires from <= n <= |events|
    ensures from <= c <= n
    ensures c < n ==> Closes(events[c], key)
    ensures forall j :: from <= j < c ==> !Closes(events[j], key)
    decreases n - from
  {
    if from == n || Closes(events[from], key) then from else FirstClose(events, key, from + 1, n)
  }

  /** The assertion opened by link event i, as the first n events leave it. */
  function EdgeAt(norm: Normalizer, events: seq<Event>, i: nat, n: nat): Edge
    requires i < n <= |events| && Opens(events[i])
  {
    var c := FirstClose(events, KeyOf(events[i]), i + 1, n);
    if c < n then CloseEdge(norm, OpenEdge(norm, events[i]), events[c]) else OpenEdge(norm, events[i])
  }

  /** Positions of the well-formed links among the first n events, in order. */
  function Links(events: seq<Event>, n: nat): (links: seq<nat>)
    requires n <= |events|
    ensures forall k :: 0 <= k < |links| ==> links[k] < n && Opens(events[links[k]])
    ensures forall k, l :: 0 <= k < l < |links| ==> links[k] < links[l]
    ensures forall i :: 0 <= i < n && Opens(events[i]) ==> i in links
  {
    if n == 0 then [] else Links(events, n - 1) + (if Opens(events[n - 1]) then [n - 1] else [])
  }

  /** One edge per well-formed link, in link order. */
  function EdgesOf(norm: Normalizer, events: seq<Event>): seq<Edge> {
    var links := Links(events, |events|);
    seq(|links|, k requires 0 <= k < |links| => EdgeAt(norm, events, links[k], |events|))
  }

  // ---------------------------------------------------------------------------------------------
  // The fold of the source
  // ---------------------------------------------------------------------------------------------

  type OpenIndex = map<EdgeKey, seq<nat>>

  predicate Listed(active: OpenIndex, key: EdgeKey, k: nat) {
    key in active && k in active[key]
  }

  /** `active` lists exactly the positions of the open edges, each under its own key. */
  ghost predicate IndexExact(edges: seq<Edge>, active: OpenIndex) {
    forall key: EdgeKey, k: nat :: Listed(active, key, k) <==> k < |edges| && edges[k].key == key && IsCurrent(edges[k])
  }

  method CloseAll(norm: Normalizer, before: seq<Edge>, indices: seq<nat>, ev: Event) returns (edges: seq<Edge>)
    requires forall x :: x in indices ==> x < |before|
    ensures |edges| == |before|
    ensures forall k :: 0 <= k < |before| ==>
              edges[k] == if k in indices then CloseEdge(norm, before[k], ev) else before[k]
  {
    edges := before;
    for j := 0 to |indices|
      invariant |edges| == |before|
      invariant forall k :: 0 <= k < |before| ==>
                  edges[k] == if k in indices[..j] then CloseEdge(norm, before[k], ev) else before[k]
    {
      assert indices[j] in indices;
      assert indices[..j + 1] == indices[..j] + [indices[j]];
      edges := edges[indices[j] := CloseEdge(norm, edges[indices[j]], ev)];
    }
  }

  /** `edges` is what the first n events declare. */
  ghost predicate Declared(norm: Normalizer, events: seq<Event>, n: nat, edges: seq<Edge>)
    requires n <= |events|
  {
    var links := Links(events, n);
    && |edges| == |links|
    && forall k :: 0 <= k < |edges| ==> edges[k] == EdgeAt(norm, events, links[k], n)
  }

  lemma CloseLater(events: seq<Event>, key: EdgeKey, from: nat, n: nat)
    requires from <= n < |events|
    ensures FirstClose(events, key, from, n + 1) ==
            var c := FirstClose(events, key, from, n);
            if c < n || Closes(events[n], key) then c else n + 1
  {
  }

  lemma EdgeStep(norm: Normalizer, events: seq<Event>, i: nat, n: nat)
    requires i < n < |events| && Opens(events[i])
    ensures var e := EdgeAt(norm, events, i, n);
            && e.key == KeyOf(events[i])
            && EdgeAt(norm, events, i, n + 1) ==
               if IsCurrent(e) && Closes(events[n], e.key) then CloseEdge(norm, e, events[n]) else e
  {
    CloseLater(events, KeyOf(events[i]), i + 1, n);
  }

  lemma LinkStep(norm: Normalizer, events: seq<Event>, n: nat, edges: seq<Edge>)
    requires n < |events| && Declared(norm, events, n, edges)
    requires Opens(events[n])
    ensures Declared(norm, events, n + 1, edges + [OpenEdge(norm, events[n])])
  {
    var links := Links(events, n);
    forall k | 0 <= k < |links|
      ensures edges[k] == EdgeAt(norm, events, links[k], n + 1)
    {
      EdgeStep(norm, events, links[k], n);
    }
  }

  /** A step that opens nothing closes exactly the open edges of the key it invalidates, if any. */
  lemma CloseStep(norm: Normalizer, events: seq<Event>, n: nat, edges: seq<Edge>, after: seq<Edge>)
    requires n < |events| && Declared(norm, events, n, edges)
    requires !Opens(events[n]) && |after| == |edges|
    requires forall k :: 0 <= k < |edges| ==> after[k] == Closed(norm, edges[k], events[n])
    ensures Declared(norm, events, n + 1, after)
  {
    var links := Links(events, n);
    forall k | 0 <= k < |links|
      ensures after[k] == EdgeAt(norm, events, links[k], n + 1)
    {
      EdgeStep(norm, events, links[k], n);
    }
  }

  function Closed(norm: Normalizer, e: Edge, ev: Event): Edge {
    if IsCurrent(e) && Closes(ev, e.key) then CloseEdge(norm, e, ev) else e
  }

  lemma IndexAfterOpen(edges: seq<Edge>, active: OpenIndex, e: Edge)
    requires IndexExact(edges, active) && IsCurrent(e)
    ensures var others := if e.key in active then active[e.key] else [];
            IndexExact(edges + [e], active[e.key := others + [|edges|]])
  {
    var others := if e.key in active then active[e.key] else [];
    var next := active[e.key := others + [|edges|]];
    forall key: EdgeKey, k: nat
      ensures Listed(next, key, k) <==> Listed(active, key, k) || (key == e.key && k == |edges|)
    {
    }
  }

  lemma IndexAfterClose(norm: Normalizer, edges: seq<Edge>, after: seq<Edge>, active: OpenIndex, key: EdgeKey,
                        ev: Event)
    requires IndexExact(edges, active) && |after| == |edges|
    requires forall k :: 0 <= k < |edges| ==>
               after[k] == if Listed(active, key, k) then CloseEdge(norm, edges[k], ev) else edges[k]
    ensures IndexExact(after, active - {key})
  {
    forall q: EdgeKey, k: nat
      ensures Listed(active - {key}, q, k) <==> Listed(active, q, k) && q != key
    {
    }
  }

  lemma InvalidateStep(norm: Normalizer, events: seq<Event>, n: nat, edges: seq<Edge>, after: seq<Edge>,
                       active: OpenIndex, key: EdgeKey)
    requires n < |events| && Declared(norm, events, n, edges) && IndexExact(edges, active)
    requires Closes(events[n], key) && |after| == |edges|
    requires forall k :: 0 <= k < |edges| ==>
               after[k] == if Listed(active, key, k) then CloseEdge(norm, edges[k], events[n]) else edges[k]
    ensures Declared(norm, events, n + 1, after)
    ensures IndexExact(after, active - {key})
  {
    IndexAfterClose(norm, edges, after, active, key, events[n]);
    assert forall q :: Closes(events[n], q) <==> q == key;
    CloseStep(norm, events, n, edges, after);
  }

  /** The `link` arm of the loop: push the edge and list its position under its key. */
  method ApplyLink(norm: Normalizer, events: seq<Event>, n: nat, before: seq<Edge>, was: OpenIndex)
    returns (edges: seq<Edge>, active: OpenIndex)
    requires n < |events| && Declared(norm, events, n, before) && IndexExact(before, was)
    requires Opens(events[n])
    ensures Declared(norm, events, n + 1, edges) && IndexExact(edges, active)
  {
    var e := OpenEdge(norm, events[n]);
    LinkStep(norm, events, n, before);
    IndexAfterOpen(before, was, e);
    edges := before + [e];
    var others := if e.key in was then was[e.key] else [];
    active := was[e.key := others + [|before|]];
  }

  /** The `invalidate` arm: take the positions listed under the key and close each of them. */
  method ApplyInvalidate(norm: Normalizer, events: seq<Event>, n: nat, before: seq<Edge>, was: OpenIndex, key: EdgeKey)
    returns (edges: seq<Edge>, active: OpenIndex)
    requires n < |events| && Declared(norm, events, n, before) && IndexExact(before, was)
    requires Closes(events[n], key)
    ensures Declared(norm, events, n + 1, edges) && IndexExact(edges, active)
  {
    edges := before;
    if key in was {
      assert forall x: nat :: x in was[key] <==> Listed(was, key, x);
      edges := CloseAll(norm, before, was[key], events[n]);
    }
    InvalidateStep(norm, events, n, before, edges, was, key);
    active := was - {key};
  }

  method FoldEdges(norm: Normalizer, events: seq<Event>) returns (edges: seq<Edge>)
    ensures edges == EdgesOf(norm, events)
    ensures exists at :: AllTold(norm, events, edges, at)
  {
    ghost var at := EdgesTellTheLog(norm, events);
    edges := [];
    var active: OpenIndex := map[];
    for n := 0 to |events|
      invariant Declared(norm, events, n, edges)
      invariant IndexExact(edges, active)
    {
      var ev := events[n];
      var parsed := ParseLink(ev.content);
      if parsed.Some? && ev.eventType == LINK {
        edges, active := ApplyLink(norm, events, n, edges, active);
      } else if parsed.Some? && ev.eventType == INVALIDATE {
        edges, active := ApplyInvalidate(norm, events, n, edges, active, parsed.value.key);
      } else {
        CloseStep(norm, events, n, edges, edges);
      }
    }
  }

  // ---------------------------------------------------------------------------------------------
  // Extending the log
  // ---------------------------------------------------------------------------------------------

  lemma {:induction false} LinksPrefix(a: seq<Event>, b: seq<Event>, n: nat)
    requires |a| <= n <= |a + b|
    ensures Links(a, |a|) <= Links(a + b, n)
    decreases n
  {
    if n > |a| {
      LinksPrefix(a, b, n - 1);
    } else {
      LinksSame(a, b, |a|);
    }
  }

  lemma {:induction false} LinksSame(a: seq<Event>, b: seq<Event>, n: nat)
    requires n <= |a|
    ensures Links(a, n) == Links(a + b, n)
  {
    if n > 0 {
      LinksSame(a, b, n - 1);
    }
  }

  lemma FirstCloseAppend(a: seq<Event>, b: seq<Event>, key: EdgeKey, from: nat)
    requires from <= |a|
    ensures FirstClose(a + b, key, from, |a + b|) ==
            var c := FirstClose(a, key, from, |a|);
            if c < |a| then c else |a| + FirstClose(b, key, 0, |b|)
  {
    var all, c := a + b, FirstClose(a, key, from, |a|);
    assert forall j :: 0 <= j < |a| ==> all[j] == a[j];
    if c == |a| {
      var f := FirstClose(b, key, 0, |b|);
      forall j | |a| <= j < |a| + f
        ensures !Closes(all[j], key)
      {
        assert all[j] == b[j - |a|];
      }
      assert f < |b| ==> Closes(all[|a| + f], key);
    }
  }

  /**
   Appending events never reopens, alters or drops a closed edge; an open edge stays open until the
   first appended invalidate of its key, whose id and times it then carries.
   */
  lemma AppendKeepsEdges(norm: Normalizer, a: seq<Event>, b: seq<Event>, k: nat)
    requires k < |EdgesOf(norm, a)|
    ensures |EdgesOf(norm, a)| <= |EdgesOf(norm, a + b)|
    ensures var e, later := EdgesOf(norm, a)[k], EdgesOf(norm, a + b)[k];
            && (!IsCurrent(e) ==> later == e)
            && (IsCurrent(e) ==>
                  var c := FirstClose(b, e.key, 0, |b|);
                  later == if c < |b| then CloseEdge(norm, e, b[c]) else e)
  {
    LinksPrefix(a, b, |a + b|);
    EdgeAppend(norm, a, b, Links(a, |a|)[k]);
  }

  lemma EdgeAppend(norm: Normalizer, a: seq<Event>, b: seq<Event>, i: nat)
    requires i < |a| && Opens(a[i])
    ensures var e, later := EdgeAt(norm, a, i, |a|), EdgeAt(norm, a + b, i, |a + b|);
            && (!IsCurrent(e) ==> later == e)
            && (IsCurrent(e) ==>
                  var c := FirstClose(b, e.key, 0, |b|);
                  later == if c < |b| then CloseEdge(norm, e, b[c]) else e)
  {
    FirstCloseAppend(a, b, KeyOf(a[i]), i + 1);
  }

  /** With unique event ids an edge id names one edge, and the closing id names a later event of the same key. */
  lemma EdgesFaithful(norm: Normalizer, events: seq<Event>, k: nat)
    requires UniqueIds(events) && k < |EdgesOf(norm, events)|
    ensures var e := EdgesOf(norm, events)[k];
            && (exists i :: 0 <= i < |events| && Opens(events[i]) && events[i].id == e.edgeId
                            && KeyOf(events[i]) == e.key)
            && (e.invalidatedBy.Some? <==>
                  exists i, j :: 0 <= i < j < |events| && events[i].id == e.edgeId && Closes(events[j], e.key))
            && (forall l :: 0 <= l < |EdgesOf(norm, events)| && l != k ==> EdgesOf(norm, events)[l].edgeId != e.edgeId)
  {
    var links := Links(events, |events|);
    var i := links[k];
    var e := EdgesOf(norm, events)[k];
    assert Opens(events[i]) && events[i].id == e.edgeId;
    var c := FirstClose(events, e.key, i + 1, |events|);
    if c < |events| {
      assert 0 <= i < c < |events| && Closes(events[c], e.key);
    }
    forall l | 0 <= l < |links| && l != k
      ensures EdgesOf(norm, events)[l].edgeId != e.edgeId
    {
      assert links[l] != links[k];
    }
  }

  // ---------------------------------------------------------------------------------------------
  // What the edges say, read off the log
  // ---------------------------------------------------------------------------------------------

  /** An event of this type about this triple. */
  predicate About(ev: Event, eventType: string, src: string, relation: string, dst: string) {
    && ev.eventType == eventType && GetStr(ev.content, "src") == Some(src)
    && GetStr(ev.content, "relation") == Some(relation) && GetStr(ev.content, "dst") == Some(dst)
  }

  /** The valid time of an event if it has one, else its time stamp. */
  function ValidOrTs(ev: Event): string {
    match ev.validTime
    case Some(t) => t
    case None => ev.ts
  }

  /** Event j is the first after i that invalidates the triple. */
  ghost predicate EndsAt(events: seq<Event>, i: nat, j: nat, src: string, relation: string, dst: string) {
    && i < j < |events| && About(events[j], "invalidate", src, relation, dst)
    && forall m :: i < m < j ==> !About(events[m], "invalidate", src, relation, dst)
  }

  /** The edge tells of link event i what the log says of it: its beginning, its producer, and its end if it has one. */
  ghost predicate Tells(norm: Normalizer, events: seq<Event>, i: nat, e: Edge)
    requires i < |events|
  {
    var ev, src, relation, dst := events[i], e.key.src, e.key.relation, e.key.dst;
    && About(ev, "link", src, relation, dst)
    && e.edgeId == ev.id && e.validFrom == norm(ValidOrTs(ev)) && e.ingestedAt == norm(ev.ts)
    && e.origin == (if ev.modelId == None || ev.modelId == Some("manual") then "manual" else "machine")
    && e.confidenceMilli == (if e.origin == "manual" then None else GetI64(ev.content, "confidence_milli"))
    && (forall j: nat :: EndsAt(events, i, j, src, relation, dst) ==>
          && e.validTo == Some(norm(ValidOrTs(events[j]))) && e.invalidatedAt == Some(norm(events[j].ts))
          && e.invalidatedBy == Some(events[j].id))
    && ((forall j: nat :: !EndsAt(events, i, j, src, relation, dst)) ==>
          e.validTo == None && e.invalidatedAt == None && e.invalidatedBy == None)
  }

  lemma EdgeTells(norm: Normalizer, events: seq<Event>, i: nat)
    requires i < |events| && Opens(events[i])
    ensures Tells(norm, events, i, EdgeAt(norm, events, i, |events|))
  {
    var key := KeyOf(events[i]);
    var c := FirstClose(events, key, i + 1, |events|);
    forall m | i < m < |events|
      ensures About(events[m], "invalidate", key.src, key.relation, key.dst) <==> Closes(events[m], key)
    {
    }
    if c < |events| {
      assert EndsAt(events, i, c, key.src, key.relation, key.dst);
      forall j: nat | EndsAt(events, i, j, key.src, key.relation, key.dst)
        ensures j == c
      {
      }
    }
  }

  /**
   There is exactly one edge for every event of type `link` with three texts, in the order of the log, and each
   tells what the log says.
   */
  ghost predicate AllTold(norm: Normalizer, events: seq<Event>, edges: seq<Edge>, at: seq<nat>) {
    && |at| == |edges|
    && (forall k :: 0 <= k < |at| ==> at[k] < |events| && Tells(norm, events, at[k], edges[k]))
    && (forall k, l :: 0 <= k < l < |at| ==> at[k] < at[l])
    && (forall i: nat, s: string, r: string, d: string ::
          i < |events| && About(events[i], "link", s, r, d) ==> i in at)
  }

  lemma EdgesTellTheLog(norm: Normalizer, events: seq<Event>) returns (at: seq<nat>)
    ensures AllTold(norm, events, EdgesOf(norm, events), at)
  {
    at := Links(events, |events|);
    forall k | 0 <= k < |at|
      ensures Tells(norm, events, at[k], EdgesOf(norm, events)[k])
    {
      EdgeTells(norm, events, at[k]);
    }
    forall i: nat, s: string, r: string, d: string | i < |events| && About(events[i], "link", s, r, d)
      ensures i in at
    {
      assert Opens(events[i]);
    }
  }
}
