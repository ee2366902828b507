/** The vector index: slot bookkeeping around a nearest-neighbour graph, and search past tombstones. */
module Index {
  import opened Wrappers
  import opened Keys

  type Vec = seq<real>

  /** One result of the graph: an internal slot and its distance from the query. */
  datatype Hit = Hit(slot: nat, distance: real)

  datatype Found = Found(id: string, distance: real)

  /** What an index holds: the ids and vectors by slot, and the ids removed since the last rebuild. */
  datatype Contents = Contents(ids: seq<string>, vectors: seq<Vec>, tombstones: set<string>)

  ghost predicate Distinct<T>(s: seq<T>) {
    forall i, j :: 0 <= i < j < |s| ==> s[i] != s[j]
  }

  ghost predicate WellFormed(c: Contents) {
    |c.vectors| == |c.ids| && Distinct(c.ids) && forall id :: id in c.tombstones ==> id in c.ids
  }

  ghost predicate Live(c: Contents, slot: nat) {
    slot < |c.ids| && c.ids[slot] !in c.tombstones
  }

  // ---------------------------------------------------------------------------------------------
  // Exact search
  // ---------------------------------------------------------------------------------------------

  ghost predicate Reported(hits: seq<Hit>, slot: nat) {
    exists i :: 0 <= i < |hits| && hits[i].slot == slot
  }

  /** An exact graph search: `hits` are `n` nearest slots, nearest first, ties broken anyhow. */
  ghost predicate Nearest(dist: nat -> real, total: nat, n: nat, hits: seq<Hit>) {
    |hits| <= n
    && (forall i :: 0 <= i < |hits| ==> hits[i].slot < total && hits[i].distance == dist(hits[i].slot))
    && (forall i, j :: 0 <= i < j < |hits| ==> hits[i].slot != hits[j].slot && hits[i].distance <= hits[j].distance)
    && (forall slot: nat :: slot < total && !Reported(hits, slot) ==> Complete(hits, n, dist(slot)))
  }

  ghost predicate Complete(hits: seq<Hit>, n: nat, bound: real) {
    |hits| == n && forall i :: 0 <= i < |hits| ==> hits[i].distance <= bound
  }

  /** The same promise about the live slots only: this is what brute force over them would return. */
  ghost predicate NearestLive(c: Contents, dist: nat -> real, k: nat, hits: seq<Hit>) {
    |hits| <= k
    && (forall i :: 0 <= i < |hits| ==> Live(c, hits[i].slot) && hits[i].distance == dist(hits[i].slot))
    && (forall i, j :: 0 <= i < j < |hits| ==> hits[i].slot != hits[j].slot && hits[i].distance <= hits[j].distance)
    && (forall slot: nat :: Live(c, slot) && !Reported(hits, slot) ==> Complete(hits, k, dist(slot)))
  }

  /** The hits whose id is not tombstoned, in order. */
  function LiveHits(c: Contents, hits: seq<Hit>): seq<Hit> {
    if hits == [] then []
    else
      var h := hits[|hits| - 1];
      LiveHits(c, hits[..|hits| - 1])
      + if h.slot < |c.ids| && c.ids[h.slot] !in c.tombstones then [h] else []
  }

  function Take<T>(s: seq<T>, n: nat): seq<T> {
    if n < |s| then s[..n] else s
  }

  function Requested(c: Contents, k: nat): nat {
    var saturated := if k + |c.tombstones| > USIZE_MAX then USIZE_MAX else k + |c.tombstones|;
    var clamped := if saturated < |c.ids| then saturated else |c.ids|;
    if clamped < 1 then 1 else clamped
  }

  // ---------------------------------------------------------------------------------------------
  // Counting
  // ---------------------------------------------------------------------------------------------

  lemma {:induction false} DistinctBound<T>(s: seq<T>, all: set<T>)
    requires Distinct(s) && forall x :: x in s ==> x in all
    ensures |s| <= |all|
  {
    if s != [] {
      var last := s[|s| - 1];
      DistinctBound(s[..|s| - 1], all - {last});
    }
  }

  function Slots(hits: seq<Hit>): (s: seq<nat>)
    ensures |s| == |hits| && forall i :: 0 <= i < |s| ==> s[i] == hits[i].slot
  {
    seq(|hits|, i requires 0 <= i < |hits| => hits[i].slot)
  }

  /** A list of distinct slots that misses one of them is shorter than the index. */
  lemma MissingBound(hits: seq<Hit>, total: nat, slot: nat)
    requires Distinct(Slots(hits)) && slot < total && !Reported(hits, slot)
    requires forall i :: 0 <= i < |hits| ==> hits[i].slot < total
    ensures |hits| < total
  {
    DistinctBound(Slots(hits), Below(total) - {slot});
  }

  function Below(n: nat): (s: set<nat>)
    ensures |s| == n && forall i: nat :: i in s <==> i < n
  {
    if n == 0 then {} else Below(n - 1) + {n - 1}
  }

  /** The ids of the tombstoned hits. */
  ghost function DeadIds(c: Contents, hits: seq<Hit>): seq<string>
    requires forall i :: 0 <= i < |hits| ==> hits[i].slot < |c.ids|
  {
    if hits == [] then []
    else
      var id := c.ids[hits[|hits| - 1].slot];
      DeadIds(c, hits[..|hits| - 1]) + if id in c.tombstones then [id] else []
  }

  ghost predicate HitById(c: Contents, hits: seq<Hit>, id: string) {
    exists i :: 0 <= i < |hits| && hits[i].slot < |c.ids| && c.ids[hits[i].slot] == id
  }

  lemma {:induction false} DeadIdsFrom(c: Contents, hits: seq<Hit>)
    requires forall i :: 0 <= i < |hits| ==> hits[i].slot < |c.ids|
    ensures |DeadIds(c, hits)| + |LiveHits(c, hits)| == |hits|
    ensures forall id :: id in DeadIds(c, hits) ==> id in c.tombstones
    ensures forall id :: id in DeadIds(c, hits) ==> HitById(c, hits, id)
  {
    if hits != [] {
      var front := hits[..|hits| - 1];
      DeadIdsFrom(c, front);
      assert HitById(c, hits, c.ids[hits[|hits| - 1].slot]);
      forall id | HitById(c, front, id) ensures HitById(c, hits, id) {
        var i :| 0 <= i < |front| && front[i].slot < |c.ids| && c.ids[front[i].slot] == id;
        assert hits[i] == front[i];
      }
    }
  }

  lemma {:induction false} DeadIdsDistinct(c: Contents, hits: seq<Hit>)
    requires WellFormed(c) && Distinct(Slots(hits))
    requires forall i :: 0 <= i < |hits| ==> hits[i].slot < |c.ids|
    ensures Distinct(DeadIds(c, hits))
  {
    if hits != [] {
      var front, last := hits[..|hits| - 1], hits[|hits| - 1];
      assert forall i :: 0 <= i < |front| ==> Slots(front)[i] == Slots(hits)[i];
      DeadIdsDistinct(c, front);
      DeadIdsFrom(c, front);
      assert forall i :: 0 <= i < |front| ==> Slots(hits)[i] != Slots(hits)[|front|];
      assert forall i :: 0 <= i < |front| ==> c.ids[front[i].slot] != c.ids[last.slot];
      assert !HitById(c, front, c.ids[last.slot]);
    }
  }

  /** Tombstones can hide at most one hit each. */
  lemma EnoughLive(c: Contents, hits: seq<Hit>)
    requires WellFormed(c) && Distinct(Slots(hits))
    requires forall i :: 0 <= i < |hits| ==> hits[i].slot < |c.ids|
    ensures |LiveHits(c, hits)| + |c.tombstones| >= |hits|
  {
    DeadIdsFrom(c, hits);
    DeadIdsDistinct(c, hits);
    DistinctBound(DeadIds(c, hits), c.tombstones);
  }

  // ---------------------------------------------------------------------------------------------
  // The over-fetch suffices
  // ---------------------------------------------------------------------------------------------

  ghost predicate SubList(part: seq<Hit>, hits: seq<Hit>) {
    forall i :: 0 <= i < |part| ==> part[i] in hits
  }

  lemma {:induction false} LiveHitsFrom(c: Contents, hits: seq<Hit>)
    ensures SubList(LiveHits(c, hits), hits)
    ensures forall i :: 0 <= i < |LiveHits(c, hits)| ==> Live(c, LiveHits(c, hits)[i].slot)
    ensures forall h :: h in hits && Live(c, h.slot) ==> h in LiveHits(c, hits)
  {
    if hits != [] {
      var front := hits[..|hits| - 1];
      LiveHitsFrom(c, front);
      assert hits == front + [hits[|hits| - 1]];
    }
  }

  ghost predicate Ascending(hits: seq<Hit>) {
    forall i, j :: 0 <= i < j < |hits| ==> hits[i].slot != hits[j].slot && hits[i].distance <= hits[j].distance
  }

  lemma {:induction false} LiveHitsAscending(c: Contents, hits: seq<Hit>)
    requires Ascending(hits)
    ensures Ascending(LiveHits(c, hits))
  {
    if hits != [] {
      var front, last := hits[..|hits| - 1], hits[|hits| - 1];
      LiveHitsAscending(c, front);
      LiveHitsFrom(c, front);
      assert forall h :: h in front ==> h.slot != last.slot && h.distance <= last.distance;
    }
  }

  lemma AscendingSlots(hits: seq<Hit>)
    requires Ascending(hits)
    ensures Distinct(Slots(hits))
  {
  }

  /** A live slot the graph did not report: then `k` live ones were reported, all at least as near. */
  lemma UnreportedIsFarther(c: Contents, dist: nat -> real, k: nat, hits: seq<Hit>, slot: nat)
    requires WellFormed(c) && |c.ids| <= USIZE_MAX && 0 < k
    requires Nearest(dist, |c.ids|, Requested(c, k), hits)
    requires Live(c, slot) && !Reported(hits, slot)
    ensures |LiveHits(c, hits)| >= k
    ensures forall h :: h in LiveHits(c, hits) ==> h.distance <= dist(slot)
  {
    assert Complete(hits, Requested(c, k), dist(slot));
    AscendingSlots(hits);
    MissingBound(hits, |c.ids|, slot);
    EnoughLive(c, hits);
    LiveHitsFrom(c, hits);
    forall h | h in LiveHits(c, hits) ensures h.distance <= dist(slot) {
      assert h in hits;
    }
  }

  /** A live slot that was reported but not returned: then `k` others were, all at least as near. */
  lemma CutOffIsFarther(c: Contents, dist: nat -> real, k: nat, hits: seq<Hit>, slot: nat)
    requires Nearest(dist, |c.ids|, Requested(c, k), hits)
    requires Live(c, slot) && Reported(hits, slot) && !Reported(Take(LiveHits(c, hits), k), slot)
    ensures Complete(Take(LiveHits(c, hits), k), k, dist(slot))
  {
    var live := LiveHits(c, hits);
    LiveHitsFrom(c, hits);
    LiveHitsAscending(c, hits);
    var i :| 0 <= i < |hits| && hits[i].slot == slot;
    assert hits[i] in live;
    var j :| 0 <= j < |live| && live[j] == hits[i];
    TakeReports(live, k, j);
  }

  lemma TakeReports(live: seq<Hit>, k: nat, j: nat)
    requires j < |live|
    ensures j < k ==> Reported(Take(live, k), live[j].slot)
  {
    if j < k {
      assert Take(live, k)[j] == live[j];
    }
  }

  /** Asking for `k` plus one per tombstone always leaves the `k` nearest live ones. */
  lemma OverfetchSuffices(c: Contents, dist: nat -> real, k: nat, hits: seq<Hit>)
    requires WellFormed(c) && |c.ids| <= USIZE_MAX && 0 < k
    requires Nearest(dist, |c.ids|, Requested(c, k), hits)
    ensures NearestLive(c, dist, k, Take(LiveHits(c, hits), k))
  {
    var live := LiveHits(c, hits);
    LiveHitsFrom(c, hits);
    LiveHitsAscending(c, hits);
    forall i | 0 <= i < |live| ensures live[i].distance == dist(live[i].slot) {
      assert live[i] in hits;
    }
    forall slot: nat | Live(c, slot) && !Reported(Take(live, k), slot)
      ensures Complete(Take(live, k), k, dist(slot))
    {
      if Reported(hits, slot) {
        CutOffIsFarther(c, dist, k, hits, slot);
      } else {
        UnreportedIsFarther(c, dist, k, hits, slot);
      }
    }
  }

  ghost function LiveSlots(c: Contents): set<nat> {
    set slot: nat | slot < |c.ids| && c.ids[slot] !in c.tombstones
  }

  /** So exactly `min(k, live)` come back: fewer than `k` only when there are fewer live ids. */
  lemma NearestLiveCount(c: Contents, dist: nat -> real, k: nat, hits: seq<Hit>)
    requires NearestLive(c, dist, k, hits)
    ensures |hits| == if k < |LiveSlots(c)| then k else |LiveSlots(c)|
  {
    AscendingSlots(hits);
    DistinctBound(Slots(hits), LiveSlots(c));
    if |hits| < k {
      forall slot | slot in LiveSlots(c) ensures Reported(hits, slot) {
        assert !Reported(hits, slot) ==> Complete(hits, k, dist(slot));
      }
      CoverBound(hits, LiveSlots(c));
    }
  }

  lemma {:induction false} CoverBound(hits: seq<Hit>, all: set<nat>)
    requires forall slot :: slot in all ==> Reported(hits, slot)
    ensures |all| <= |hits|
  {
    if hits == [] {
      assert all == {};
    } else {
      var front, last := hits[..|hits| - 1], hits[|hits| - 1];
      forall slot | slot in all - {last.slot} ensures Reported(front, slot) {
        var i :| 0 <= i < |hits| && hits[i].slot == slot;
        assert front[i].slot == slot;
      }
      CoverBound(front, all - {last.slot});
    }
  }

  // ---------------------------------------------------------------------------------------------
  // No smaller request would do
  // ---------------------------------------------------------------------------------------------

  /** Every removed id is nearer to the query than every live one. */
  ghost predicate DeadNearer(c: Contents, dist: nat -> real) {
    forall i: nat, j: nat :: i < |c.ids| && c.ids[i] in c.tombstones && Live(c, j) ==> dist(i) < dist(j)
  }

  lemma {:induction false} CoveredBound(all: set<string>, s: seq<string>)
    requires forall x :: x in all ==> x in s
    ensures |all| <= |s|
  {
    if s == [] {
      assert all == {};
    } else {
      CoveredBound(all - {s[|s| - 1]}, s[..|s| - 1]);
    }
  }

  lemma {:induction false} DeadIdsHold(c: Contents, hits: seq<Hit>, i: nat)
    requires forall j :: 0 <= j < |hits| ==> hits[j].slot < |c.ids|
    requires i < |hits| && c.ids[hits[i].slot] in c.tombstones
    ensures c.ids[hits[i].slot] in DeadIds(c, hits)
  {
    if i < |hits| - 1 {
      DeadIdsHold(c, hits[..|hits| - 1], i);
    }
  }

  /** Once a live hit is reported, so is every removed id that is nearer. */
  lemma AllDeadReported(c: Contents, dist: nat -> real, n: nat, hits: seq<Hit>, id: string)
    requires WellFormed(c) && DeadNearer(c, dist) && Nearest(dist, |c.ids|, n, hits)
    requires LiveHits(c, hits) != [] && id in c.tombstones
    ensures id in DeadIds(c, hits)
  {
    LiveHitsFrom(c, hits);
    var live := LiveHits(c, hits)[0];
    var slot: nat :| slot < |c.ids| && c.ids[slot] == id;
    assert live in hits && live.distance == dist(live.slot) && dist(slot) < dist(live.slot);
    assert Reported(hits, slot);
    var i :| 0 <= i < |hits| && hits[i].slot == slot;
    DeadIdsHold(c, hits, i);
  }

  /**
   The over-fetch is needed in full: where the removed ids are the nearest ones, a graph asked for any smaller
   number leaves fewer than `k` live hits although there are `k` live ids.
   */
  lemma OverfetchIsNeeded(c: Contents, dist: nat -> real, k: nat, n: nat, hits: seq<Hit>)
    requires WellFormed(c) && 0 < k <= |LiveSlots(c)| && n < Requested(c, k)
    requires DeadNearer(c, dist) && Nearest(dist, |c.ids|, n, hits)
    ensures |LiveHits(c, hits)| < k
  {
    SomeLive(c);
    DeadIdsFrom(c, hits);
    if LiveHits(c, hits) != [] {
      forall id | id in c.tombstones ensures id in DeadIds(c, hits) {
        AllDeadReported(c, dist, n, hits, id);
      }
      CoveredBound(c.tombstones, DeadIds(c, hits));
    }
  }

  lemma SomeLive(c: Contents)
    ensures |LiveSlots(c)| > 0 ==> |c.ids| > 0
  {
    if |LiveSlots(c)| > 0 {
      var slot :| slot in LiveSlots(c);
    }
  }

  // ---------------------------------------------------------------------------------------------
  // The index
  // ---------------------------------------------------------------------------------------------

  /** The ids of slots 0..n. */
  function InSlotOrder(slotToId: map<nat, string>, n: nat): (ids: seq<string>)
    requires forall slot: nat :: slot < n ==> slot in slotToId
    ensures |ids| == n && forall slot :: 0 <= slot < n ==> ids[slot] == slotToId[slot]
  {
    if n == 0 then [] else InSlotOrder(slotToId, n - 1) + [slotToId[n - 1]]
  }

  /** The two maps are inverse to each other on slots 0..n. */
  ghost predicate Inverse(idToSlot: map<string, nat>, slotToId: map<nat, string>, n: nat) {
    |idToSlot| == n
    && (forall slot: nat :: slot in slotToId <==> slot < n)
    && (forall slot: nat :: slot in slotToId ==> slotToId[slot] in idToSlot && idToSlot[slotToId[slot]] == slot)
    && (forall id :: id in idToSlot ==> idToSlot[id] in slotToId && slotToId[idToSlot[id]] == id)
  }

  lemma GrownSize(idToSlot: map<string, nat>, n: nat, id: string)
    requires id !in idToSlot
    ensures |idToSlot[id := n]| == |idToSlot| + 1
  {
    assert idToSlot[id := n].Keys == idToSlot.Keys + {id};
    assert |idToSlot[id := n]| == |idToSlot[id := n].Keys| && |idToSlot| == |idToSlot.Keys|;
  }

  lemma InverseGrows(idToSlot: map<string, nat>, slotToId: map<nat, string>, n: nat, id: string)
    requires Inverse(idToSlot, slotToId, n) && id !in idToSlot
    ensures Inverse(idToSlot[id := n], slotToId[n := id], n + 1)
  {
    GrownSize(idToSlot, n, id);
  }

  lemma OrderGrows(slotToId: map<nat, string>, n: nat, id: string)
    requires forall slot: nat :: slot < n ==> slot in slotToId
    ensures InSlotOrder(slotToId[n := id], n + 1) == InSlotOrder(slotToId, n) + [id]
  {
  }

  class HnswIndex {
    var vectors: seq<Vec>
    var idToSlot: map<string, nat>
    var slotToId: map<nat, string>
    var tombstones: set<string>
    var lastIndexed: Option<string>
    var nextSlot: nat

    /** The two maps are inverse to each other on 0..nextSlot, and tombstones are indexed ids. */
    ghost predicate Valid()
      reads this
    {
      nextSlot <= USIZE_MAX && |vectors| == nextSlot && Inverse(idToSlot, slotToId, nextSlot)
      && (forall id :: id in tombstones ==> id in idToSlot)
      && lastIndexed == (if nextSlot == 0 then None else Some(slotToId[nextSlot - 1]))
    }

    ghost function Model(): (c: Contents)
      requires Valid()
      reads this
      ensures WellFormed(c)
      ensures c.ids == InSlotOrder(slotToId, nextSlot) && c.vectors == vectors && c.tombstones == tombstones
    {
      var ids := InSlotOrder(slotToId, nextSlot);
      assert forall id :: id in tombstones ==> ids[idToSlot[id]] == id;
      Contents(ids, vectors, tombstones)
    }

    lemma KnownIffIndexed(id: string)
      requires Valid()
      ensures id in Model().ids <==> id in idToSlot
    {
      if id in idToSlot {
        assert Model().ids[idToSlot[id]] == id;
      }
    }

    constructor ()
      ensures Valid() && Model() == Contents([], [], {})
    {
      vectors, idToSlot, slotToId, tombstones, lastIndexed, nextSlot := [], map[], map[], {}, None, 0;
    }

    method Add(eventId: string, vec: Vec)
      requires Valid() && nextSlot < USIZE_MAX
      modifies this
      ensures Valid()
      ensures Model() == if eventId in old(Model()).ids then old(Model())
                         else Contents(old(Model()).ids + [eventId], old(Model()).vectors + [vec],
                           old(Model()).tombstones)
    {
      KnownIffIndexed(eventId);
      if eventId in idToSlot {
        return;
      }
      AddNew(eventId, vec);
    }

    /** The next slot goes to an id not seen before. */
    method AddNew(eventId: string, vec: Vec)
      requires Valid() && nextSlot < USIZE_MAX && eventId !in idToSlot
      modifies this
      ensures Valid()
      ensures Model() == Contents(old(Model()).ids + [eventId], old(Model()).vectors + [vec], old(Model()).tombstones)
    {
      InverseGrows(idToSlot, slotToId, nextSlot, eventId);
      OrderGrows(slotToId, nextSlot, eventId);
      var slot := nextSlot;
      nextSlot := nextSlot + 1;
      vectors := vectors + [vec];
      idToSlot := idToSlot[eventId := slot];
      slotToId := slotToId[slot := eventId];
      lastIndexed := Some(eventId);
    }

    method Remove(eventId: string)
      requires Valid()
      modifies this
      ensures Valid()
      ensures Model() == if eventId in old(Model()).ids
                         then old(Model()).(tombstones := old(Model()).tombstones + {eventId}) else old(Model())
    {
      KnownIffIndexed(eventId);
      if eventId in idToSlot {
        tombstones := tombstones + {eventId};
      }
      assert Model().ids == old(Model()).ids;
    }

    method Len() returns (n: nat)
      requires Valid()
      ensures n == |Model().ids|
    {
      n := |idToSlot|;
    }

    method LastIndexed() returns (id: Option<string>)
      requires Valid()
      ensures id == if Model().ids == [] then None else Some(Model().ids[|Model().ids| - 1])
    {
      id := lastIndexed;
    }

    /**
     * `graph` stands for the nearest-neighbour graph over the inserted vectors, queried with the vector
     * whose distance to each slot `dist` gives.
     */
    method Search(dist: nat -> real, graph: nat -> seq<Hit>, k: nat) returns (out: seq<Found>)
      requires Valid()
      requires forall n :: Nearest(dist, nextSlot, n, graph(n))
      ensures var hits := Take(LiveHits(Model(), graph(Requested(Model(), k))), k);
              Named(Model(), hits, out) && NearestLive(Model(), dist, k, hits)
    {
      if k == 0 {
        return [];
      }
      out := Collect(graph(RequestedNow(k)), k);
      OverfetchSuffices(Model(), dist, k, graph(Requested(Model(), k)));
    }

    function RequestedNow(k: nat): (n: nat)
      requires Valid()
      reads this
      ensures n == Requested(Model(), k)
    {
      var saturated := if k + |tombstones| > USIZE_MAX then USIZE_MAX else k + |tombstones|;
      var clamped := if saturated < |idToSlot| then saturated else |idToSlot|;
      if clamped < 1 then 1 else clamped
    }

    /** The id of a slot, unless it has none or is tombstoned. */
    function LiveId(slot: nat): (id: Option<string>)
      requires Valid()
      reads this
      ensures id == if slot < |Model().ids| && Model().ids[slot] !in tombstones then Some(Model().ids[slot]) else None
    {
      if slot !in slotToId then None
      else if slotToId[slot] in tombstones then None
      else Some(slotToId[slot])
    }

    method Collect(neighbours: seq<Hit>, k: nat) returns (out: seq<Found>)
      requires Valid() && 0 < k
      ensures Named(Model(), Take(LiveHits(Model(), neighbours), k), out)
    {
      out := [];
      ghost var c := Model();
      ghost var kept: seq<Hit> := [];
      var i := 0;
      while i < |neighbours|
        invariant i <= |neighbours| && kept == LiveHits(c, neighbours[..i]) && |kept| < k
        invariant Named(c, kept, out)
      {
        var n := neighbours[i];
        LiveHitsStep(c, neighbours, i);
        i := i + 1;
        var id := LiveId(n.slot);
        if id.None? {
          continue;
        }
        NamedSnoc(c, kept, out, n);
        out := out + [Found(id.value, n.distance)];
        kept := kept + [n];
        if |out| == k {
          LiveHitsPrefix(c, neighbours, i);
          return;
        }
      }
      assert neighbours[..i] == neighbours;
    }
  }

  lemma NamedSnoc(c: Contents, hits: seq<Hit>, out: seq<Found>, n: Hit)
    requires Named(c, hits, out) && n.slot < |c.ids|
    ensures Named(c, hits + [n], out + [Found(c.ids[n.slot], n.distance)])
  {
  }

  /** The caller's view of a list of hits. */
  ghost predicate Named(c: Contents, hits: seq<Hit>, out: seq<Found>) {
    |out| == |hits|
    && forall i :: 0 <= i < |hits| ==> hits[i].slot < |c.ids| && out[i] == Found(c.ids[hits[i].slot], hits[i].distance)
  }

  lemma LiveHitsStep(c: Contents, hits: seq<Hit>, i: nat)
    requires i < |hits|
    ensures LiveHits(c, hits[..i + 1])
         == LiveHits(c, hits[..i])
            + if hits[i].slot < |c.ids| && c.ids[hits[i].slot] !in c.tombstones then [hits[i]] else []
  {
    assert hits[..i + 1][..i] == hits[..i];
  }

  lemma {:induction false} LiveHitsPrefix(c: Contents, hits: seq<Hit>, i: nat)
    requires i <= |hits|
    ensures LiveHits(c, hits[..i]) <= LiveHits(c, hits)
    decreases |hits| - i
  {
    if i == |hits| {
      assert hits[..i] == hits;
    } else {
      LiveHitsStep(c, hits, i);
      LiveHitsPrefix(c, hits, i + 1);
    }
  }
}
