/** The folder-grant folds (read and write authority) and the mandate fold. */
module Grants {
  import opened Wrappers
  import opened Events

  /** Read authority and write authority are the same fold over disjoint event types. */
  datatype Authority = Read | Write

  function GrantType(auth: Authority): string {
    if auth.Read? then "grant" else "write_grant"
  }

  function RevokeType(auth: Authority): string {
    if auth.Read? then "revoke" else "write_revoke"
  }

  datatype Grant = Grant(root: string, grantedAt: string, revoked: bool)

  predicate Grants(auth: Authority, ev: Event, root: string) {
    ev.eventType == GrantType(auth) && GetStr(ev.content, "canonical_root") == Some(root)
  }

  predicate Revokes(auth: Authority, ev: Event, root: string) {
    ev.eventType == RevokeType(auth) && GetStr(ev.content, "canonical_root") == Some(root)
  }

  /** What the first n events say about one root: the latest grant, revoked iff a revoke follows it. */
  function GrantOf(auth: Authority, events: seq<Event>, root: string, n: nat): Option<Grant>
    requires n <= |events|
  {
    if n == 0 then None
    else if Grants(auth, events[n - 1], root) then Some(Grant(root, events[n - 1].ts, false))
    else
      var before := GrantOf(auth, events, root, n - 1);
      if before.Some? && Revokes(auth, events[n - 1], root) then Some(before.value.(revoked := true)) else before
  }

  ghost predicate GrantsMatch(auth: Authority, events: seq<Event>, n: nat, byRoot: map<string, Grant>)
    requires n <= |events|
  {
    forall root: string :: GrantOf(auth, events, root, n) == if root in byRoot then Some(byRoot[root]) else None
  }

  method FoldGrants(auth: Authority, events: seq<Event>) returns (byRoot: map<string, Grant>)
    ensures GrantsMatch(auth, events, |events|, byRoot)
  {
    byRoot := map[];
    for n := 0 to |events|
      invariant GrantsMatch(auth, events, n, byRoot)
    {
      var ev := events[n];
      var root := GetStr(ev.content, "canonical_root");
      if root.Some? {
        if ev.eventType == GrantType(auth) {
          byRoot := byRoot[root.value := Grant(root.value, ev.ts, false)];
        } else if ev.eventType == RevokeType(auth) && root.value in byRoot {
          byRoot := byRoot[root.value := byRoot[root.value].(revoked := true)];
        }
      }
    }
  }

  /** Event i is the latest grant of `root` among the first n, and `g` records it and the revokes after it. */
  ghost predicate Records(auth: Authority, events: seq<Event>, root: string, n: nat, i: nat, g: Grant)
  {
    && i < n <= |events|
    && Grants(auth, events[i], root) && events[i].ts == g.grantedAt
    && (forall j :: i < j < n ==> !Grants(auth, events[j], root))
    && (g.revoked <==> exists j :: i < j < n && Revokes(auth, events[j], root))
  }

  /**
   A root is granted iff some event granted it; it carries the time of the latest grant and is revoked
   iff a revoke came after that grant.
   */
  lemma {:induction false} LatestGrantDecides(auth: Authority, events: seq<Event>, root: string, n: nat)
    requires n <= |events|
    ensures GrantOf(auth, events, root, n).None? <==> forall i :: 0 <= i < n ==> !Grants(auth, events[i], root)
    ensures GrantOf(auth, events, root, n).Some? ==>
              exists i: nat :: Records(auth, events, root, n, i, GrantOf(auth, events, root, n).value)
  {
    if n > 0 {
      LatestGrantDecides(auth, events, root, n - 1);
      var g, h := GrantOf(auth, events, root, n), GrantOf(auth, events, root, n - 1);
      if Grants(auth, events[n - 1], root) {
        var last: nat := n - 1;
        assert Records(auth, events, root, n, last, g.value);
      } else if h.Some? {
        var i: nat :| Records(auth, events, root, n - 1, i, h.value);
        assert Records(auth, events, root, n, i, g.value);
      }
    }
  }

  /** An event of this type about this root. */
  predicate About(ev: Event, eventType: string, root: string) {
    ev.eventType == eventType && GetStr(ev.content, "canonical_root") == Some(root)
  }

  /** Event i is the last of its type about the root. */
  ghost predicate LastAbout(events: seq<Event>, eventType: string, root: string, i: nat) {
    && i < |events| && About(events[i], eventType, root)
    && forall j :: i < j < |events| ==> !About(events[j], eventType, root)
  }

  /** The grant says of its root what the events of these two types say. */
  ghost predicate Tells(events: seq<Event>, granting: string, revoking: string, root: string, g: Grant) {
    g.root == root
    && exists i: nat :: LastAbout(events, granting, root, i) && g.grantedAt == events[i].ts
                        && (g.revoked <==> exists j :: i < j < |events| && About(events[j], revoking, root))
  }

  /** The same, in the words of the log: `grant` and `revoke` events decide reading, the `write_` ones writing. */
  lemma GrantTellsTheLog(auth: Authority, events: seq<Event>, root: string)
    ensures var granting, revoking := if auth.Read? then "grant" else "write_grant",
                                      if auth.Read? then "revoke" else "write_revoke";
            match GrantOf(auth, events, root, |events|)
            case None => forall i :: 0 <= i < |events| ==> !About(events[i], granting, root)
            case Some(g) => Tells(events, granting, revoking, root, g)
  {
    LatestGrantDecides(auth, events, root, |events|);
    GrantNamesRoot(auth, events, root, |events|);
    var granting, revoking := if auth.Read? then "grant" else "write_grant",
                              if auth.Read? then "revoke" else "write_revoke";
    SameEvents(auth, events, root, granting, revoking);
    var g := GrantOf(auth, events, root, |events|);
    if g.Some? {
      var i: nat :| Records(auth, events, root, |events|, i, g.value);
      assert LastAbout(events, granting, root, i);
    }
  }

  lemma SameEvents(auth: Authority, events: seq<Event>, root: string, granting: string, revoking: string)
    requires granting == (if auth.Read? then "grant" else "write_grant")
    requires revoking == (if auth.Read? then "revoke" else "write_revoke")
    ensures forall i :: 0 <= i < |events| ==> (Grants(auth, events[i], root) <==> About(events[i], granting, root))
    ensures forall i :: 0 <= i < |events| ==> (Revokes(auth, events[i], root) <==> About(events[i], revoking, root))
  {
  }

  lemma {:induction false} GrantNamesRoot(auth: Authority, events: seq<Event>, root: string, n: nat)
    requires n <= |events|
    ensures GrantOf(auth, events, root, n).Some? ==> GrantOf(auth, events, root, n).value.root == root
  {
    if n > 0 {
      GrantNamesRoot(auth, events, root, n - 1);
    }
  }

  /** Events of the other authority, wherever they stand in the log, never change a root's grant. */
  lemma {:induction false} AuthoritiesIndependent(auth: Authority, other: Authority, a: seq<Event>, ev: Event,
                                                  b: seq<Event>, root: string)
    requires auth != other && ev.eventType in {GrantType(other), RevokeType(other)}
    ensures GrantOf(auth, a + [ev] + b, root, |a + [ev] + b|) == GrantOf(auth, a + b, root, |a + b|)
    decreases |b|
  {
    var long, short := a + [ev] + b, a + b;
    if b == [] {
      assert short == a && long == a + [ev];
      assert GrantType(Read)[0] == 'g' && RevokeType(Read)[0] == 'r' && GrantType(Write)[0] == 'w'
        && RevokeType(Write)[0] == 'w';
      GrantPrefix(auth, a, [ev], root, |a|);
    } else {
      var c := b[..|b| - 1];
      AuthoritiesIndependent(auth, other, a, ev, c, root);
      assert long == (a + [ev] + c) + [b[|b| - 1]];
      assert short == (a + c) + [b[|b| - 1]];
      GrantPrefix(auth, a + [ev] + c, [b[|b| - 1]], root, |a + [ev] + c|);
      GrantPrefix(auth, a + c, [b[|b| - 1]], root, |a + c|);
    }
  }

  lemma {:induction false} GrantPrefix(auth: Authority, a: seq<Event>, b: seq<Event>, root: string, n: nat)
    requires n <= |a|
    ensures GrantOf(auth, a + b, root, n) == GrantOf(auth, a, root, n)
  {
    if n > 0 {
      GrantPrefix(auth, a, b, root, n - 1);
    }
  }

  // ---------------------------------------------------------------------------------------------
  // Mandates
  // ---------------------------------------------------------------------------------------------

  const MANDATE_GRANT := "mandate_grant"
  const MANDATE_REVOKE := "mandate_revoke"

  datatype Mandate = Mandate(grantId: string, target: string, sourceScope: string, recipe: string,
                             grantedAt: string, revoked: bool)

  function ParseMandate(ev: Event): Option<Mandate> {
    match (GetStr(ev.content, "target"), GetStr(ev.content, "source_scope"), GetStr(ev.content, "recipe"))
    case (Some(t), Some(s), Some(r)) =>
      if ev.eventType == MANDATE_GRANT then Some(Mandate(ev.id, t, s, r, ev.ts, false)) else None
    case _ => None
  }

  predicate RevokesMandate(ev: Event, id: string) {
    ev.eventType == MANDATE_REVOKE && GetStr(ev.content, "mandate_grant_id") == Some(id)
  }

  /** What the first n events say about one mandate id. */
  ghost predicate MandateMatches(events: seq<Event>, id: string, n: nat, m: Option<Mandate>)
    requires n <= |events|
  {
    match m
    case None => forall i :: 0 <= i < n && events[i].id == id ==> ParseMandate(events[i]).None?
    case Some(mandate) =>
      exists i :: && 0 <= i < n && events[i].id == id
                  && ParseMandate(events[i]) == Some(mandate.(revoked := false))
                  && (mandate.revoked <==> exists j :: i < j < n && RevokesMandate(events[j], id))
  }

  /**
   Each well-formed grant event yields one mandate under its own id, revoked iff some later event revokes
   that id. A revoke is sticky: once one has followed the grant, no later event clears the flag.
   */
  method FoldMandates(events: seq<Event>) returns (byId: map<string, Mandate>)
    requires UniqueIds(events)
    ensures forall id: string :: MandateMatches(events, id, |events|, if id in byId then Some(byId[id]) else None)
  {
    byId := map[];
    for n := 0 to |events|
      invariant forall id: string :: MandateMatches(events, id, n, if id in byId then Some(byId[id]) else None)
    {
      var ev := events[n];
      ghost var was := byId;
      var parsed := ParseMandate(ev);
      if parsed.Some? {
        byId := byId[ev.id := parsed.value];
      } else if ev.eventType == MANDATE_REVOKE {
        var id := GetStr(ev.content, "mandate_grant_id");
        if id.Some? && id.value in byId {
          byId := byId[id.value := byId[id.value].(revoked := true)];
        }
      }
      forall id: string
        ensures MandateMatches(events, id, n + 1, if id in byId then Some(byId[id]) else None)
      {
        MandateStep(events, id, n, if id in was then Some(was[id]) else None);
      }
    }
  }

  function NextMandate(ev: Event, id: string, m: Option<Mandate>): Option<Mandate> {
    if ev.id == id && ParseMandate(ev).Some? then ParseMandate(ev)
    else if m.Some? && RevokesMandate(ev, id) then Some(m.value.(revoked := true))
    else m
  }

  lemma MandateStep(events: seq<Event>, id: string, n: nat, m: Option<Mandate>)
    requires n < |events| && UniqueIds(events) && MandateMatches(events, id, n, m)
    ensures MandateMatches(events, id, n + 1, NextMandate(events[n], id, m))
  {
    var next := NextMandate(events[n], id, m);
    if next.Some? {
      if m.Some? {
        var i :| && 0 <= i < n && events[i].id == id
                 && ParseMandate(events[i]) == Some(m.value.(revoked := false))
                 && (m.value.revoked <==> exists j :: i < j < n && RevokesMandate(events[j], id));
        assert events[n].id != id;
        assert ParseMandate(events[i]) == Some(next.value.(revoked := false));
        assert RevokesMandate(events[n], id) ==> next.value.revoked;
      } else {
        assert events[n].id == id && ParseMandate(events[n]) == Some(next.value.(revoked := false));
      }
    }
  }

  /** A well-formed mandate grant. */
  predicate GrantsMandate(ev: Event, target: string, scope: string, recipe: string) {
    && ev.eventType == "mandate_grant" && GetStr(ev.content, "target") == Some(target)
    && GetStr(ev.content, "source_scope") == Some(scope) && GetStr(ev.content, "recipe") == Some(recipe)
  }

  /** What the fold returns for an id, in the words of the log. */
  lemma MandateTellsTheLog(events: seq<Event>, id: string, m: Option<Mandate>)
    requires MandateMatches(events, id, |events|, m)
    ensures m.None? ==> forall i, t, s, r :: 0 <= i < |events| && events[i].id == id ==>
            !GrantsMandate(events[i], t, s, r)
    ensures m.Some? ==>
              && m.value.grantId == id
              && exists i :: && 0 <= i < |events| && events[i].id == id && events[i].ts == m.value.grantedAt
                             && GrantsMandate(events[i], m.value.target, m.value.sourceScope, m.value.recipe)
                             && (m.value.revoked <==>
                                   exists j :: && i < j < |events| && events[j].eventType == "mandate_revoke"
                                               && GetStr(events[j].content, "mandate_grant_id") == Some(id))
  {
    forall i, t, s, r | 0 <= i < |events| && GrantsMandate(events[i], t, s, r)
      ensures ParseMandate(events[i]).Some?
    {
    }
    if m.Some? {
      var i :| && 0 <= i < |events| && events[i].id == id
               && ParseMandate(events[i]) == Some(m.value.(revoked := false))
               && (m.value.revoked <==> exists j :: i < j < |events| && RevokesMandate(events[j], id));
      assert GrantsMandate(events[i], m.value.target, m.value.sourceScope, m.value.recipe);
      assert forall j :: i < j < |events| ==>
        (RevokesMandate(events[j], id) <==>
         events[j].eventType == "mandate_revoke" && GetStr(events[j].content, "mandate_grant_id") == Some(id));
    }
  }
}
