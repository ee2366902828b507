/** Versioned configuration: an append-only history per kind, with apply, rollback and undo. */
module ConfigHistory {
  import opened Wrappers

  /**
   A kind of configuration object as far as the history cares: its normaliser, which may look at the whole
   object, and the two changes the operations make to an object, setting its id and archiving it.
   */
  datatype Kind<!D> = Kind(norm: D -> D, withId: (D, string) -> D, archive: D -> D)

  datatype Version<D> = Version(id: string, version: nat, updatedAt: int, data: D)

  datatype UndoToken = UndoToken(id: string, previousVersion: Option<nat>)

  type History<D> = seq<Version<D>>

  /** Reading the file normalises every record on the way in. */
  function Load<D>(k: Kind<D>, stored: History<D>): (h: History<D>)
    ensures |h| == |stored|
    ensures forall i :: 0 <= i < |h| ==> h[i] == stored[i].(data := k.norm(stored[i].data))
  {
    seq(|stored|, i requires 0 <= i < |stored| => stored[i].(data := k.norm(stored[i].data)))
  }

  /** The record an id maps to after the scan: the first of the highest version. */
  function LatestOf<D>(h: History<D>, id: string): Option<Version<D>> {
    if h == [] then None
    else
      var before := LatestOf(h[..|h| - 1], id);
      var r := h[|h| - 1];
      if r.id == id && (before.None? || r.version > before.value.version) then Some(r) else before
  }

  function FindVersion<D>(h: History<D>, id: string, version: nat): Option<Version<D>> {
    if h == [] then None
    else if h[0].id == id && h[0].version == version then Some(h[0])
    else FindVersion(h[1..], id, version)
  }

  function NextVersion<D>(previous: Option<Version<D>>): nat {
    if previous.Some? then previous.value.version + 1 else 1
  }

  function Apply<D>(k: Kind<D>, stored: History<D>, id: string, after: D, now: int): (History<D>, UndoToken) {
    var h := Load(k, stored);
    var previous := LatestOf(h, id);
    var record := Version(id, NextVersion(previous), now, k.norm(k.withId(after, id)));
    (h + [record], UndoToken(id, if previous.Some? then Some(previous.value.version) else None))
  }

  /** `None` is the error of a target version that does not exist; nothing is saved then. */
  function Rollback<D>(k: Kind<D>, stored: History<D>, id: string, version: nat, now: int): Option<History<D>> {
    var h := Load(k, stored);
    var previous := LatestOf(h, id);
    var target := FindVersion(h, id, version);
    if previous.None? || target.None? then None
    else Some(h + [Version(id, previous.value.version + 1, now, k.norm(target.value.data))])
  }

  /** `None` is the rollback's error; undoing a creation of an id without records quietly does nothing. */
  function Undo<D>(k: Kind<D>, stored: History<D>, token: UndoToken, now: int): Option<History<D>> {
    if token.previousVersion.Some? then Rollback(k, stored, token.id, token.previousVersion.value, now)
    else
      var latest := LatestOf(Load(k, stored), token.id);
      if latest.None? then Some(stored)
      else Some(Apply(k, stored, token.id, k.archive(latest.value.data), now).0)
  }

  // ---------------------------------------------------------------------------------------------
  // The store
  // ---------------------------------------------------------------------------------------------

  /** The map a scan builds: for each id the first record of the highest version. */
  method LatestById<D>(records: History<D>) returns (latest: map<string, Version<D>>)
    ensures forall id :: id in latest <==> LatestOf(records, id).Some?
    ensures forall id :: id in latest ==> LatestOf(records, id) == Some(latest[id])
  {
    latest := map[];
    for i := 0 to |records|
      invariant forall id :: id in latest <==> LatestOf(records[..i], id).Some?
      invariant forall id :: id in latest ==> LatestOf(records[..i], id) == Some(latest[id])
    {
      assert records[..i + 1][..i] == records[..i];
      var record := records[i];
      if record.id !in latest || record.version > latest[record.id].version {
        latest := latest[record.id := record];
      }
    }
    assert records[..|records|] == records;
  }

  /** One kind's file. */
  class Store<D(!new)> {
    var stored: History<D>
    const k: Kind<D>

    constructor (k: Kind<D>)
      ensures this.k == k && stored == []
    {
      this.k, this.stored := k, [];
    }

    method ApplyChange(id: string, after: D, now: int) returns (token: UndoToken)
      modifies this
      ensures (stored, token) == Apply(k, old(stored), id, after, now)
    {
      var history := Load(k, stored);
      var latest := LatestById(history);
      var next, previousVersion := 1, None;
      if id in latest {
        next, previousVersion := latest[id].version + 1, Some(latest[id].version);
      }
      stored := history + [Version(id, next, now, k.norm(k.withId(after, id)))];
      token := UndoToken(id, previousVersion);
    }

    method RollbackToVersion(id: string, version: nat, now: int) returns (ok: bool)
      modifies this
      ensures ok == Rollback(k, old(stored), id, version, now).Some?
      ensures stored == if ok then Rollback(k, old(stored), id, version, now).value else old(stored)
    {
      var history := Load(k, stored);
      var latest := LatestById(history);
      var target := FindVersion(history, id, version);
      if id !in latest || target.None? {
        return false;
      }
      stored := history + [Version(id, latest[id].version + 1, now, k.norm(target.value.data))];
      ok := true;
    }

    /** `ok` is false when the rollback throws. */
    method UndoChange(token: UndoToken, now: int) returns (ok: bool)
      modifies this
      ensures ok == Undo(k, old(stored), token, now).Some?
      ensures stored == if ok then Undo(k, old(stored), token, now).value else old(stored)
    {
      if token.previousVersion.Some? {
        ok := RollbackToVersion(token.id, token.previousVersion.value, now);
        return;
      }
      ok := true;
      var latest := LatestById(Load(k, stored));
      if token.id !in latest {
        return;
      }
      var _ := ApplyChange(token.id, k.archive(latest[token.id].data), now);
    }
  }

  // ---------------------------------------------------------------------------------------------
  // What one operation writes, record by record
  // ---------------------------------------------------------------------------------------------

  /** Record `i` is the id's first of the highest version. */
  ghost predicate IsLatest<D>(h: History<D>, id: string, i: nat) {
    && i < |h| && h[i].id == id
    && forall j :: 0 <= j < |h| && h[j].id == id ==>
      h[j].version <= h[i].version && (h[j].version == h[i].version ==> i <= j)
  }

  lemma {:induction false} LatestAt<D>(h: History<D>, id: string) returns (i: nat)
    ensures if LatestOf(h, id).Some? then IsLatest(h, id, i) && LatestOf(h, id).value == h[i]
            else forall j :: 0 <= j < |h| ==> h[j].id != id
  {
    i := 0;
    if h != [] {
      var n := |h| - 1;
      i := LatestAt(h[..n], id);
      if h[n].id == id && (LatestOf(h[..n], id).None? || h[n].version > h[i].version) {
        i := n;
      }
    }
  }

  /** What a file holds after one more record is written: all it held, normalised, and that record. */
  ghost predicate Written<D>(k: Kind<D>, stored: History<D>, written: History<D>) {
    && |written| == |stored| + 1
    && forall i :: 0 <= i < |stored| ==>
         && written[i].id == stored[i].id && written[i].version == stored[i].version
         && written[i].updatedAt == stored[i].updatedAt && written[i].data == k.norm(stored[i].data)
  }

  /**
   A change is written as one record with the id put in and normalised, at the time it is made, numbered one
   beyond the latest version of the id, or 1; the token names that latest version, or none.
   */
  lemma ApplyShows<D>(k: Kind<D>, stored: History<D>, id: string, after: D, now: int) returns (i: nat)
    ensures var (written, token) := Apply(k, stored, id, after, now);
            && Written(k, stored, written) && token.id == id
            && written[|stored|].id == id && written[|stored|].updatedAt == now
            && written[|stored|].data == k.norm(k.withId(after, id))
            && if forall j :: 0 <= j < |stored| ==> stored[j].id != id
               then written[|stored|].version == 1 && token.previousVersion == None
               else IsLatest(stored, id, i) && token.previousVersion == Some(stored[i].version)
                    && written[|stored|].version == stored[i].version + 1
  {
    var h := Load(k, stored);
    i := LatestAt(h, id);
    LoadedLatest(k, stored, id, i);
  }

  lemma LoadedLatest<D>(k: Kind<D>, stored: History<D>, id: string, i: nat)
    ensures IsLatest(Load(k, stored), id, i) <==> IsLatest(stored, id, i)
    ensures (forall j :: 0 <= j < |stored| ==> stored[j].id != id)
            <==> forall j :: 0 <= j < |stored| ==> Load(k, stored)[j].id != id
  {
    var h := Load(k, stored);
    forall j | 0 <= j < |h| ensures h[j].id == stored[j].id && h[j].version == stored[j].version {
      assert h[j] == stored[j].(data := k.norm(stored[j].data));
    }
  }

  /** Record `i` is the first of this version of the id. */
  ghost predicate IsFirst<D>(h: History<D>, id: string, version: nat, i: nat) {
    && i < |h| && h[i].id == id && h[i].version == version
    && forall j :: 0 <= j < i ==> h[j].id != id || h[j].version != version
  }

  lemma {:induction false} FoundAt<D>(h: History<D>, id: string, version: nat) returns (i: nat)
    ensures if FindVersion(h, id, version).Some?
            then IsFirst(h, id, version, i) && FindVersion(h, id, version).value == h[i]
            else forall j :: 0 <= j < |h| ==> h[j].id != id || h[j].version != version
  {
    i := 0;
    if h != [] && !(h[0].id == id && h[0].version == version) {
      i := FoundAt(h[1..], id, version);
      i := i + 1;
      assert forall j :: 0 < j < |h| ==> h[j] == h[1..][j - 1];
    }
  }

  /**
   A rollback fails exactly when the id has no record of that version. Otherwise it writes the data of the
   first such record, as read and normalised again, numbered one beyond the latest version.
   */
  lemma RollbackShows<D>(k: Kind<D>, stored: History<D>, id: string, version: nat, now: int)
    returns (i: nat, latest: nat)
    ensures var r := Rollback(k, stored, id, version, now);
            if forall j :: 0 <= j < |stored| ==> stored[j].id != id || stored[j].version != version then r == None
            else
              && r.Some? && Written(k, stored, r.value) && IsFirst(stored, id, version, i)
              && IsLatest(stored, id, latest)
              && r.value[|stored|].id == id && r.value[|stored|].updatedAt == now
              && r.value[|stored|].version == stored[latest].version + 1
              && r.value[|stored|].data == k.norm(k.norm(stored[i].data))
  {
    var h := Load(k, stored);
    i := FoundAt(h, id, version);
    latest := LatestAt(h, id);
    LoadedLatest(k, stored, id, latest);
    assert forall j :: 0 <= j < |h| ==> h[j] == stored[j].(data := k.norm(stored[j].data));
  }

  /**
   Undoing a creation never fails: it writes the archived form of what is current, one version on, or leaves
   a file without records of the id alone. Undoing any other change fails exactly when that version is gone.
   */
  lemma UndoShows<D>(k: Kind<D>, stored: History<D>, token: UndoToken, now: int) returns (i: nat, latest: nat)
    ensures var r := Undo(k, stored, token, now);
            match token.previousVersion
            case None =>
              r.Some? && if forall j :: 0 <= j < |stored| ==> stored[j].id != token.id then r.value == stored
              else
                && Written(k, stored, r.value) && IsLatest(stored, token.id, latest)
                && r.value[|stored|].id == token.id && r.value[|stored|].version == stored[latest].version + 1
                && r.value[|stored|].data == k.norm(k.withId(k.archive(k.norm(stored[latest].data)), token.id))
            case Some(version) =>
              (r.None? <==> forall j :: 0 <= j < |stored| ==> stored[j].id != token.id || stored[j].version != version)
              && (r.Some? ==> Written(k, stored, r.value) && IsFirst(stored, token.id, version, i)
                              && r.value[|stored|].id == token.id
                              && r.value[|stored|].data == k.norm(k.norm(stored[i].data)))
  {
    match token.previousVersion {
      case Some(version) =>
        i, latest := RollbackShows(k, stored, token.id, version, now);
      case None =>
        i := 0;
        latest := LatestOfLoaded(k, stored, token.id);
        if LatestOf(Load(k, stored), token.id).Some? {
          var after := k.archive(LatestOf(Load(k, stored), token.id).value.data);
          var at := ApplyShows(k, stored, token.id, after, now);
          assert IsLatest(stored, token.id, at);
        }
    }
  }

  lemma LatestOfLoaded<D>(k: Kind<D>, stored: History<D>, id: string) returns (i: nat)
    ensures var latest := LatestOf(Load(k, stored), id);
            if latest.Some? then IsLatest(stored, id, i) && latest.value.data == k.norm(stored[i].data)
            else forall j :: 0 <= j < |stored| ==> stored[j].id != id
  {
    i := LatestAt(Load(k, stored), id);
    LoadedLatest(k, stored, id, i);
  }

  // ---------------------------------------------------------------------------------------------
  // Runs
  // ---------------------------------------------------------------------------------------------

  datatype Op<D> =
    | ApplyOp(id: string, after: D, now: int)
    | RollbackOp(id: string, version: nat, now: int)
    | UndoOp(token: UndoToken, now: int)

  /** An operation that fails saves nothing. */
  function Step<D>(k: Kind<D>, stored: History<D>, op: Op<D>): History<D> {
    match op
    case ApplyOp(id, after, now) => Apply(k, stored, id, after, now).0
    case RollbackOp(id, version, now) => Saved(stored, Rollback(k, stored, id, version, now))
    case UndoOp(token, now) => Saved(stored, Undo(k, stored, token, now))
  }

  function Saved<D>(stored: History<D>, result: Option<History<D>>): History<D> {
    if result.Some? then result.value else stored
  }

  function Run<D>(k: Kind<D>, stored: History<D>, ops: seq<Op<D>>): History<D>
    decreases |ops|
  {
    if ops == [] then stored else Run(k, Step(k, stored, ops[0]), ops[1..])
  }

  function Count<D>(h: History<D>, id: string): nat {
    if h == [] then 0 else Count(h[..|h| - 1], id) + if h[|h| - 1].id == id then 1 else 0
  }

  /** The versions of each id are 1, 2, 3, ... in the order they were written. */
  ghost predicate Numbered<D>(h: History<D>) {
    forall i :: 0 <= i < |h| ==> h[i].version == 1 + Count(h[..i], h[i].id)
  }

  ghost predicate Idempotent<D(!new)>(k: Kind<D>) {
    forall d :: k.norm(k.norm(d)) == k.norm(d)
  }

  /** Nothing stored changes by being read back. */
  ghost predicate Normal<D>(k: Kind<D>, h: History<D>) {
    forall i :: 0 <= i < |h| ==> k.norm(h[i].data) == h[i].data
  }

  lemma LoadIsIdentity<D>(k: Kind<D>, h: History<D>)
    requires Normal(k, h)
    ensures Load(k, h) == h
  {
  }

  lemma {:induction false} LatestIsLast<D>(h: History<D>, id: string)
    requires Numbered(h)
    ensures LatestOf(h, id).Some? <==> Count(h, id) > 0
    ensures LatestOf(h, id).Some? ==> LatestOf(h, id).value.version == Count(h, id)
    ensures LatestOf(h, id).Some? ==> LatestOf(h, id).value in h && LatestOf(h, id).value.id == id
  {
    LatestIsStored(h, id);
    if h != [] {
      NumberedPrefix(h, |h| - 1);
      LatestIsLast(h[..|h| - 1], id);
    }
  }

  lemma {:induction false} LatestIsStored<D>(h: History<D>, id: string)
    ensures LatestOf(h, id).Some? ==> LatestOf(h, id).value in h && LatestOf(h, id).value.id == id
  {
    if h != [] {
      LatestIsStored(h[..|h| - 1], id);
    }
  }

  lemma NumberedPrefix<D>(h: History<D>, n: nat)
    requires Numbered(h) && n <= |h|
    ensures Numbered(h[..n])
  {
    forall i | 0 <= i < n ensures h[..n][i].version == 1 + Count(h[..n][..i], h[..n][i].id) {
      assert h[..n][..i] == h[..i];
    }
  }

  lemma {:induction false} CountGrows<D>(h: History<D>, i: nat, id: string)
    requires i <= |h|
    ensures Count(h[..i], id) <= Count(h, id)
    decreases |h|
  {
    if i == |h| {
      assert h[..i] == h;
    } else {
      assert h[..|h| - 1][..i] == h[..i];
      CountGrows(h[..|h| - 1], i, id);
    }
  }

  /** An id has one record per version. */
  lemma VersionsDistinct<D>(h: History<D>, i: nat, j: nat)
    requires Numbered(h) && i < j < |h| && h[i].id == h[j].id
    ensures h[i].version < h[j].version
  {
    assert h[..i + 1][..i] == h[..i];
    assert h[..j][..i + 1] == h[..i + 1];
    CountGrows(h[..j], i + 1, h[i].id);
  }

  lemma {:induction false} FindIn<D>(h: History<D>, id: string, version: nat)
    ensures var f := FindVersion(h, id, version);
            f.Some? ==> f.value in h && f.value.id == id && f.value.version == version
    ensures FindVersion(h, id, version).None? ==> forall r :: r in h ==> r.id != id || r.version != version
  {
    if h != [] {
      FindIn(h[1..], id, version);
      assert h == [h[0]] + h[1..];
    }
  }

  lemma FindUnique<D>(h: History<D>, r: Version<D>)
    requires Numbered(h) && r in h
    ensures FindVersion(h, r.id, r.version) == Some(r)
  {
    FindIn(h, r.id, r.version);
    var f := FindVersion(h, r.id, r.version);
    var i :| 0 <= i < |h| && h[i] == r;
    var j :| 0 <= j < |h| && h[j] == f.value;
    if i < j {
      VersionsDistinct(h, i, j);
    } else if j < i {
      VersionsDistinct(h, j, i);
    }
  }

  /** Appending the next version of an id keeps the numbering. */
  lemma NumberedSnoc<D>(h: History<D>, r: Version<D>)
    requires Numbered(h) && r.version == NextVersion(LatestOf(h, r.id))
    ensures Numbered(h + [r])
  {
    LatestIsLast(h, r.id);
    var t := h + [r];
    forall i | 0 <= i < |t| ensures t[i].version == 1 + Count(t[..i], t[i].id) {
      if i < |h| {
        assert t[..i] == h[..i];
      } else {
        assert t[..i] == h;
      }
    }
  }

  /** What a step does to a well-kept history: nothing, or one more record for the id it names. */
  ghost predicate Extended<D>(k: Kind<D>, h: History<D>, t: History<D>) {
    t == h || (|t| == |h| + 1 && t[..|h|] == h && Normal(k, t)
               && t[|h|].version == NextVersion(LatestOf(h, t[|h|].id)))
  }

  lemma NormalSnoc<D(!new)>(k: Kind<D>, h: History<D>, r: Version<D>)
    requires Normal(k, h) && k.norm(r.data) == r.data
    ensures Normal(k, h + [r])
  {
  }

  lemma ApplyExtends<D(!new)>(k: Kind<D>, h: History<D>, id: string, after: D, now: int)
    requires Idempotent(k) && Normal(k, h)
    ensures Extended(k, h, Apply(k, h, id, after, now).0)
  {
    LoadIsIdentity(k, h);
    var r := Version(id, NextVersion(LatestOf(h, id)), now, k.norm(k.withId(after, id)));
    NormalSnoc(k, h, r);
    assert Apply(k, h, id, after, now).0 == h + [r];
    assert (h + [r])[..|h|] == h;
  }

  lemma RollbackExtends<D(!new)>(k: Kind<D>, h: History<D>, id: string, version: nat, now: int)
    requires Idempotent(k) && Normal(k, h) && Numbered(h)
    ensures var r := Rollback(k, h, id, version, now); r.Some? ==> Extended(k, h, r.value)
  {
    LoadIsIdentity(k, h);
    LatestIsLast(h, id);
    if Rollback(k, h, id, version, now).Some? {
      var target := FindVersion(h, id, version).value;
      var r := Version(id, NextVersion(LatestOf(h, id)), now, k.norm(target.data));
      NormalSnoc(k, h, r);
      assert (h + [r])[..|h|] == h;
    }
  }

  lemma StepExtends<D(!new)>(k: Kind<D>, h: History<D>, op: Op<D>)
    requires Idempotent(k) && Normal(k, h) && Numbered(h)
    ensures Extended(k, h, Step(k, h, op))
  {
    match op
    case ApplyOp(id, after, now) => ApplyExtends(k, h, id, after, now);
    case RollbackOp(id, version, now) => RollbackExtends(k, h, id, version, now);
    case UndoOp(token, now) =>
      if token.previousVersion.Some? {
        RollbackExtends(k, h, token.id, token.previousVersion.value, now);
      } else {
        var latest := LatestOf(Load(k, h), token.id);
        if latest.Some? {
          ApplyExtends(k, h, token.id, k.archive(latest.value.data), now);
        }
      }
  }

  lemma ExtendedKeeps<D(!new)>(k: Kind<D>, h: History<D>, t: History<D>)
    requires Normal(k, h) && Numbered(h) && Extended(k, h, t)
    ensures Normal(k, t) && Numbered(t) && h <= t
  {
    if t != h {
      assert t == h + [t[|h|]];
      NumberedSnoc(h, t[|h|]);
    }
  }

  /** Over every run the history only grows, the numbering stays exact, and reading changes nothing. */
  lemma {:induction false} RunsKeepHistory<D(!new)>(k: Kind<D>, h: History<D>, ops: seq<Op<D>>)
    requires Idempotent(k) && Normal(k, h) && Numbered(h)
    ensures var t := Run(k, h, ops); h <= t && Numbered(t) && Normal(k, t)
    decreases |ops|
  {
    if ops != [] {
      StepExtends(k, h, ops[0]);
      ExtendedKeeps(k, h, Step(k, h, ops[0]));
      RunsKeepHistory(k, Step(k, h, ops[0]), ops[1..]);
    }
  }

  /** From an empty file on, the latest record of an id is the one whose version is their number. */
  lemma LatestIsVersionN<D(!new)>(k: Kind<D>, ops: seq<Op<D>>, id: string)
    requires Idempotent(k)
    ensures var t := Run(k, [], ops);
            if Count(t, id) == 0 then LatestOf(t, id).None?
            else LatestOf(t, id).Some? && LatestOf(t, id).value.version == Count(t, id)
                 && FindVersion(t, id, Count(t, id)) == LatestOf(t, id)
  {
    RunsKeepHistory(k, [], ops);
    var t := Run(k, [], ops);
    LatestIsLast(t, id);
    if Count(t, id) > 0 {
      FindUnique(t, LatestOf(t, id).value);
    }
  }

  lemma LatestSnoc<D>(h: History<D>, r: Version<D>)
    requires r.version == NextVersion(LatestOf(h, r.id))
    ensures LatestOf(h + [r], r.id) == Some(r)
  {
    assert (h + [r])[..|h|] == h;
  }

  lemma PrefixMember<D>(h: History<D>, t: History<D>, r: Version<D>)
    requires h <= t && r in h
    ensures r in t
  {
    var i :| 0 <= i < |h| && h[i] == r;
    assert t[i] == r;
  }

  /**
   * Undo restores: whatever was applied, rolled back or undone since, undoing a change makes the data
   * that was current before that change current again, as a new version.
   */
  lemma UndoRestores<D(!new)>(k: Kind<D>, h: History<D>, id: string, after: D, now: int, ops: seq<Op<D>>, later: int)
    requires Idempotent(k) && Normal(k, h) && Numbered(h) && LatestOf(h, id).Some?
    ensures var (applied, token) := Apply(k, h, id, after, now);
            var t := Run(k, applied, ops);
            var undone := Undo(k, t, token, later);
            undone.Some? && t <= undone.value && LatestOf(undone.value, id).Some?
            && LatestOf(undone.value, id).value.data == LatestOf(h, id).value.data
            && LatestOf(undone.value, id).value.version == Count(t, id) + 1
  {
    var (applied, token) := Apply(k, h, id, after, now);
    var previous := LatestOf(h, id).value;
    ApplyExtends(k, h, id, after, now);
    ExtendedKeeps(k, h, applied);
    RunsKeepHistory(k, applied, ops);
    var t := Run(k, applied, ops);
    LoadIsIdentity(k, h);
    LatestIsLast(h, id);
    PrefixMember(h, t, previous);
    RestoresVersion(k, t, previous, later);
  }

  /** Rolling back to a stored record makes its data current. */
  lemma RestoresVersion<D>(k: Kind<D>, t: History<D>, r: Version<D>, now: int)
    requires Normal(k, t) && Numbered(t) && r in t
    ensures var done := Rollback(k, t, r.id, r.version, now);
            done.Some? && LatestOf(done.value, r.id).Some?
            && LatestOf(done.value, r.id).value.data == r.data
            && LatestOf(done.value, r.id).value.version == Count(t, r.id) + 1 && t <= done.value
  {
    LoadIsIdentity(k, t);
    FindUnique(t, r);
    LatestIsLast(t, r.id);
    CountPositive(t, r);
    var next := Version(r.id, Count(t, r.id) + 1, now, k.norm(r.data));
    LatestSnoc(t, next);
  }

  lemma CountPositive<D>(t: History<D>, r: Version<D>)
    requires r in t
    ensures Count(t, r.id) > 0
  {
    var i :| 0 <= i < |t| && t[i] == r;
    assert t[..i + 1][..i] == t[..i];
    CountGrows(t, i + 1, r.id);
  }

  /** Putting its own id into a stored object changes nothing. */
  ghost predicate Stamped<D>(k: Kind<D>, h: History<D>, id: string) {
    forall i :: 0 <= i < |h| && h[i].id == id ==> k.norm(k.withId(h[i].data, id)) == h[i].data
  }

  ghost predicate SettlesOn<D>(k: Kind<D>, d: D, id: string) {
    var n := k.norm(k.withId(d, id));
    && k.norm(k.withId(n, id)) == n
    && (n == d ==> k.norm(k.withId(k.archive(d), id)) == k.archive(d))
  }

  /** The normaliser settles an object that carries its id, and leaves the mark of an archived object alone. */
  ghost predicate Settles<D(!new)>(k: Kind<D>) {
    forall d, id :: SettlesOn(k, d, id)
  }

  lemma ApplyStamps<D(!new)>(k: Kind<D>, h: History<D>, id: string, after: D, now: int, of: string)
    requires Normal(k, h) && Settles(k) && Stamped(k, h, of)
    ensures Stamped(k, Apply(k, h, id, after, now).0, of)
  {
    LoadIsIdentity(k, h);
    assert SettlesOn(k, after, id);
  }

  lemma RollbackStamps<D(!new)>(k: Kind<D>, h: History<D>, id: string, version: nat, now: int, of: string)
    requires Normal(k, h) && Stamped(k, h, of)
    ensures var r := Rollback(k, h, id, version, now); r.Some? ==> Stamped(k, r.value, of)
  {
    LoadIsIdentity(k, h);
    FindIn(h, id, version);
  }

  lemma StepStamps<D(!new)>(k: Kind<D>, h: History<D>, op: Op<D>, of: string)
    requires Normal(k, h) && Settles(k) && Stamped(k, h, of)
    ensures Stamped(k, Step(k, h, op), of)
  {
    match op
    case ApplyOp(id, after, now) => ApplyStamps(k, h, id, after, now, of);
    case RollbackOp(id, version, now) => RollbackStamps(k, h, id, version, now, of);
    case UndoOp(token, now) =>
      if token.previousVersion.Some? {
        RollbackStamps(k, h, token.id, token.previousVersion.value, now, of);
      } else {
        var latest := LatestOf(Load(k, h), token.id);
        if latest.Some? {
          ApplyStamps(k, h, token.id, k.archive(latest.value.data), now, of);
        }
      }
  }

  lemma {:induction false} RunsStamp<D(!new)>(k: Kind<D>, h: History<D>, ops: seq<Op<D>>, of: string)
    requires Idempotent(k) && Normal(k, h) && Numbered(h) && Settles(k) && Stamped(k, h, of)
    ensures Stamped(k, Run(k, h, ops), of)
    decreases |ops|
  {
    if ops != [] {
      StepExtends(k, h, ops[0]);
      ExtendedKeeps(k, h, Step(k, h, ops[0]));
      StepStamps(k, h, ops[0], of);
      RunsStamp(k, Step(k, h, ops[0]), ops[1..], of);
    }
  }

  /** Undoing a creation archives what is current by then, and nothing else of it changes. */
  lemma UndoCreationArchives<D(!new)>(k: Kind<D>, h: History<D>, id: string, after: D, now: int,
                                      ops: seq<Op<D>>, later: int)
    requires Idempotent(k) && Settles(k) && Normal(k, h) && Numbered(h) && LatestOf(h, id).None?
    ensures var (applied, token) := Apply(k, h, id, after, now);
            var t := Run(k, applied, ops);
            var undone := Undo(k, t, token, later);
            LatestOf(t, id).Some? && undone.Some? && t <= undone.value && LatestOf(undone.value, id).Some?
            && LatestOf(undone.value, id).value.data == k.archive(LatestOf(t, id).value.data)
  {
    var (applied, token) := Apply(k, h, id, after, now);
    ApplyExtends(k, h, id, after, now);
    ExtendedKeeps(k, h, applied);
    RunsKeepHistory(k, applied, ops);
    LoadIsIdentity(k, h);
    NoneStored(h, id);
    ApplyStamps(k, h, id, after, now, id);
    RunsStamp(k, applied, ops, id);
    var t, created := Run(k, applied, ops), applied[|h|];
    assert created in applied && created.id == id;
    PrefixMember(applied, t, created);
    CountPositive(t, created);
    LatestIsLast(t, id);
    LoadIsIdentity(k, t);
    ArchiveOnly(k, t, id, later);
  }

  lemma {:induction false} NoneStored<D>(h: History<D>, id: string)
    requires LatestOf(h, id).None?
    ensures forall i :: 0 <= i < |h| ==> h[i].id != id
  {
    if h != [] {
      NoneStored(h[..|h| - 1], id);
    }
  }

  lemma ArchiveOnly<D(!new)>(k: Kind<D>, t: History<D>, id: string, now: int)
    requires Settles(k) && Normal(k, t) && Numbered(t) && Stamped(k, t, id) && LatestOf(t, id).Some?
    ensures var undone := Apply(k, t, id, k.archive(LatestOf(t, id).value.data), now).0;
            t <= undone && LatestOf(undone, id).Some?
            && LatestOf(undone, id).value.data == k.archive(LatestOf(t, id).value.data)
  {
    LoadIsIdentity(k, t);
    LatestIsLast(t, id);
    var latest := LatestOf(t, id).value;
    assert SettlesOn(k, latest.data, id);
    var r := Version(id, latest.version + 1, now, k.norm(k.withId(k.archive(latest.data), id)));
    LatestSnoc(t, r);
  }

  // ---------------------------------------------------------------------------------------------
  // Normalisers that settle at the second time
  // ---------------------------------------------------------------------------------------------

  /** Normalising twice settles an object, as it does for missions; once need not. */
  ghost predicate SettlesAtSecond<D(!new)>(k: Kind<D>) {
    forall d :: k.norm(k.norm(k.norm(d))) == k.norm(k.norm(d))
  }

  /** The kind as a reader sees it: what is written normalised is normalised once more when it is read. */
  function Twice<D>(k: Kind<D>): Kind<D> {
    Kind(d => k.norm(k.norm(d)), k.withId, k.archive)
  }

  lemma TwiceIdempotent<D(!new)>(k: Kind<D>)
    requires SettlesAtSecond(k)
    ensures Idempotent(Twice(k))
  {
    forall d ensures Twice(k).norm(Twice(k).norm(d)) == Twice(k).norm(d) {
      assert k.norm(k.norm(k.norm(d))) == k.norm(k.norm(d));
    }
  }

  /** Everything stored reads the same from the first time on. */
  ghost predicate Readable<D>(k: Kind<D>, h: History<D>) {
    forall i :: 0 <= i < |h| ==> k.norm(k.norm(h[i].data)) == k.norm(h[i].data)
  }

  /** Reading a file again, after an operation has written back what it read, gives the same. */
  lemma LoadSettled<D>(k: Kind<D>, stored: History<D>)
    requires Readable(k, stored)
    ensures var h := Load(k, stored); Normal(Twice(k), h) && Load(k, h) == h && Load(Twice(k), h) == h
  {
    var h := Load(k, stored);
    assert forall i :: 0 <= i < |h| ==> k.norm(h[i].data) == h[i].data;
  }

  lemma LoadSnoc<D>(k: Kind<D>, h: History<D>, r: Version<D>)
    requires Load(k, h) == h
    ensures Load(k, h + [r]) == h + [r.(data := k.norm(r.data))]
  {
    var t := h + [r];
    assert forall i :: 0 <= i < |h| ==> Load(k, t)[i] == Load(k, h)[i];
  }

  lemma ReadableSnoc<D(!new)>(k: Kind<D>, h: History<D>, r: Version<D>, d: D)
    requires SettlesAtSecond(k) && Load(k, h) == h && r.data == k.norm(d)
    ensures Readable(k, h + [r])
  {
    assert k.norm(k.norm(k.norm(d))) == k.norm(k.norm(d));
    assert forall i :: 0 <= i < |h| ==> Load(k, h)[i].data == k.norm(h[i].data);
  }

  lemma ApplyAsRead<D(!new)>(k: Kind<D>, stored: History<D>, id: string, after: D, now: int)
    requires SettlesAtSecond(k) && Readable(k, stored)
    ensures var (written, token) := Apply(k, stored, id, after, now);
            Readable(k, written) && (Load(k, written), token) == Apply(Twice(k), Load(k, stored), id, after, now)
  {
    var h := Load(k, stored);
    var d := k.withId(after, id);
    var r := Version(id, NextVersion(LatestOf(h, id)), now, k.norm(d));
    LoadSettled(k, stored);
    LoadSnoc(k, h, r);
    ReadableSnoc(k, h, r, d);
  }

  lemma RollbackAsRead<D(!new)>(k: Kind<D>, stored: History<D>, id: string, version: nat, now: int)
    requires SettlesAtSecond(k) && Readable(k, stored)
    ensures var read, r := Load(k, stored), Rollback(k, stored, id, version, now);
            r.Some? == Rollback(Twice(k), read, id, version, now).Some?
            && (r.Some? ==> Readable(k, r.value)
                            && Some(Load(k, r.value)) == Rollback(Twice(k), read, id, version, now))
  {
    var h := Load(k, stored);
    LoadSettled(k, stored);
    if Rollback(k, stored, id, version, now).Some? {
      var d := FindVersion(h, id, version).value.data;
      var r := Version(id, LatestOf(h, id).value.version + 1, now, k.norm(d));
      LoadSnoc(k, h, r);
      ReadableSnoc(k, h, r, d);
    }
  }

  lemma UndoAsRead<D(!new)>(k: Kind<D>, stored: History<D>, token: UndoToken, now: int)
    requires SettlesAtSecond(k) && Readable(k, stored)
    ensures var read, r := Load(k, stored), Undo(k, stored, token, now);
            r.Some? == Undo(Twice(k), read, token, now).Some?
            && (r.Some? ==> Readable(k, r.value) && Some(Load(k, r.value)) == Undo(Twice(k), read, token, now))
  {
    LoadSettled(k, stored);
    if token.previousVersion.Some? {
      RollbackAsRead(k, stored, token.id, token.previousVersion.value, now);
    } else if LatestOf(Load(k, stored), token.id).Some? {
      ApplyAsRead(k, stored, token.id, k.archive(LatestOf(Load(k, stored), token.id).value.data), now);
    }
  }

  lemma StepAsRead<D(!new)>(k: Kind<D>, stored: History<D>, op: Op<D>)
    requires SettlesAtSecond(k) && Readable(k, stored)
    ensures Readable(k, Step(k, stored, op))
    ensures Load(k, Step(k, stored, op)) == Step(Twice(k), Load(k, stored), op)
  {
    match op
    case ApplyOp(id, after, now) => ApplyAsRead(k, stored, id, after, now);
    case RollbackOp(id, version, now) => RollbackAsRead(k, stored, id, version, now);
    case UndoOp(token, now) => UndoAsRead(k, stored, token, now);
  }

  /** A reader sees every run as the run of an idempotent kind. */
  lemma {:induction false} RunsAsRead<D(!new)>(k: Kind<D>, stored: History<D>, ops: seq<Op<D>>)
    requires SettlesAtSecond(k) && Readable(k, stored)
    ensures Readable(k, Run(k, stored, ops))
    ensures Load(k, Run(k, stored, ops)) == Run(Twice(k), Load(k, stored), ops)
    decreases |ops|
  {
    if ops != [] {
      StepAsRead(k, stored, ops[0]);
      RunsAsRead(k, Step(k, stored, ops[0]), ops[1..]);
    }
  }

  lemma {:induction false} LoadCounts<D>(k: Kind<D>, h: History<D>, id: string)
    ensures Count(Load(k, h), id) == Count(h, id)
  {
    if h != [] {
      assert Load(k, h)[..|h| - 1] == Load(k, h[..|h| - 1]);
      LoadCounts(k, h[..|h| - 1], id);
    }
  }

  lemma LoadNumbered<D>(k: Kind<D>, h: History<D>)
    requires Numbered(h)
    ensures Numbered(Load(k, h))
  {
    var t := Load(k, h);
    forall i | 0 <= i < |t| ensures t[i].version == 1 + Count(t[..i], t[i].id) {
      assert t[..i] == Load(k, h[..i]);
      LoadCounts(k, h[..i], h[i].id);
    }
  }

  /** As read, the history only grows, its numbering stays exact, and it holds normalised objects. */
  lemma RunsKeepHistoryAsRead<D(!new)>(k: Kind<D>, stored: History<D>, ops: seq<Op<D>>)
    requires SettlesAtSecond(k) && Readable(k, stored) && Numbered(stored)
    ensures var t := Load(k, Run(k, stored, ops)); Load(k, stored) <= t && Numbered(t) && Load(k, t) == t
  {
    LoadSettled(k, stored);
    LoadNumbered(k, stored);
    TwiceIdempotent(k);
    RunsAsRead(k, stored, ops);
    LoadSettled(k, Run(k, stored, ops));
    RunsKeepHistory(Twice(k), Load(k, stored), ops);
  }

  /**
   * Undo restores for such kinds too: what a reader saw as current before the change, a reader sees as
   * current again, as a new version, whatever was applied, rolled back or undone since.
   */
  lemma UndoRestoresAsRead<D(!new)>(k: Kind<D>, stored: History<D>, id: string, after: D, now: int,
                                    ops: seq<Op<D>>, later: int)
    requires SettlesAtSecond(k) && Readable(k, stored) && Numbered(stored) && LatestOf(Load(k, stored), id).Some?
    ensures var (applied, token) := Apply(k, stored, id, after, now);
            var t := Run(k, applied, ops);
            var undone := Undo(k, t, token, later);
            undone.Some? && Load(k, t) <= Load(k, undone.value) && LatestOf(Load(k, undone.value), id).Some?
            && LatestOf(Load(k, undone.value), id).value.data == LatestOf(Load(k, stored), id).value.data
            && LatestOf(Load(k, undone.value), id).value.version == Count(Load(k, t), id) + 1
  {
    var (applied, token) := Apply(k, stored, id, after, now);
    LoadSettled(k, stored);
    LoadNumbered(k, stored);
    TwiceIdempotent(k);
    ApplyAsRead(k, stored, id, after, now);
    RunsAsRead(k, applied, ops);
    UndoAsRead(k, Run(k, applied, ops), token, later);
    UndoRestores(Twice(k), Load(k, stored), id, after, now, ops, later);
  }
}
