/** Single-owner arbitration of the daemon: a lock file, a socket, and processes that come and go. */
module Lock {
  import opened Wrappers

  /** `Garbled` is a file that does not parse; a parsed holder may name any pid at all. */
  datatype LockFile = NoLock | Garbled | Names(pid: int)

  /** A socket path is answered only while the process that bound it lives and listens. */
  datatype Socket = NoSocket | StaleSocket | Bound(pid: int)

  /**
   * `Idle` covers unrelated processes and daemons that have not asked yet; `Stopped` has closed its
   * listener and still holds its guard; `Leaving` is past refusal, failure or release.
   */
  datatype Phase = Idle | Holding | Serving | Stopped | Leaving

  datatype World = World(lockFile: LockFile, socket: Socket, procs: map<int, Phase>)

  datatype WriteFault = WriteWorks | OpenFails | WriteCutShort | ChmodFails

  /**
   * Which operations of one acquisition fail. A listener may also fail to answer, and a lock file that is
   * there may fail to be read.
   */
  datatype Faults = Faults(connectFails: bool, readLockFails: bool, unlinkSocketFails: bool, unlinkLockFails: bool,
                           write: WriteFault)

  const NO_FAULTS := Faults(false, false, false, false, WriteWorks)

  datatype Outcome = Acquired | RefusedBySocket | RefusedByLivePid | IoError

  predicate PidAlive(pid: int, alive: set<int>) {
    pid > 0 && pid in alive
  }

  predicate HoldsGuard(p: Phase) {
    p == Holding || p == Serving || p == Stopped
  }

  predicate Holder(w: World, pid: int) {
    pid in w.procs && HoldsGuard(w.procs[pid])
  }

  // ---------------------------------------------------------------------------------------------
  // Acquisition
  // ---------------------------------------------------------------------------------------------

  /** Checks (1) and (2): which of them refuses, if any. A lock file that cannot be read refuses nothing. */
  function Probe(lockFile: LockFile, socket: Socket, alive: set<int>, f: Faults): Option<Outcome> {
    if socket.Bound? && !f.connectFails then Some(RefusedBySocket)
    else if !f.readLockFails && lockFile.Names? && PidAlive(lockFile.pid, alive) then Some(RefusedByLivePid)
    else None
  }

  /** Step (3): unlink the socket, unlink the lock file, write our own. */
  function Reclaim(lockFile: LockFile, socket: Socket, pid: int, f: Faults): (LockFile, Socket, Outcome) {
    if f.unlinkSocketFails && !socket.NoSocket? then (lockFile, socket, IoError)
    else if f.unlinkLockFails && !lockFile.NoLock? then (lockFile, NoSocket, IoError)
    else
      match f.write
      case OpenFails => (NoLock, NoSocket, IoError)
      case WriteCutShort => (Garbled, NoSocket, IoError)
      case ChmodFails => (Names(pid), NoSocket, IoError)
      case WriteWorks => (Names(pid), NoSocket, Acquired)
  }

  function AcquireFiles(lockFile: LockFile, socket: Socket, alive: set<int>, pid: int,
                        f: Faults): (LockFile, Socket, Outcome)
  {
    var refusal := Probe(lockFile, socket, alive, f);
    if refusal.Some? then (lockFile, socket, refusal.value) else Reclaim(lockFile, socket, pid, f)
  }

  /** The guard's drop: remove the lock file iff it still names us. */
  function ReleaseFile(lockFile: LockFile, pid: int, readFails: bool, unlinkFails: bool): LockFile {
    if !readFails && lockFile == Names(pid) && !unlinkFails then NoLock else lockFile
  }

  /** The two files, changed one operation at a time. */
  class Home {
    var lockFile: LockFile
    var socket: Socket

    constructor (lockFile: LockFile, socket: Socket)
      ensures this.lockFile == lockFile && this.socket == socket
    {
      this.lockFile, this.socket := lockFile, socket;
    }

    method RemoveSocketIfPresent(fails: bool) returns (ok: bool)
      modifies this`socket
      ensures ok == !(fails && !old(socket).NoSocket?)
      ensures socket == if ok then NoSocket else old(socket)
    {
      if fails && !socket.NoSocket? {
        return false;
      }
      socket := NoSocket;
      ok := true;
    }

    method RemoveLockIfPresent(fails: bool) returns (ok: bool)
      modifies this`lockFile
      ensures ok == !(fails && !old(lockFile).NoLock?)
      ensures lockFile == if ok then NoLock else old(lockFile)
    {
      if fails && !lockFile.NoLock? {
        return false;
      }
      lockFile := NoLock;
      ok := true;
    }

    method WriteLockFile(pid: int, fault: WriteFault) returns (ok: bool)
      modifies this`lockFile
      ensures ok == fault.WriteWorks?
      ensures lockFile == match fault
                          case OpenFails => old(lockFile)
                          case WriteCutShort => Garbled
                          case ChmodFails => Names(pid)
                          case WriteWorks => Names(pid)
    {
      if fault.OpenFails? {
        return false;
      }
      lockFile := Garbled;
      if fault.WriteCutShort? {
        return false;
      }
      lockFile := Names(pid);
      ok := !fault.ChmodFails?;
    }

    method AcquireOrRefuse(pid: int, alive: set<int>, f: Faults) returns (outcome: Outcome)
      modifies this
      ensures (lockFile, socket, outcome) == AcquireFiles(old(lockFile), old(socket), alive, pid, f)
      // A socket that answers refuses first, then a lock file that names a living process; refusing changes nothing.
      ensures outcome == RefusedBySocket <==> old(socket).Bound? && !f.connectFails
      ensures outcome == RefusedByLivePid <==>
              !(old(socket).Bound? && !f.connectFails)
              && !f.readLockFails && old(lockFile).Names? && old(lockFile).pid > 0 && old(lockFile).pid in alive
      ensures outcome == RefusedBySocket || outcome == RefusedByLivePid ==>
                lockFile == old(lockFile) && socket == old(socket)
      // Otherwise the socket goes, then the lock file, and then ours is written; the first failure stops it.
      ensures outcome == Acquired ==> lockFile == Names(pid) && socket == NoSocket
      ensures outcome == IoError ==>
                if f.unlinkSocketFails && !old(socket).NoSocket? then lockFile == old(lockFile) && socket == old(socket)
                else socket == NoSocket
                     && if f.unlinkLockFails && !old(lockFile).NoLock? then lockFile == old(lockFile)
                        else !f.write.WriteWorks?
                             && lockFile == if f.write.OpenFails? then NoLock
                                            else if f.write.WriteCutShort? then Garbled else Names(pid)
    {
      if socket.Bound? && !f.connectFails {
        return RefusedBySocket;
      }
      if !f.readLockFails {
        if lockFile.Names? {
          if PidAlive(lockFile.pid, alive) {
            return RefusedByLivePid;
          }
        }
      }
      var ok := RemoveSocketIfPresent(f.unlinkSocketFails);
      if !ok {
        return IoError;
      }
      ok := RemoveLockIfPresent(f.unlinkLockFails);
      if !ok {
        return IoError;
      }
      ok := WriteLockFile(pid, f.write);
      outcome := if ok then Acquired else IoError;
    }

    method DropGuard(pid: int, readFails: bool, unlinkFails: bool)
      modifies this`lockFile
      ensures lockFile == ReleaseFile(old(lockFile), pid, readFails, unlinkFails)
      ensures lockFile == if old(lockFile) == Names(pid) && !readFails && !unlinkFails then NoLock else old(lockFile)
    {
      if !readFails {
        if lockFile.Names? && lockFile.pid == pid {
          if !unlinkFails {
            lockFile := NoLock;
          }
        }
      }
    }
  }

  // ---------------------------------------------------------------------------------------------
  // All processes together
  // ---------------------------------------------------------------------------------------------

  datatype BindFault = BindWorks | BindFails | SocketChmodFails

  datatype Action =
    | Spawn(pid: int)
    | Acquire(pid: int, faults: Faults)
    | Bind(pid: int, fault: BindFault)
    | CloseListener(pid: int)
    | DropGuard(pid: int, readFails: bool, unlinkFails: bool)
    | Exit(pid: int)

  predicate Enabled(w: World, a: Action) {
    match a
    case Spawn(pid) => pid > 0 && pid !in w.procs
    case Acquire(pid, _) => pid in w.procs && w.procs[pid] == Idle
    case Bind(pid, _) => pid in w.procs && w.procs[pid] == Holding
    case CloseListener(pid) => pid in w.procs && w.procs[pid] == Serving
    case DropGuard(pid, _, _) => pid in w.procs && (w.procs[pid] == Holding || w.procs[pid] == Stopped)
    case Exit(pid) => pid in w.procs
  }

  function Without(procs: map<int, Phase>, pid: int): map<int, Phase> {
    map p | p in procs && p != pid :: procs[p]
  }

  /** A dead process answers no more: its socket file stays behind, unanswered. */
  function Die(w: World, pid: int): World {
    World(w.lockFile, if w.socket == Bound(pid) then StaleSocket else w.socket, Without(w.procs, pid))
  }

  function Step(w: World, a: Action): World
    requires Enabled(w, a)
  {
    match a
    case Spawn(pid) => w.(procs := w.procs[pid := Idle])
    case Acquire(pid, faults) =>
      var (lockFile, socket, outcome) := AcquireFiles(w.lockFile, w.socket, w.procs.Keys, pid, faults);
      World(lockFile, socket, w.procs[pid := if outcome == Acquired then Holding else Leaving])
    case Bind(pid, fault) =>
      if !w.socket.NoSocket? then Die(w, pid)
      else (match fault
            case BindWorks => w.(socket := Bound(pid), procs := w.procs[pid := Serving])
            case BindFails => Die(w, pid)
            case SocketChmodFails => Die(w.(socket := StaleSocket), pid))
    case CloseListener(pid) =>
      w.(socket := if w.socket == Bound(pid) then StaleSocket else w.socket, procs := w.procs[pid := Stopped])
    case DropGuard(pid, readFails, unlinkFails) =>
      w.(lockFile := ReleaseFile(w.lockFile, pid, readFails, unlinkFails), procs := w.procs[pid := Leaving])
    case Exit(pid) => Die(w, pid)
  }

  /** Whatever files earlier runs left behind, and no daemon yet. */
  ghost predicate Start(w: World) {
    !w.socket.Bound? && forall pid :: pid in w.procs ==> pid > 0 && w.procs[pid] == Idle
  }

  function Run(start: World, actions: seq<Action>): Option<World> {
    if actions == [] then Some(start)
    else
      var before := Run(start, actions[..|actions| - 1]);
      var a := actions[|actions| - 1];
      if before.Some? && Enabled(before.value, a) then Some(Step(before.value, a)) else None
  }

  ghost predicate Inv(w: World) {
    (forall pid :: pid in w.procs ==> pid > 0)
    && (forall pid :: pid in w.procs && HoldsGuard(w.procs[pid]) ==> w.lockFile == Names(pid))
    && (forall pid :: pid in w.procs && w.procs[pid] == Holding ==> w.socket == NoSocket)
    && (forall pid :: pid in w.procs && w.procs[pid] == Serving ==> w.socket == Bound(pid))
    && (w.socket.Bound? ==> w.socket.pid in w.procs && w.procs[w.socket.pid] == Serving)
  }

  /**
   * The acquisition reads the lock file, or nobody holds the lock, or the socket answers, or a failing unlink
   * stops the reclaim before it touches what the holder needs.
   */
  ghost predicate Harmless(w: World, f: Faults) {
    || !f.readLockFails
    || (forall q :: !Holder(w, q))
    || (w.socket.Bound? && !f.connectFails)
    || (f.unlinkSocketFails && !w.socket.NoSocket?)
    || (f.unlinkLockFails && !w.socket.Bound?)
  }

  lemma RefusedKeepsInv(w: World, pid: int, f: Faults)
    requires Inv(w) && Enabled(w, Acquire(pid, f)) && Probe(w.lockFile, w.socket, w.procs.Keys, f).Some?
    ensures Inv(Step(w, Acquire(pid, f))) && Harmless(w, f)
  {
  }

  /** A reclaim while somebody holds the lock: it is harmless only if it fails before the holder's files. */
  lemma ReclaimUnderHolder(w: World, pid: int, f: Faults, q: int)
    requires Inv(w) && Enabled(w, Acquire(pid, f)) && Probe(w.lockFile, w.socket, w.procs.Keys, f).None?
    requires Holder(w, q)
    ensures Inv(Step(w, Acquire(pid, f))) <==> Harmless(w, f)
  {
    var next := Step(w, Acquire(pid, f));
    assert w.lockFile == Names(q) && q in w.procs.Keys && f.readLockFails;
    assert q != pid && next.procs[q] == w.procs[q];
    assert w.socket.Bound? ==> w.socket == Bound(q);
    if f.unlinkSocketFails && !w.socket.NoSocket? {
      assert next == w.(procs := w.procs[pid := Leaving]);
    } else if f.unlinkLockFails {
      assert next == World(w.lockFile, NoSocket, w.procs[pid := Leaving]);
    } else {
      assert next.lockFile != Names(q) && HoldsGuard(next.procs[q]);
    }
  }

  lemma ReclaimWithoutHolder(w: World, pid: int, f: Faults)
    requires Inv(w) && Enabled(w, Acquire(pid, f)) && Probe(w.lockFile, w.socket, w.procs.Keys, f).None?
    requires forall q :: !Holder(w, q)
    ensures Inv(Step(w, Acquire(pid, f)))
  {
    assert forall q :: q in w.procs && HoldsGuard(w.procs[q]) ==> Holder(w, q);
  }

  /** Of all the faults of an acquisition only an unreadable lock file can break the invariant; here is when it does. */
  lemma AcquireKeepsInvIff(w: World, pid: int, f: Faults)
    requires Inv(w) && Enabled(w, Acquire(pid, f))
    ensures Inv(Step(w, Acquire(pid, f))) <==> Harmless(w, f)
  {
    if Probe(w.lockFile, w.socket, w.procs.Keys, f).Some? {
      RefusedKeepsInv(w, pid, f);
    } else {
      if q :| Holder(w, q) {
        ReclaimUnderHolder(w, pid, f, q);
      } else {
        ReclaimWithoutHolder(w, pid, f);
      }
    }
  }

  lemma BindKeepsInv(w: World, pid: int, fault: BindFault)
    requires Inv(w) && Enabled(w, Bind(pid, fault))
    ensures Inv(Step(w, Bind(pid, fault)))
  {
  }

  lemma StepKeepsInvIff(w: World, a: Action)
    requires Inv(w) && Enabled(w, a)
    ensures Inv(Step(w, a)) <==> (a.Acquire? ==> Harmless(w, a.faults))
  {
    match a
    case Acquire(pid, f) => AcquireKeepsInvIff(w, pid, f);
    case Bind(pid, fault) => BindKeepsInv(w, pid, fault);
    case Spawn(_) =>
    case CloseListener(_) =>
    case DropGuard(_, _, _) =>
    case Exit(_) =>
  }

  /** The invariant holds at every moment of the run. */
  ghost predicate InvThroughout(start: World, actions: seq<Action>)
    requires Run(start, actions).Some?
  {
    Inv(Run(start, actions).value) && (actions != [] ==> InvThroughout(start, actions[..|actions| - 1]))
  }

  /** No acquisition of the run failed to read the lock file to anyone's harm. */
  ghost predicate AllHarmless(start: World, actions: seq<Action>)
    requires Run(start, actions).Some?
  {
    actions != [] ==>
      var before, a := actions[..|actions| - 1], actions[|actions| - 1];
      (a.Acquire? ==> Harmless(Run(start, before).value, a.faults)) && AllHarmless(start, before)
  }

  /** Every run keeps the invariant at every moment exactly when all its acquisitions are harmless. */
  lemma {:induction false} RunsKeepInv(start: World, actions: seq<Action>)
    requires Start(start) && Run(start, actions).Some?
    ensures InvThroughout(start, actions) <==> AllHarmless(start, actions)
  {
    if actions != [] {
      var before := actions[..|actions| - 1];
      RunsKeepInv(start, before);
      if InvThroughout(start, before) {
        InvNow(start, before);
        StepKeepsInvIff(Run(start, before).value, actions[|actions| - 1]);
      }
    }
  }

  lemma InvNow(start: World, actions: seq<Action>)
    requires Run(start, actions).Some? && InvThroughout(start, actions)
    ensures Inv(Run(start, actions).value)
  {
  }

  lemma HarmlessRunKeepsInv(start: World, actions: seq<Action>)
    requires Start(start) && Run(start, actions).Some? && AllHarmless(start, actions)
    ensures Inv(Run(start, actions).value)
  {
    RunsKeepInv(start, actions);
    InvNow(start, actions);
  }

  /** In particular every run whose acquisitions can read the lock file, whatever else fails. */
  lemma {:induction false} ReadableIsHarmless(start: World, actions: seq<Action>)
    requires Run(start, actions).Some? && forall a :: a in actions && a.Acquire? ==> !a.faults.readLockFails
    ensures AllHarmless(start, actions)
  {
    if actions != [] {
      assert actions[|actions| - 1] in actions;
      ReadableIsHarmless(start, actions[..|actions| - 1]);
    }
  }

  /** At every moment of such a run, at most one process holds the lock, and the lock file names it. */
  lemma SingleOwner(start: World, actions: seq<Action>, p: int, q: int)
    requires Start(start) && Run(start, actions).Some? && AllHarmless(start, actions)
    requires Holder(Run(start, actions).value, p) && Holder(Run(start, actions).value, q)
    ensures p == q && Run(start, actions).value.lockFile == Names(p)
  {
    HarmlessRunKeepsInv(start, actions);
  }

  /** An acquisition that can neither read the lock file nor is stopped by a failing unlink makes a second holder. */
  lemma UnreadableLockSharesOwnership(start: World, p: int, q: int, f: Faults) returns (run: seq<Action>)
    requires start == World(NoLock, NoSocket, map[p := Idle, q := Idle]) && p > 0 && q > 0 && p != q
    requires f == NO_FAULTS.(readLockFails := true)
    ensures Run(start, run).Some? && Holder(Run(start, run).value, p) && Holder(Run(start, run).value, q)
  {
    run := [];
    RunSnoc(start, run, Acquire(p, NO_FAULTS));
    run := run + [Acquire(p, NO_FAULTS)];
    assert Run(start, run).value == World(Names(p), NoSocket, map[p := Holding, q := Idle]);
    RunSnoc(start, run, Acquire(q, f));
    run := run + [Acquire(q, f)];
    assert Run(start, run).value == World(Names(q), NoSocket, map[p := Holding, q := Holding]);
  }

  function Actor(a: Action): int {
    a.pid
  }

  /**
   * No process disturbs another's: while `p` holds the lock, only `p` changes the lock file or the socket, but
   * for a socket nobody serves any more, which an acquisition that cannot read the lock file may clear away.
   */
  lemma OwnersUndisturbed(start: World, actions: seq<Action>, a: Action, p: int)
    requires Start(start) && Run(start, actions).Some? && AllHarmless(start, actions)
    requires var w := Run(start, actions).value;
             Enabled(w, a) && Holder(w, p) && Actor(a) != p && (a.Acquire? ==> Harmless(w, a.faults))
    ensures var w := Run(start, actions).value;
            Step(w, a).lockFile == w.lockFile && Holder(Step(w, a), p)
            && (Step(w, a).socket == w.socket || (w.socket == StaleSocket && a.Acquire? && a.faults.readLockFails))
  {
    HarmlessRunKeepsInv(start, actions);
  }

  /** The bind of a process that acquired never finds the path taken. */
  lemma BindNeverFindsItTaken(start: World, actions: seq<Action>, p: int)
    requires Start(start) && Run(start, actions).Some? && AllHarmless(start, actions)
    requires Enabled(Run(start, actions).value, Bind(p, BindWorks))
    ensures Run(start, actions).value.socket == NoSocket
  {
    HarmlessRunKeepsInv(start, actions);
  }

  /** Reclaim stale, refuse live: a fault-free acquisition succeeds exactly when no live pid is named. */
  lemma AcquiresIffStale(start: World, actions: seq<Action>, pid: int)
    requires Start(start) && Run(start, actions).Some? && AllHarmless(start, actions)
    requires Enabled(Run(start, actions).value, Acquire(pid, NO_FAULTS))
    ensures var w := Run(start, actions).value;
            Holder(Step(w, Acquire(pid, NO_FAULTS)), pid)
            <==> !(w.lockFile.Names? && w.lockFile.pid in w.procs)
  {
    HarmlessRunKeepsInv(start, actions);
  }

  /** One more action at the end of a run. */
  lemma RunSnoc(start: World, actions: seq<Action>, a: Action)
    requires Run(start, actions).Some? && Enabled(Run(start, actions).value, a)
    ensures Run(start, actions + [a]) == Some(Step(Run(start, actions).value, a))
  {
    assert (actions + [a])[..|actions|] == actions;
  }

  /**
   * A recycled pid refuses an acquisition nobody contests: the advisory probe errs on the safe side. Here
   * the owner dies and an unrelated process is given its pid.
   */
  lemma RecycledPidRefuses(start: World, owner: int, other: int) returns (run: seq<Action>)
    requires start == World(NoLock, NoSocket, map[owner := Idle, other := Idle])
    requires owner > 0 && other > 0 && owner != other
    ensures Run(start, run).Some?
    ensures forall p :: !Holder(Run(start, run).value, p)
    ensures other in Run(start, run).value.procs && Run(start, run).value.procs[other] == Leaving
  {
    run := [];
    RunSnoc(start, run, Acquire(owner, NO_FAULTS));
    run := run + [Acquire(owner, NO_FAULTS)];
    assert Run(start, run).value == World(Names(owner), NoSocket, map[owner := Holding, other := Idle]);
    RunSnoc(start, run, Exit(owner));
    run := run + [Exit(owner)];
    assert Run(start, run).value == World(Names(owner), NoSocket, map[other := Idle]);
    RunSnoc(start, run, Spawn(owner));
    run := run + [Spawn(owner)];
    assert Run(start, run).value == World(Names(owner), NoSocket, map[other := Idle, owner := Idle]);
    RunSnoc(start, run, Acquire(other, NO_FAULTS));
    run := run + [Acquire(other, NO_FAULTS)];
    assert Run(start, run).value == World(Names(owner), NoSocket, map[other := Leaving, owner := Idle]);
  }

  // ---------------------------------------------------------------------------------------------
  // What the call's atomicity is worth
  // ---------------------------------------------------------------------------------------------

  /** The second half of an acquisition, run on whatever the world has become since its probe. */
  function LateReclaim(w: World, pid: int): World {
    var (lockFile, socket, _) := Reclaim(w.lockFile, w.socket, pid, NO_FAULTS);
    World(lockFile, socket, w.procs[pid := Holding])
  }

  /**
   * Acting on an old probe is safe exactly when nobody holds the lock by then. The bind that follows
   * is no second line of defence, since the reclaim unlinks even a socket that is being served.
   */
  lemma LateReclaimSafeIff(w: World, pid: int)
    requires Inv(w) && pid in w.procs && w.procs[pid] == Idle
    ensures Inv(LateReclaim(w, pid)) <==> forall q :: q in w.procs ==> !HoldsGuard(w.procs[q])
  {
    var late := LateReclaim(w, pid);
    if q :| q in w.procs && HoldsGuard(w.procs[q]) {
      assert q in late.procs && late.procs[q] == w.procs[q];
      assert late.lockFile != Names(q);
    }
  }

  /** Two daemons probing before either reclaims: both end up bound and serving. */
  lemma InterleavedCallsShareOwnership()
    ensures var w0 := World(NoLock, NoSocket, map[1 := Idle, 2 := Idle]);
            Probe(w0.lockFile, w0.socket, w0.procs.Keys, NO_FAULTS).None?
            && var w1 := Step(LateReclaim(w0, 1), Bind(1, BindWorks));
               var w2 := LateReclaim(w1, 2);
               Enabled(w2, Bind(2, BindWorks))
               && Step(w2, Bind(2, BindWorks)).procs == map[1 := Serving, 2 := Serving]
  {
    var w0 := World(NoLock, NoSocket, map[1 := Idle, 2 := Idle]);
    var w1 := Step(LateReclaim(w0, 1), Bind(1, BindWorks));
    assert w1.procs == map[1 := Serving, 2 := Idle];
    var w2 := LateReclaim(w1, 2);
    assert w2.procs == map[1 := Serving, 2 := Holding];
  }
}
