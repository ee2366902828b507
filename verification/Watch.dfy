/** The file watcher: a coalescing debouncer, and the two threads that feed and drive it. */
module Watch {
  import opened Wrappers

  const CHANNEL_BOUND: nat := 256
  const DEBOUNCE_MS: nat := 2000

  // ---------------------------------------------------------------------------------------------
  // The coalescer
  // ---------------------------------------------------------------------------------------------

  /** The state of a coalescer: channel bound and depth, flags, and the stamp of the last event. */
  datatype Co = Co(bound: nat, queued: nat, pending: bool, rescan: bool, lastEventMs: nat)

  function Fresh(bound: nat): Co {
    Co(bound, 0, false, false, 0)
  }

  function Offer(c: Co, nowMs: nat): Co {
    Co(c.bound, if c.queued < c.bound then c.queued + 1 else c.queued, true, c.rescan || c.bound <= c.queued, nowMs)
  }

  /** Saturating, so that a clock behind the stamp counts as no time passed. */
  predicate DebounceDue(nowMs: nat, lastMs: nat, windowMs: nat) {
    (if nowMs < lastMs then 0 else nowMs - lastMs) >= windowMs
  }

  /** `is_drive_due`: work is pending and the window has passed since the last event. */
  predicate DriveDue(c: Co, nowMs: nat, windowMs: nat) {
    c.pending && DebounceDue(nowMs, c.lastEventMs, windowMs)
  }

  function Driven(c: Co): Co {
    c.(queued := 0, pending := false, rescan := false)
  }

  function OfferAll(c: Co, stamps: seq<nat>): Co {
    if stamps == [] then c else Offer(OfferAll(c, stamps[..|stamps| - 1]), stamps[|stamps| - 1])
  }

  /** A burst of any length: buffered up to the bound, flagged for rescan exactly when it overflowed. */
  lemma {:induction false} BurstCoalesces(bound: nat, stamps: seq<nat>)
    requires stamps != []
    ensures OfferAll(Fresh(bound), stamps)
         == Co(bound, if |stamps| < bound then |stamps| else bound, true, bound < |stamps|, stamps[|stamps| - 1])
  {
    if |stamps| > 1 {
      BurstCoalesces(bound, stamps[..|stamps| - 1]);
    }
  }

  class Coalescer {
    const bound: nat
    var buffered: nat
    var pendingFlag: bool
    var rescan: bool
    var lastEventMs: nat

    ghost predicate Valid()
      reads this
    {
      buffered <= bound && (rescan ==> pendingFlag)
    }

    ghost function State(): Co
      reads this
    {
      Co(bound, buffered, pendingFlag, rescan, lastEventMs)
    }

    constructor (bound: nat)
      ensures Valid() && State() == Fresh(bound)
    {
      this.bound := bound;
      buffered, pendingFlag, rescan, lastEventMs := 0, false, false, 0;
    }

    /** `try_send` of a token: false when the bounded channel is full. */
    method TrySend() returns (sent: bool)
      requires Valid()
      modifies this`buffered
      ensures Valid() && sent == (old(buffered) < bound)
      ensures buffered == if sent then old(buffered) + 1 else old(buffered)
    {
      sent := buffered < bound;
      if sent {
        buffered := buffered + 1;
      }
    }

    method TryRecv() returns (received: bool)
      requires Valid()
      modifies this`buffered
      ensures Valid() && received == (old(buffered) > 0)
      ensures buffered == if received then old(buffered) - 1 else 0
    {
      received := buffered > 0;
      if received {
        buffered := buffered - 1;
      }
    }

    method OfferAt(nowMs: nat)
      requires Valid()
      modifies this
      ensures Valid() && State() == Offer(old(State()), nowMs)
      ensures pendingFlag && lastEventMs == nowMs && rescan == (old(rescan) || old(buffered) == bound)
      ensures buffered == if old(buffered) == bound then bound else old(buffered) + 1
    {
      pendingFlag := true;
      lastEventMs := nowMs;
      var sent := TrySend();
      if !sent {
        rescan := true;
      }
    }

    /** Drains every buffered token, then clears both flags. */
    method MarkDriven()
      requires Valid()
      modifies this
      ensures Valid() && State() == Driven(old(State()))
      ensures buffered == 0 && !pendingFlag && !rescan && lastEventMs == old(lastEventMs)
    {
      var more := true;
      while more
        invariant Valid() && pendingFlag == old(pendingFlag) && rescan == old(rescan)
        invariant lastEventMs == old(lastEventMs) && (!more ==> buffered == 0)
        decreases buffered, more
      {
        more := TryRecv();
      }
      pendingFlag := false;
      rescan := false;
    }

    /** Counts the tokens by taking them: a second call reports none. */
    method Queued() returns (n: nat)
      requires Valid()
      modifies this
      ensures Valid() && n == old(State()).queued && State() == old(State()).(queued := 0)
    {
      n := 0;
      var more := TryRecv();
      while more
        invariant Valid() && pendingFlag == old(pendingFlag) && rescan == old(rescan)
        invariant lastEventMs == old(lastEventMs)
        invariant n + buffered + (if more then 1 else 0) == old(buffered) && (!more ==> buffered == 0)
        decreases buffered, more
      {
        n := n + 1;
        more := TryRecv();
      }
    }
  }

  // ---------------------------------------------------------------------------------------------
  // The watch loop and the notify callback
  // ---------------------------------------------------------------------------------------------

  /** Where the loop thread is. `Took` is between receiving a token and offering it. */
  datatype Pc = Draining | Took | Checking | Driving | Waiting(sinceMs: nat)

  /**
   * Both threads. `calling` is the callback between deciding to keep an event and sending its token.
   * The last fields are history: `owed` says that some kept event has seen no drive attempt start after it.
   */
  datatype State = State(
    clock: nat, raw: nat, calling: bool, co: Co, pc: Pc,
    owed: bool, sent: nat, dropped: nat, offered: nat, drives: seq<nat>)

  datatype Action =
    | Tick(ms: nat)
    | Notify(keep: bool)
    | Send
    | TryRecv
    | OfferTaken
    | Check
    | DriveEnds(ok: bool)
    | Recv
    | RecvTimeout

  function Init(clock: nat): State {
    State(clock, 0, false, Fresh(CHANNEL_BOUND), Draining, false, 0, 0, 0, [])
  }

  predicate Enabled(s: State, a: Action) {
    match a
    case Tick(_) => true
    case Notify(_) => !s.calling
    case Send => s.calling
    case TryRecv => s.pc == Draining
    case OfferTaken => s.pc == Took
    case Check => s.pc == Checking
    case DriveEnds(_) => s.pc == Driving
    case Recv => s.pc.Waiting? && s.raw > 0
    case RecvTimeout => s.pc.Waiting? && s.raw == 0 && s.clock >= s.pc.sinceMs + DEBOUNCE_MS
  }

  function Step(s: State, a: Action): State
    requires Enabled(s, a)
  {
    match a
    case Tick(ms) => s.(clock := s.clock + ms)
    case Notify(keep) => if keep then s.(calling := true, owed := true) else s
    case Send =>
      if s.raw < CHANNEL_BOUND then s.(calling := false, sent := s.sent + 1, raw := s.raw + 1)
      else s.(calling := false, sent := s.sent + 1, dropped := s.dropped + 1)
    case TryRecv =>
      if s.raw > 0 then s.(raw := s.raw - 1, pc := Took) else s.(pc := Checking)
    case OfferTaken =>
      s.(co := Offer(s.co, s.clock), offered := s.offered + 1, pc := Draining)
    case Check =>
      if DriveDue(s.co, s.clock, DEBOUNCE_MS)
      then s.(pc := Driving, owed := false, drives := s.drives + [s.clock])
      else s.(pc := Waiting(s.clock))
    case DriveEnds(_) => s.(co := Driven(s.co), pc := Waiting(s.clock))
    case Recv => s.(raw := s.raw - 1, pc := Took)
    case RecvTimeout => s.(pc := Draining)
  }

  /** The state after a run, if every action of it was enabled. */
  function Run(clock: nat, actions: seq<Action>): Option<State> {
    if actions == [] then Some(Init(clock))
    else
      var before := Run(clock, actions[..|actions| - 1]);
      var a := actions[|actions| - 1];
      if before.Some? && Enabled(before.value, a) then Some(Step(before.value, a)) else None
  }

  /** An unanswered event is still going to wake the loop. */
  predicate Awake(s: State) {
    s.calling || s.raw > 0 || s.pc == Took || (s.co.pending && s.pc != Driving)
  }

  predicate Taken(s: State) {
    s.pc == Took
  }

  ghost predicate Spaced(drives: seq<nat>) {
    forall i :: 0 < i < |drives| ==> drives[i] >= drives[i - 1] + DEBOUNCE_MS
  }

  ghost predicate ClockInv(s: State) {
    s.co.lastEventMs <= s.clock
    && (s.pc.Waiting? ==> s.co.pending ==> s.co.lastEventMs <= s.pc.sinceMs)
    && (s.drives != [] ==> s.drives[|s.drives| - 1] <= s.clock)
    && (s.drives != [] && s.co.pending && s.pc != Driving ==> s.drives[|s.drives| - 1] <= s.co.lastEventMs)
    && (s.pc == Driving ==>
          s.drives != [] && s.co.pending
          && s.co.lastEventMs + DEBOUNCE_MS <= s.drives[|s.drives| - 1])
    && Spaced(s.drives)
  }

  ghost predicate CountInv(s: State) {
    s.raw <= CHANNEL_BOUND && s.co.bound == CHANNEL_BOUND && s.co.queued <= CHANNEL_BOUND
    && (s.co.rescan ==> s.co.pending)
    && s.sent == s.dropped + s.raw + (if Taken(s) then 1 else 0) + s.offered
    && |s.drives| + (if s.co.pending && s.pc != Driving then 1 else 0) <= s.offered
  }

  ghost predicate Inv(s: State) {
    (s.owed ==> Awake(s)) && ClockInv(s) && CountInv(s)
  }

  lemma StepKeepsAwake(s: State, a: Action)
    requires Inv(s) && Enabled(s, a)
    ensures Step(s, a).owed ==> Awake(Step(s, a))
  {
  }

  lemma DriveKeepsSpacing(drives: seq<nat>, clock: nat)
    requires Spaced(drives) && (drives != [] ==> drives[|drives| - 1] + DEBOUNCE_MS <= clock)
    ensures Spaced(drives + [clock])
  {
  }

  lemma CheckKeepsClocks(s: State)
    requires Inv(s) && s.pc == Checking
    ensures ClockInv(Step(s, Check))
  {
    if DriveDue(s.co, s.clock, DEBOUNCE_MS) {
      DriveKeepsSpacing(s.drives, s.clock);
    }
  }

  lemma StepKeepsClocks(s: State, a: Action)
    requires Inv(s) && Enabled(s, a)
    ensures ClockInv(Step(s, a))
  {
    if a == Check {
      CheckKeepsClocks(s);
    } else {
      assert Step(s, a).drives == s.drives;
    }
  }

  lemma StepKeepsCounts(s: State, a: Action)
    requires Inv(s) && Enabled(s, a)
    ensures CountInv(Step(s, a))
  {
  }

  /** Every state of every interleaving satisfies the invariant. */
  lemma {:induction false} RunsKeepInv(clock: nat, actions: seq<Action>)
    requires Run(clock, actions).Some?
    ensures Inv(Run(clock, actions).value)
  {
    if actions != [] {
      var s := Run(clock, actions[..|actions| - 1]).value;
      var a := actions[|actions| - 1];
      RunsKeepInv(clock, actions[..|actions| - 1]);
      StepKeepsAwake(s, a);
      StepKeepsClocks(s, a);
      StepKeepsCounts(s, a);
    }
  }

  /** No wake-up is lost: an event kept and not yet answered leaves a token or a pending flag behind. */
  lemma NoLostWakeup(clock: nat, actions: seq<Action>)
    requires Run(clock, actions).Some?
    ensures var s := Run(clock, actions).value;
            s.owed ==> s.calling || s.raw > 0 || s.pc == Took || (s.co.pending && s.pc != Driving)
  {
    RunsKeepInv(clock, actions);
  }

  /** Memory stays bounded, and no token is created or lost unaccounted, under any storm. */
  lemma TokensConserved(clock: nat, actions: seq<Action>)
    requires Run(clock, actions).Some?
    ensures var s := Run(clock, actions).value;
            s.raw <= 256 && s.co.queued <= 256
            && s.sent == s.dropped + s.raw + (if s.pc == Took then 1 else 0) + s.offered
  {
    RunsKeepInv(clock, actions);
  }

  /** A drive starts only after a full quiet window since the last offered event. */
  lemma DrivesWaitForQuiet(clock: nat, actions: seq<Action>)
    requires Run(clock, actions).Some? && Run(clock, actions).value.pc == Driving
    ensures var s := Run(clock, actions).value;
            s.drives != [] && s.drives[|s.drives| - 1] >= s.co.lastEventMs + 2000
  {
    RunsKeepInv(clock, actions);
  }

  /** Drive attempts never outnumber the events sent, and start at least a window apart. */
  lemma BurstsCollapse(clock: nat, actions: seq<Action>)
    requires Run(clock, actions).Some?
    ensures var s := Run(clock, actions).value;
            |s.drives| <= s.sent && forall i :: 0 < i < |s.drives| ==> s.drives[i] >= s.drives[i - 1] + 2000
  {
    RunsKeepInv(clock, actions);
  }

  // ---------------------------------------------------------------------------------------------
  // Once the callback falls silent
  // ---------------------------------------------------------------------------------------------

  predicate LoopAction(a: Action) {
    !a.Tick? && !a.Notify? && !a.Send?
  }

  /** How many more loop steps an owed drive can take when no further event arrives. */
  function Distance(s: State): nat {
    match s.pc
    case Took => 7 * s.raw + 6
    case Draining => if s.raw > 0 then 7 * s.raw else if DriveDue(s.co, s.clock, DEBOUNCE_MS) then 2 else 5
    case Checking =>
      if DriveDue(s.co, s.clock, DEBOUNCE_MS) then 1 else if s.raw > 0 then 7 * s.raw + 1 else 4
    case Waiting(_) => if s.raw > 0 then 7 * s.raw else 3
    case Driving => 7 * s.raw + 2
  }

  /** With the callback silent, every loop step brings the owed drive strictly nearer, or starts it. */
  lemma QuietProgress(s: State, a: Action)
    requires Inv(s) && s.owed && !s.calling && LoopAction(a) && Enabled(s, a)
    ensures var t := Step(s, a);
            if t.owed then Distance(t) < Distance(s) && !t.calling else t.drives == s.drives + [s.clock]
  {
  }

  /** Time passing never puts it off. */
  lemma TimeNeverPutsOff(s: State, ms: nat)
    requires Inv(s) && s.owed
    ensures Distance(Step(s, Tick(ms))) <= Distance(s)
  {
  }

  /** The loop is never stuck: it can step now, or after one window of waiting. */
  function NextLoopAction(s: State): (a: Action)
    ensures LoopAction(a) && (!s.pc.Waiting? || s.raw > 0 || s.clock >= s.pc.sinceMs + DEBOUNCE_MS ==> Enabled(s, a))
  {
    match s.pc
    case Draining => TryRecv
    case Took => OfferTaken
    case Checking => Check
    case Driving => DriveEnds(true)
    case Waiting(_) => if s.raw > 0 then Recv else RecvTimeout
  }

  function Patient(s: State): State {
    if s.pc.Waiting? && s.raw == 0 && s.clock < s.pc.sinceMs + DEBOUNCE_MS
    then Step(s, Tick(DEBOUNCE_MS + s.pc.sinceMs - s.clock)) else s
  }

  /** The loop running alone for `n` steps, waiting out its timeouts. */
  function Alone(s: State, n: nat): State
    decreases n
  {
    if n == 0 then s else Alone(Step(Patient(s), NextLoopAction(Patient(s))), n - 1)
  }

  /** After silence an owed drive starts within a fixed number of loop steps: at most 7 per token, and 6 more. */
  lemma {:induction false} QuietDrives(s: State) returns (n: nat)
    requires Inv(s) && s.owed && !s.calling
    ensures 0 < n <= Distance(s) <= 7 * s.raw + 6 && !Alone(s, n).owed && |Alone(s, n).drives| == |s.drives| + 1
    decreases Distance(s)
  {
    var p := Patient(s);
    var a := NextLoopAction(p);
    var t := Step(p, a);
    if p != s {
      TimeNeverPutsOff(s, DEBOUNCE_MS + s.pc.sinceMs - s.clock);
      StepKeepsInv(s, Tick(DEBOUNCE_MS + s.pc.sinceMs - s.clock));
    }
    QuietProgress(p, a);
    if t.owed {
      StepKeepsInv(p, a);
      var m := QuietDrives(t);
      n := m + 1;
    } else {
      n := 1;
      assert Alone(t, 0) == t;
    }
  }

  lemma StepKeepsInv(s: State, a: Action)
    requires Inv(s) && Enabled(s, a)
    ensures Inv(Step(s, a))
  {
    StepKeepsAwake(s, a);
    StepKeepsClocks(s, a);
    StepKeepsCounts(s, a);
  }
}
