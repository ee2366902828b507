/** The actuator's file write: temp, write, sync, rename, where every system call may fail. */
module AtomicWrite {
  import opened Wrappers

  type Bytes = seq<bv8>

  /** A directory entry: the inode, its contents, and whether those have been flushed. */
  datatype Entry = Entry(inode: nat, data: Bytes, synced: bool)

  type Listing = map<string, Entry>

  /** Appended bytes are not flushed yet. */
  function Extended(e: Entry, more: Bytes): Entry {
    Entry(e.inode, e.data + more, false)
  }

  /** What the system answers to one call. `Short` is a write that took only so many bytes. */
  datatype Answer = Works | Short(n: nat) | Interrupted | Fails

  function NextAnswer(script: seq<Answer>): Answer {
    if script == [] then Works else script[0]
  }

  datatype Op = OpenOp | WriteOp | FsyncOp | RenameOp | StatOp | UnlinkOp

  /** One system call: what it was, what the system answered, and the listing it left. */
  datatype Call = Call(op: Op, answer: Answer, after: Listing)

  /** A call that did not do what it was for. */
  predicate Faulted(c: Call) {
    if c.op.WriteOp? then c.answer.Fails? || c.answer == Short(0) else !c.answer.Works?
  }

  datatype WriteResult = Wrote(n: nat) | WriteInterrupted | WriteFailed

  datatype StatResult = Found(inode: nat) | NoEntry | StatFailed

  datatype Error = IoError | WriteZero | AlreadyExists | IdentityChanged

  datatype Outcome = Done | Failed(error: Error)

  function TempNameFor(finalName: string, ulid: string): (name: string)
    ensures name != finalName
  {
    var name := "." + finalName + "." + ulid + ".tmp";
    assert |name| > |finalName|;
    name
  }

  // ---------------------------------------------------------------------------------------------
  // What a caller may rely on
  // ---------------------------------------------------------------------------------------------

  /** The listing with the temp left out of the comparison. */
  ghost predicate OnlyTempDiffers(before: Listing, tmp: string, now: Listing) {
    now - {tmp} == before - {tmp}
  }

  ghost predicate NewInode(before: Listing, inode: nat) {
    forall name :: name in before ==> before[name].inode != inode
  }

  /** `finalName` is a new, complete, flushed file, and nothing else is different. */
  ghost predicate Published(before: Listing, finalName: string, bytes: Bytes, now: Listing) {
    finalName in now
    && now == before[finalName := now[finalName]]
    && now[finalName].data == bytes && now[finalName].synced
    && NewInode(before, now[finalName].inode)
  }

  /** The states a crash or an observer may catch: untouched up to the temp, or completely published. */
  ghost predicate AllOrNothing(before: Listing, tmp: string, finalName: string, bytes: Bytes, now: Listing) {
    OnlyTempDiffers(before, tmp, now) || Published(before, finalName, bytes, now)
  }

  lemma RenamePublishes(before: Listing, tmp: string, finalName: string, e: Entry)
    requires tmp !in before
    ensures (before[tmp := e] - {tmp})[finalName := e] == before[finalName := e]
  {
  }

  /** When the write is meant to go through. */
  ghost predicate Admissible(before: Listing, tmp: string, finalName: string, noClobber: bool, expected: Option<nat>) {
    tmp !in before
    && (noClobber ==> finalName !in before)
    && (!noClobber && expected.Some? ==> finalName in before && before[finalName].inode == expected.value)
  }

  lemma WrittenGrows(bytes: Bytes, remaining: Bytes, n: nat)
    requires n <= |remaining| <= |bytes| && remaining == bytes[|bytes| - |remaining|..]
    ensures bytes[..|bytes| - |remaining|] + remaining[..n] == bytes[..|bytes| - |remaining[n..]|]
    ensures remaining[n..] == bytes[|bytes| - |remaining[n..]|..]
  {
  }

  // ---------------------------------------------------------------------------------------------
  // System calls on one directory
  // ---------------------------------------------------------------------------------------------

  class Dir {
    var entries: Listing
    /** Answers still to come; after the last one, every call works in full. */
    var script: seq<Answer>
    var nextInode: nat
    const linux: bool
    /** Every call so far. */
    ghost var trace: seq<Call>

    ghost predicate Valid()
      reads this
    {
      forall name :: name in entries ==> entries[name].inode < nextInode
    }

    constructor (linux: bool, entries: Listing, script: seq<Answer>, nextInode: nat)
      requires forall name :: name in entries ==> entries[name].inode < nextInode
      ensures Valid() && this.linux == linux && this.entries == entries && this.script == script && trace == []
    {
      this.linux, this.entries, this.script, this.nextInode, this.trace := linux, entries, script, nextInode, [];
    }

    method Answers() returns (a: Answer)
      modifies this`script
      ensures a == NextAnswer(old(script)) && script == if old(script) == [] then [] else old(script)[1..]
    {
      if script == [] {
        return Works;
      }
      a := script[0];
      script := script[1..];
    }

    /** `openat` with `O_CREAT | O_EXCL`. */
    method OpenExclusive(name: string) returns (ok: bool)
      requires Valid()
      modifies this
      ensures Valid() && trace == old(trace) + [Call(OpenOp, NextAnswer(old(script)), entries)]
      ensures ok <==> NextAnswer(old(script)).Works? && name !in old(entries)
      ensures entries == if ok then old(entries)[name := Entry(old(nextInode), [], false)] else old(entries)
      ensures old(script) == [] ==> script == []
    {
      var a := Answers();
      ok := a.Works? && name !in entries;
      if ok {
        entries := entries[name := Entry(nextInode, [], false)];
        nextInode := nextInode + 1;
      }
      trace := trace + [Call(OpenOp, a, entries)];
    }

    /** `write`: any prefix may be taken; an error takes nothing. */
    method Write(name: string, remaining: Bytes) returns (r: WriteResult)
      requires Valid() && name in entries && remaining != []
      modifies this
      ensures Valid() && trace == old(trace) + [Call(WriteOp, NextAnswer(old(script)), entries)]
      ensures r.Wrote? ==> r.n <= |remaining|
                           && entries == old(entries)[name := Extended(old(entries)[name], remaining[..r.n])]
      ensures !r.Wrote? ==> entries == old(entries)
      ensures r.WriteFailed? || r == Wrote(0) <==> Faulted(Call(WriteOp, NextAnswer(old(script)), entries))
      ensures |script| <= |old(script)| && (r.WriteInterrupted? ==> |script| < |old(script)|)
      ensures old(script) == [] ==> script == [] && r == Wrote(|remaining|)
    {
      var a := Answers();
      match a {
        case Fails => r := WriteFailed;
        case Interrupted => r := WriteInterrupted;
        case Works => r := Wrote(|remaining|);
        case Short(n) => r := Wrote(if n < |remaining| then n else |remaining|);
      }
      if r.Wrote? {
        entries := entries[name := Extended(entries[name], remaining[..r.n])];
      }
      trace := trace + [Call(WriteOp, a, entries)];
    }

    method Fsync(name: string) returns (ok: bool)
      requires Valid() && name in entries
      modifies this
      ensures Valid() && trace == old(trace) + [Call(FsyncOp, NextAnswer(old(script)), entries)]
      ensures ok <==> NextAnswer(old(script)).Works?
      ensures entries == if ok then old(entries)[name := old(entries)[name].(synced := true)] else old(entries)
      ensures old(script) == [] ==> script == []
    {
      var a := Answers();
      ok := a.Works?;
      if ok {
        entries := entries[name := entries[name].(synced := true)];
      }
      trace := trace + [Call(FsyncOp, a, entries)];
    }

    /** `renameat`, with or without `RENAME_NOREPLACE`. */
    method Rename(from: string, to: string, noReplace: bool) returns (ok: bool)
      requires Valid() && from in entries && from != to
      modifies this
      ensures Valid() && trace == old(trace) + [Call(RenameOp, NextAnswer(old(script)), entries)]
      ensures ok <==> NextAnswer(old(script)).Works? && !(noReplace && to in old(entries))
      ensures entries == if ok then (old(entries) - {from})[to := old(entries)[from]] else old(entries)
      ensures old(script) == [] ==> script == []
    {
      var a := Answers();
      ok := a.Works? && !(noReplace && to in entries);
      if ok {
        entries := (entries - {from})[to := entries[from]];
      }
      trace := trace + [Call(RenameOp, a, entries)];
    }

    method Stat(name: string) returns (r: StatResult)
      requires Valid()
      modifies this
      ensures Valid() && entries == old(entries)
      ensures trace == old(trace) + [Call(StatOp, NextAnswer(old(script)), entries)]
      ensures r == if !NextAnswer(old(script)).Works? then StatFailed
                   else if name in entries then Found(entries[name].inode) else NoEntry
      ensures old(script) == [] ==> script == []
    {
      var a := Answers();
      if !a.Works? {
        r := StatFailed;
      } else if name in entries {
        r := Found(entries[name].inode);
      } else {
        r := NoEntry;
      }
      trace := trace + [Call(StatOp, a, entries)];
    }

    /** `unlinkat`, whose own failure is ignored by its only caller. */
    method Unlink(name: string)
      requires Valid()
      modifies this
      ensures Valid() && trace == old(trace) + [Call(UnlinkOp, NextAnswer(old(script)), entries)]
      ensures entries == if NextAnswer(old(script)).Works? then old(entries) - {name} else old(entries)
      ensures old(script) == [] ==> script == []
    {
      var a := Answers();
      if a.Works? {
        entries := entries - {name};
      }
      trace := trace + [Call(UnlinkOp, a, entries)];
    }

    // -------------------------------------------------------------------------------------------
    // The write
    // -------------------------------------------------------------------------------------------

    /** From the `k`-th call on, nothing but the temp was ever different. */
    ghost predicate Untouched(k: nat, before: Listing, tmp: string)
      reads this
    {
      k <= |trace| && forall i :: k <= i < |trace| ==> OnlyTempDiffers(before, tmp, trace[i].after)
    }

    /** Some call from the `k`-th on, other than an unlink, did not do what it was for. */
    ghost predicate SomeFault(k: nat)
      reads this
    {
      exists i :: k <= i < |trace| && !trace[i].op.UnlinkOp? && Faulted(trace[i])
    }

    /** The last call was an unlink that failed. */
    ghost predicate UnlinkFailed(k: nat)
      reads this
    {
      k < |trace| && trace[|trace| - 1].op.UnlinkOp? && Faulted(trace[|trace| - 1])
    }

    /** The temp holds `data` under a new inode, and nothing else has changed. */
    ghost predicate TempReady(before: Listing, tmp: string, data: Bytes)
      reads this
    {
      tmp !in before && tmp in entries && entries == before[tmp := entries[tmp]]
      && entries[tmp].data == data && NewInode(before, entries[tmp].inode)
    }

    /** All but `remaining` of the bytes are in the temp. */
    ghost predicate Writing(bytes: Bytes, remaining: Bytes, tmp: string, k: nat, before: Listing)
      reads this
    {
      Valid() && Untouched(k, before, tmp)
      && |remaining| <= |bytes| && remaining == bytes[|bytes| - |remaining|..]
      && TempReady(before, tmp, bytes[..|bytes| - |remaining|])
    }

    method WritePart(tmp: string, bytes: Bytes, remaining: Bytes, ghost k: nat, ghost before: Listing)
      returns (r: WriteResult)
      requires remaining != [] && Writing(bytes, remaining, tmp, k, before)
      modifies this
      ensures r.Wrote? ==> r.n <= |remaining| && Writing(bytes, remaining[r.n..], tmp, k, before)
      ensures !r.Wrote? ==> Writing(bytes, remaining, tmp, k, before)
      ensures r.WriteFailed? || r == Wrote(0) ==> SomeFault(k)
      ensures |script| <= |old(script)| && (r.WriteInterrupted? ==> |script| < |old(script)|)
      ensures old(script) == [] ==> script == [] && r == Wrote(|remaining|)
    {
      r := Write(tmp, remaining);
      assert trace[|trace| - 1].op.WriteOp?;
      if r.Wrote? {
        WrittenGrows(bytes, remaining, r.n);
      }
    }

    /** The short-write loop. */
    method WriteAll(tmp: string, bytes: Bytes, ghost k: nat, ghost before: Listing) returns (outcome: Outcome)
      requires Valid() && TempReady(before, tmp, []) && Untouched(k, before, tmp)
      modifies this
      ensures Valid() && Untouched(k, before, tmp)
      ensures OnlyTempDiffers(before, tmp, entries) && tmp !in before
      ensures outcome.Done? ==> TempReady(before, tmp, bytes)
      ensures outcome.Failed? ==> SomeFault(k)
      ensures old(script) == [] ==> script == [] && outcome.Done?
    {
      var remaining := bytes;
      while remaining != []
        invariant Writing(bytes, remaining, tmp, k, before)
        invariant old(script) == [] ==> script == []
        decreases |remaining|, |script|
      {
        var r := WritePart(tmp, bytes, remaining, k, before);
        match r
        case WriteFailed => return Failed(IoError);
        case WriteInterrupted => continue;
        case Wrote(n) =>
          if n == 0 {
            return Failed(WriteZero);
          }
          remaining := remaining[n..];
      }
      outcome := Done;
    }

    method Cleanup(tmp: string, ghost k: nat, ghost before: Listing)
      requires Valid() && OnlyTempDiffers(before, tmp, entries) && tmp !in before
      requires Untouched(k, before, tmp)
      modifies this
      ensures Valid() && Untouched(k, before, tmp) && OnlyTempDiffers(before, tmp, entries)
      ensures entries == before || UnlinkFailed(k)
      ensures old(SomeFault(k)) ==> SomeFault(k)
      ensures old(script) == [] ==> script == [] && entries == before
    {
      ghost var calls := trace;
      Unlink(tmp);
      assert forall i :: 0 <= i < |calls| ==> trace[i] == calls[i];
    }

    /** The per-OS rename that publishes the temp. */
    method Finalize(tmp: string, finalName: string, bytes: Bytes, noClobber: bool, expected: Option<nat>,
                    ghost k: nat, ghost before: Listing)
      returns (outcome: Outcome)
      requires Valid() && tmp != finalName && TempReady(before, tmp, bytes) && entries[tmp].synced
      requires Untouched(k, before, tmp)
      modifies this
      ensures Valid()
      ensures outcome.Done? ==> Published(before, finalName, bytes, entries)
                                && Admissible(before, tmp, finalName, noClobber, expected)
                                && PublishedLast(k, before, tmp)
      ensures outcome.Failed? ==> OnlyTempDiffers(before, tmp, entries) && Untouched(k, before, tmp)
      ensures outcome.Failed? ==> SomeFault(k) || !Admissible(before, tmp, finalName, noClobber, expected)
      ensures old(script) == [] ==>
                script == [] && (outcome.Done? <==> Admissible(before, tmp, finalName, noClobber, expected))
    {
      if noClobber && !linux {
        var r := Stat(finalName);
        assert trace[|trace| - 1].op.StatOp?;
        match r
        case Found(_) => return Failed(AlreadyExists);
        case StatFailed => return Failed(IoError);
        case NoEntry =>
      } else if !noClobber && expected.Some? {
        var r := Stat(finalName);
        assert trace[|trace| - 1].op.StatOp?;
        match r
        case NoEntry => return Failed(IoError);
        case StatFailed => return Failed(IoError);
        case Found(inode) =>
          if inode != expected.value {
            return Failed(IdentityChanged);
          }
      }
      RenamePublishes(before, tmp, finalName, entries[tmp]);
      var ok := Rename(tmp, finalName, noClobber && linux);
      assert trace[|trace| - 1].op.RenameOp?;
      outcome := if ok then Done else Failed(IoError);
    }

    /** Nothing but the temp was different before the last call, and that call gave what is there now. */
    ghost predicate PublishedLast(k: nat, before: Listing, tmp: string)
      reads this
    {
      k < |trace| && trace[|trace| - 1].after == entries
      && forall i :: k <= i < |trace| - 1 ==> OnlyTempDiffers(before, tmp, trace[i].after)
    }

    /** After every call from the `k`-th on, a reader of the directory sees all of the write or none of it. */
    ghost predicate EveryMomentReads(k: nat, before: Listing, tmp: string, finalName: string, bytes: Bytes)
      reads this
    {
      forall i :: k <= i < |trace| ==> ReadsOldOrNew(before, tmp, finalName, bytes, trace[i].after)
    }

    lemma EveryMoment(k: nat, before: Listing, tmp: string, finalName: string, bytes: Bytes)
      requires tmp != finalName
      requires Untouched(k, before, tmp)
               || (PublishedLast(k, before, tmp) && Published(before, finalName, bytes, entries))
      ensures EveryMomentReads(k, before, tmp, finalName, bytes)
    {
      forall i | k <= i < |trace|
        ensures ReadsOldOrNew(before, tmp, finalName, bytes, trace[i].after)
      {
        TargetReadsOldOrNew(before, tmp, finalName, bytes, trace[i].after);
      }
    }

    /** All or nothing: see the postconditions. */
    method AtomicWrite(finalName: string, ulid: string, bytes: Bytes, noClobber: bool, expected: Option<nat>)
      returns (outcome: Outcome)
      requires Valid()
      modifies this
      ensures Valid()
      // Success: exactly the bytes, flushed, and no temp, in one step; never over an existing name or another inode.
      ensures outcome.Done? ==> Published(old(entries), finalName, bytes, entries)
                                && PublishedLast(|old(trace)|, old(entries), TempNameFor(finalName, ulid))
                                && Admissible(old(entries), TempNameFor(finalName, ulid), finalName,
                                              noClobber, expected)
      ensures outcome.Done? ==> finalName in entries && entries[finalName].data == bytes && entries[finalName].synced
      ensures outcome.Done? && noClobber ==> finalName !in old(entries)
      ensures outcome.Done? && !noClobber && expected.Some? ==>
                finalName in old(entries) && old(entries)[finalName].inode == expected.value
      // Either way, at every moment a reader sees the old target or the complete new one.
      ensures EveryMomentReads(|old(trace)|, old(entries), TempNameFor(finalName, ulid), finalName, bytes)
      // Failure: at no moment was anything but the temp different, and the temp stays only if its unlink failed.
      ensures outcome.Failed? ==> Untouched(|old(trace)|, old(entries), TempNameFor(finalName, ulid))
      ensures outcome.Failed? ==>
                entries == old(entries)
                || (UnlinkFailed(|old(trace)|) && OnlyTempDiffers(old(entries), TempNameFor(finalName, ulid), entries))
      // Without the temp, nothing happens at all.
      ensures TempNameFor(finalName, ulid) in old(entries) || !NextAnswer(old(script)).Works? ==>
                outcome.Failed? && entries == old(entries)
      // It fails only when a call failed or the write was not to go through.
      ensures outcome.Failed? ==>
                SomeFault(|old(trace)|)
                || !Admissible(old(entries), TempNameFor(finalName, ulid), finalName, noClobber, expected)
      // With nothing failing, it succeeds exactly when it should, and a refusal leaves no trace.
      ensures old(script) == [] ==>
                (outcome.Done? <==>
                 Admissible(old(entries), TempNameFor(finalName, ulid), finalName, noClobber, expected))
                && (outcome.Failed? ==> entries == old(entries))
    {
      ghost var before, k := entries, |trace|;
      var tmp := TempNameFor(finalName, ulid);
      var ok := OpenExclusive(tmp);
      if !ok {
        assert trace[|trace| - 1].op.OpenOp?;
        EveryMoment(k, before, tmp, finalName, bytes);
        return Failed(IoError);
      }
      outcome := WriteAll(tmp, bytes, k, before);
      if outcome.Failed? {
        Cleanup(tmp, k, before);
        EveryMoment(k, before, tmp, finalName, bytes);
        return;
      }
      ok := Fsync(tmp);
      if !ok {
        assert trace[|trace| - 1].op.FsyncOp?;
        Cleanup(tmp, k, before);
        EveryMoment(k, before, tmp, finalName, bytes);
        return Failed(IoError);
      }
      outcome := Finalize(tmp, finalName, bytes, noClobber, expected, k, before);
      if outcome.Failed? {
        Cleanup(tmp, k, before);
      }
      EveryMoment(k, before, tmp, finalName, bytes);
    }
  }

  /** The target reads as before or as the complete new file, and no third name has changed. */
  ghost predicate ReadsOldOrNew(before: Listing, tmp: string, finalName: string, bytes: Bytes, now: Listing) {
    && (((finalName in now <==> finalName in before) && (finalName in now ==> now[finalName] == before[finalName]))
        || (finalName in now && now[finalName].data == bytes && now[finalName].synced))
    && forall name :: name != finalName && name != tmp ==>
         (name in now <==> name in before) && (name in now ==> now[name] == before[name])
  }

  /** What all-or-nothing means to a reader of the directory. */
  lemma TargetReadsOldOrNew(before: Listing, tmp: string, finalName: string, bytes: Bytes, now: Listing)
    requires tmp != finalName && AllOrNothing(before, tmp, finalName, bytes, now)
    ensures ReadsOldOrNew(before, tmp, finalName, bytes, now)
  {
    forall name | name != tmp && OnlyTempDiffers(before, tmp, now)
      ensures (name in now <==> name in before) && (name in now ==> now[name] == before[name])
    {
      assert name in now - {tmp} <==> name in now;
      assert name in before - {tmp} <==> name in before;
      if name in now {
        assert (now - {tmp})[name] == (before - {tmp})[name];
      }
    }
  }
}
