/**
 What a whole pass of the persistent worker leaves on disk (src/lib/persistent_worker.c:313-327):
 the sent index as it was when the pass began, and every frame enqueued by then. After it a crash
 queues no frame again that had been counted before it.
 */
module Passes {
  import opened Frames
  import opened QueueLog
  import opened Pipeline
  import opened SentIndex
  import opened Recovery

  /** The rest of one pass, and whatever the other threads do: no new pass begins. */
  ghost predicate SamePass(steps: seq<Step>) {
    forall i :: 0 <= i < |steps| ==> !steps[i].WriteIndex?
  }

  /** e frames were enqueued and index_sent was d when the pass began. */
  ghost predicate PassInv(s: State, e: int, d: int) {
    s.durableSent == d && e <= Enqueued(s) && (s.writer.BetweenPasses? ==> e <= Flushed(s))
  }

  lemma PassStep(s: State, step: Step, e: int, d: int)
    requires Enabled(s, step) && !step.WriteIndex? && Inv(s) && PassInv(s, e, d)
    ensures PassInv(Apply(s, step), e, d) && s.listed <= Apply(s, step).listed
  {
    hide Encode, EncodeItems, ItemOk, WriteInv, ClaimInv, CreditInv, Sum;
    if step.CheckCursors? && s.indexHead <= s.indexPersistent {
      SkipMissesNothing(s);
    }
  }

  lemma {:induction false} PassRun(s: State, steps: seq<Step>, t: State, e: int, d: int)
    requires Inv(s) && PassInv(s, e, d) && Runs(s, steps, t) && SamePass(steps)
    ensures Inv(t) && PassInv(t, e, d) && s.listed <= t.listed
    decreases |steps|
  {
    hide Inv, PassInv, Enabled, Apply;
    if steps != [] {
      assert !steps[0].WriteIndex?;
      StepKept(s, steps[0]);
      PassStep(s, steps[0], e, d);
      PassRun(Apply(s, steps[0]), steps[1..], t, e, d);
    }
  }

  lemma PassBegins(s: State)
    requires s.writer.BetweenPasses? && Inv(s)
    ensures Enabled(s, WriteIndex) && PassInv(Apply(s, WriteIndex), Enqueued(s), s.indexSent)
    ensures Apply(s, WriteIndex).listed == s.listed
  {
    hide Encode, Inv;
  }

  /**
   In every interleaving: from the moment a pass begins at u until the next one begins, the sent
   index on disk is index_sent as it was at u, whatever waits to be persisted; and when the pass has
   ended, every frame that was enqueued at u is in the data file.
   */
  lemma PassPersists(s: State, before: seq<Step>, u: State, rest: seq<Step>, t: State)
    requires Started(s) && Runs(s, before, u) && u.writer.BetweenPasses?
    requires Runs(u, [WriteIndex] + rest, t) && SamePass(rest)
    ensures t.durableSent == u.indexSent && u.listed <= t.listed && 0 <= Flushed(t) <= |t.listed|
    ensures t.writer.BetweenPasses? ==> Enqueued(u) <= Flushed(t) && t.data == EncodeItems(t.listed[..Flushed(t)])
  {
    hide Started, Runs, Enabled, Apply, SamePass, ItemOk, EncodeItems;
    StartedInv(s);
    RunKept(s, before, u);
    PassFrom(u, rest, t);
  }

  lemma PassFrom(u: State, rest: seq<Step>, t: State)
    requires Inv(u) && u.writer.BetweenPasses? && Runs(u, [WriteIndex] + rest, t) && SamePass(rest)
    ensures Inv(t) && PassInv(t, Enqueued(u), u.indexSent) && u.listed <= t.listed
  {
    hide Inv, PassInv, Apply, SamePass;
    PassBegins(u);
    StepKept(u, WriteIndex);
    assert ([WriteIndex] + rest)[1..] == rest;
    PassRun(Apply(u, WriteIndex), rest, t, Enqueued(u), u.indexSent);
  }

  /** When the cursors meet, a pass is over after the check, and has changed nothing but the index on disk. */
  lemma SkippedPass(s: State)
    requires s.writer.BetweenPasses? && s.indexHead <= s.indexPersistent
    ensures Runs(s, [WriteIndex, CheckCursors], s.(durableSent := s.indexSent))
  {
    assert [WriteIndex, CheckCursors][1..] == [CheckCursors] && [CheckCursors][1..] == [];
    var t := Apply(s, WriteIndex);
    assert Runs(t, [CheckCursors], Apply(t, CheckCursors));
  }

  /** The lock of the list is held from LockList to UnlockList. */
  lemma {:induction false} LockedRun(s: State, steps: seq<Step>, t: State)
    requires ListLocked(s) && Runs(s, steps, t) && forall i :: 0 <= i < |steps| ==> !steps[i].UnlockList?
    ensures ListLocked(t) && t.listed == s.listed && t.indexPersistent + Unadvanced(t) + Sum(t.unpersistent) == s.indexPersistent + Unadvanced(s) + Sum(s.unpersistent)
    decreases |steps|
  {
    hide Encode, Sum, ItemOk;
    if steps != [] {
      assert !steps[0].UnlockList?;
      if steps[0].AppendFrame? {
        SumFirst(s.unpersistent);
      }
      LockedRun(Apply(s, steps[0]), steps[1..], t);
    }
  }

  /**
   A drain writes exactly the frames that were listed when it took the lock, in order, and advances
   index_persistent by their sizes, whatever the other threads do meanwhile.
   */
  lemma DrainWrites(u: State, rest: seq<Step>, t: State)
    requires Inv(u) && u.writer.Waiting? && Runs(u, [LockList] + rest, t) && Enabled(t, UnlockList)
    requires forall i :: 0 <= i < |rest| ==> !rest[i].UnlockList?
    ensures t.listed == u.listed && t.unpersistent == [] && t.data == EncodeItems(u.listed)
    ensures t.indexPersistent == u.indexPersistent + Sum(u.unpersistent)
  {
    hide Inv, EncodeItems, Sum, Enabled, Apply;
    LockTaken(u);
    assert ([LockList] + rest)[1..] == rest && ([LockList] + rest)[0] == LockList;
    LockedRun(Apply(u, LockList), rest, t);
    RunKept(u, [LockList] + rest, t);
    AllWritten(t);
  }

  lemma LockTaken(s: State)
    requires s.writer.Waiting?
    ensures Enabled(s, LockList) && Apply(s, LockList) == s.(writer := Draining)
  {
    hide Encode;
  }

  lemma AllWritten(s: State)
    requires Inv(s) && Enabled(s, UnlockList)
    ensures s.writer.Draining? && s.unpersistent == [] && Sum(s.unpersistent) == 0 && s.data == EncodeItems(s.listed)
  {
    hide EncodeItems, ItemOk, CursorInv, WriteInv, ClaimInv, CreditInv, Encode;
    assert s.listed[..|s.listed|] == s.listed;
  }

  // ----- One worker at a time -----

  ghost predicate SoloRuns(s: State, steps: seq<Step>, t: State)
    decreases |steps|
  {
    if steps == [] then s == t
    else Enabled(s, steps[0]) && SoloStep(s, steps[0]) && SoloRuns(Apply(s, steps[0]), steps[1..], t)
  }

  lemma {:induction false} SoloRunKept(s: State, steps: seq<Step>, t: State)
    requires Inv(s) && SoloInv(s) && SoloRuns(s, steps, t)
    ensures Runs(s, steps, t) && Inv(t) && SoloInv(t)
    decreases |steps|
  {
    hide Inv, SoloInv, Enabled, Apply, SoloStep;
    if steps != [] {
      SoloKept(s, steps[0]);
      SoloRunKept(Apply(s, steps[0]), steps[1..], t);
    }
  }

  /** The durable sent index is the end of one prefix only. */
  lemma SamePrefix(t: State, c: nat, d: nat)
    requires c <= |t.listed| && d <= |t.listed| && Sum(t.listed[..c]) == Sum(t.listed[..d])
    requires forall i :: 0 <= i < |t.listed| ==> t.listed[i].size > 0
    ensures c == d
  {
    SumStrict(t.listed, c, d);
    SumStrict(t.listed, d, c);
  }

  lemma CountedAtPass(u: State, rest: seq<Step>, t: State)
    requires Inv(u) && SoloInv(u) && u.writer.BetweenPasses?
    requires SoloRuns(u, [WriteIndex] + rest, t) && SamePass(rest)
    ensures Inv(t) && SoloInv(t) && u.listed <= t.listed
    ensures 0 <= Completed(u) <= |u.listed| && t.durableSent == Sum(t.listed[..Completed(u)])
  {
    hide ListsInv, CursorInv, WriteInv, ClaimInv, CreditInv, CleanAll, SoloRuns, Sum, Runs;
    SoloRunKept(u, [WriteIndex] + rest, t);
    PassFrom(u, rest, t);
    SentIsPrefix(u);
    assert t.listed[..Completed(u)] == u.listed[..Completed(u)];
  }

  /**
   A pass began at u, has ended, and no other one has begun since: a crash at t loads exactly the
   frames of the data file that were not counted at u. None that was counted is queued again.
   */
  lemma ReloadsUncounted(u: State, rest: seq<Step>, t: State, bufferLen: nat, junk: nat -> string)
    requires Inv(u) && SoloInv(u) && u.writer.BetweenPasses?
    requires SoloRuns(u, [WriteIndex] + rest, t) && SamePass(rest) && t.writer.BetweenPasses?
    requires bufferLen > 0 && (forall p :: |junk(p)| >= bufferLen) && |t.data| - t.durableSent <= bufferLen
    ensures 0 <= Completed(u) <= Flushed(t) <= |t.listed| && t.durableSent == Sum(t.listed[..Completed(u)])
    ensures var r := LoadLog(t.data, t.durableSent, bufferLen, junk);
      r.Loaded? && FramesOf(r.frames, Messages(t.listed[Completed(u)..Flushed(t)]))
  {
    hide Inv, SoloInv, SoloRuns, LoadLog, FramesOf, Messages, Sum;
    CountedAtPass(u, rest, t);
    var c := CrashRecovery(t, bufferLen, junk);
    InvParts(t);
    SamePrefix(t, c, Completed(u));
  }

  /** When nothing is in flight, the frames that were counted are those that were dequeued. */
  lemma NothingBusy(s: State)
    requires NothingInFlight(s)
    ensures Completed(s) == Dequeued(s)
  {
  }

  /**
   Over every series of steps and crashes up to u, and a pass from u on: the restart after the crash
   at t queues exactly the frames of the data file that were not counted at u, in order, and takes
   its cursors from the two files.
   */
  lemma RestartAfterPass(events: seq<Event>, m: Machine, l: Life, rest: seq<Step>, end: Life)
    requires MachineOk(m) && Lives(Life(FRESH, {}), events, m, l) && l.state.writer.BetweenPasses?
    requires SoloRuns(l.state, [WriteIndex] + rest, end.state) && SamePass(rest) && CanHappen(end, Crash, m)
    ensures var u, t, r := l.state, end.state, Happen(end, Crash, m).state;
      && 0 <= Completed(u) <= Flushed(t) <= |t.listed|
      && r.queue == t.listed[Completed(u)..Flushed(t)] && r.base == Completed(u)
      && r.indexSent == r.durableSent == Sum(t.listed[..Completed(u)])
      && r.indexHead == r.indexPersistent == |t.data| && r.data == t.data
  {
    hide Lives, Inv, SoloInv, SentInv, SoloRuns, LoadLog, Restart, FrameOf, Messages, Sum;
    FreshInv();
    LifeKept(Life(FRESH, {}), events, m, l);
    var u, t := l.state, end.state;
    ReloadsUncounted(u, rest, t, m.bufferLen, m.junk);
    CountedAtPass(u, rest, t);
    InvParts(t);
    RestartKept(t, Completed(u), LoadLog(t.data, t.durableSent, m.bufferLen, m.junk).frames);
  }
}
