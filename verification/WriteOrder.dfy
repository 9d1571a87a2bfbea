/**
 Write order on disk: at the end of a pass of the persistent worker the sent index lies inside the
 data file, if and only if no size counts more bytes than were written.
 */
module WriteOrder {
  import opened Frames
  import opened QueueLog
  import opened Pipeline

  /** Over every interleaving: frames whose size covers no more than their bytes keep the sent index inside the file. */
  lemma WriteOrderSafety(s: State, steps: seq<Step>, t: State)
    requires Started(s) && Runs(s, steps, t) && t.writer.BetweenPasses?
    requires forall x :: x in t.listed ==> Covered(x)
    ensures t.durableSent <= |t.data|
  {
    hide Started, Runs, Covered;
    DurableIndexFlushed(s, steps, t);
    SumBelowLength(t.listed[..Flushed(t)]);
  }

  lemma {:induction false} RunSnoc(s: State, steps: seq<Step>, t: State, step: Step)
    requires Runs(s, steps, t) && Enabled(t, step)
    ensures Runs(s, steps + [step], Apply(t, step))
    decreases |steps|
  {
    hide Enabled, Apply;
    if steps == [] {
      assert [step][1..] == [];
    } else {
      assert (steps + [step])[1..] == steps[1..] + [step];
      RunSnoc(Apply(s, steps[0]), steps[1..], t, step);
    }
  }

  /** A run that publishes one frame and hands it to a worker. */
  lemma PublishAndTake(msg: Message, size: nat) returns (steps: seq<Step>, t: State)
    requires size > 0
    ensures Runs(FRESH, steps, t)
    ensures var x := Item(0, msg, size);
      t == State(size, 0, 0, [x], [], Idle, [Worker(Holding(x), [])], BetweenPasses, "", 0, [x], 0, [0])
  {
    hide Runs, Encode;
    var x := Item(0, msg, size);
    steps, t := [], FRESH;
    assert Runs(FRESH, steps, t) by {
      NoSteps(FRESH);
    }
    RunSnoc(FRESH, steps, t, Register);
    steps, t := steps + [Register], Apply(t, Register);
    RunSnoc(FRESH, steps, t, ListFrame(msg, size));
    steps, t := steps + [ListFrame(msg, size)], Apply(t, ListFrame(msg, size));
    assert t.unpersistent == [x] && t.listed == [x];
    RunSnoc(FRESH, steps, t, CountFrame);
    steps, t := steps + [CountFrame], Apply(t, CountFrame);
    RunSnoc(FRESH, steps, t, EnqueueFrame);
    steps, t := steps + [EnqueueFrame], Apply(t, EnqueueFrame);
    RunSnoc(FRESH, steps, t, Dequeue(0));
    steps, t := steps + [Dequeue(0)], Apply(t, Dequeue(0));
    assert t.workers == [Worker(Holding(x), [])] && t.queue == [] && t.owner == [0];
  }

  lemma NoSteps(s: State)
    ensures Runs(s, [], s)
  {
  }

  /** The worker sends the frame and counts it. */
  lemma SendAndCount(a: seq<Step>, s: State, x: Item) returns (steps: seq<Step>, t: State)
    requires Runs(FRESH, a, s) && s.workers == [Worker(Holding(x), [])] && s.indexSent == 0
    ensures Runs(FRESH, steps, t)
    ensures t == s.(workers := [Worker(Ready, [x])], indexSent := x.size)
  {
    hide Runs, Encode;
    RunSnoc(FRESH, a, s, Send(0));
    steps, t := a + [Send(0)], Apply(s, Send(0));
    assert [] + [x] == [x];
    assert t.workers == [Worker(Delivered(x), [x])];
    RunSnoc(FRESH, steps, t, ReadSent(0));
    steps, t := steps + [ReadSent(0)], Apply(t, ReadSent(0));
    RunSnoc(FRESH, steps, t, WriteSent(0));
    steps, t := steps + [WriteSent(0)], Apply(t, WriteSent(0));
    assert t.workers == [Worker(Ready, [x])];
  }

  /** One pass of the persistent worker over a list of one frame. */
  lemma OnePass(a: seq<Step>, s: State, x: Item) returns (steps: seq<Step>, t: State)
    requires Runs(FRESH, a, s) && s.writer.BetweenPasses? && s.unpersistent == [x] && s.data == "" && s.indexHead > s.indexPersistent
    ensures Runs(FRESH, steps, t) && t.writer.BetweenPasses? && t.listed == s.listed
    ensures t.durableSent == s.indexSent && t.data == Encode(x.msg)
  {
    hide Runs, Encode;
    RunSnoc(FRESH, a, s, WriteIndex);
    steps, t := a + [WriteIndex], Apply(s, WriteIndex);
    RunSnoc(FRESH, steps, t, CheckCursors);
    steps, t := steps + [CheckCursors], Apply(t, CheckCursors);
    RunSnoc(FRESH, steps, t, LockList);
    steps, t := steps + [LockList], Apply(t, LockList);
    RunSnoc(FRESH, steps, t, AppendFrame);
    assert "" + Encode(x.msg) == Encode(x.msg);
    steps, t := steps + [AppendFrame], Apply(t, AppendFrame);
    RunSnoc(FRESH, steps, t, AdvancePersistent);
    steps, t := steps + [AdvancePersistent], Apply(t, AdvancePersistent);
    RunSnoc(FRESH, steps, t, UnlockList);
    steps, t := steps + [UnlockList], Apply(t, UnlockList);
  }

  ghost predicate OnlyThis(t: State, msg: Message, size: nat) {
    forall x :: x in t.listed ==> x.msg == msg && x.size == size
  }

  /** In every interleaving that publishes only this frame, the sent index stays inside the file between passes. */
  ghost predicate SafeOnDisk(msg: Message, size: nat) {
    forall steps, t :: Runs(FRESH, steps, t) && t.writer.BetweenPasses? && OnlyThis(t, msg, size) ==> t.durableSent <= |t.data|
  }

  /** A frame is safe on disk if and only if its size counts no more bytes than are written. */
  lemma WriteOrderIff(msg: Message, size: nat)
    requires size > 0
    ensures SafeOnDisk(msg, size) <==> size <= |Encode(msg)|
  {
    hide Runs, Encode;
    if size <= |Encode(msg)| {
      forall steps, t | Runs(FRESH, steps, t) && t.writer.BetweenPasses? && OnlyThis(t, msg, size)
        ensures t.durableSent <= |t.data|
      {
        FreshStarted();
        WriteOrderSafety(FRESH, steps, t);
      }
    } else {
      var x := Item(0, msg, size);
      var a, s := PublishAndTake(msg, size);
      var b, u := SendAndCount(a, s, x);
      var c, t := OnePass(b, u, x);
      assert OnlyThis(t, msg, size);
    }
  }

  /** The name line "SEND\r" of a client with CRLF line ends: its size is one more than the bytes written. */
  lemma CrlfNameUnsafe(first: char, headers: seq<string>, body: string)
    requires body != ""
    ensures Update(NEW_FRAME, first, "SEND\r").0.name == "SEND"
    ensures var excess := Update(NEW_FRAME, first, "SEND\r").0.size - |"SEND\n"|;
      excess == 1 && !SafeOnDisk(Message("SEND", headers, body), SizeOf(Message("SEND", headers, body)) + excess)
  {
    hide SafeOnDisk, Encode, SizeOf;
    var m := Message("SEND", headers, body);
    assert COMMANDS[0] == "SEND" && IsCommand("SEND");
    assert "SEND" <= "SEND\r";
    SendOnly("SEND\r");
    EncodeSize(m);
    WriteOrderIff(m, SizeOf(m) + 1);
  }

  lemma SendOnly(line: string)
    requires "SEND" <= line
    ensures MatchCommand(line) == "SEND"
  {
    assert COMMANDS[0] == "SEND";
  }
}
