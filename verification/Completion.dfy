/**
 Nothing gets stuck: from every state of every interleaving the threads can finish what they have
 begun, and then every frame ever enqueued has been sent by exactly one worker, every frame is in
 the data file, and the sent index on disk is index_sent.
 */
module Completion {
  import opened Frames
  import opened QueueLog
  import opened Pipeline
  import opened SentIndex
  import opened Passes
  import opened WriteOrder

  lemma {:induction false} RunsAppend(s: State, a: seq<Step>, t: State, b: seq<Step>, u: State)
    requires Runs(s, a, t) && Runs(t, b, u)
    ensures Runs(s, a + b, u)
    decreases |a|
  {
    hide Enabled, Apply;
    if a == [] {
      assert a + b == b;
    } else {
      assert (a + b)[1..] == a[1..] + b;
      RunsAppend(Apply(s, a[0]), a[1..], t, b, u);
    }
  }

  lemma OneStep(s: State, step: Step)
    requires Enabled(s, step)
    ensures Runs(s, [step], Apply(s, step))
  {
    hide Enabled, Apply;
    assert [step][1..] == [];
  }

  lemma TwoSteps(s: State, p: Step, q: Step)
    requires Enabled(s, p) && Enabled(Apply(s, p), q)
    ensures Runs(s, [p, q], Apply(Apply(s, p), q))
  {
    hide Enabled, Apply;
    assert [p, q][1..] == [q];
    OneStep(Apply(s, p), q);
  }

  // ----- The producer -----

  lemma FinishProducer(s: State) returns (steps: seq<Step>, t: State)
    requires ListsInv(s)
    ensures Runs(s, steps, t) && t.producer.Idle? && t.listed == s.listed && t.workers == s.workers && t.writer == s.writer
  {
    hide Encode, EncodeItems, ItemOk;
    match s.producer {
      case Idle =>
        steps, t := [], s;
      case Listed(x) =>
        steps, t := [CountFrame, EnqueueFrame], Apply(Apply(s, CountFrame), EnqueueFrame);
        TwoSteps(s, CountFrame, EnqueueFrame);
      case Counted(x) =>
        steps, t := [EnqueueFrame], Apply(s, EnqueueFrame);
        OneStep(s, EnqueueFrame);
    }
  }

  // ----- The persistent worker -----

  /** Only the persistent worker has moved. */
  ghost predicate WriterMoved(s: State, t: State) {
    t.producer == s.producer && t.workers == s.workers && t.queue == s.queue && t.listed == s.listed && t.indexSent == s.indexSent
  }

  lemma {:induction false} DrainList(s: State) returns (steps: seq<Step>, t: State)
    requires s.writer.Draining?
    ensures Runs(s, steps, t) && SamePass(steps) && t.writer.BetweenPasses? && WriterMoved(s, t)
    decreases |s.unpersistent|
  {
    hide Encode, Runs;
    if s.unpersistent == [] {
      steps, t := [UnlockList], Apply(s, UnlockList);
      OneStep(s, UnlockList);
    } else {
      var u := Apply(Apply(s, AppendFrame), AdvancePersistent);
      TwoSteps(s, AppendFrame, AdvancePersistent);
      steps, t := DrainList(u);
      RunsAppend(s, [AppendFrame, AdvancePersistent], u, steps, t);
      steps := [AppendFrame, AdvancePersistent] + steps;
    }
  }

  lemma FinishPass(s: State) returns (steps: seq<Step>, t: State)
    ensures Runs(s, steps, t) && SamePass(steps) && t.writer.BetweenPasses? && WriterMoved(s, t)
  {
    hide Encode, Runs;
    match s.writer {
      case BetweenPasses =>
        steps, t := [], s;
        NoSteps(s);
      case IndexWritten =>
        var u := Apply(s, CheckCursors);
        OneStep(s, CheckCursors);
        if u.writer.BetweenPasses? {
          steps, t := [CheckCursors], u;
        } else {
          steps, t := FromWaiting(u);
          RunsAppend(s, [CheckCursors], u, steps, t);
          steps := [CheckCursors] + steps;
        }
      case Waiting =>
        steps, t := FromWaiting(s);
      case Draining =>
        steps, t := DrainList(s);
      case Appended(size) =>
        var u := Apply(s, AdvancePersistent);
        OneStep(s, AdvancePersistent);
        steps, t := DrainList(u);
        RunsAppend(s, [AdvancePersistent], u, steps, t);
        steps := [AdvancePersistent] + steps;
    }
  }

  lemma FromWaiting(s: State) returns (steps: seq<Step>, t: State)
    requires s.writer.Waiting?
    ensures Runs(s, steps, t) && SamePass(steps) && t.writer.BetweenPasses? && WriterMoved(s, t)
  {
    hide Encode, Runs;
    var u := Apply(s, LockList);
    OneStep(s, LockList);
    steps, t := DrainList(u);
    RunsAppend(s, [LockList], u, steps, t);
    steps := [LockList] + steps;
  }

  /** A whole pass over a queue whose producer rests. */
  lemma WholePass(s: State) returns (steps: seq<Step>, t: State)
    requires Inv(s) && s.writer.BetweenPasses? && s.producer.Idle?
    ensures Runs(s, steps, t) && Inv(t) && t.writer.BetweenPasses? && WriterMoved(s, t)
    ensures t.unpersistent == [] && t.durableSent == s.indexSent
  {
    hide Encode, Runs, ListsInv, CursorInv, WriteInv, ClaimInv, CreditInv, SamePass;
    var u := Apply(s, WriteIndex);
    OneStep(s, WriteIndex);
    var rest;
    rest, t := FinishPass(u);
    RunsAppend(s, [WriteIndex], u, rest, t);
    steps := [WriteIndex] + rest;
    PassFrom(s, rest, t);
  }

  // ----- The sending workers -----

  /** Only the workers and index_sent have moved. */
  ghost predicate WorkersMoved(s: State, t: State) {
    t.producer == s.producer && t.writer == s.writer && t.listed == s.listed && |t.workers| == |s.workers|
  }

  /** Worker w sends and counts the frame in its hands, if there is one. */
  lemma FinishWorker(s: State, w: nat) returns (steps: seq<Step>, t: State)
    requires w < |s.workers|
    ensures Runs(s, steps, t) && WorkersMoved(s, t) && t.queue == s.queue
    ensures (t.workers[w].pc.Ready? || t.workers[w].pc.Gone?) && t.workers[w].sent == Claim(s.workers[w])
    ensures forall v :: 0 <= v < |s.workers| && v != w ==> t.workers[v] == s.workers[v]
    ensures t.workers[w].pc.Gone? <==> s.workers[w].pc.Gone?
  {
    hide Encode, Runs;
    steps, t := [], s;
    NoSteps(s);
    if t.workers[w].pc.Holding? {
      RunSnoc(s, steps, t, Send(w));
      steps, t := steps + [Send(w)], Apply(t, Send(w));
    }
    if t.workers[w].pc.Delivered? {
      RunSnoc(s, steps, t, ReadSent(w));
      steps, t := steps + [ReadSent(w)], Apply(t, ReadSent(w));
    }
    if t.workers[w].pc.Read? {
      RunSnoc(s, steps, t, WriteSent(w));
      steps, t := steps + [WriteSent(w)], Apply(t, WriteSent(w));
    }
  }

  ghost predicate RestFrom(s: State, n: nat) {
    forall w :: n <= w < |s.workers| ==> s.workers[w].pc.Ready? || s.workers[w].pc.Gone?
  }

  /** The workers below n finish, one after the other. */
  lemma {:induction false} FinishWorkers(s: State, n: nat) returns (steps: seq<Step>, t: State)
    requires n <= |s.workers| && RestFrom(s, n)
    ensures Runs(s, steps, t) && WorkersMoved(s, t) && t.queue == s.queue && RestFrom(t, 0)
    decreases n
  {
    hide Runs, Claim;
    if n == 0 {
      steps, t := [], s;
      NoSteps(s);
    } else {
      var a, u := FinishWorker(s, n - 1);
      steps, t := FinishWorkers(u, n - 1);
      RunsAppend(s, a, u, steps, t);
      steps := a + steps;
    }
  }

  /** Any worker that is ready can take all that is queued, in order. */
  lemma {:induction false} DrainQueue(s: State, w: nat) returns (steps: seq<Step>, t: State)
    requires w < |s.workers| && s.workers[w].pc.Ready?
    ensures Runs(s, steps, t) && WorkersMoved(s, t) && t.queue == []
    ensures t.workers[w] == Worker(Ready, s.workers[w].sent + s.queue)
    ensures forall v :: 0 <= v < |s.workers| && v != w ==> t.workers[v] == s.workers[v]
    decreases |s.queue|
  {
    hide Encode, Runs;
    if s.queue == [] {
      steps, t := [], s;
      NoSteps(s);
      assert s.workers[w].sent + s.queue == s.workers[w].sent;
    } else {
      var u := Apply(s, Dequeue(w));
      OneStep(s, Dequeue(w));
      var a, v := FinishWorker(u, w);
      RunsAppend(s, [Dequeue(w)], u, a, v);
      steps, t := DrainQueue(v, w);
      RunsAppend(s, [Dequeue(w)] + a, v, steps, t);
      steps := [Dequeue(w)] + a + steps;
      assert s.queue == [s.queue[0]] + s.queue[1..];
      assert s.workers[w].sent + s.queue == (s.workers[w].sent + [s.queue[0]]) + s.queue[1..];
    }
  }

  /** A worker that has just registered takes what is queued. */
  lemma TakeOver(s: State) returns (steps: seq<Step>, t: State)
    requires RestFrom(s, 0)
    ensures Runs(s, steps, t) && t.producer == s.producer && t.writer == s.writer && t.listed == s.listed
    ensures t.queue == [] && RestFrom(t, 0)
  {
    hide Runs, Encode;
    var u, w := Apply(s, Register), |s.workers|;
    OneStep(s, Register);
    steps, t := DrainQueue(u, w);
    RunsAppend(s, [Register], u, steps, t);
    steps := [Register] + steps;
  }

  /** The workers below n leave, one after the other. */
  lemma {:induction false} Leave(s: State, n: nat) returns (steps: seq<Step>, t: State)
    requires n <= |s.workers| && RestFrom(s, 0) && forall w :: n <= w < |s.workers| ==> s.workers[w].pc.Gone?
    ensures Runs(s, steps, t) && WorkersMoved(s, t) && t.queue == s.queue
    ensures forall w :: 0 <= w < |t.workers| ==> t.workers[w] == Worker(Gone, s.workers[w].sent)
    decreases n
  {
    hide Runs, Encode;
    if n == 0 {
      steps, t := [], s;
      NoSteps(s);
    } else if s.workers[n - 1].pc.Gone? {
      steps, t := Leave(s, n - 1);
    } else {
      var u := Apply(s, Quit(n - 1));
      OneStep(s, Quit(n - 1));
      steps, t := Leave(u, n - 1);
      RunsAppend(s, [Quit(n - 1)], u, steps, t);
      steps := [Quit(n - 1)] + steps;
    }
  }

  // ----- Everything -----

  ghost predicate AllGone(s: State) {
    forall w :: 0 <= w < |s.workers| ==> s.workers[w].pc.Gone?
  }

  /** Nothing is under way or waiting, and all workers have left. */
  ghost predicate Quiet(s: State) {
    && s.producer.Idle? && s.queue == [] && s.unpersistent == [] && s.writer.BetweenPasses?
    && AllGone(s) && s.durableSent == s.indexSent
  }

  lemma FinishThreads(s: State) returns (steps: seq<Step>, t: State)
    requires Inv(s)
    ensures Runs(s, steps, t) && Inv(t) && t.listed == s.listed
    ensures t.producer.Idle? && t.writer.BetweenPasses? && t.queue == [] && AllGone(t)
  {
    hide Runs, RestFrom, ListsInv, CursorInv, WriteInv, ClaimInv, CreditInv;
    var a, p := FinishProducer(s);
    var b, q := FinishPass(p);
    RunsAppend(s, a, p, b, q);
    assert RestFrom(q, |q.workers|) by {
      NoneFrom(q);
    }
    var c, r := FinishWorkers(q, |q.workers|);
    RunsAppend(s, a + b, q, c, r);
    var d, v := TakeOver(r);
    RunsAppend(s, a + b + c, r, d, v);
    steps, t := Leave(v, |v.workers|);
    RunsAppend(s, a + b + c + d, v, steps, t);
    steps := a + b + c + d + steps;
    RunKept(s, steps, t);
  }

  lemma NoneFrom(s: State)
    ensures RestFrom(s, |s.workers|)
  {
  }

  /** Every state of every interleaving can be completed. */
  lemma Completes(s: State, before: seq<Step>, t: State) returns (steps: seq<Step>, u: State)
    requires Started(s) && Runs(s, before, t)
    ensures Runs(t, steps, u) && Quiet(u) && u.listed == t.listed && u.data == EncodeItems(u.listed)
    ensures forall k :: u.base <= k < |u.listed| ==> SentOnce(u, k)
  {
    hide Started, Runs, RestFrom, ItemOk, EncodeItems, Sum, Picked;
    StartedInv(s);
    RunKept(s, before, t);
    var a, v := FinishThreads(t);
    steps, u := WholePass(v);
    RunsAppend(t, a, v, steps, u);
    steps := a + steps;
    assert u.listed[..|u.listed|] == u.listed;
    forall k | u.base <= k < |u.listed| ensures SentOnce(u, k) {
      QuietSent(u, k);
    }
  }

  /** Exactly one worker has sent frame k. */
  ghost predicate SentOnce(s: State, k: int)
    requires 0 <= k < |s.listed|
  {
    exists w :: 0 <= w < |s.workers| && s.listed[k] in s.workers[w].sent
                && forall v :: 0 <= v < |s.workers| && v != w ==> s.listed[k] !in s.workers[v].sent
  }

  lemma QuietSent(s: State, k: nat)
    requires ListsInv(s) && ClaimInv(s) && Quiet(s) && s.base <= k < |s.listed|
    ensures SentOnce(s, k)
  {
    hide ItemOk, EncodeItems, Picked;
    Conservation(s, k);
    var w := s.owner[k - s.base];
    assert s.listed[k] in s.workers[w].sent;
  }

  /** In every state of every interleaving the producer can get any further frame enqueued. */
  lemma Publishes(s: State, before: seq<Step>, t: State, msg: Message, size: nat) returns (steps: seq<Step>, u: State)
    requires Started(s) && Runs(s, before, t) && size > 0
    ensures Runs(t, steps, u) && u.producer.Idle? && u.listed == t.listed + [Item(|t.listed|, msg, size)]
    ensures Enqueued(u) == |t.listed| + 1
  {
    hide Runs, Encode, EncodeItems, CursorInv, WriteInv, ClaimInv, CreditInv, Started;
    StartedInv(s);
    RunKept(s, before, t);
    var a, p := FinishProducer(t);
    var b, q := FinishPass(p);
    RunsAppend(t, a, p, b, q);
    steps, u := a + b, q;
    RunSnoc(t, steps, u, ListFrame(msg, size));
    steps, u := steps + [ListFrame(msg, size)], Apply(u, ListFrame(msg, size));
    RunSnoc(t, steps, u, CountFrame);
    steps, u := steps + [CountFrame], Apply(u, CountFrame);
    RunSnoc(t, steps, u, EnqueueFrame);
    steps, u := steps + [EnqueueFrame], Apply(u, EnqueueFrame);
  }
}
