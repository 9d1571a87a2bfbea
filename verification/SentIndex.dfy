/**
 index_sent under races: the sending workers add the size of a frame with a read and a write and
 no lock (src/lib/persistent_worker.c:454-470). The index is exact if and only if no two updates
 overlap.
 */
module SentIndex {
  import opened Frames
  import opened QueueLog
  import opened Pipeline

  // ----- Updates that do not overlap -----

  /** No worker reads index_sent while another one is between its read and its write. */
  ghost predicate Serial(s: State, step: Step) {
    step.ReadSent? ==> forall w :: 0 <= w < |s.workers| ==> !s.workers[w].pc.Read?
  }

  ghost predicate ExactInv(s: State) {
    && 0 <= Dequeued(s) <= |s.listed|
    && s.indexSent + Owed(s.workers) == Sum(s.listed[..Dequeued(s)])
    && (forall w :: 0 <= w < |s.workers| && s.workers[w].pc.Read? ==> s.workers[w].pc.seen == s.indexSent)
    && (forall v, w :: 0 <= v < w < |s.workers| ==> !(s.workers[v].pc.Read? && s.workers[w].pc.Read?))
  }

  lemma WorkerStepKeepsExact(s: State, step: Step)
    requires step.Send? || step.ReadSent? || step.WriteSent? || step.Quit?
    requires Enabled(s, step) && ExactInv(s) && Serial(s, step)
    ensures ExactInv(Apply(s, step))
  {
    hide Owed, Sum, Encode;
    OwedUpdate(s.workers, step.w, Apply(s, step).workers[step.w]);
  }

  lemma DequeueKeepsExact(s: State, w: nat)
    requires Enabled(s, Dequeue(w)) && ListsInv(s) && ExactInv(s)
    ensures ExactInv(Apply(s, Dequeue(w)))
  {
    hide Owed, Sum, Encode, ItemOk, EncodeItems, ListsInv;
    OwedUpdate(s.workers, w, Apply(s, Dequeue(w)).workers[w]);
    DequeueSums(s);
  }

  lemma ExactKept(s: State, step: Step)
    requires Enabled(s, step) && ListsInv(s) && ExactInv(s) && Serial(s, step)
    ensures ExactInv(Apply(s, step))
  {
    hide Owed, Sum, Encode, ItemOk, EncodeItems, ListsInv;
    match step
    case Dequeue(w) => DequeueKeepsExact(s, w);
    case Send(w) => WorkerStepKeepsExact(s, step);
    case ReadSent(w) => WorkerStepKeepsExact(s, step);
    case WriteSent(w) => WorkerStepKeepsExact(s, step);
    case Quit(w) => WorkerStepKeepsExact(s, step);
    case Register => OwedAdded(s.workers, Worker(Ready, []));
    case ListFrame(_, _) => assert Apply(s, step).listed[..Dequeued(s)] == s.listed[..Dequeued(s)];
    case _ =>
  }

  /** No update of the run overlaps with another one. */
  ghost predicate AllSerial(s: State, steps: seq<Step>)
    decreases |steps|
  {
    steps == [] || (Enabled(s, steps[0]) && Serial(s, steps[0]) && AllSerial(Apply(s, steps[0]), steps[1..]))
  }

  lemma {:induction false} SerialRunKept(s: State, steps: seq<Step>, t: State)
    requires Inv(s) && ExactInv(s) && Runs(s, steps, t) && AllSerial(s, steps)
    ensures Inv(t) && ExactInv(t)
    decreases |steps|
  {
    hide ExactInv, Enabled, Apply, Serial, CursorInv, WriteInv, ClaimInv, CreditInv, ListsInv;
    if steps != [] {
      StepKept(s, steps[0]);
      ExactKept(s, steps[0]);
      SerialRunKept(Apply(s, steps[0]), steps[1..], t);
    }
  }

  // ----- Updates that overlap -----

  ghost predicate Reading(s: State, w: int) {
    0 <= w < |s.workers| && s.workers[w].pc.Read?
  }

  ghost predicate TwoReading(s: State) {
    exists v, w :: v != w && Reading(s, v) && Reading(s, w)
  }

  /** Some size is lost for good: it is missing from every value from which index_sent can still be computed. */
  ghost predicate LossInv(s: State) {
    && 0 <= Dequeued(s) <= |s.listed|
    && (|| TwoReading(s)
        || (&& (forall w :: Reading(s, w) ==> s.workers[w].pc.seen + Owed(s.workers) < Sum(s.listed[..Dequeued(s)]))
            && ((exists w :: Reading(s, w)) || s.indexSent + Owed(s.workers) < Sum(s.listed[..Dequeued(s)]))))
  }

  /** Every frame in a worker's hands has a positive size. */
  ghost predicate HandsOk(s: State) {
    forall w :: 0 <= w < |s.workers| ==> s.workers[w].pc.Ready? || s.workers[w].pc.Gone? || 0 < s.workers[w].pc.item.size
  }

  lemma HandsKept(s: State, step: Step)
    requires Enabled(s, step) && ListsInv(s) && HandsOk(s)
    ensures HandsOk(Apply(s, step))
  {
    hide Encode, EncodeItems;
    if step.Dequeue? {
      QueueHead(s);
    }
  }

  lemma ReadKeepsLoss(s: State, w: nat)
    requires Enabled(s, ReadSent(w)) && LossInv(s)
    ensures LossInv(Apply(s, ReadSent(w)))
  {
    hide Owed, Sum, Encode;
    var t := Apply(s, ReadSent(w));
    OwedUpdate(s.workers, w, t.workers[w]);
    assert Reading(t, w);
    assert forall v :: Reading(s, v) ==> v != w && Reading(t, v);
    assert forall v :: Reading(t, v) && v != w ==> Reading(s, v);
  }

  lemma WriteKeepsLoss(s: State, w: nat)
    requires Enabled(s, WriteSent(w)) && CreditInv(s) && LossInv(s) && HandsOk(s)
    ensures LossInv(Apply(s, WriteSent(w)))
  {
    hide Owed, Sum, Encode;
    var t := Apply(s, WriteSent(w));
    OwedUpdate(s.workers, w, t.workers[w]);
    assert Reading(s, w);
    assert forall v :: Reading(t, v) <==> v != w && Reading(s, v);
  }

  lemma OtherKeepsLoss(s: State, step: Step)
    requires step.Send? || step.Quit? || step.Register?
    requires Enabled(s, step) && LossInv(s)
    ensures LossInv(Apply(s, step))
  {
    hide Owed, Sum, Encode;
    var t := Apply(s, step);
    if step.Register? {
      OwedAdded(s.workers, Worker(Ready, []));
    } else {
      OwedUpdate(s.workers, step.w, t.workers[step.w]);
    }
    assert forall v :: Reading(t, v) <==> Reading(s, v);
  }

  lemma DequeueKeepsLoss(s: State, w: nat)
    requires Enabled(s, Dequeue(w)) && ListsInv(s) && LossInv(s)
    ensures LossInv(Apply(s, Dequeue(w)))
  {
    hide Owed, Sum, Encode, ItemOk, EncodeItems, ListsInv;
    var t := Apply(s, Dequeue(w));
    OwedUpdate(s.workers, w, t.workers[w]);
    DequeueSums(s);
    assert forall v :: Reading(t, v) <==> Reading(s, v);
  }

  /** Nothing that the producer and the persistent worker do matters. */
  lemma LossFrame(s: State, t: State)
    requires LossInv(s) && t.workers == s.workers && t.indexSent == s.indexSent && Dequeued(t) == Dequeued(s)
    requires s.listed <= t.listed
    ensures LossInv(t)
  {
    hide Owed, Sum;
    assert t.listed[..Dequeued(t)] == s.listed[..Dequeued(s)];
    assert forall v :: Reading(t, v) <==> Reading(s, v);
  }

  lemma LossKept(s: State, step: Step)
    requires Enabled(s, step) && ListsInv(s) && CreditInv(s) && LossInv(s) && HandsOk(s)
    ensures LossInv(Apply(s, step))
  {
    hide Encode, EncodeItems, ListsInv, LossInv, CreditInv, HandsOk;
    match step
    case Dequeue(w) => DequeueKeepsLoss(s, w);
    case ReadSent(w) => ReadKeepsLoss(s, w);
    case WriteSent(w) => WriteKeepsLoss(s, w);
    case Send(w) => OtherKeepsLoss(s, step);
    case Quit(w) => OtherKeepsLoss(s, step);
    case Register => OtherKeepsLoss(s, step);
    case _ => LossFrame(s, Apply(s, step));
  }

  /** The first overlapping read starts the loss. */
  lemma OverlapStartsLoss(s: State, step: Step)
    requires Enabled(s, step) && CreditInv(s) && !Serial(s, step)
    ensures LossInv(Apply(s, step))
  {
    hide Owed, Sum, Encode;
    var t := Apply(s, step);
    var v :| 0 <= v < |s.workers| && s.workers[v].pc.Read?;
    assert Reading(t, v) && Reading(t, step.w) && v != step.w;
  }

  lemma {:induction false} OverlapLoses(s: State, steps: seq<Step>, t: State, lost: bool)
    requires Inv(s) && HandsOk(s) && Runs(s, steps, t)
    requires if lost then LossInv(s) else !AllSerial(s, steps)
    ensures LossInv(t)
    decreases |steps|
  {
    hide Enabled, Apply, Serial, LossInv, HandsOk, CursorInv, WriteInv, ClaimInv, CreditInv, ListsInv;
    if steps != [] {
      var step := steps[0];
      StepKept(s, step);
      HandsKept(s, step);
      if lost {
        LossKept(s, step);
        OverlapLoses(Apply(s, step), steps[1..], t, true);
      } else if Serial(s, step) {
        OverlapLoses(Apply(s, step), steps[1..], t, false);
      } else {
        OverlapStartsLoss(s, step);
        OverlapLoses(Apply(s, step), steps[1..], t, true);
      }
    }
  }

  // ----- The exact condition -----

  ghost predicate NothingInFlight(s: State) {
    forall w :: w in s.workers ==> w.pc.Ready? || w.pc.Gone?
  }

  /**
   For every run that ends with nothing in flight, index_sent is the sum of the dequeued sizes if
   and only if no two updates overlapped; otherwise it is smaller.
   */
  lemma SentIndexExactIff(s: State, steps: seq<Step>, t: State)
    requires Started(s) && s.indexSent == Sum(s.listed[..s.base]) && Runs(s, steps, t) && NothingInFlight(t)
    ensures 0 <= Dequeued(t) <= |t.listed| && t.indexSent <= Sum(t.listed[..Dequeued(t)])
    ensures t.indexSent == Sum(t.listed[..Dequeued(t)]) <==> AllSerial(s, steps)
  {
    hide ListsInv, CursorInv, WriteInv, ClaimInv, Runs, AllSerial, Sum;
    StartedInv(s);
    RunKept(s, steps, t);
    OwedNothing(t.workers);
    if AllSerial(s, steps) {
      StartedExact(s);
      SerialRunKept(s, steps, t);
    } else {
      assert HandsOk(s);
      OverlapLoses(s, steps, t, false);
      assert forall w :: !Reading(t, w) by {
        forall w | 0 <= w < |t.workers| ensures !t.workers[w].pc.Read? {
          assert t.workers[w] in t.workers;
        }
      }
    }
  }

  lemma StartedExact(s: State)
    requires Started(s) && s.indexSent == Sum(s.listed[..s.base])
    ensures ExactInv(s)
  {
    hide EncodeItems, ItemOk, Sum;
    OwedNothing(s.workers);
  }

  /** Two overlapping updates lose one of the two sizes, in every state in which they can happen. */
  lemma LostUpdate(s: State, v: nat, w: nat)
    requires v != w && v < |s.workers| && w < |s.workers|
    requires s.workers[v].pc.Delivered? && s.workers[w].pc.Delivered?
    ensures exists t :: Runs(s, [ReadSent(v), ReadSent(w), WriteSent(v), WriteSent(w)], t)
                        && t.indexSent == s.indexSent + s.workers[w].pc.item.size
  {
    var a := Apply(s, ReadSent(v));
    var b := Apply(a, ReadSent(w));
    var c := Apply(b, WriteSent(v));
    var t := Apply(c, WriteSent(w));
    assert t.indexSent == s.indexSent + s.workers[w].pc.item.size;
    FourSteps(s, a, b, c, t, ReadSent(v), ReadSent(w), WriteSent(v), WriteSent(w));
  }

  lemma FourSteps(s: State, a: State, b: State, c: State, t: State, p: Step, q: Step, x: Step, y: Step)
    requires Enabled(s, p) && a == Apply(s, p)
    requires Enabled(a, q) && b == Apply(a, q)
    requires Enabled(b, x) && c == Apply(b, x)
    requires Enabled(c, y) && t == Apply(c, y)
    ensures Runs(s, [p, q, x, y], t)
  {
    hide Enabled, Apply;
    assert [p, q, x, y][1..] == [q, x, y] && [q, x, y][1..] == [x, y] && [x, y][1..] == [y] && [y][1..] == [];
    assert Runs(c, [y], t);
    assert Runs(b, [x, y], t);
    assert Runs(a, [q, x, y], t);
  }
}
