/**
 One queue and the threads that work on it, as a transition system of atomic steps:

 - the management worker (the only producer) lists a frame for the log, counts it in index_head,
   and only then enqueues it (src/lib/stomp_proto_send.c:94-98, src/lib/persistent_worker.c:439-452);
 - any number of sending workers dequeue a frame, send it, and add its size to index_sent, which is
   a read and a write without a lock (src/lib/stomp_sending_worker.c:178-193);
 - the persistent worker writes index_sent to disk, and then drains the listed frames to the data
   file under the lock of the list (src/lib/persistent_worker.c:313-327, 268-305).
 */
module Pipeline {
  import opened Frames
  import opened QueueLog

  /** A frame_t on its way: id is its place in the order of listing, size its size field. */
  datatype Item = Item(id: nat, msg: Message, size: nat)

  datatype Producer = Idle | Listed(item: Item) | Counted(item: Item)

  datatype Pc = Ready | Holding(item: Item) | Delivered(item: Item) | Read(item: Item, seen: int) | Gone

  /** `sent` is the history of what the worker has sent. */
  datatype Worker = Worker(pc: Pc, sent: seq<Item>)

  datatype Writer = BetweenPasses | IndexWritten | Waiting | Draining | Appended(size: nat)

  /**
   The last three fields are history: every item ever listed, the ones that a restart found in the
   data file included; the number of those that the restart took for sent; and the worker that
   dequeued each of the others, as far as they have been dequeued.
   */
  datatype State = State(
    indexHead: int, indexSent: int, indexPersistent: int,
    unpersistent: seq<Item>, queue: seq<Item>,
    producer: Producer, workers: seq<Worker>, writer: Writer,
    data: string, durableSent: int,
    listed: seq<Item>, base: nat, owner: seq<nat>)

  datatype Step =
    | ListFrame(msg: Message, size: nat) | CountFrame | EnqueueFrame
    | Register | Dequeue(w: nat) | Send(w: nat) | ReadSent(w: nat) | WriteSent(w: nat) | Quit(w: nat)
    | WriteIndex | CheckCursors | LockList | AppendFrame | AdvancePersistent | UnlockList

  /** Every frame past its name has a positive size. */
  predicate ItemOk(x: Item) {
    0 < x.size
  }

  /** The size counts no more bytes than the serializer writes. */
  predicate Covered(x: Item) {
    x.size <= |Encode(x.msg)|
  }

  predicate Enabled(s: State, step: Step) {
    match step
    case ListFrame(msg, size) => s.producer.Idle? && !ListLocked(s) && ItemOk(Item(|s.listed|, msg, size))
    case CountFrame => s.producer.Listed?
    case EnqueueFrame => s.producer.Counted?
    case Register => true
    case Dequeue(w) => w < |s.workers| && s.workers[w].pc.Ready? && s.queue != []
    case Send(w) => w < |s.workers| && s.workers[w].pc.Holding?
    case ReadSent(w) => w < |s.workers| && s.workers[w].pc.Delivered?
    case WriteSent(w) => w < |s.workers| && s.workers[w].pc.Read?
    case Quit(w) => w < |s.workers| && s.workers[w].pc.Ready?
    case WriteIndex => s.writer.BetweenPasses?
    case CheckCursors => s.writer.IndexWritten?
    case LockList => s.writer.Waiting?
    case AppendFrame => s.writer.Draining? && s.unpersistent != []
    case AdvancePersistent => s.writer.Appended?
    case UnlockList => s.writer.Draining? && s.unpersistent == []
  }

  predicate ListLocked(s: State) {
    s.writer.Draining? || s.writer.Appended?
  }

  function SetPc(s: State, w: nat, pc: Pc): State
    requires w < |s.workers|
  {
    s.(workers := s.workers[w := s.workers[w].(pc := pc)])
  }

  function Apply(s: State, step: Step): State
    requires Enabled(s, step)
  {
    match step
    case ListFrame(msg, size) =>
      var x := Item(|s.listed|, msg, size);
      s.(producer := Listed(x), unpersistent := s.unpersistent + [x], listed := s.listed + [x])
    case CountFrame => s.(producer := Counted(s.producer.item), indexHead := s.indexHead + s.producer.item.size)
    case EnqueueFrame => s.(producer := Idle, queue := s.queue + [s.producer.item])
    case Register => s.(workers := s.workers + [Worker(Ready, [])])
    case Dequeue(w) => SetPc(s, w, Holding(s.queue[0])).(queue := s.queue[1..], owner := s.owner + [w])
    case Send(w) =>
      var x := s.workers[w].pc.item;
      s.(workers := s.workers[w := Worker(Delivered(x), s.workers[w].sent + [x])])
    case ReadSent(w) => SetPc(s, w, Read(s.workers[w].pc.item, s.indexSent))
    case WriteSent(w) =>
      var pc := s.workers[w].pc;
      SetPc(s, w, Ready).(indexSent := pc.seen + pc.item.size)
    case Quit(w) => SetPc(s, w, Gone)
    case WriteIndex => s.(durableSent := s.indexSent, writer := IndexWritten)
    case CheckCursors => s.(writer := if s.indexHead > s.indexPersistent then Waiting else BetweenPasses)
    case LockList => s.(writer := Draining)
    case AppendFrame =>
      var x := s.unpersistent[0];
      s.(unpersistent := s.unpersistent[1..], data := s.data + Encode(x.msg), writer := Appended(x.size))
    case AdvancePersistent => s.(indexPersistent := s.indexPersistent + s.writer.size, writer := Draining)
    case UnlockList => s.(writer := BetweenPasses)
  }

  // ----- Sums -----

  function Sum(xs: seq<Item>): nat {
    if xs == [] then 0 else Sum(xs[..|xs| - 1]) + xs[|xs| - 1].size
  }

  function EncodeItems(xs: seq<Item>): string {
    if xs == [] then "" else EncodeItems(xs[..|xs| - 1]) + Encode(xs[|xs| - 1].msg)
  }

  lemma SumSnoc(xs: seq<Item>, x: Item)
    ensures Sum(xs + [x]) == Sum(xs) + x.size
    ensures EncodeItems(xs + [x]) == EncodeItems(xs) + Encode(x.msg)
  {
    assert (xs + [x])[..|xs|] == xs;
  }

  lemma {:induction false} SumAppend(xs: seq<Item>, ys: seq<Item>)
    ensures Sum(xs + ys) == Sum(xs) + Sum(ys)
  {
    if ys == [] {
      assert xs + ys == xs;
    } else {
      var n := |ys| - 1;
      assert xs + ys == (xs + ys[..n]) + [ys[n]];
      SumSnoc(xs + ys[..n], ys[n]);
      SumAppend(xs, ys[..n]);
    }
  }

  lemma SumFirst(xs: seq<Item>)
    requires xs != []
    ensures Sum(xs) == xs[0].size + Sum(xs[1..])
  {
    assert xs == [xs[0]] + xs[1..];
    SumAppend([xs[0]], xs[1..]);
    assert [xs[0]][..0] == [];
  }

  lemma SumMonotone(xs: seq<Item>, i: nat, j: nat)
    requires i <= j <= |xs|
    ensures Sum(xs[..i]) <= Sum(xs[..j])
  {
    assert xs[..j] == xs[..i] + xs[i..j];
    SumAppend(xs[..i], xs[i..j]);
  }

  lemma {:induction false} SumBelowLength(xs: seq<Item>)
    requires forall x :: x in xs ==> Covered(x)
    ensures Sum(xs) <= |EncodeItems(xs)|
  {
    hide Encode;
    if xs != [] {
      assert Covered(xs[|xs| - 1]);
      SumBelowLength(xs[..|xs| - 1]);
    }
  }

  // ----- The lists -----

  function Enqueued(s: State): int {
    if s.producer.Idle? then |s.listed| else |s.listed| - 1
  }

  function Dequeued(s: State): int {
    Enqueued(s) - |s.queue|
  }

  function Flushed(s: State): int {
    |s.listed| - |s.unpersistent|
  }

  /** The three lists are windows of the listing order, and the data file holds what has left h_unpersistent. */
  ghost predicate ListsInv(s: State) {
    && (forall i :: 0 <= i < |s.listed| ==> s.listed[i].id == i && ItemOk(s.listed[i]))
    && 0 <= s.base <= Dequeued(s)
    && (!s.producer.Idle? ==> s.listed != [] && s.producer.item == s.listed[|s.listed| - 1])
    && 0 <= Flushed(s) && s.unpersistent == s.listed[Flushed(s)..]
    && s.queue == s.listed[Dequeued(s)..Enqueued(s)]
    && s.data == EncodeItems(s.listed[..Flushed(s)])
  }

  lemma ListFrameKept(s: State, step: Step)
    requires step.ListFrame? && Enabled(s, step) && ListsInv(s)
    ensures ListsInv(Apply(s, step))
  {
    hide ItemOk, EncodeItems, Encode;
    var t := Apply(s, step);
    var x := t.producer.item;
    assert t.listed[..Flushed(s)] == s.listed[..Flushed(s)];
    assert t.listed[Flushed(s)..] == s.listed[Flushed(s)..] + [x];
    assert t.listed[Dequeued(s)..Enqueued(s)] == s.listed[Dequeued(s)..Enqueued(s)];
  }

  lemma AppendFrameKept(s: State)
    requires Enabled(s, AppendFrame) && ListsInv(s)
    ensures ListsInv(Apply(s, AppendFrame))
  {
    hide ItemOk, EncodeItems, Encode;
    var n := Flushed(s);
    assert s.unpersistent[0] == s.listed[n];
    assert s.unpersistent[1..] == s.listed[n + 1..];
    assert s.listed[..n + 1] == s.listed[..n] + [s.listed[n]];
    SumSnoc(s.listed[..n], s.listed[n]);
  }

  lemma EnqueueKept(s: State)
    requires Enabled(s, EnqueueFrame) && ListsInv(s)
    ensures ListsInv(Apply(s, EnqueueFrame))
  {
    hide ItemOk, EncodeItems, Encode;
    var d, n := Dequeued(s), |s.listed|;
    assert s.listed[d..n] == s.listed[d..n - 1] + [s.listed[n - 1]];
  }

  lemma DequeueKept(s: State, w: nat)
    requires Enabled(s, Dequeue(w)) && ListsInv(s)
    ensures ListsInv(Apply(s, Dequeue(w)))
  {
    hide ItemOk, EncodeItems, Encode, ListsInv;
    WindowShrinks(s);
    ListsQueue(s, Apply(s, Dequeue(w)));
  }

  lemma WindowShrinks(s: State)
    requires ListsInv(s) && s.queue != []
    ensures 0 <= Dequeued(s) < Enqueued(s) <= |s.listed|
    ensures s.queue[1..] == s.listed[Dequeued(s) + 1..Enqueued(s)]
  {
    hide ItemOk, EncodeItems;
    var d, n := Dequeued(s), Enqueued(s);
    assert s.listed[d..n][1..] == s.listed[d + 1..n];
  }

  lemma ListsQueue(s: State, t: State)
    requires ListsInv(s) && s.queue != [] && t.queue == s.queue[1..]
    requires t.listed == s.listed && t.base == s.base && t.unpersistent == s.unpersistent && t.data == s.data && t.producer == s.producer
    requires 0 <= Dequeued(s) < Enqueued(s) <= |s.listed| && s.queue[1..] == s.listed[Dequeued(s) + 1..Enqueued(s)]
    ensures ListsInv(t)
  {
    hide ItemOk, EncodeItems;
  }

  /** The rest of the state does not matter for the lists. */
  lemma ListsFrame(s: State, t: State)
    requires ListsInv(s)
    requires t.listed == s.listed && t.base == s.base && t.unpersistent == s.unpersistent && t.queue == s.queue && t.data == s.data
    requires t.producer == s.producer || (s.producer.Listed? && t.producer == Counted(s.producer.item))
    ensures ListsInv(t)
  {
    hide ItemOk, EncodeItems;
  }

  lemma ListsKept(s: State, step: Step)
    requires Enabled(s, step) && ListsInv(s)
    ensures ListsInv(Apply(s, step))
  {
    hide ItemOk, EncodeItems, Encode, ListsInv;
    match step
    case ListFrame(msg, size) => ListFrameKept(s, step);
    case EnqueueFrame => EnqueueKept(s);
    case Dequeue(w) => DequeueKept(s, w);
    case AppendFrame => AppendFrameKept(s);
    case _ => ListsFrame(s, Apply(s, step));
  }

  // ----- The cursors -----

  /** The size of the frame that is listed but not yet counted in index_head. */
  function Uncounted(s: State): nat {
    if s.producer.Listed? then s.producer.item.size else 0
  }

  /** The size of the frame that is written but not yet counted in index_persistent. */
  function Unadvanced(s: State): nat {
    if s.writer.Appended? then s.writer.size else 0
  }

  ghost predicate CursorInv(s: State) {
    s.indexHead + Uncounted(s) == s.indexPersistent + Unadvanced(s) + Sum(s.unpersistent)
  }

  lemma CursorsKept(s: State, step: Step)
    requires Enabled(s, step) && CursorInv(s)
    ensures CursorInv(Apply(s, step))
  {
    hide ItemOk, Sum, Encode;
    match step
    case ListFrame(msg, size) => SumSnoc(s.unpersistent, Item(|s.listed|, msg, size));
    case AppendFrame => SumFirst(s.unpersistent);
    case _ =>
  }

  /** When the check of the cursors finds nothing to do, every enqueued frame is in the data file. */
  lemma SkipMissesNothing(s: State)
    requires ListsInv(s) && CursorInv(s) && s.writer.IndexWritten? && s.indexHead <= s.indexPersistent
    ensures Flushed(s) >= Enqueued(s)
  {
    var u := s.unpersistent;
    if u != [] {
      SumLast(u);
    }
  }

  lemma SumLast(xs: seq<Item>)
    requires xs != [] && forall x :: x in xs ==> x.size > 0
    ensures Sum(xs) >= xs[|xs| - 1].size > 0
    ensures |xs| > 1 ==> Sum(xs) > xs[|xs| - 1].size
  {
    if |xs| > 1 {
      var ys := xs[..|xs| - 1];
      assert ys[|ys| - 1] in xs;
    }
  }

  // ----- Write order -----

  ghost predicate WriteInv(s: State) {
    && 0 <= Enqueued(s) <= |s.listed| && 0 <= Flushed(s)
    && s.durableSent <= Sum(s.listed[..if s.writer.BetweenPasses? then Flushed(s) else Enqueued(s)])
  }

  lemma PassEndKept(s: State, step: Step)
    requires step.CheckCursors? || step.UnlockList?
    requires Enabled(s, step) && ListsInv(s) && CursorInv(s) && WriteInv(s)
    ensures WriteInv(Apply(s, step))
  {
    hide ItemOk, Sum, Encode, EncodeItems, CursorInv;
    if Apply(s, step).writer.BetweenPasses? {
      if step.CheckCursors? {
        SkipMissesNothing(s);
      }
      SumMonotone(s.listed, Enqueued(s), Flushed(s));
    }
  }

  lemma WriteKept(s: State, step: Step)
    requires Enabled(s, step) && ListsInv(s) && CursorInv(s) && WriteInv(s)
    requires s.indexSent <= Sum(s.listed[..Enqueued(s)])
    ensures WriteInv(Apply(s, step))
  {
    hide ItemOk, Sum, Encode, EncodeItems, CursorInv, ListsInv;
    var t := Apply(s, step);
    match step
    case ListFrame(msg, size) =>
      assert t.listed[..Flushed(s)] == s.listed[..Flushed(s)];
      assert t.listed[..Enqueued(s)] == s.listed[..Enqueued(s)];
    case EnqueueFrame => SumMonotone(s.listed, Enqueued(s), Enqueued(t));
    case CheckCursors => PassEndKept(s, step);
    case UnlockList => PassEndKept(s, step);
    case _ =>
  }

  // ----- Who got what -----

  /** What a worker has taken from the queue, in order. */
  function Claim(w: Worker): seq<Item> {
    if w.pc.Holding? then w.sent + [w.pc.item] else w.sent
  }

  /** The items of xs that went to worker w, in the order of xs. */
  function Picked(xs: seq<Item>, owner: seq<nat>, w: nat): seq<Item>
    requires |xs| == |owner|
  {
    if xs == [] then []
    else
      var n := |xs| - 1;
      Picked(xs[..n], owner[..n], w) + (if owner[n] == w then [xs[n]] else [])
  }

  /** Every frame handed out went to exactly one worker, and every worker got its frames in queue order. */
  ghost predicate ClaimInv(s: State) {
    && 0 <= s.base <= Dequeued(s) <= |s.listed|
    && |s.owner| == Dequeued(s) - s.base
    && (forall k :: 0 <= k < |s.owner| ==> s.owner[k] < |s.workers|)
    && forall w :: 0 <= w < |s.workers| ==> Claim(s.workers[w]) == Picked(s.listed[s.base..Dequeued(s)], s.owner, w)
  }

  lemma ClaimsFrame(s: State, t: State)
    requires ClaimInv(s) && |t.workers| == |s.workers| && t.base == s.base && Dequeued(t) == Dequeued(s) && t.owner == s.owner
    requires s.listed <= t.listed
    requires forall w :: 0 <= w < |s.workers| ==> Claim(t.workers[w]) == Claim(s.workers[w])
    ensures ClaimInv(t)
  {
    hide Picked, Claim;
    assert t.listed[t.base..Dequeued(t)] == s.listed[s.base..Dequeued(s)];
  }

  lemma PickedSnoc(xs: seq<Item>, owner: seq<nat>, x: Item, v: nat, w: nat)
    requires |xs| == |owner|
    ensures Picked(xs + [x], owner + [v], w) == Picked(xs, owner, w) + (if v == w then [x] else [])
  {
    assert (xs + [x])[..|xs|] == xs && (owner + [v])[..|xs|] == owner;
  }

  lemma {:induction false} PickedNone(xs: seq<Item>, owner: seq<nat>, w: nat)
    requires |xs| == |owner| && forall k :: 0 <= k < |owner| ==> owner[k] < w
    ensures Picked(xs, owner, w) == []
  {
    if xs != [] {
      PickedNone(xs[..|xs| - 1], owner[..|xs| - 1], w);
    }
  }

  lemma QueueHead(s: State)
    requires ListsInv(s) && s.queue != []
    ensures 0 <= s.base <= Dequeued(s) < |s.listed| && s.queue[0] == s.listed[Dequeued(s)]
  {
    hide EncodeItems, ItemOk;
  }

  lemma SliceSnoc(xs: seq<Item>, i: nat, n: nat)
    requires i <= n < |xs|
    ensures xs[i..n + 1] == xs[i..n] + [xs[n]]
  {
  }

  lemma DequeueKeepsClaims(s: State, v: nat)
    requires Enabled(s, Dequeue(v)) && ListsInv(s) && ClaimInv(s)
    ensures ClaimInv(Apply(s, Dequeue(v)))
  {
    hide Picked, Encode, EncodeItems, ItemOk, ListsInv;
    var t, n := Apply(s, Dequeue(v)), Dequeued(s);
    var x := s.queue[0];
    QueueHead(s);
    SliceSnoc(s.listed, s.base, n);
    forall w | 0 <= w < |t.workers|
      ensures Claim(t.workers[w]) == Picked(s.listed[s.base..n + 1], t.owner, w)
    {
      PickedSnoc(s.listed[s.base..n], s.owner, x, v, w);
    }
  }

  lemma RegisterKeepsClaims(s: State)
    requires ClaimInv(s)
    ensures ClaimInv(Apply(s, Register))
  {
    hide Picked, Encode;
    PickedNone(s.listed[s.base..Dequeued(s)], s.owner, |s.workers|);
  }

  lemma ClaimsKept(s: State, step: Step)
    requires Enabled(s, step) && ListsInv(s) && ClaimInv(s)
    ensures ClaimInv(Apply(s, step))
  {
    hide Encode, EncodeItems, ItemOk, ListsInv, ClaimInv;
    match step
    case Dequeue(w) => DequeueKeepsClaims(s, w);
    case Register => RegisterKeepsClaims(s);
    case ListFrame(_, _) => ClaimsFrame(s, Apply(s, step));
    case EnqueueFrame => ClaimsFrame(s, Apply(s, step));
    case _ => ClaimsFrame(s, Apply(s, step));
  }

  /** Worker w has item k of the order if and only if it is the owner of k. */
  lemma {:induction false} PickedIff(xs: seq<Item>, owner: seq<nat>, w: nat, k: nat)
    requires |xs| == |owner| && k < |xs| && forall i, j :: 0 <= i < j < |xs| ==> xs[i] != xs[j]
    ensures xs[k] in Picked(xs, owner, w) <==> owner[k] == w
  {
    var n := |xs| - 1;
    PickedSubset(xs[..n], owner[..n], w);
    if k < n {
      PickedIff(xs[..n], owner[..n], w, k);
      assert xs[..n][k] == xs[k];
    } else {
      assert xs[n] !in xs[..n];
    }
  }

  lemma {:induction false} PickedSubset(xs: seq<Item>, owner: seq<nat>, w: nat)
    requires |xs| == |owner|
    ensures forall x :: x in Picked(xs, owner, w) ==> x in xs
  {
    if xs != [] {
      PickedSubset(xs[..|xs| - 1], owner[..|xs| - 1], w);
    }
  }

  /**
   Conservation: of the enqueued frames from base on, those below Dequeued are each with exactly one
   worker, sent or in its hands; the others are queued, in order.
   */
  lemma Conservation(s: State, k: nat)
    requires ListsInv(s) && ClaimInv(s) && s.base <= k < Enqueued(s)
    ensures k < Dequeued(s) ==> s.owner[k - s.base] < |s.workers|
    ensures forall w :: 0 <= w < |s.workers| ==>
              (s.listed[k] in Claim(s.workers[w]) <==> k < Dequeued(s) && s.owner[k - s.base] == w)
    ensures s.listed[k] in s.queue <==> k >= Dequeued(s)
  {
    hide Picked, Claim, EncodeItems, ItemOk;
    var n := Dequeued(s);
    var xs := s.listed[s.base..n];
    forall w | 0 <= w < |s.workers|
      ensures s.listed[k] in Picked(xs, s.owner, w) <==> k < n && s.owner[k - s.base] == w
    {
      if k < n {
        PickedIff(xs, s.owner, w, k - s.base);
      } else {
        PickedSubset(xs, s.owner, w);
      }
    }
    if k >= n {
      assert s.queue[k - n] == s.listed[k];
    }
  }

  // ----- index_sent -----

  /** The size that a worker has still to add to index_sent. */
  function Owes(w: Worker): nat {
    if w.pc.Ready? || w.pc.Gone? then 0 else w.pc.item.size
  }

  function Owed(ws: seq<Worker>): nat {
    if ws == [] then 0 else Owed(ws[..|ws| - 1]) + Owes(ws[|ws| - 1])
  }

  lemma {:induction false} OwedUpdate(ws: seq<Worker>, i: nat, w: Worker)
    requires i < |ws|
    ensures Owed(ws[i := w]) == Owed(ws) - Owes(ws[i]) + Owes(w)
    decreases |ws|
  {
    hide Owes;
    var n := |ws| - 1;
    if i == n {
      assert ws[i := w][..n] == ws[..n];
    } else {
      assert ws[i := w][..n] == ws[..n][i := w];
      OwedUpdate(ws[..n], i, w);
    }
  }

  lemma OwedAdded(ws: seq<Worker>, w: Worker)
    ensures Owed(ws + [w]) == Owed(ws) + Owes(w)
  {
    assert (ws + [w])[..|ws|] == ws;
  }

  lemma {:induction false} OwedNothing(ws: seq<Worker>)
    requires forall w :: w in ws ==> w.pc.Ready? || w.pc.Gone?
    ensures Owed(ws) == 0
  {
    if ws != [] {
      OwedNothing(ws[..|ws| - 1]);
    }
  }

  /**
   index_sent never counts a frame that has not been sent: not even when workers overwrite each
   other's updates, because whatever value is written was read before.
   */
  ghost predicate CreditInv(s: State) {
    && 0 <= Dequeued(s) <= |s.listed|
    && s.indexSent + Owed(s.workers) <= Sum(s.listed[..Dequeued(s)])
    && forall w :: 0 <= w < |s.workers| && s.workers[w].pc.Read? ==>
         s.workers[w].pc.seen + Owed(s.workers) <= Sum(s.listed[..Dequeued(s)])
  }

  lemma WorkerStepKeepsCredit(s: State, step: Step)
    requires step.Send? || step.ReadSent? || step.WriteSent? || step.Quit?
    requires Enabled(s, step) && CreditInv(s)
    ensures CreditInv(Apply(s, step))
  {
    hide Owed, Sum, Encode;
    OwedUpdate(s.workers, step.w, Apply(s, step).workers[step.w]);
  }

  lemma DequeueSums(s: State)
    requires ListsInv(s) && s.queue != []
    ensures 0 <= Dequeued(s) < |s.listed|
    ensures Sum(s.listed[..Dequeued(s) + 1]) == Sum(s.listed[..Dequeued(s)]) + s.queue[0].size
  {
    hide Sum, ItemOk, EncodeItems, ListsInv;
    var n := Dequeued(s);
    QueueHead(s);
    assert s.listed[..n + 1] == s.listed[..n] + [s.listed[n]];
    SumSnoc(s.listed[..n], s.listed[n]);
  }

  lemma DequeueKeepsCredit(s: State, w: nat)
    requires Enabled(s, Dequeue(w)) && ListsInv(s) && CreditInv(s)
    ensures CreditInv(Apply(s, Dequeue(w)))
  {
    hide Owed, Sum, Encode, ItemOk, EncodeItems, ListsInv;
    OwedUpdate(s.workers, w, Apply(s, Dequeue(w)).workers[w]);
    DequeueSums(s);
  }

  lemma CreditKept(s: State, step: Step)
    requires Enabled(s, step) && ListsInv(s) && CreditInv(s)
    ensures CreditInv(Apply(s, step))
  {
    hide Owed, Sum, Encode, ItemOk, EncodeItems, ListsInv;
    match step
    case Dequeue(w) => DequeueKeepsCredit(s, w);
    case Send(w) => WorkerStepKeepsCredit(s, step);
    case ReadSent(w) => WorkerStepKeepsCredit(s, step);
    case WriteSent(w) => WorkerStepKeepsCredit(s, step);
    case Quit(w) => WorkerStepKeepsCredit(s, step);
    case Register => OwedAdded(s.workers, Worker(Ready, []));
    case ListFrame(_, _) => assert Apply(s, step).listed[..Dequeued(s)] == s.listed[..Dequeued(s)];
    case _ =>
  }

  // ----- Every run -----

  ghost predicate Inv(s: State) {
    ListsInv(s) && CursorInv(s) && WriteInv(s) && ClaimInv(s) && CreditInv(s)
  }

  /** The state right after start-up: frames found in the log are queued again, and no thread has moved. */
  ghost predicate Started(s: State) {
    && s.producer.Idle? && s.workers == [] && s.writer.BetweenPasses? && s.unpersistent == [] && s.owner == []
    && s.indexHead == s.indexPersistent
    && s.base <= |s.listed| && s.queue == s.listed[s.base..]
    && (forall i :: 0 <= i < |s.listed| ==> s.listed[i].id == i && ItemOk(s.listed[i]))
    && s.data == EncodeItems(s.listed)
    && s.durableSent == s.indexSent <= Sum(s.listed[..s.base])
  }

  /** A queue that nobody has used. */
  const FRESH: State := State(0, 0, 0, [], [], Idle, [], BetweenPasses, "", 0, [], 0, [])

  lemma FreshStarted()
    ensures Started(FRESH)
  {
    hide Encode, ItemOk;
  }

  ghost predicate Runs(s: State, steps: seq<Step>, t: State)
    decreases |steps|
  {
    if steps == [] then s == t
    else Enabled(s, steps[0]) && Runs(Apply(s, steps[0]), steps[1..], t)
  }

  lemma StartedLists(s: State)
    requires Started(s)
    ensures ListsInv(s)
  {
    hide ItemOk, EncodeItems, Sum;
    assert s.listed[..|s.listed|] == s.listed;
  }

  lemma StartedCounts(s: State)
    requires Started(s)
    ensures WriteInv(s) && CreditInv(s)
  {
    hide ItemOk, EncodeItems, Sum;
    OwedNothing(s.workers);
    SumMonotone(s.listed, s.base, |s.listed|);
  }

  lemma StartedRest(s: State)
    requires Started(s)
    ensures CursorInv(s) && ClaimInv(s)
  {
    hide ItemOk, EncodeItems;
  }

  lemma StartedInv(s: State)
    requires Started(s)
    ensures Inv(s)
  {
    hide Started, ListsInv, CursorInv, WriteInv, ClaimInv, CreditInv;
    StartedLists(s);
    StartedCounts(s);
    StartedRest(s);
  }

  lemma StepKept(s: State, step: Step)
    requires Enabled(s, step) && Inv(s)
    ensures Inv(Apply(s, step))
  {
    hide ListsInv, CursorInv, WriteInv, ClaimInv, Enabled, Apply;
    ListsKept(s, step);
    CursorsKept(s, step);
    ClaimsKept(s, step);
    CreditKept(s, step);
    SumMonotone(s.listed, Dequeued(s), Enqueued(s));
    WriteKept(s, step);
  }

  /** The invariant holds in every state of every interleaving. */
  lemma {:induction false} RunKept(s: State, steps: seq<Step>, t: State)
    requires Inv(s) && Runs(s, steps, t)
    ensures Inv(t)
    decreases |steps|
  {
    hide Inv, Enabled, Apply;
    if steps != [] {
      StepKept(s, steps[0]);
      RunKept(Apply(s, steps[0]), steps[1..], t);
    }
  }

  ghost predicate InOrder(xs: seq<Item>) {
    forall i, j :: 0 <= i < j < |xs| ==> xs[i].id < xs[j].id
  }

  lemma {:induction false} PickedInOrder(xs: seq<Item>, owner: seq<nat>, w: nat)
    requires |xs| == |owner| && InOrder(xs)
    ensures InOrder(Picked(xs, owner, w))
  {
    if xs != [] {
      var n := |xs| - 1;
      PickedInOrder(xs[..n], owner[..n], w);
      PickedSubset(xs[..n], owner[..n], w);
      var ys := Picked(xs[..n], owner[..n], w);
      forall i | 0 <= i < |ys| ensures ys[i].id < xs[n].id {
        assert ys[i] in xs[..n];
      }
    }
  }

  /**
   Delivery in every interleaving: an enqueued frame is queued, or with exactly one worker; every
   worker has its frames in queue order; and index_sent counts no frame that is still to be counted.
   */
  lemma DeliveryInEveryRun(s: State, steps: seq<Step>, t: State, k: nat)
    requires Started(s) && Runs(s, steps, t) && t.base <= k < Enqueued(t)
    ensures k < |t.listed| && (t.listed[k] in t.queue <==> k >= Dequeued(t))
    ensures forall v, w :: 0 <= v < |t.workers| && 0 <= w < |t.workers| && t.listed[k] in Claim(t.workers[v]) && t.listed[k] in Claim(t.workers[w]) ==> v == w
    ensures t.listed[k] in t.queue || exists w :: 0 <= w < |t.workers| && t.listed[k] in Claim(t.workers[w])
    ensures forall w :: 0 <= w < |t.workers| ==> InOrder(Claim(t.workers[w]))
    ensures 0 <= Dequeued(t) && t.indexSent + Owed(t.workers) <= Sum(t.listed[..Dequeued(t)])
  {
    hide CursorInv, WriteInv, EncodeItems, ItemOk, Picked, Claim, Owed, Sum, Started, Runs;
    StartedInv(s);
    RunKept(s, steps, t);
    Conservation(t, k);
    forall w | 0 <= w < |t.workers| ensures InOrder(Claim(t.workers[w])) {
      PickedInOrder(t.listed[t.base..Dequeued(t)], t.owner, w);
    }
    if k < Dequeued(t) {
      assert t.listed[k] in Claim(t.workers[t.owner[k - t.base]]);
    }
  }

  /** The cursor equation in every state of every interleaving. */
  lemma CursorsInEveryRun(s: State, steps: seq<Step>, t: State)
    requires Started(s) && Runs(s, steps, t)
    ensures t.indexHead + Uncounted(t) == t.indexPersistent + Unadvanced(t) + Sum(t.unpersistent)
    ensures t.writer.IndexWritten? && t.indexHead <= t.indexPersistent ==> Flushed(t) >= Enqueued(t)
  {
    hide WriteInv, ClaimInv, CreditInv, EncodeItems, ItemOk, Started, Runs;
    StartedInv(s);
    RunKept(s, steps, t);
    if t.writer.IndexWritten? && t.indexHead <= t.indexPersistent {
      SkipMissesNothing(t);
    }
  }

  /** Whenever a pass over the queue has ended, the sent index on disk counts only frames that are in the data file. */
  lemma DurableIndexFlushed(s: State, steps: seq<Step>, t: State)
    requires Started(s) && Runs(s, steps, t) && t.writer.BetweenPasses?
    ensures 0 <= Flushed(t) <= |t.listed| && t.data == EncodeItems(t.listed[..Flushed(t)])
    ensures t.durableSent <= Sum(t.listed[..Flushed(t)])
  {
    hide Started, Runs, ItemOk, ClaimInv, CreditInv, CursorInv;
    StartedInv(s);
    RunKept(s, steps, t);
  }
}
