/**
 Crash recovery with one subscriber worker at a time: unpersist (src/lib/persistent_worker.c:380-437)
 rebuilds exactly the frames in the data file that the durable sent index does not count, so that
 over any number of crashes every flushed frame is sent or queued again.
 */
module Recovery {
  import opened Frames
  import opened QueueLog
  import opened Seek
  import opened Pipeline
  import opened SentIndex

  function Messages(xs: seq<Item>): (ms: seq<Message>)
    ensures |ms| == |xs|
    ensures forall i :: 0 <= i < |xs| ==> ms[i] == xs[i].msg
  {
    if xs == [] then [] else Messages(xs[..|xs| - 1]) + [xs[|xs| - 1].msg]
  }

  /** A frame whose size counts the bytes of its encoding: a body, and no header changed after parsing. */
  ghost predicate Clean(x: Item) {
    WellFormed(x.msg) && x.msg.body != "" && x.size == SizeOf(x.msg)
  }

  lemma CleanOk(x: Item)
    requires Clean(x)
    ensures x.size == |Encode(x.msg)| && ItemOk(x)
  {
    EncodeSize(x.msg);
  }

  lemma {:induction false} CleanLog(xs: seq<Item>)
    requires forall x :: x in xs ==> Clean(x)
    ensures EncodeItems(xs) == EncodeAll(Messages(xs))
    ensures Sum(xs) == |EncodeItems(xs)| == SumSizes(Messages(xs))
    ensures AllWellFormed(Messages(xs)) && NoneEmpty(Messages(xs))
  {
    hide Clean, Encode, WellFormed, SizeOf;
    if xs != [] {
      var n := |xs| - 1;
      CleanLog(xs[..n]);
      assert Clean(xs[n]);
      CleanParts(xs[n]);
      EncodeSnoc(Messages(xs[..n]), xs[n].msg, []);
      LogLength(Messages(xs));
      CleanOk(xs[n]);
    }
  }

  lemma CleanParts(x: Item)
    requires Clean(x)
    ensures WellFormed(x.msg) && x.msg.body != ""
  {
  }

  // ----- One worker at a time -----

  /** All workers but the last one have left. */
  ghost predicate Solo(s: State) {
    forall w :: 0 <= w < |s.workers| - 1 ==> s.workers[w].pc.Gone?
  }

  /** The last worker has a frame in its hands, or one that it has sent and not yet counted. */
  predicate Busy(s: State) {
    s.workers != [] && !s.workers[|s.workers| - 1].pc.Ready? && !s.workers[|s.workers| - 1].pc.Gone?
  }

  ghost predicate HandInv(s: State) {
    && 0 <= Dequeued(s) <= |s.listed|
    && (Busy(s) ==> 0 < Dequeued(s) && s.workers[|s.workers| - 1].pc.item == s.listed[Dequeued(s) - 1])
  }

  /** The number of frames, in queue order, whose sizes have been added to index_sent. */
  function Completed(s: State): int {
    if Busy(s) then Dequeued(s) - 1 else Dequeued(s)
  }

  ghost predicate DurableAt(s: State, c: int) {
    s.base <= c <= Completed(s) <= |s.listed| && s.durableSent == Sum(s.listed[..c])
  }

  ghost predicate CleanAll(s: State) {
    forall i :: 0 <= i < |s.listed| ==> Clean(s.listed[i])
  }

  ghost predicate SoloInv(s: State) {
    CleanAll(s) && Solo(s) && HandInv(s) && ExactInv(s) && exists c :: DurableAt(s, c)
  }

  /** A new worker comes only after the others have left, and every frame is clean. */
  ghost predicate SoloStep(s: State, step: Step) {
    && (step.Register? ==> forall w :: 0 <= w < |s.workers| ==> s.workers[w].pc.Gone?)
    && (step.ListFrame? ==> Clean(Item(|s.listed|, step.msg, step.size)))
  }

  lemma SoloSerial(s: State, step: Step)
    requires Solo(s) && Enabled(s, step)
    ensures Serial(s, step)
  {
    hide Encode;
  }

  lemma ShapeKept(s: State, step: Step)
    requires Enabled(s, step) && SoloStep(s, step) && Solo(s) && CleanAll(s)
    ensures Solo(Apply(s, step)) && CleanAll(Apply(s, step))
  {
    hide Encode, Clean;
  }

  lemma WorkerKeepsHand(s: State, step: Step)
    requires step.Send? || step.ReadSent? || step.WriteSent? || step.Quit? || step.Register?
    requires Enabled(s, step) && SoloStep(s, step) && Solo(s) && HandInv(s)
    ensures HandInv(Apply(s, step))
    ensures Completed(s) <= Completed(Apply(s, step)) <= |Apply(s, step).listed|
  {
    hide Encode, Clean;
  }

  lemma DequeueKeepsHand(s: State, w: nat)
    requires Enabled(s, Dequeue(w)) && Solo(s) && HandInv(s) && ListsInv(s)
    ensures HandInv(Apply(s, Dequeue(w)))
    ensures Completed(s) <= Completed(Apply(s, Dequeue(w))) <= |s.listed|
  {
    hide Encode, EncodeItems, ItemOk, ListsInv;
    QueueHead(s);
  }

  lemma HandKept(s: State, step: Step)
    requires Enabled(s, step) && SoloStep(s, step) && Solo(s) && HandInv(s) && ListsInv(s)
    ensures HandInv(Apply(s, step))
    ensures Completed(s) <= Completed(Apply(s, step)) <= |Apply(s, step).listed|
  {
    hide Encode, EncodeItems, ItemOk, Clean, Solo, ListsInv, SoloStep;
    match step
    case Dequeue(w) => DequeueKeepsHand(s, w);
    case Register => WorkerKeepsHand(s, step);
    case Send(w) => WorkerKeepsHand(s, step);
    case ReadSent(w) => WorkerKeepsHand(s, step);
    case WriteSent(w) => WorkerKeepsHand(s, step);
    case Quit(w) => WorkerKeepsHand(s, step);
    case _ =>
  }

  lemma SentIsPrefix(s: State)
    requires Solo(s) && HandInv(s) && ExactInv(s)
    ensures 0 <= Completed(s) <= |s.listed| && s.indexSent == Sum(s.listed[..Completed(s)])
  {
    hide Sum;
    if s.workers != [] {
      var n := |s.workers| - 1;
      OwedNothing(s.workers[..n]);
    }
    if Busy(s) {
      var d := Dequeued(s);
      assert s.listed[..d] == s.listed[..d - 1] + [s.listed[d - 1]];
      SumSnoc(s.listed[..d - 1], s.listed[d - 1]);
    }
  }

  lemma DurableKept(s: State, step: Step, c: int)
    requires Enabled(s, step) && Solo(s) && HandInv(s) && ExactInv(s) && DurableAt(s, c) && 0 <= c
    requires Completed(s) <= Completed(Apply(s, step)) <= |Apply(s, step).listed|
    ensures exists d :: DurableAt(Apply(s, step), d)
  {
    hide Encode, Sum, ExactInv;
    var t := Apply(s, step);
    SentIsPrefix(s);
    assert t.listed[..c] == s.listed[..c];
    if step.WriteIndex? {
      assert DurableAt(t, Completed(s));
    } else {
      assert DurableAt(t, c);
    }
  }

  lemma SoloKept(s: State, step: Step)
    requires Enabled(s, step) && SoloStep(s, step) && Inv(s) && SoloInv(s)
    ensures Inv(Apply(s, step)) && SoloInv(Apply(s, step))
  {
    hide Enabled, Apply, SoloStep, ListsInv, CursorInv, WriteInv, ClaimInv, CreditInv, CleanAll, Solo, HandInv, ExactInv;
    StepKept(s, step);
    SoloSerial(s, step);
    ExactKept(s, step);
    ShapeKept(s, step);
    HandKept(s, step);
    var c :| DurableAt(s, c);
    DurableKept(s, step, c);
  }

  // ----- The crash -----

  lemma {:induction false} SumStrict(xs: seq<Item>, i: nat, j: nat)
    requires i <= |xs| && j <= |xs| && (forall k :: 0 <= k < |xs| ==> xs[k].size > 0)
    requires Sum(xs[..i]) <= Sum(xs[..j])
    ensures i <= j
  {
    if j < i {
      SumMonotone(xs, j + 1, i);
      assert xs[..j + 1] == xs[..j] + [xs[j]];
      SumSnoc(xs[..j], xs[j]);
    }
  }

  /** The frames of the data file split at the durable sent index. */
  lemma DurableSplit(s: State) returns (c: nat)
    requires Inv(s) && SoloInv(s) && s.writer.BetweenPasses?
    ensures s.base <= c <= Flushed(s) <= |s.listed| && c <= Completed(s) <= Dequeued(s)
    ensures s.durableSent == Sum(s.listed[..c])
  {
    hide EncodeItems, ClaimInv, CreditInv, CursorInv, ExactInv, Encode;
    c :| DurableAt(s, c);
    SumStrict(s.listed, c, Flushed(s));
  }

  lemma LogAtCrash(s: State, c: nat)
    requires ListsInv(s) && CleanAll(s) && c <= Flushed(s)
    ensures var ms := Messages(s.listed[..Flushed(s)]);
      && s.data == EncodeAll(ms) && AllWellFormed(ms) && NoneEmpty(ms[..c])
      && SumSizes(ms[..c]) == Sum(s.listed[..c])
      && ms[c..] == Messages(s.listed[c..Flushed(s)])
      && |EncodeAll(ms[c..])| == |s.data| - Sum(s.listed[..c])
  {
    hide Clean, Encode, ItemOk, SizeOf, WellFormed, Messages, EncodeAll, EncodeItems, SumSizes, Sum;
    var xs := s.listed[..Flushed(s)];
    CleanLog(xs);
    CleanLog(xs[..c]);
    assert xs[..c] == s.listed[..c];
    var ms := Messages(xs);
    assert ms[..c] == Messages(xs[..c]);
    assert ms == ms[..c] + ms[c..];
    EncodeAllAppend(ms[..c], ms[c..]);
  }

  /**
   unpersist after a crash between passes: the frames loaded are exactly those in the data file from
   the durable sent index on, in order; all frames before them were sent.
   */
  lemma CrashRecovery(s: State, bufferLen: nat, junk: nat -> string) returns (c: nat)
    requires Inv(s) && SoloInv(s) && s.writer.BetweenPasses?
    requires bufferLen > 0 && forall p :: |junk(p)| >= bufferLen
    requires |s.data| - s.durableSent <= bufferLen
    ensures s.base <= c <= Flushed(s) <= |s.listed|
    ensures s.durableSent == Sum(s.listed[..c])
    ensures var r := LoadLog(s.data, s.durableSent, bufferLen, junk);
      r.Loaded? && FramesOf(r.frames, Messages(s.listed[c..Flushed(s)]))
    ensures forall k :: s.base <= k < c ==> WasSent(s, k)
  {
    hide LoadLog, Encode, FrameOf, WellFormed, Clean, CursorInv, WriteInv, CreditInv, ExactInv, Solo;
    c := DurableSplit(s);
    LogAtCrash(s, c);
    var ms := Messages(s.listed[..Flushed(s)]);
    SeekLoadFull(ms, c, bufferLen, junk);
    forall k | s.base <= k < c ensures WasSent(s, k) {
      CompletedWasSent(s, k);
    }
  }

  /** Some worker has sent frame k. */
  ghost predicate WasSent(s: State, k: int)
    requires 0 <= k < |s.listed|
  {
    exists w :: 0 <= w < |s.workers| && s.listed[k] in s.workers[w].sent
  }

  lemma CompletedWasSent(s: State, k: nat)
    requires ListsInv(s) && ClaimInv(s) && HandInv(s) && Solo(s) && s.base <= k < Completed(s) <= |s.listed|
    ensures WasSent(s, k)
  {
    hide EncodeItems, ItemOk, Picked;
    Conservation(s, k);
    var w := s.owner[k - s.base];
    assert s.listed[k] in Claim(s.workers[w]);
    if s.workers[w].pc.Holding? {
      assert w == |s.workers| - 1;
      assert s.workers[w].pc.item != s.listed[k];
    }
  }

  // ----- Restarts -----

  function View(f: Frame): Message {
    Message(f.name, f.attrs, Flatten(f.data))
  }

  /** The frames that unpersist enqueues, as items from `first` on. */
  function Requeued(frames: seq<Frame>, first: nat): seq<Item> {
    seq(|frames|, i requires 0 <= i < |frames| => Item(first + i, View(frames[i]), frames[i].size))
  }

  /** unpersist: the cursors are set from the two files, and the frames loaded are enqueued. */
  function Restart(s: State, frames: seq<Frame>): State
    requires |frames| <= Flushed(s) <= |s.listed|
  {
    var first := Flushed(s) - |frames|;
    State(|s.data|, s.durableSent, |s.data|, [], Requeued(frames, first), Idle, [], BetweenPasses,
          s.data, s.durableSent, s.listed[..Flushed(s)], first, [])
  }

  lemma RequeuedIsWindow(xs: seq<Item>, c: nat, frames: seq<Frame>)
    requires c <= |xs| && FramesOf(frames, Messages(xs[c..]))
    requires forall i :: 0 <= i < |xs| ==> xs[i].id == i && Clean(xs[i])
    ensures Requeued(frames, c) == xs[c..]
  {
    hide WellFormed;
    var q := Requeued(frames, c);
    forall i | 0 <= i < |frames| ensures q[i] == xs[c + i] {
      assert FrameOf(frames[i], Messages(xs[c..])[i]);
      assert Clean(xs[c + i]);
    }
  }

  /** A restart is a start: the invariants hold again, with the frames before c taken for sent. */
  lemma RestartKept(s: State, c: nat, frames: seq<Frame>)
    requires ListsInv(s) && CleanAll(s) && c <= Flushed(s) && s.durableSent == Sum(s.listed[..c])
    requires FramesOf(frames, Messages(s.listed[c..Flushed(s)]))
    ensures var t := Restart(s, frames);
      && Started(t) && t.base == c && Inv(t) && SoloInv(t)
      && t.queue == s.listed[c..Flushed(s)] && t.listed == s.listed[..Flushed(s)]
      && t.indexHead == t.indexPersistent == |s.data| && t.data == s.data
      && t.indexSent == t.durableSent == s.durableSent
  {
    hide Encode, Clean, ItemOk, Sum, Messages, Requeued, FrameOf;
    var t, xs := Restart(s, frames), s.listed[..Flushed(s)];
    assert xs[c..] == s.listed[c..Flushed(s)];
    RequeuedIsWindow(xs, c, frames);
    assert xs[..c] == s.listed[..c];
    assert Started(t);
    StartedInv(t);
    assert DurableAt(t, c);
    assert SoloInv(t) by {
      OwedNothing([]);
    }
  }

  // ----- Any number of runs and crashes -----

  datatype Event = Do(step: Step) | Crash

  /** `delivered` is the history of the frames that were sent before or after any crash. */
  datatype Life = Life(state: State, delivered: set<nat>)

  datatype Machine = Machine(bufferLen: nat, junk: nat -> string)

  ghost predicate MachineOk(m: Machine) {
    m.bufferLen > 0 && forall p :: |m.junk(p)| >= m.bufferLen
  }

  /** A crash falls between two passes, with an unread log that fits into one buffer. */
  ghost predicate CanHappen(l: Life, e: Event, m: Machine) {
    match e
    case Do(step) => Enabled(l.state, step) && SoloStep(l.state, step)
    case Crash => l.state.writer.BetweenPasses? && |l.state.data| - l.state.durableSent <= m.bufferLen
  }

  /** The next state; a crash forgets the frames that were not flushed and loads the log again. */
  ghost function Happen(l: Life, e: Event, m: Machine): Life
    requires MachineOk(m) && CanHappen(l, e, m)
  {
    var s := l.state;
    match e
    case Do(step) =>
      Life(Apply(s, step), if step.Send? then l.delivered + {s.workers[step.w].pc.item.id} else l.delivered)
    case Crash =>
      var r := LoadLog(s.data, s.durableSent, m.bufferLen, m.junk);
      if r.Loaded? && |r.frames| <= Flushed(s) <= |s.listed|
      then Life(Restart(s, r.frames), set k | k in l.delivered && k < Flushed(s))
      else l
  }

  ghost predicate SentInv(l: Life) {
    && (forall k: nat :: k < Completed(l.state) ==> k in l.delivered)
    && (Busy(l.state) && !l.state.workers[|l.state.workers| - 1].pc.Holding? ==> l.state.workers[|l.state.workers| - 1].pc.item.id in l.delivered)
  }

  ghost predicate LifeInv(l: Life) {
    Inv(l.state) && SoloInv(l.state) && SentInv(l)
  }

  /** Only the worker's own steps matter for what has been sent. */
  lemma SentFrame(l: Life, t: State)
    requires SentInv(l) && t.workers == l.state.workers && Dequeued(t) == Dequeued(l.state)
    ensures SentInv(Life(t, l.delivered))
  {
  }

  lemma WorkerKeepsSent(l: Life, step: Step, m: Machine)
    requires step.Send? || step.ReadSent? || step.WriteSent? || step.Quit? || step.Register?
    requires MachineOk(m) && CanHappen(l, Do(step), m)
    requires Solo(l.state) && HandInv(l.state) && SentInv(l)
    requires Busy(l.state) ==> l.state.workers[|l.state.workers| - 1].pc.item.id == Dequeued(l.state) - 1
    ensures SentInv(Happen(l, Do(step), m))
  {
    hide Encode, Clean, LoadLog, Restart;
    var s := l.state;
    if step.Send? || step.ReadSent? || step.WriteSent? {
      assert step.w == |s.workers| - 1;
    }
  }

  lemma DequeueKeepsSent(l: Life, w: nat, m: Machine)
    requires MachineOk(m) && CanHappen(l, Do(Dequeue(w)), m) && Solo(l.state) && SentInv(l)
    ensures SentInv(Happen(l, Do(Dequeue(w)), m))
  {
    hide Encode, Clean, LoadLog, Restart;
    assert w == |l.state.workers| - 1;
  }

  lemma HandId(s: State)
    requires ListsInv(s) && HandInv(s) && Busy(s)
    ensures s.workers[|s.workers| - 1].pc.item.id == Dequeued(s) - 1
  {
    hide EncodeItems, ItemOk;
  }

  lemma StepKeepsSent(l: Life, step: Step, m: Machine)
    requires MachineOk(m) && CanHappen(l, Do(step), m)
    requires Solo(l.state) && HandInv(l.state) && ListsInv(l.state) && SentInv(l)
    ensures SentInv(Happen(l, Do(step), m))
  {
    hide Encode, Clean, LoadLog, Restart, ListsInv, SentInv, Solo, HandInv, SoloStep;
    if Busy(l.state) {
      HandId(l.state);
    }
    match step
    case Dequeue(w) => DequeueKeepsSent(l, w, m);
    case Register => WorkerKeepsSent(l, step, m);
    case Send(w) => WorkerKeepsSent(l, step, m);
    case ReadSent(w) => WorkerKeepsSent(l, step, m);
    case WriteSent(w) => WorkerKeepsSent(l, step, m);
    case Quit(w) => WorkerKeepsSent(l, step, m);
    case _ => SentFrame(l, Apply(l.state, step));
  }

  lemma CrashKept(l: Life, m: Machine)
    requires MachineOk(m) && CanHappen(l, Crash, m) && LifeInv(l)
    ensures LifeInv(Happen(l, Crash, m))
  {
    hide Inv, SoloInv, LoadLog, Restart, FrameOf, Messages;
    var s := l.state;
    var c := CrashRecovery(s, m.bufferLen, m.junk);
    var r := LoadLog(s.data, s.durableSent, m.bufferLen, m.junk);
    InvParts(s);
    RestartKept(s, c, r.frames);
    var d := DurableSplit(s);
    RestartParts(s, r.frames);
    SumStrict(s.listed, c, d);
  }

  lemma InvParts(s: State)
    requires Inv(s) && SoloInv(s)
    ensures ListsInv(s) && CleanAll(s) && Solo(s) && HandInv(s)
    ensures forall i :: 0 <= i < |s.listed| ==> s.listed[i].size > 0
  {
    hide Encode;
  }

  lemma RestartParts(s: State, frames: seq<Frame>)
    requires |frames| <= Flushed(s) <= |s.listed|
    ensures !Busy(Restart(s, frames)) && Dequeued(Restart(s, frames)) == Flushed(s) - |frames|
  {
  }

  ghost predicate Lives(l: Life, events: seq<Event>, m: Machine, end: Life)
    requires MachineOk(m)
    decreases |events|
  {
    if events == [] then l == end
    else CanHappen(l, events[0], m) && Lives(Happen(l, events[0], m), events[1..], m, end)
  }

  lemma {:induction false} LifeKept(l: Life, events: seq<Event>, m: Machine, end: Life)
    requires MachineOk(m) && LifeInv(l) && Lives(l, events, m, end)
    ensures LifeInv(end)
    decreases |events|
  {
    hide Inv, SoloInv, Solo, HandInv, ListsInv, CleanAll, SentInv;
    if events != [] {
      var e := events[0];
      if e.Crash? {
        CrashKept(l, m);
      } else {
        InvParts(l.state);
        SoloKept(l.state, e.step);
        StepKeepsSent(l, e.step, m);
      }
      LifeKept(Happen(l, e, m), events[1..], m, end);
    }
  }

  /** Frame k was sent, or it is in the worker's hands, or it is queued, or its producer is about to enqueue it. */
  ghost predicate Accounted(l: Life, k: nat)
    requires k < |l.state.listed|
  {
    var s := l.state;
    || k in l.delivered
    || s.listed[k] in s.queue
    || (Busy(s) && s.workers[|s.workers| - 1].pc.item == s.listed[k])
    || (!s.producer.Idle? && s.producer.item == s.listed[k])
  }

  lemma FlushedAccounted(l: Life, k: nat)
    requires ListsInv(l.state) && HandInv(l.state) && SentInv(l) && k < Flushed(l.state)
    ensures k < |l.state.listed| && Accounted(l, k)
  {
    hide EncodeItems, ItemOk;
    var s := l.state;
    if Dequeued(s) <= k < Enqueued(s) {
      assert s.queue[k - Dequeued(s)] == s.listed[k];
    }
  }

  /** Over every series of steps and crashes from an empty queue, every frame in the data file is accounted for. */
  lemma AtLeastOnce(events: seq<Event>, m: Machine, end: Life, k: nat)
    requires MachineOk(m) && Lives(Life(FRESH, {}), events, m, end)
    requires k < Flushed(end.state)
    ensures k < |end.state.listed| && Accounted(end, k)
  {
    hide Lives, Inv, SoloInv, SentInv, MachineOk, Accounted;
    FreshInv();
    LifeKept(Life(FRESH, {}), events, m, end);
    InvParts(end.state);
    FlushedAccounted(end, k);
  }

  lemma FreshInv()
    ensures LifeInv(Life(FRESH, {}))
  {
    hide Inv, SoloInv, Encode;
    FreshStarted();
    StartedInv(FRESH);
    EmptySolo(FRESH);
  }

  lemma EmptySolo(s: State)
    requires s.listed == [] && s.workers == [] && s.queue == [] && s.producer.Idle? && s.base == 0
    requires s.indexSent == 0 && s.durableSent == 0
    ensures SoloInv(s)
  {
    hide Clean;
    assert s.listed[..0] == [];
    assert DurableAt(s, 0);
  }
}
