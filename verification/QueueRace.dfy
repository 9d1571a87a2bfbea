/**
 get_queue of src/lib/queue.c without atomicity: between the search and the insertion of a new
 queue the lock is free, so that several threads can each insert a queue for the same hash.
 */
module QueueRace {

  import opened Options
  import QueueBox

  const QB_SIZE: nat := QueueBox.QB_SIZE

  /** A queue, by identity and hash. */
  datatype Q = Q(id: nat, hash: nat)

  /** Missed: the search found nothing and the thread is about to insert. Has: get_queue returned q. */
  datatype Thread = Idle | Missed(hash: nat) | Has(q: Q)

  /** Queue ids are handed out in order; `contents` is what each queue holds. */
  datatype State = State(buckets: seq<seq<Q>>, threads: seq<Thread>, nextId: nat, contents: map<nat, seq<int>>)

  datatype Step =
    | Search(t: nat, hash: nat)      // the loop under the second lock
    | Insert(t: nat)                 // list_add under the third lock
    | Operate(t: nat, now: seq<int>) // enqueue or dequeue on the queue at hand leaves `now` in it

  /** The last match wins. */
  function FindIn(qs: seq<Q>, h: nat): Option<Q> {
    if qs == [] then None
    else if qs[|qs| - 1].hash == h then Some(qs[|qs| - 1])
    else FindIn(qs[..|qs| - 1], h)
  }

  function Find(s: State, h: nat): Option<Q>
    requires |s.buckets| == QB_SIZE
  {
    FindIn(s.buckets[h % QB_SIZE], h)
  }

  predicate Enabled(s: State, step: Step) {
    && |s.buckets| == QB_SIZE
    && step.t < |s.threads|
    && match step
       case Search(t, _) => s.threads[t].Idle?
       case Insert(t) => s.threads[t].Missed?
       case Operate(t, _) => s.threads[t].Has? && s.threads[t].q.id in s.contents
  }

  function Apply(s: State, step: Step): State
    requires Enabled(s, step)
  {
    match step
    case Search(t, h) =>
      var r := Find(s, h);
      s.(threads := s.threads[t := if r.Some? then Has(r.value) else Missed(h)])
    case Insert(t) =>
      var h := s.threads[t].hash;
      var q := Q(s.nextId, h);
      s.(buckets := s.buckets[h % QB_SIZE := [q] + s.buckets[h % QB_SIZE]],
         threads := s.threads[t := Has(q)], nextId := s.nextId + 1, contents := s.contents[q.id := []])
    case Operate(t, now) =>
      s.(threads := s.threads[t := Idle], contents := s.contents[s.threads[t].q.id := now])
  }

  ghost predicate Runs(s: State, steps: seq<Step>, t: State)
    decreases |steps|
  {
    if steps == [] then s == t
    else Enabled(s, steps[0]) && Runs(Apply(s, steps[0]), steps[1..], t)
  }

  lemma {:induction false} FindAfterInsert(q: Q, qs: seq<Q>, g: nat)
    ensures FindIn([q] + qs, g) == if FindIn(qs, g).Some? then FindIn(qs, g) else if q.hash == g then Some(q) else None
  {
    if qs == [] {
      assert [q] + qs == [q];
    } else {
      var n := |qs| - 1;
      assert ([q] + qs)[..n + 1] == [q] + qs[..n];
      FindAfterInsert(q, qs[..n], g);
    }
  }

  /** Queues lie in the bucket of their hash, and ids are below nextId. */
  ghost predicate Inv(s: State) {
    && |s.buckets| == QB_SIZE
    && (forall b, i :: 0 <= b < QB_SIZE && 0 <= i < |s.buckets[b]| ==> s.buckets[b][i].hash % QB_SIZE == b && s.buckets[b][i].id < s.nextId)
    && (forall t :: 0 <= t < |s.threads| && s.threads[t].Has? ==> s.threads[t].q.id < s.nextId)
  }

  lemma {:induction false} FindIsThere(qs: seq<Q>, h: nat)
    ensures FindIn(qs, h).Some? ==> FindIn(qs, h).value in qs && FindIn(qs, h).value.hash == h
  {
    if qs != [] {
      FindIsThere(qs[..|qs| - 1], h);
    }
  }

  lemma InvKept(s: State, step: Step)
    requires Inv(s) && Enabled(s, step)
    ensures Inv(Apply(s, step))
  {
    hide FindIn;
    if step.Search? {
      FindIsThere(s.buckets[step.hash % QB_SIZE], step.hash);
    }
  }

  lemma FindKept(s: State, step: Step, h: nat, q: Q)
    requires Enabled(s, step) && Find(s, h) == Some(q)
    ensures Find(Apply(s, step), h) == Some(q)
  {
    hide FindIn;
    if step.Insert? {
      var g := s.threads[step.t].hash;
      FindAfterInsert(Q(s.nextId, g), s.buckets[g % QB_SIZE], h);
    }
  }

  /** Once a queue is found for a hash, every later search of every run finds that same queue. */
  lemma {:induction false} LookupStable(s: State, steps: seq<Step>, t: State, h: nat, q: Q)
    requires |s.buckets| == QB_SIZE && Find(s, h) == Some(q) && Runs(s, steps, t)
    ensures |t.buckets| == QB_SIZE && Find(t, h) == Some(q)
    decreases |steps|
  {
    hide Find, Enabled, Apply;
    if steps != [] {
      FindKept(s, steps[0], h, q);
      SizeKept(s, steps[0]);
      LookupStable(Apply(s, steps[0]), steps[1..], t, h, q);
    }
  }

  lemma SizeKept(s: State, step: Step)
    requires Enabled(s, step)
    ensures |Apply(s, step).buckets| == QB_SIZE
  {
  }

  /** x is a duplicate that no thread has at hand: another queue is found for its hash. */
  ghost predicate Stranded(s: State, x: Q) {
    && Inv(s)
    && x.id < s.nextId && x.id in s.contents
    && Find(s, x.hash).Some? && Find(s, x.hash).value.id != x.id
    && (forall t :: 0 <= t < |s.threads| && s.threads[t].Has? ==> s.threads[t].q.id != x.id)
    && (forall b, i :: 0 <= b < QB_SIZE && 0 <= i < |s.buckets[b]| && s.buckets[b][i].id == x.id ==> s.buckets[b][i] == x)
  }

  lemma StrandedKept(s: State, step: Step, x: Q)
    requires Stranded(s, x) && Enabled(s, step)
    ensures Stranded(Apply(s, step), x) && Apply(s, step).contents[x.id] == s.contents[x.id]
  {
    hide FindIn;
    InvKept(s, step);
    FindKept(s, step, x.hash, Find(s, x.hash).value);
    if step.Search? {
      FindIsThere(s.buckets[step.hash % QB_SIZE], step.hash);
    }
  }

  /**
   The entries of a queue that lost the race are out of reach for ever: no run of searches,
   insertions and queue operations changes them.
   */
  lemma {:induction false} LoserNeverServed(s: State, steps: seq<Step>, t: State, x: Q)
    requires Stranded(s, x) && Runs(s, steps, t)
    ensures Stranded(t, x) && t.contents[x.id] == s.contents[x.id]
    decreases |steps|
  {
    hide Stranded, Enabled, Apply;
    if steps != [] {
      StrandedKept(s, steps[0], x);
      StrandedThere(s, x);
      StrandedThere(Apply(s, steps[0]), x);
      LoserNeverServed(Apply(s, steps[0]), steps[1..], t, x);
      StrandedThere(t, x);
    }
  }

  lemma StrandedThere(s: State, x: Q)
    requires Stranded(s, x)
    ensures x.id in s.contents
  {
  }

  /** Two threads that both missed strand whatever the second of them enqueues. */
  lemma RaceStrands(s: State, a: nat, b: nat, h: nat, now: seq<int>)
    requires Inv(s) && a < |s.threads| && b < |s.threads| && a != b
    requires s.threads[a] == Missed(h) && s.threads[b] == Missed(h) && Find(s, h) == None
    ensures exists t :: Runs(s, [Insert(a), Insert(b), Operate(b, now)], t)
                        && Stranded(t, Q(s.nextId + 1, h)) && t.contents[s.nextId + 1] == now
  {
    hide FindIn, Stranded;
    var steps := [Insert(a), Insert(b), Operate(b, now)];
    var u := Apply(s, Insert(a));
    var v := Apply(u, Insert(b));
    var t := Apply(v, Operate(b, now));
    RaceSteps(s, a, b, h, now);
    assert steps[1..] == [Insert(b), Operate(b, now)] && steps[1..][1..] == [Operate(b, now)] && steps[1..][1..][1..] == [];
    assert Runs(t, [], t);
    assert Runs(v, [Operate(b, now)], t);
    assert Runs(u, [Insert(b), Operate(b, now)], t);
    assert Runs(s, steps, t);
  }

  lemma RaceSteps(s: State, a: nat, b: nat, h: nat, now: seq<int>)
    requires Inv(s) && a < |s.threads| && b < |s.threads| && a != b
    requires s.threads[a] == Missed(h) && s.threads[b] == Missed(h) && Find(s, h) == None
    ensures var u := Apply(s, Insert(a));
      var v := Apply(u, Insert(b));
      var t := Apply(v, Operate(b, now));
      Stranded(t, Q(s.nextId + 1, h)) && t.contents[s.nextId + 1] == now
  {
    hide FindIn;
    var u := Apply(s, Insert(a));
    var v := Apply(u, Insert(b));
    InvKept(s, Insert(a));
    InvKept(u, Insert(b));
    InvKept(v, Operate(b, now));
    FindAfterInsert(Q(s.nextId, h), s.buckets[h % QB_SIZE], h);
    FindKept(u, Insert(b), h, Q(s.nextId, h));
  }

  // ----- Exactly when an insertion is served -----

  /** x is a duplicate that at most thread t, its creator, still has at hand. */
  ghost predicate Losing(s: State, x: Q, t: nat) {
    && Inv(s)
    && x.id < s.nextId && x.id in s.contents
    && Find(s, x.hash).Some? && Find(s, x.hash).value.id != x.id
    && (forall v :: 0 <= v < |s.threads| && v != t && s.threads[v].Has? ==> s.threads[v].q.id != x.id)
    && (t < |s.threads| && s.threads[t].Has? && s.threads[t].q.id == x.id ==> s.threads[t].q == x)
    && (forall b, i :: 0 <= b < QB_SIZE && 0 <= i < |s.buckets[b]| && s.buckets[b][i].id == x.id ==> s.buckets[b][i] == x)
  }

  lemma LosingKept(s: State, step: Step, x: Q, t: nat)
    requires Losing(s, x, t) && Enabled(s, step)
    ensures Losing(Apply(s, step), x, t)
  {
    hide FindIn;
    InvKept(s, step);
    FindKept(s, step, x.hash, Find(s, x.hash).value);
    if step.Search? {
      FindIsThere(s.buckets[step.hash % QB_SIZE], step.hash);
    }
  }

  lemma {:induction false} LosingRun(s: State, steps: seq<Step>, u: State, x: Q, t: nat)
    requires Losing(s, x, t) && Runs(s, steps, u)
    ensures Losing(u, x, t)
    decreases |steps|
  {
    hide Losing, Enabled, Apply;
    if steps != [] {
      LosingKept(s, steps[0], x, t);
      LosingRun(Apply(s, steps[0]), steps[1..], u, x, t);
    }
  }

  lemma InsertFinds(s: State, t: nat)
    requires Inv(s) && Enabled(s, Insert(t))
    ensures var h := s.threads[t].hash;
      var x, u := Q(s.nextId, h), Apply(s, Insert(t));
      && Inv(u)
      && Find(u, h) == (if Find(s, h).Some? then Find(s, h) else Some(x))
      && (Find(s, h).Some? ==> Find(s, h).value != x && Losing(u, x, t))
  {
    hide FindIn;
    var h := s.threads[t].hash;
    InvKept(s, Insert(t));
    FindAfterInsert(Q(s.nextId, h), s.buckets[h % QB_SIZE], h);
    FindIsThere(s.buckets[h % QB_SIZE], h);
  }

  /**
   The queue that a thread inserts is the one that every later search finds if and only if there
   was none for its hash at the insertion; otherwise it is stranded once the thread lets go of it.
   */
  lemma InsertServedIff(s: State, t: nat, steps: seq<Step>, u: State)
    requires Inv(s) && Enabled(s, Insert(t)) && Runs(Apply(s, Insert(t)), steps, u)
    ensures |u.buckets| == QB_SIZE
    ensures var x := Q(s.nextId, s.threads[t].hash);
      && (Find(u, x.hash) == Some(x) <==> Find(s, x.hash) == None)
      && (Find(s, x.hash) != None ==> Stranded(u, x) || (t < |u.threads| && u.threads[t] == Has(x)))
  {
    hide Find, Apply, Runs;
    var x := Q(s.nextId, s.threads[t].hash);
    InsertFinds(s, t);
    var v := Apply(s, Insert(t));
    LookupStable(v, steps, u, x.hash, Find(v, x.hash).value);
    if Find(s, x.hash) != None {
      LosingRun(v, steps, u, x, t);
    }
  }

  /** What get_queue returns later to any thread, for that hash: this queue, or the one that was there before it. */
  lemma LaterSearches(s: State, t: nat, steps: seq<Step>, u: State, v: nat)
    requires Inv(s) && Enabled(s, Insert(t)) && Runs(Apply(s, Insert(t)), steps, u)
    requires Enabled(u, Search(v, s.threads[t].hash))
    ensures var x := Q(s.nextId, s.threads[t].hash);
      Apply(u, Search(v, x.hash)).threads[v] == Has(if Find(s, x.hash).Some? then Find(s, x.hash).value else x)
  {
    hide FindIn, Runs;
    InsertFinds(s, t);
    var a, h := Apply(s, Insert(t)), s.threads[t].hash;
    LookupStable(a, steps, u, h, Find(a, h).value);
  }

  // ----- The race from the start -----

  function Empty(n: nat): State {
    State(seq(QB_SIZE, _ => []), seq(n, _ => Idle), 0, map[])
  }

  lemma {:induction false} RunsAppend(s: State, a: seq<Step>, t: State, b: seq<Step>, u: State)
    requires Runs(s, a, t) && Runs(t, b, u)
    ensures Runs(s, a + b, u)
    decreases |a|
  {
    hide Enabled, Apply;
    if a == [] {
      assert a + b == b;
    } else {
      assert (a + b)[1..] == a[1..] + b;
      RunsAppend(Apply(s, a[0]), a[1..], t, b, u);
    }
  }

  lemma BothMiss(n: nat, a: nat, b: nat, h: nat) returns (t: State)
    requires a < n && b < n && a != b
    ensures Runs(Empty(n), [Search(a, h), Search(b, h)], t)
    ensures Inv(t) && |t.threads| == n && t.threads[a] == Missed(h) && t.threads[b] == Missed(h) && Find(t, h) == None && t.nextId == 0
  {
    var s := Empty(n);
    var u := Apply(s, Search(a, h));
    t := Apply(u, Search(b, h));
    assert [Search(a, h), Search(b, h)][1..] == [Search(b, h)] && [Search(b, h)][1..] == [];
    assert Runs(t, [], t);
    assert Runs(u, [Search(b, h)], t);
  }

  /** From the empty box, any two threads can reach the race, and what the second one enqueues is stranded. */
  lemma RaceFromEmpty(n: nat, a: nat, b: nat, h: nat, now: seq<int>)
    requires a < n && b < n && a != b
    ensures exists t :: Runs(Empty(n), [Search(a, h), Search(b, h)] + [Insert(a), Insert(b), Operate(b, now)], t)
                        && Stranded(t, Q(1, h)) && t.contents[1] == now
  {
    hide Runs, Find, Inv;
    var s := BothMiss(n, a, b, h);
    RaceStrands(s, a, b, h, now);
    var t :| Runs(s, [Insert(a), Insert(b), Operate(b, now)], t) && Stranded(t, Q(s.nextId + 1, h)) && t.contents[s.nextId + 1] == now;
    RunsAppend(Empty(n), [Search(a, h), Search(b, h)], s, [Insert(a), Insert(b), Operate(b, now)], t);
  }
}
