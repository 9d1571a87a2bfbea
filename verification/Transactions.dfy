/**
 The transaction manager of src/lib/transaction.c. Ids are terminated strings; a frame counts by
 its identity, by whether it has a callback, and by what the callback returns.
 */
module Transactions {

  /** A frame added to a transaction. `ok` is the result that its callback would give. */
  datatype Task = Task(id: nat, hasCallback: bool, ok: bool)

  /** `frames` starts with the frame added last. */
  datatype Transaction = Transaction(tid: string, frames: seq<Task>)

  type Live = seq<Transaction>

  // ----- Lookup -----

  /** get_transaction: the last transaction whose id starts with tid, or -1. */
  function Lookup(list: Live, tid: string): (r: int)
    ensures -1 <= r < |list|
    ensures r >= 0 ==> tid <= list[r].tid
    ensures forall i :: r < i < |list| ==> !(tid <= list[i].tid)
  {
    if list == [] then -1
    else if tid <= list[|list| - 1].tid then |list| - 1
    else Lookup(list[..|list| - 1], tid)
  }

  /** Some live id has tid as a proper prefix. */
  ghost predicate Extended(list: Live, tid: string) {
    exists i :: 0 <= i < |list| && tid < list[i].tid
  }

  /** What transaction_start ensures: no id is a prefix of one that was there before it. */
  ghost predicate Ordered(list: Live) {
    forall i, j :: 0 <= i < j < |list| ==> !(list[j].tid <= list[i].tid)
  }

  /** In every reachable manager, lookup finds exactly the transaction with this id unless another live id extends it. */
  lemma LookupExactIff(list: Live, tid: string)
    requires Ordered(list)
    ensures (Lookup(list, tid) == -1 || list[Lookup(list, tid)].tid == tid) <==> !Extended(list, tid)
  {
    hide Lookup;
    var r := Lookup(list, tid);
    if Extended(list, tid) {
      var i :| 0 <= i < |list| && tid < list[i].tid;
      assert i <= r;
      if i < r {
        assert !(list[r].tid <= list[i].tid);
      }
    }
  }

  // ----- The operations on values -----

  function Start(list: Live, tid: string): Live {
    if Lookup(list, tid) >= 0 then list else list + [Transaction(tid, [])]
  }

  function Add(list: Live, tid: string, x: Task): Live {
    var r := Lookup(list, tid);
    if r < 0 then list else list[r := list[r].(frames := [x] + list[r].frames)]
  }

  function Remove(list: Live, r: nat): Live
    requires r < |list|
  {
    list[..r] + list[r + 1..]
  }

  function Abort(list: Live, tid: string): Live {
    var r := Lookup(list, tid);
    if r < 0 then list else Remove(list, r)
  }

  /** The frames that the commit loop calls: up to and including the first failure. */
  function Called(frames: seq<Task>): (r: seq<Task>)
    ensures r <= frames
  {
    if frames == [] || !frames[0].hasCallback then []
    else if !frames[0].ok then [frames[0]]
    else [frames[0]] + Called(frames[1..])
  }

  /** The loop never ends when it comes to a frame without a callback, because it then removes nothing. */
  predicate Hangs(frames: seq<Task>) {
    if frames == [] then false
    else if !frames[0].hasCallback then true
    else frames[0].ok && Hangs(frames[1..])
  }

  /** Exactly when commit does not come back: a frame without a callback before the first failure. */
  lemma {:induction false} HangsIff(frames: seq<Task>)
    ensures Hangs(frames) <==> exists i :: 0 <= i < |frames| && !frames[i].hasCallback && forall j :: 0 <= j < i ==> frames[j].hasCallback && frames[j].ok
  {
    if frames != [] {
      HangsIff(frames[1..]);
      if Hangs(frames[1..]) && frames[0].hasCallback && frames[0].ok {
        var i :| 0 <= i < |frames[1..]| && !frames[1..][i].hasCallback && forall j :: 0 <= j < i ==> frames[1..][j].hasCallback && frames[1..][j].ok;
        forall j | 0 <= j < i + 1 ensures frames[j].hasCallback && frames[j].ok {
          if j > 0 {
            assert frames[j] == frames[1..][j - 1];
          }
        }
        assert !frames[i + 1].hasCallback;
      }
      if i :| 0 <= i < |frames| && !frames[i].hasCallback && forall j :: 0 <= j < i ==> frames[j].hasCallback && frames[j].ok {
        if i > 0 {
          assert frames[1..][i - 1] == frames[i];
          forall j | 0 <= j < i - 1 ensures frames[1..][j].hasCallback && frames[1..][j].ok {
            assert frames[1..][j] == frames[j + 1];
          }
        }
      }
    }
  }

  /** With callbacks everywhere, the loop stops right after the first failure, or calls everything. */
  lemma {:induction false} CalledUpToFailure(frames: seq<Task>)
    requires forall x :: x in frames ==> x.hasCallback
    ensures !Hangs(frames)
    ensures forall i :: 0 <= i < |Called(frames)| - 1 ==> Called(frames)[i].ok
    ensures |Called(frames)| < |frames| ==> |Called(frames)| > 0 && !Called(frames)[|Called(frames)| - 1].ok
  {
    if frames != [] {
      CalledUpToFailure(frames[1..]);
    }
  }

  /**
   What commit calls, for every stack: only frames that have a callback, and all before the last one
   called succeeded. It stops short of the end after a failure, or in front of a frame without a
   callback; the latter exactly when it hangs.
   */
  lemma {:induction false} CalledExactly(frames: seq<Task>)
    ensures var c := Called(frames);
      && (forall x :: x in c ==> x.hasCallback)
      && (forall i :: 0 <= i < |c| - 1 ==> c[i].ok)
      && (Hangs(frames) <==> |c| < |frames| && !frames[|c|].hasCallback && (c != [] ==> c[|c| - 1].ok))
      && (!Hangs(frames) && |c| < |frames| ==> c != [] && !c[|c| - 1].ok)
  {
    if frames != [] {
      CalledExactly(frames[1..]);
    }
  }

  /** A commit that hangs has called everything above the first frame without a callback, and nothing else. */
  lemma HungCalls(frames: seq<Task>, i: nat)
    requires Hangs(frames) && i < |frames| && !frames[i].hasCallback
    requires forall j :: 0 <= j < i ==> frames[j].hasCallback
    ensures Called(frames) == frames[..i]
  {
    hide Hangs;
    CalledExactly(frames);
    var c := Called(frames);
    assert forall j :: 0 <= j < |c| ==> frames[j] == c[j] && c[j] in c;
    assert c == frames[..|c|];
  }

  // ----- The manager -----

  datatype Outcome = Failed | Succeeded | Hung

  class Manager {
    var list: Live

    constructor ()
      ensures list == []
    {
      list := [];
    }

    method GetTransaction(tid: string) returns (r: int)
      ensures r == Lookup(list, tid)
    {
      r := -1;
      for i := 0 to |list|
        invariant r == Lookup(list[..i], tid)
      {
        assert list[..i + 1][..i] == list[..i];
        if tid <= list[i].tid {
          r := i;
        }
      }
      assert list[..|list|] == list;
    }

    method TransactionStart(tid: string) returns (o: Outcome)
      modifies this
      ensures list == Start(old(list), tid)
      ensures o == if Lookup(old(list), tid) < 0 then Succeeded else Failed
    {
      var r := GetTransaction(tid);
      o := Failed;
      if r < 0 {
        list := list + [Transaction(tid, [])];
        o := Succeeded;
      }
    }

    method TransactionAdd(tid: string, x: Task) returns (o: Outcome)
      modifies this
      ensures list == Add(old(list), tid, x)
      ensures o == if Lookup(old(list), tid) < 0 then Failed else Succeeded
    {
      var r := GetTransaction(tid);
      o := Failed;
      if r >= 0 {
        list := list[r := list[r].(frames := [x] + list[r].frames)];
        o := Succeeded;
      }
    }

    method TransactionAbort(tid: string) returns (o: Outcome)
      modifies this
      ensures list == Abort(old(list), tid)
      ensures o == if Lookup(old(list), tid) < 0 then Failed else Succeeded
    {
      var r := GetTransaction(tid);
      o := Failed;
      if r >= 0 {
        list := list[..r] + list[r + 1..];
        o := Succeeded;
      }
    }

    /**
     `called` is the sequence of callbacks made. A failed callback does not make the commit fail. A
     commit that hangs has taken from the stack what it called.
     */
    method TransactionCommit(tid: string) returns (o: Outcome, called: seq<Task>)
      modifies this
      ensures var r := Lookup(old(list), tid);
        if r < 0 then o == Failed && called == [] && list == old(list)
        else
          var t := old(list)[r];
          && called == Called(t.frames)
          && o == (if Hangs(t.frames) then Hung else Succeeded)
          && list == (if o == Hung then old(list)[r := Transaction(t.tid, t.frames[|called|..])] else Abort(old(list), tid))
    {
      hide Lookup, Called, Hangs;
      var r := GetTransaction(tid);
      if r < 0 {
        return Failed, [];
      }
      var hangs, rest;
      called, rest, hangs := CallBacks(list[r].frames);
      if hangs {
        list := list[r := Transaction(list[r].tid, rest)];
        return Hung, called;
      }
      list := list[..r] + list[r + 1..];
      o := Succeeded;
    }
  }

  /** The loop of transaction_commit; `rest` is what is still in the list when it does not come back. */
  method CallBacks(frames: seq<Task>) returns (called: seq<Task>, rest: seq<Task>, hangs: bool)
    ensures called == Called(frames) && hangs == Hangs(frames)
    ensures hangs ==> rest == frames[|called|..]
  {
    called, rest := [], frames;
    while rest != []
      invariant called + rest == frames
      invariant called + Called(rest) == Called(frames) && Hangs(rest) == Hangs(frames)
      decreases |rest|
    {
      var x := rest[0];
      CalledStep(rest);
      if !x.hasCallback {
        assert rest == frames[|called|..];
        return called, rest, true;
      }
      called := called + [x];
      if !x.ok {
        break;
      }
      rest := rest[1..];
    }
    hangs := false;
  }

  lemma CalledStep(frames: seq<Task>)
    requires frames != []
    ensures var x := frames[0];
      && Called(frames) == (if !x.hasCallback then [] else [x] + (if x.ok then Called(frames[1..]) else []))
      && Hangs(frames) == (!x.hasCallback || (x.ok && Hangs(frames[1..])))
  {
  }

  // ----- What every operation keeps -----

  lemma OrderedKept(list: Live, tid: string, x: Task)
    requires Ordered(list)
    ensures Ordered(Start(list, tid)) && Ordered(Add(list, tid, x)) && Ordered(Abort(list, tid))
  {
    hide Lookup;
    var r := Lookup(list, tid);
    if r >= 0 {
      var rest := Remove(list, r);
      forall i, j | 0 <= i < j < |rest| ensures !(rest[j].tid <= rest[i].tid) {
        var a, b := if i < r then i else i + 1, if j < r then j else j + 1;
        assert rest[i] == list[a] && rest[j] == list[b];
      }
    }
  }

  // ----- A map from id to stack -----

  ghost function Stacks(list: Live): map<string, seq<Task>> {
    if list == [] then map[]
    else Stacks(list[..|list| - 1])[list[|list| - 1].tid := list[|list| - 1].frames]
  }

  ghost predicate HasId(list: Live, t: string) {
    exists i :: 0 <= i < |list| && list[i].tid == t
  }

  /** m maps exactly the live ids, each to its frames. */
  ghost predicate Maps(m: map<string, seq<Task>>, list: Live) {
    && (forall i :: 0 <= i < |list| ==> list[i].tid in m && m[list[i].tid] == list[i].frames)
    && (forall t :: t in m ==> HasId(list, t))
  }

  lemma {:induction false} StacksMaps(list: Live)
    requires Ordered(list)
    ensures Maps(Stacks(list), list)
  {
    if list != [] {
      var n := |list| - 1;
      StacksMaps(list[..n]);
      MapsSnoc(Stacks(list[..n]), list[..n], list[n]);
      assert list[..n] + [list[n]] == list;
    }
  }

  lemma MapsSnoc(m: map<string, seq<Task>>, list: Live, t: Transaction)
    requires Maps(m, list) && forall i :: 0 <= i < |list| ==> list[i].tid != t.tid
    ensures Maps(m[t.tid := t.frames], list + [t])
  {
    var after, n := list + [t], m[t.tid := t.frames];
    assert after[|list|] == t;
    forall u | u in n ensures HasId(after, u) {
      if u != t.tid {
        var i :| 0 <= i < |list| && list[i].tid == u;
        assert after[i].tid == u;
      }
    }
  }

  lemma MapsUnique(a: map<string, seq<Task>>, b: map<string, seq<Task>>, list: Live)
    requires Maps(a, list) && Maps(b, list)
    ensures a == b
  {
    forall t ensures t in a <==> t in b {
    }
  }

  /** While no live id extends tid, the operations on tid are those of a map from id to stack. */
  lemma LookupOnMap(list: Live, tid: string)
    requires Ordered(list) && !Extended(list, tid)
    ensures Lookup(list, tid) >= 0 <==> tid in Stacks(list)
    ensures Lookup(list, tid) >= 0 ==> list[Lookup(list, tid)].tid == tid && list[Lookup(list, tid)].frames == Stacks(list)[tid]
  {
    hide Lookup, Stacks, Extended, Ordered;
    LookupExactIff(list, tid);
    StacksMaps(list);
  }

  lemma StartOnMap(list: Live, tid: string)
    requires Ordered(list) && !Extended(list, tid)
    ensures Stacks(Start(list, tid)) == if tid in Stacks(list) then Stacks(list) else Stacks(list)[tid := []]
  {
    hide Lookup, Extended, Ordered;
    LookupOnMap(list, tid);
    if Lookup(list, tid) < 0 {
      assert Start(list, tid)[..|list|] == list;
    }
  }

  lemma AddOnMap(list: Live, tid: string, x: Task)
    requires Ordered(list) && !Extended(list, tid)
    ensures Stacks(Add(list, tid, x)) == if tid in Stacks(list) then Stacks(list)[tid := [x] + Stacks(list)[tid]] else Stacks(list)
  {
    hide Lookup, Stacks, Maps, Ordered, Extended;
    LookupOnMap(list, tid);
    OrderedKept(list, tid, x);
    StacksMaps(list);
    StacksMaps(Add(list, tid, x));
    var r := Lookup(list, tid);
    if r >= 0 {
      MapsPush(Stacks(list), list, r, x);
      MapsUnique(Stacks(Add(list, tid, x)), Stacks(list)[tid := [x] + Stacks(list)[tid]], Add(list, tid, x));
    }
  }

  lemma MapsPush(m: map<string, seq<Task>>, list: Live, r: nat, x: Task)
    requires Ordered(list) && Maps(m, list) && r < |list|
    ensures Maps(m[list[r].tid := [x] + list[r].frames], list[r := list[r].(frames := [x] + list[r].frames)])
  {
    var after := list[r := list[r].(frames := [x] + list[r].frames)];
    forall i | 0 <= i < |list| ensures i == r || list[i].tid != list[r].tid {
    }
    var n := m[list[r].tid := [x] + list[r].frames];
    forall u | u in n ensures HasId(after, u) {
      assert HasId(list, u);
      var i :| 0 <= i < |list| && list[i].tid == u;
      assert after[i].tid == u;
    }
  }

  /** Abort, and commit after its callbacks, remove this transaction and leave all others unchanged. */
  lemma AbortOnMap(list: Live, tid: string)
    requires Ordered(list) && !Extended(list, tid)
    ensures Stacks(Abort(list, tid)) == Stacks(list) - {tid}
  {
    hide Lookup, Stacks, Maps, Ordered, Extended;
    LookupOnMap(list, tid);
    OrderedKept(list, tid, Task(0, true, true));
    StacksMaps(list);
    StacksMaps(Abort(list, tid));
    var r := Lookup(list, tid);
    if r >= 0 {
      MapsRemove(Stacks(list), list, r);
      MapsUnique(Stacks(Abort(list, tid)), Stacks(list) - {tid}, Abort(list, tid));
    }
  }

  lemma MapsRemove(m: map<string, seq<Task>>, list: Live, r: nat)
    requires Ordered(list) && Maps(m, list) && r < |list|
    ensures Maps(m - {list[r].tid}, Remove(list, r))
  {
    hide Ordered, HasId, Remove;
    var after, n := Remove(list, r), m - {list[r].tid};
    forall j | 0 <= j < |after| ensures after[j].tid in n && n[after[j].tid] == after[j].frames {
      RemoveAt(list, r, j);
    }
    forall u | u in n ensures HasId(after, u) {
      RemoveKeepsIds(list, r, u);
    }
  }

  lemma RemoveAt(list: Live, r: nat, j: nat)
    requires Ordered(list) && r < |list| && j < |Remove(list, r)|
    ensures var i := if j < r then j else j + 1; i < |list| && Remove(list, r)[j] == list[i] && list[i].tid != list[r].tid
  {
  }

  lemma RemoveKeepsIds(list: Live, r: nat, u: string)
    requires r < |list| && HasId(list, u) && u != list[r].tid
    ensures HasId(Remove(list, r), u)
  {
    var i :| 0 <= i < |list| && list[i].tid == u;
    var j := if i < r then i else i - 1;
    assert Remove(list, r)[j] == list[i];
  }

  // ----- A whole transaction -----

  function AddAll(list: Live, tid: string, xs: seq<Task>): Live {
    if xs == [] then list else Add(AddAll(list, tid, xs[..|xs| - 1]), tid, xs[|xs| - 1])
  }

  function Reversed(xs: seq<Task>): seq<Task> {
    if xs == [] then [] else [xs[|xs| - 1]] + Reversed(xs[..|xs| - 1])
  }

  /** After start and additions, commit calls the callbacks in reverse order of addition, and all other transactions are as before. */
  lemma {:induction false} CommitCallsInReverse(list: Live, tid: string, xs: seq<Task>)
    requires Lookup(list, tid) < 0
    ensures var l := AddAll(Start(list, tid), tid, xs);
      && Lookup(l, tid) == |list| && l == list + [Transaction(tid, Reversed(xs))]
      && Abort(l, tid) == list
      && Called(l[Lookup(l, tid)].frames) <= Reversed(xs)
  {
    var l := AddAll(Start(list, tid), tid, xs);
    if xs != [] {
      CommitCallsInReverse(list, tid, xs[..|xs| - 1]);
    }
    assert l == list + [Transaction(tid, Reversed(xs))];
  }

  // ----- Every run -----

  /** End stands for an abort, and for a commit that comes back: both leave the same list. */
  datatype Op = Begin(tid: string) | Push(tid: string, x: Task) | End(tid: string)

  function Step(list: Live, op: Op): Live {
    match op
    case Begin(tid) => Start(list, tid)
    case Push(tid, x) => Add(list, tid, x)
    case End(tid) => Abort(list, tid)
  }

  function Run(ops: seq<Op>): Live {
    if ops == [] then [] else Step(Run(ops[..|ops| - 1]), ops[|ops| - 1])
  }

  function MapStep(m: map<string, seq<Task>>, op: Op): map<string, seq<Task>> {
    match op
    case Begin(tid) => if tid in m then m else m[tid := []]
    case Push(tid, x) => if tid in m then m[tid := [x] + m[tid]] else m
    case End(tid) => m - {tid}
  }

  function MapRun(ops: seq<Op>): map<string, seq<Task>> {
    if ops == [] then map[] else MapStep(MapRun(ops[..|ops| - 1]), ops[|ops| - 1])
  }

  lemma {:induction false} RunOrdered(ops: seq<Op>)
    ensures Ordered(Run(ops))
  {
    hide Ordered;
    if ops == [] {
      assert Ordered([]) by {
        EmptyOrdered();
      }
    } else {
      var n := |ops| - 1;
      RunOrdered(ops[..n]);
      OrderedKept(Run(ops[..n]), ops[n].tid, if ops[n].Push? then ops[n].x else Task(0, true, true));
    }
  }

  lemma EmptyOrdered()
    ensures Ordered([])
  {
  }

  /** Whenever an operation was done, no live id properly extended the id it was given. */
  ghost predicate Unambiguous(ops: seq<Op>) {
    forall n :: 0 <= n < |ops| ==> !Extended(Run(ops[..n]), ops[n].tid)
  }

  lemma UnambiguousPrefix(ops: seq<Op>)
    requires ops != [] && Unambiguous(ops)
    ensures Unambiguous(ops[..|ops| - 1])
    ensures !Extended(Run(ops[..|ops| - 1]), ops[|ops| - 1].tid)
  {
    hide Run, Extended;
    var init := ops[..|ops| - 1];
    forall n | 0 <= n < |init| ensures !Extended(Run(init[..n]), init[n].tid) {
      assert init[..n] == ops[..n];
    }
  }

  /** Over every run, while no live id extends the one in use, the manager is a map from id to stack. */
  lemma {:induction false} RunRefinesMap(ops: seq<Op>)
    requires Unambiguous(ops)
    ensures Stacks(Run(ops)) == MapRun(ops)
  {
    hide Stacks, Start, Add, Abort, Unambiguous, Extended;
    if ops == [] {
      assert Stacks([]) == map[] by {
        EmptyStacks();
      }
    } else {
      var n := |ops| - 1;
      var list, op := Run(ops[..n]), ops[n];
      UnambiguousPrefix(ops);
      RunRefinesMap(ops[..n]);
      RunOrdered(ops[..n]);
      match op
      case Begin(tid) => StartOnMap(list, tid);
      case Push(tid, x) => AddOnMap(list, tid, x);
      case End(tid) => AbortOnMap(list, tid);
    }
  }

  /** The frames pushed on tid since the transaction that is live now was begun. */
  function Pushed(ops: seq<Op>, tid: string): seq<Task> {
    if ops == [] then []
    else
      var init, op := ops[..|ops| - 1], ops[|ops| - 1];
      if op.tid != tid || tid !in MapRun(init) then (if op.Begin? && op.tid == tid then [] else Pushed(init, tid))
      else if op.Push? then Pushed(init, tid) + [op.x]
      else if op.End? then []
      else Pushed(init, tid)
  }

  lemma {:induction false} StackIsReversedPushes(ops: seq<Op>, tid: string)
    ensures tid in MapRun(ops) ==> MapRun(ops)[tid] == Reversed(Pushed(ops, tid))
  {
    if ops != [] {
      var init, op := ops[..|ops| - 1], ops[|ops| - 1];
      StackIsReversedPushes(init, tid);
      if op.tid == tid && op.Push? && tid in MapRun(init) {
        assert (Pushed(init, tid) + [op.x])[..|Pushed(init, tid)|] == Pushed(init, tid);
      }
    }
  }

  /**
   In every such run a commit of a live transaction finds the frames pushed since its Begin, last
   one first, and calls a prefix of them; the others keep their stacks.
   */
  lemma CommitInEveryRun(ops: seq<Op>, tid: string)
    requires Unambiguous(ops) && !Extended(Run(ops), tid) && tid in MapRun(ops)
    ensures var r := Lookup(Run(ops), tid);
      && r >= 0 && Run(ops)[r].tid == tid
      && Run(ops)[r].frames == Reversed(Pushed(ops, tid))
      && Called(Run(ops)[r].frames) <= Reversed(Pushed(ops, tid))
      && Stacks(Abort(Run(ops), tid)) == MapRun(ops) - {tid}
  {
    hide Lookup, Stacks, Run, MapRun, Extended, Unambiguous, Pushed, Reversed, Abort, Ordered;
    RunRefinesMap(ops);
    RunOrdered(ops);
    LookupOnMap(Run(ops), tid);
    StackIsReversedPushes(ops, tid);
    AbortOnMap(Run(ops), tid);
  }

  lemma EmptyStacks()
    ensures Stacks([]) == map[]
  {
  }
}
