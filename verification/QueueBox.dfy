/**
 The queue box of src/lib/queue.c: 512 buckets of queues, found by the hash of their names
 (src/lib/common.c), each a FIFO list. Queues with the same hash are one queue.
 */
module QueueBox {

  import opened Options

  const QB_SIZE: nat := 512
  const WORD: nat := 0x1_0000_0000_0000_0000

  /** get_hash from position i on, in 64-bit arithmetic. */
  function HashFrom(s: string, i: nat, hash: nat): nat
    requires i <= |s|
    decreases |s| - i
  {
    if i == |s| || s[i] == '\0' then hash else HashFrom(s, i + 1, (33 * hash + s[i] as nat) % WORD)
  }

  function Hash(s: string): nat {
    HashFrom(s, 0, 5381)
  }

  method GetHash(s: string) returns (hash: nat)
    ensures hash == Hash(s)
  {
    hash := 5381;
    var i := 0;
    while i < |s| && s[i] != '\0'
      invariant 0 <= i <= |s|
      invariant Hash(s) == HashFrom(s, i, hash)
    {
      // (hash << 5) + hash
      hash := (32 * hash + hash + s[i] as nat) % WORD;
      i := i + 1;
    }
  }

  ghost predicate NulFree(s: string) {
    forall i :: 0 <= i < |s| ==> s[i] != '\0'
  }

  lemma {:induction false} HashSplit(s: string, t: string, i: nat, hash: nat)
    requires NulFree(s) && i <= |s|
    ensures HashFrom(s + t, i, hash) == HashFrom(s + t, |s|, HashFrom(s, i, hash))
    decreases |s| - i
  {
    if i < |s| {
      assert (s + t)[i] == s[i];
      HashSplit(s, t, i + 1, (33 * hash + s[i] as nat) % WORD);
    }
  }

  /** The empty name hashes to 5381, every byte enters as 33 times what was before it plus itself, in 64 bits. */
  lemma HashSnoc(s: string, c: char)
    requires NulFree(s) && c != '\0'
    ensures Hash("") == 5381
    ensures Hash(s + [c]) == (33 * Hash(s) + c as nat) % 0x1_0000_0000_0000_0000
  {
    HashSplit(s, [c], 0, 5381);
  }

  /** A NUL ends the name. */
  lemma HashToNul(s: string, t: string)
    requires NulFree(s)
    ensures Hash(s + "\0" + t) == Hash(s)
  {
    assert s + "\0" + t == s + ("\0" + t);
    HashSplit(s, "\0" + t, 0, 5381);
  }

  /** Names that differ only in their last byte have different hashes. */
  lemma SiblingsDiffer(s: string, c: char, d: char)
    requires NulFree(s) && c != '\0' && d != '\0' && c != d
    ensures Hash(s + [c]) != Hash(s + [d])
  {
    hide Hash;
    HashSnoc(s, c);
    HashSnoc(s, d);
    var h := 33 * Hash(s);
    assert c as nat < 0x11_0000 && d as nat < 0x11_0000;
  }

  class Queue<T> {
    const hashnum: nat
    var entries: seq<T>
    var count: nat
    /** the number of entries ever dequeued */
    ghost var taken: nat

    constructor (hashnum: nat)
      ensures this.hashnum == hashnum && entries == [] && count == 0 && taken == 0
    {
      this.hashnum := hashnum;
      entries, count, taken := [], 0, 0;
    }
  }

  /** The queue that a search of a bucket ends with: the last one with the hash. */
  function FindIn<T>(qs: seq<Queue<T>>, h: nat): (r: Queue?<T>)
    ensures r == null <==> forall q :: q in qs ==> q.hashnum != h
    ensures r != null ==> r in qs && r.hashnum == h
  {
    if qs == [] then null
    else if qs[|qs| - 1].hashnum == h then qs[|qs| - 1]
    else
      var r := FindIn(qs[..|qs| - 1], h);
      assert qs == qs[..|qs| - 1] + [qs[|qs| - 1]];
      r
  }

  class Box<T> {
    var buckets: seq<seq<Queue<T>>>
    ghost var queues: set<Queue<T>>

    /** Every queue is in the bucket of its hash, hashes are unique, and count keeps the books. */
    ghost predicate Valid()
      reads this, queues
    {
      && |buckets| == QB_SIZE
      && (forall b, i :: 0 <= b < QB_SIZE && 0 <= i < |buckets[b]| ==>
            buckets[b][i] in queues && buckets[b][i].hashnum % QB_SIZE == b)
      && (forall b, i, j :: 0 <= b < QB_SIZE && 0 <= i < j < |buckets[b]| ==> buckets[b][i].hashnum != buckets[b][j].hashnum)
      && (forall q :: q in queues ==> q.count == |q.entries| + q.taken)
    }

    constructor ()
      ensures Valid() && fresh(queues) && |buckets| == 512
      ensures forall h: nat :: Contents(h) == [] && Count(h) == Taken(h) == 0
    {
      buckets := seq(QB_SIZE, _ => []);
      queues := {};
    }

    function Find(h: nat): (r: Queue?<T>)
      requires |buckets| == QB_SIZE
      reads this
    {
      FindIn(buckets[h % QB_SIZE], h)
    }

    /** What the queue with hash h holds; a queue that does not exist holds nothing. */
    ghost function Contents(h: nat): seq<T>
      requires Valid()
      reads this, queues
    {
      var q := Find(h);
      if q == null then [] else q.entries
    }

    /** The count field of the queue with hash h. */
    ghost function Count(h: nat): nat
      requires Valid()
      reads this, queues
    {
      var q := Find(h);
      if q == null then 0 else q.count
    }

    /** The number of entries ever dequeued from the queue with hash h; count is what it holds plus this. */
    ghost function Taken(h: nat): (n: nat)
      requires Valid()
      reads this, queues
      ensures Count(h) == |Contents(h)| + n
    {
      var q := Find(h);
      if q == null then 0 else q.taken
    }

    method Search(h: nat) returns (found: Queue?<T>)
      requires Valid()
      ensures found == Find(h)
    {
      var bucket := buckets[h % QB_SIZE];
      found := null;
      for i := 0 to |bucket|
        invariant found == FindIn(bucket[..i], h)
      {
        assert bucket[..i + 1][..i] == bucket[..i];
        if bucket[i].hashnum == h {
          found := bucket[i];
        }
      }
      assert bucket[..|bucket|] == bucket;
    }

    /** A new queue at the front of its bucket. */
    method Create(h: nat) returns (q: Queue<T>)
      requires Valid() && Find(h) == null
      modifies this
      ensures Valid() && fresh(q) && queues == old(queues) + {q}
      ensures q.hashnum == h && q.entries == [] && q.count == q.taken == 0
      ensures buckets == old(buckets)[h % 512 := [q] + old(buckets)[h % 512]]
      ensures forall g: nat :: Find(g) == if g == h then q else old(Find(g))
    {
      hide FindIn;
      q := new Queue<T>(h);
      var index := h % QB_SIZE;
      var bucket := buckets[index];
      ghost var before := buckets;
      buckets := buckets[index := [q] + bucket];
      queues := queues + {q};
      forall g: nat
        ensures Find(g) == if g == h then q else FindIn(before[g % QB_SIZE], g)
      {
        FindAfterInsert(q, bucket, g);
      }
    }

    method GetQueue(name: string) returns (q: Queue<T>)
      requires Valid()
      modifies this
      ensures Valid() && fresh(queues - old(queues)) && old(queues) <= queues
      ensures q in queues && Find(Hash(name)) == q && q.hashnum == Hash(name)
      ensures old(Find(Hash(name))) != null ==> q == old(Find(Hash(name)))
      ensures forall h: nat :: Contents(h) == old(Contents(h)) && Count(h) == old(Count(h)) && Taken(h) == old(Taken(h))
    {
      hide Hash;
      var h := GetHash(name);
      var found := Search(h);
      if found != null {
        return found;
      }
      q := Create(h);
    }

    method Enqueue(x: T, name: string)
      requires Valid()
      modifies this, queues
      ensures Valid() && fresh(queues - old(queues))
      ensures Contents(Hash(name)) == old(Contents(Hash(name))) + [x]
      ensures Count(Hash(name)) == old(Count(Hash(name))) + 1 && Taken(Hash(name)) == old(Taken(Hash(name)))
      ensures forall h: nat :: h != Hash(name) ==> Contents(h) == old(Contents(h))
      ensures forall h: nat :: h != Hash(name) ==> Count(h) == old(Count(h)) && Taken(h) == old(Taken(h))
    {
      hide Hash, FindIn;
      var q := GetQueue(name);
      q.entries := q.entries + [x];
      q.count := q.count + 1;
    }

    method Dequeue(name: string) returns (r: Option<T>)
      requires Valid()
      modifies this, queues
      ensures Valid() && fresh(queues - old(queues))
      ensures r.None? <==> old(Contents(Hash(name))) == []
      ensures r.None? ==> Contents(Hash(name)) == []
      ensures r.Some? ==> old(Contents(Hash(name))) == [r.value] + Contents(Hash(name))
      ensures Count(Hash(name)) == old(Count(Hash(name)))
      ensures Taken(Hash(name)) == old(Taken(Hash(name))) + (if r.Some? then 1 else 0)
      ensures forall h: nat :: h != Hash(name) ==> Contents(h) == old(Contents(h))
      ensures forall h: nat :: h != Hash(name) ==> Count(h) == old(Count(h)) && Taken(h) == old(Taken(h))
    {
      hide Hash, FindIn;
      var q := GetQueue(name);
      r := None;
      if q.entries != [] {
        r := Some(q.entries[0]);
        q.entries := q.entries[1..];
        q.taken := q.taken + 1;
      }
    }
  }

  /** Insertion at the front changes what is found only for a hash that was not there. */
  lemma {:induction false} FindAfterInsert<T>(q: Queue<T>, qs: seq<Queue<T>>, g: nat)
    ensures FindIn([q] + qs, g) == if FindIn(qs, g) != null then FindIn(qs, g) else if q.hashnum == g then q else null
  {
    if qs == [] {
      assert [q] + qs == [q];
    } else {
      var n := |qs| - 1;
      assert ([q] + qs)[..n + 1] == [q] + qs[..n];
      FindAfterInsert(q, qs[..n], g);
    }
  }

  /** An entry for one of two such names does not come out under the other one. */
  method EnqueueBeside<T>(box: Box<T>, x: T, s: string, c: char, d: char) returns (r: Option<T>)
    requires box.Valid() && NulFree(s) && c != '\0' && d != '\0' && c != d
    modifies box, box.queues
    ensures box.Valid() && box.Contents(Hash(s + [c])) == old(box.Contents(Hash(s + [c]))) + [x]
    ensures r.None? <==> old(box.Contents(Hash(s + [d]))) == []
    ensures r.Some? ==> old(box.Contents(Hash(s + [d]))) == [r.value] + box.Contents(Hash(s + [d]))
  {
    hide Hash;
    SiblingsDiffer(s, c, d);
    box.Enqueue(x, s + [c]);
    r := box.Dequeue(s + [d]);
  }

  // ----- Every run -----

  datatype Op<T> = Enq(x: T, name: string) | Deq(name: string)

  /** A FIFO after one operation, and what came out of it; operations on other hashes pass it by. */
  function Next<T>(xs: seq<T>, op: Op<T>, h: nat): (seq<T>, seq<T>) {
    if Hash(op.name) != h then (xs, [])
    else match op
      case Enq(x, _) => (xs + [x], [])
      case Deq(_) => if xs == [] then (xs, []) else (xs[1..], [xs[0]])
  }

  function After<T>(xs: seq<T>, ops: seq<Op<T>>, h: nat): seq<T> {
    if ops == [] then xs else Next(After(xs, ops[..|ops| - 1], h), ops[|ops| - 1], h).0
  }

  /** Everything that came out of the queue with hash h. */
  function Output<T>(xs: seq<T>, ops: seq<Op<T>>, h: nat): seq<T> {
    if ops == [] then []
    else Output(xs, ops[..|ops| - 1], h) + Next(After(xs, ops[..|ops| - 1], h), ops[|ops| - 1], h).1
  }

  /** Everything that was put into the queue with hash h. */
  function Input<T>(ops: seq<Op<T>>, h: nat): seq<T> {
    if ops == [] then []
    else
      var op := ops[|ops| - 1];
      Input(ops[..|ops| - 1], h) + (if op.Enq? && Hash(op.name) == h then [op.x] else [])
  }

  /** First in, first out: nothing is lost, added or reordered. */
  lemma {:induction false} FifoLaw<T>(xs: seq<T>, ops: seq<Op<T>>, h: nat)
    ensures xs + Input(ops, h) == Output(xs, ops, h) + After(xs, ops, h)
  {
    hide Hash;
    if ops != [] {
      var n := |ops| - 1;
      FifoLaw(xs, ops[..n], h);
      var a, b := After(xs, ops[..n], h), Output(xs, ops[..n], h);
      var op := ops[n];
      assert b + [] == b && Input(ops[..n], h) + [] == Input(ops[..n], h);
      if Hash(op.name) == h {
        if op.Enq? {
          assert b + (a + [op.x]) == (b + a) + [op.x];
          assert xs + (Input(ops[..n], h) + [op.x]) == (xs + Input(ops[..n], h)) + [op.x];
        } else if a != [] {
          assert b + a == (b + [a[0]]) + a[1..];
        }
      }
    }
  }

  method RunOne<T>(box: Box<T>, op: Op<T>, h: nat) returns (out: seq<T>)
    requires box.Valid()
    modifies box, box.queues
    ensures box.Valid() && fresh(box.queues - old(box.queues))
    ensures forall g: nat :: box.Contents(g) == Next(old(box.Contents(g)), op, g).0
    ensures forall g: nat :: box.Count(g) == old(box.Count(g)) + (if op.Enq? && Hash(op.name) == g then 1 else 0)
    ensures out == Next(old(box.Contents(h)), op, h).1
  {
    hide Hash;
    out := [];
    if op.Enq? {
      box.Enqueue(op.x, op.name);
    } else {
      var r := box.Dequeue(op.name);
      if r.Some? && Hash(op.name) == h {
        out := [r.value];
      }
    }
  }

  lemma AfterSnoc<T>(xs: seq<T>, ops: seq<Op<T>>, i: nat, h: nat)
    requires i < |ops|
    ensures After(xs, ops[..i + 1], h) == Next(After(xs, ops[..i], h), ops[i], h).0
    ensures Output(xs, ops[..i + 1], h) == Output(xs, ops[..i], h) + Next(After(xs, ops[..i], h), ops[i], h).1
    ensures |Input(ops[..i + 1], h)| == |Input(ops[..i], h)| + (if ops[i].Enq? && Hash(ops[i].name) == h then 1 else 0)
  {
    assert ops[..i + 1][..i] == ops[..i];
  }

  /** A run of operations on the box acts on every hash as on a FIFO of its own; `out` is what came out for hash h. */
  method Run<T>(box: Box<T>, ops: seq<Op<T>>, h: nat) returns (out: seq<T>)
    requires box.Valid()
    modifies box, box.queues
    ensures box.Valid()
    ensures forall g: nat :: box.Contents(g) == After(old(box.Contents(g)), ops, g)
    ensures forall g: nat :: box.Count(g) == old(box.Count(g)) + |Input(ops, g)|
    ensures out == Output(old(box.Contents(h)), ops, h)
    ensures box.Count(h) == |After(old(box.Contents(h)), ops, h)| + |out| + old(box.Taken(h))
  {
    hide Next;
    out := [];
    for i := 0 to |ops|
      invariant box.Valid() && fresh(box.queues - old(box.queues))
      invariant forall g: nat :: box.Contents(g) == After(old(box.Contents(g)), ops[..i], g)
      invariant forall g: nat :: box.Count(g) == old(box.Count(g)) + |Input(ops[..i], g)|
      invariant out == Output(old(box.Contents(h)), ops[..i], h)
    {
      forall g: nat
        ensures After(old(box.Contents(g)), ops[..i + 1], g) == Next(After(old(box.Contents(g)), ops[..i], g), ops[i], g).0
        ensures |Input(ops[..i + 1], g)| == |Input(ops[..i], g)| + (if ops[i].Enq? && Hash(ops[i].name) == g then 1 else 0)
      {
        AfterSnoc(old(box.Contents(g)), ops, i, g);
      }
      AfterSnoc(old(box.Contents(h)), ops, i, h);
      var more := RunOne(box, ops[i], h);
      out := out + more;
    }
    assert ops[..|ops|] == ops;
    FifoLaw(old(box.Contents(h)), ops, h);
  }
}
