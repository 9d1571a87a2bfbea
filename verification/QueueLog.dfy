/**
 The persistent log of one queue (src/lib/persistent_worker.c): the serializer, the loader that
 reads the log back from the durable sent index, and the three byte cursors.
 */
module QueueLog {
  import opened Frames
  import opened LogParser

  // ----- The serializer -----

  /** The bytes that persist_queue_context writes for one frame. */
  function WriteOut(f: Frame): string {
    f.name + "\n" + Lines(f.attrs) + "\n" + Flatten(f.data) + "\0"
  }

  function WriteAll(fs: seq<Frame>): string {
    if fs == [] then "" else WriteOut(fs[0]) + WriteAll(fs[1..])
  }

  function SumFrameSizes(fs: seq<Frame>): nat {
    if fs == [] then 0 else fs[0].size + SumFrameSizes(fs[1..])
  }

  ghost predicate FramesOf(fs: seq<Frame>, ms: seq<Message>) {
    |fs| == |ms| && forall i :: 0 <= i < |fs| ==> FrameOf(fs[i], ms[i])
  }

  ghost predicate AllWellFormed(ms: seq<Message>) {
    forall m :: m in ms ==> WellFormed(m)
  }

  lemma {:induction false} WriteAllEncodes(fs: seq<Frame>, ms: seq<Message>)
    requires FramesOf(fs, ms)
    ensures WriteAll(fs) == EncodeAll(ms)
  {
    if fs != [] {
      assert FrameOf(fs[0], ms[0]);
      assert ms[0].headers[0..] == ms[0].headers;
      assert WriteOut(fs[0]) == Encode(ms[0]);
      WriteAllEncodes(fs[1..], ms[1..]);
    }
  }

  // ----- The loader -----

  /** `frame` is the frame under construction; NEW_FRAME stands for none. */
  datatype Load = Loaded(frames: seq<Frame>, frame: Frame) | Incomplete(frames: seq<Frame>) | BadIndex

  /**
   The inner loop of unpersist_queue_context on one buffer. Every call of parse_frame is given the
   length of the whole buffer, so that it may look at `junk`, the memory behind the bytes read. A
   frame that is unfinished at the end goes on with the next buffer; a body that runs into the end
   goes to prev_buffer, which is where this model stops.
   */
  function LoadBuffer(buf: string, junk: string, index: nat, frames: seq<Frame>, f: Frame): (r: Load)
    requires index < |buf| <= |junk|
    ensures !r.BadIndex?
    decreases |buf| - index
  {
    match ParseFrameOf(f, (buf + junk)[index..index + |buf|])
    case Parsed(g, offset) =>
      if index + offset < |buf| then LoadBuffer(buf, junk, index + offset, frames + [g], NEW_FRAME)
      else Loaded(frames + [g], NEW_FRAME)
    case Unfinished(g, _) => Loaded(frames, g)
    case Carried(_, _) => Incomplete(frames)
  }

  function ReadAt(data: string, pos: nat, bufferLen: nat): (r: string)
    requires pos <= |data|
    ensures |r| <= bufferLen
    ensures bufferLen > 0 && pos < |data| ==> |r| > 0
  {
    data[pos..Min(pos + bufferLen, |data|)]
  }

  /** The outer loop: one fread after the other. */
  function LoadFrom(data: string, pos: nat, bufferLen: nat, junk: nat -> string, frames: seq<Frame>, f: Frame): (r: Load)
    requires bufferLen > 0 && forall p :: |junk(p)| >= bufferLen
    ensures !r.BadIndex?
    decreases if pos < |data| then |data| - pos else 0
  {
    if pos >= |data| then
      Loaded(frames, f)
    else
      var buf := ReadAt(data, pos, bufferLen);
      var r := LoadBuffer(buf, junk(pos), 0, frames, f);
      if r.Loaded? then LoadFrom(data, pos + |buf|, bufferLen, junk, r.frames, r.frame) else r
  }

  /** unpersist_queue_context on the data file and the durable sent index. */
  function LoadLog(data: string, sent: int, bufferLen: nat, junk: nat -> string): (r: Load)
    requires bufferLen > 0 && forall p :: |junk(p)| >= bufferLen
    ensures r.BadIndex? <==> sent < 0
    ensures sent >= |data| ==> r == Loaded([], NEW_FRAME)
  {
    if sent < 0 then BadIndex else LoadFrom(data, sent, bufferLen, junk, [], NEW_FRAME)
  }

  method UnpersistQueueContext(data: string, sent: int, bufferLen: nat, junk: nat -> string) returns (r: Load)
    requires bufferLen > 0 && forall p :: |junk(p)| >= bufferLen
    ensures r == LoadLog(data, sent, bufferLen, junk)
  {
    hide ParseFrameOf;
    if sent < 0 {
      return BadIndex;
    }
    var frames: seq<Frame>, frame, pos := [], NEW_FRAME, sent;
    while pos < |data|
      invariant pos >= 0
      invariant LoadFrom(data, sent, bufferLen, junk, [], NEW_FRAME) == LoadFrom(data, pos, bufferLen, junk, frames, frame)
      decreases |data| - pos
    {
      var buf := ReadAt(data, pos, bufferLen);
      var index := 0;
      ghost var want := LoadBuffer(buf, junk(pos), 0, frames, frame);
      while index < |buf|
        invariant 0 <= index
        invariant index < |buf| ==> want == LoadBuffer(buf, junk(pos), index, frames, frame)
        invariant index >= |buf| ==> want == Loaded(frames, frame)
        decreases |buf| - index
      {
        var input := (buf + junk(pos))[index..index + |buf|];
        assert |input| == |buf|;
        var p := ParseFrame(frame, input);
        match p {
          case Parsed(g, _) => frames, frame := frames + [g], NEW_FRAME;
          case Unfinished(g, _) => frame := g;
          case Carried(_, _) => return Incomplete(frames);
        }
        index := index + p.offset;
      }
      pos := pos + |buf|;
    }
    r := Loaded(frames, frame);
  }

  // ----- The log comes back -----

  /** The frames of ms were loaded, behind those that were there before, and no frame is left open. */
  ghost predicate Appends(r: Load, frames: seq<Frame>, ms: seq<Message>) {
    && r.Loaded? && r.frame == NEW_FRAME
    && |r.frames| == |frames| + |ms|
    && r.frames[..|frames|] == frames
    && FramesOf(r.frames[|frames|..], ms)
  }

  lemma LoadBufferUnfold(buf: string, junk: string, index: nat, frames: seq<Frame>, f: Frame)
    requires index < |buf| <= |junk|
    ensures var p := ParseFrameOf(f, (buf + junk)[index..index + |buf|]);
      LoadBuffer(buf, junk, index, frames, f) ==
        if p.Carried? then Incomplete(frames)
        else if p.Unfinished? then Loaded(frames, p.frame)
        else if index + p.offset < |buf| then LoadBuffer(buf, junk, index + p.offset, frames + [p.frame], NEW_FRAME)
        else Loaded(frames + [p.frame], NEW_FRAME)
  {
    hide ParseFrameOf;
  }

  /** The first message of b is read; the loop goes on behind it. */
  lemma LoadFirst(pre: string, b: seq<Message>, junk: string, frames: seq<Frame>) returns (f: Frame)
    requires AllWellFormed(b) && b != []
    requires |pre + EncodeAll(b)| <= |junk| && |pre| < |pre + EncodeAll(b)|
    ensures FrameOf(f, b[0])
    ensures var buf, next := pre + EncodeAll(b), |pre| + |Encode(b[0])|;
      LoadBuffer(buf, junk, |pre|, frames, NEW_FRAME) ==
        if next < |buf| then LoadBuffer(buf, junk, next, frames + [f], NEW_FRAME) else Loaded(frames + [f], NEW_FRAME)
  {
    hide ParseFrameOf, FrameOf, WellFormed, Encode, LoadBuffer;
    var m := b[0];
    assert m in b;
    var buf := pre + EncodeAll(b);
    var input := (buf + junk)[|pre|..|pre| + |buf|];
    BufferInput(pre, Encode(m), EncodeAll(b[1..]), junk);
    ParseEncoded(m, input[|Encode(m)|..]);
    LoadBufferUnfold(buf, junk, |pre|, frames, NEW_FRAME);
    f := ParseFrameOf(NEW_FRAME, input).frame;
  }

  lemma {:induction false} LoadBufferEncoded(pre: string, b: seq<Message>, junk: string, frames: seq<Frame>)
    requires AllWellFormed(b) && b != []
    requires |pre + EncodeAll(b)| <= |junk|
    ensures |pre| < |pre + EncodeAll(b)|
    ensures Appends(LoadBuffer(pre + EncodeAll(b), junk, |pre|, frames, NEW_FRAME), frames, b)
    decreases |b|
  {
    hide FrameOf, WellFormed, Encode, LoadBuffer, Appends;
    var m, rest := b[0], b[1..];
    var buf := pre + EncodeAll(b);
    EncodeSome(m);
    var f := LoadFirst(pre, b, junk, frames);
    if rest == [] {
      AppendsOne(Loaded(frames + [f], NEW_FRAME), frames, f, b);
    } else {
      EncodeSome(rest[0]);
      assert (pre + Encode(m)) + EncodeAll(rest) == buf;
      LoadBufferEncoded(pre + Encode(m), rest, junk, frames + [f]);
      AppendsOne(LoadBuffer(buf, junk, |pre|, frames, NEW_FRAME), frames, f, b);
    }
  }

  lemma EncodeSnoc(a: seq<Message>, m: Message, rest: seq<Message>)
    ensures EncodeAll(a + [m]) == EncodeAll(a) + Encode(m)
    ensures EncodeAll(a + [m]) + EncodeAll(rest) == EncodeAll(a) + (Encode(m) + EncodeAll(rest))
  {
    hide Encode;
    EncodeAllAppend(a, [m]);
    assert [m][1..] == [];
  }

  lemma AppendsOne(r: Load, frames: seq<Frame>, f: Frame, b: seq<Message>)
    requires b != [] && FrameOf(f, b[0])
    requires Appends(r, frames + [f], b[1..]) || (r == Loaded(frames + [f], NEW_FRAME) && b[1..] == [])
    ensures Appends(r, frames, b)
  {
    hide FrameOf;
    assert r.frames[..|frames| + 1] == frames + [f];
    assert r.frames[..|frames|] == r.frames[..|frames| + 1][..|frames|];
    assert r.frames[|frames|..] == [f] + r.frames[|frames| + 1..];
  }

  lemma EncodeSome(m: Message)
    ensures |Encode(m)| > 0
  {
  }

  lemma BufferInput(a: string, e: string, b: string, junk: string)
    requires |a + (e + b)| <= |junk|
    ensures var buf := a + (e + b);
      var input := ((buf + junk)[|a|..|a| + |buf|]);
      |e| <= |input| && input == e + input[|e|..]
  {
    var buf := a + (e + b);
    var input := (buf + junk)[|a|..|a| + |buf|];
    assert forall j :: 0 <= j < |e| ==> input[j] == e[j];
  }

  /** Every buffer end falls on a frame end; in particular when everything fits into one buffer. */
  ghost predicate Aligned(ms: seq<Message>, bufferLen: nat)
    decreases |ms|
  {
    || |EncodeAll(ms)| <= bufferLen
    || exists k :: 0 < k <= |ms| && |EncodeAll(ms[..k])| == bufferLen && Aligned(ms[k..], bufferLen)
  }

  lemma FirstGroup(ms: seq<Message>, bufferLen: nat) returns (k: nat)
    requires ms != [] && Aligned(ms, bufferLen)
    ensures 0 < k <= |ms| && Aligned(ms[k..], bufferLen)
    ensures |EncodeAll(ms[..k])| == bufferLen || (|EncodeAll(ms[..k])| < bufferLen && ms[k..] == [])
  {
    hide Encode;
    k := |ms|;
    assert ms[..k] == ms && ms[k..] == [];
    if |EncodeAll(ms)| > bufferLen {
      k :| 0 < k <= |ms| && |EncodeAll(ms[..k])| == bufferLen && Aligned(ms[k..], bufferLen);
    }
  }

  lemma LoadFromUnfold(data: string, pos: nat, bufferLen: nat, junk: nat -> string, frames: seq<Frame>, f: Frame)
    requires bufferLen > 0 && forall p :: |junk(p)| >= bufferLen
    ensures pos >= |data| ==> LoadFrom(data, pos, bufferLen, junk, frames, f) == Loaded(frames, f)
    ensures pos < |data| ==> var buf := ReadAt(data, pos, bufferLen);
              var r := LoadBuffer(buf, junk(pos), 0, frames, f);
              LoadFrom(data, pos, bufferLen, junk, frames, f)
              == if r.Loaded? then LoadFrom(data, pos + |buf|, bufferLen, junk, r.frames, r.frame) else r
  {
    hide LoadBuffer;
  }

  /** The first buffer holds the first k messages. */
  lemma LoadGroup(data: string, pos: nat, ms: seq<Message>, k: nat, bufferLen: nat, junk: nat -> string, frames: seq<Frame>)
    returns (r: Load)
    requires bufferLen > 0 && forall p :: |junk(p)| >= bufferLen
    requires pos <= |data| && data[pos..] == EncodeAll(ms)
    requires AllWellFormed(ms) && 0 < k <= |ms|
    requires |EncodeAll(ms[..k])| == bufferLen || (|EncodeAll(ms[..k])| < bufferLen && ms[k..] == [])
    ensures var next := pos + |EncodeAll(ms[..k])|;
      && next <= |data| && data[next..] == EncodeAll(ms[k..])
      && r.Loaded? && Appends(r, frames, ms[..k])
      && LoadFrom(data, pos, bufferLen, junk, frames, NEW_FRAME) == LoadFrom(data, next, bufferLen, junk, r.frames, NEW_FRAME)
  {
    hide LoadBuffer, LoadFrom, FrameOf, WellFormed, Encode;
    var a, b := ms[..k], ms[k..];
    assert ms == a + b;
    EncodeAllAppend(a, b);
    EncodeSome(a[0]);
    FirstBuffer(data, pos, EncodeAll(a), EncodeAll(b), bufferLen);
    assert "" + EncodeAll(a) == EncodeAll(a);
    LoadBufferEncoded("", a, junk(pos), frames);
    LoadFromUnfold(data, pos, bufferLen, junk, frames, NEW_FRAME);
    r := LoadBuffer(EncodeAll(a), junk(pos), 0, frames, NEW_FRAME);
  }

  lemma {:induction false} LoadAligned(data: string, pos: nat, ms: seq<Message>, bufferLen: nat, junk: nat -> string, frames: seq<Frame>)
    requires bufferLen > 0 && forall p :: |junk(p)| >= bufferLen
    requires pos <= |data| && data[pos..] == EncodeAll(ms)
    requires AllWellFormed(ms) && Aligned(ms, bufferLen)
    ensures Appends(LoadFrom(data, pos, bufferLen, junk, frames, NEW_FRAME), frames, ms)
    decreases |ms|
  {
    hide LoadFrom, FrameOf, WellFormed, Encode, Aligned, Appends;
    if ms == [] {
      LoadFromUnfold(data, pos, bufferLen, junk, frames, NEW_FRAME);
      AppendsNone(frames);
    } else {
      var k := FirstGroup(ms, bufferLen);
      var r := LoadGroup(data, pos, ms, k, bufferLen, junk, frames);
      LoadAligned(data, pos + |EncodeAll(ms[..k])|, ms[k..], bufferLen, junk, r.frames);
      AppendsTwice(r, LoadFrom(data, pos, bufferLen, junk, frames, NEW_FRAME), frames, ms, k);
    }
  }

  lemma AppendsNone(frames: seq<Frame>)
    ensures Appends(Loaded(frames, NEW_FRAME), frames, [])
  {
    assert frames[..|frames|] == frames;
  }

  lemma FirstBuffer(data: string, pos: nat, a: string, b: string, bufferLen: nat)
    requires pos <= |data| && data[pos..] == a + b
    requires |a| == bufferLen || (|a| < bufferLen && b == "")
    ensures ReadAt(data, pos, bufferLen) == a
    ensures pos + |a| <= |data| && data[pos + |a|..] == b
  {
    assert data[pos..][..|a|] == a;
    assert data[pos..][|a|..] == b;
  }

  lemma AppendsTwice(r: Load, t: Load, frames: seq<Frame>, ms: seq<Message>, k: nat)
    requires k <= |ms| && Appends(r, frames, ms[..k]) && Appends(t, r.frames, ms[k..])
    ensures Appends(t, frames, ms)
  {
    hide FrameOf;
    assert t.frames[..|frames|] == r.frames[..|frames|];
    assert t.frames[|frames|..] == r.frames[|frames|..] + t.frames[|r.frames|..];
    assert ms == ms[..k] + ms[k..];
    forall i | 0 <= i < |ms| ensures FrameOf(t.frames[|frames|..][i], ms[i]) {
      if i < k {
        assert ms[i] == ms[..k][i];
      } else {
        assert ms[i] == ms[k..][i - k];
      }
    }
  }

  // ----- Sizes as positions -----

  function SumSizes(ms: seq<Message>): nat {
    if ms == [] then 0 else SizeOf(ms[0]) + SumSizes(ms[1..])
  }

  function CountEmpty(ms: seq<Message>): nat {
    if ms == [] then 0 else (if ms[0].body == "" then 1 else 0) + CountEmpty(ms[1..])
  }

  ghost predicate NoneEmpty(ms: seq<Message>) {
    forall m :: m in ms ==> m.body != ""
  }

  lemma EncodeSize(m: Message)
    ensures |Encode(m)| == SizeOf(m) + (if m.body == "" then 1 else 0)
  {
    assert m.headers[0..] == m.headers;
  }

  /** The sizes fall short of the bytes written by one for every empty body. */
  lemma {:induction false} LogLength(ms: seq<Message>)
    ensures |EncodeAll(ms)| == SumSizes(ms) + CountEmpty(ms)
    ensures CountEmpty(ms) == 0 <==> NoneEmpty(ms)
  {
    if ms != [] {
      EncodeSize(ms[0]);
      LogLength(ms[1..]);
      assert forall m :: m in ms <==> m == ms[0] || m in ms[1..];
    }
  }
}
