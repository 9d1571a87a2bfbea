/**
 Sizes as file positions: the loader of src/lib/persistent_worker.c starts at the sent index, which
 is a sum of frame sizes and falls short of the position of the next frame by one byte for every
 empty body. This module says when the loader skips the bytes in between.
 */
module Seek {
  import opened Frames
  import opened LogParser
  import opened QueueLog

  /** The sum of the sizes of the first k frames is the position of frame k exactly when none of them is empty. */
  lemma SeekIff(ms: seq<Message>, k: nat)
    requires k <= |ms|
    ensures SumSizes(ms[..k]) <= |EncodeAll(ms)|
    ensures EncodeAll(ms)[SumSizes(ms[..k])..] == EncodeAll(ms[k..]) <==> NoneEmpty(ms[..k])
  {
    hide NoneEmpty;
    assert ms == ms[..k] + ms[k..];
    EncodeAllAppend(ms[..k], ms[k..]);
    LogLength(ms[..k]);
    if NoneEmpty(ms[..k]) {
      assert EncodeAll(ms)[|EncodeAll(ms[..k])|..] == EncodeAll(ms[k..]);
    }
  }

  // ----- The bytes between the sent index and the next frame -----

  /** The last bytes of the log of ms, one for every empty body. */
  function Leftover(ms: seq<Message>): string
    requires SumSizes(ms) <= |EncodeAll(ms)|
  {
    EncodeAll(ms)[SumSizes(ms)..]
  }

  /** Nothing, or bytes up to and including the NUL of a frame. */
  predicate Closed(x: string) {
    x == "" || x[|x| - 1] == '\0'
  }

  /** No line of x, split as parse_frame splits while it looks for a name, starts with a command. */
  predicate Skips(x: string)
    decreases |x|
  {
    x == "" || (var n := SplitLen(x, false); MatchCommand(x[..n]) == "" && Skips(x[Min(n + 1, |x|)..]))
  }

  lemma {:induction false} LogClosed(ms: seq<Message>)
    ensures Closed(EncodeAll(ms))
  {
    if ms != [] {
      LogClosed(ms[1..]);
    }
  }

  lemma SeekSplit(ms: seq<Message>, k: nat)
    requires k <= |ms|
    ensures SumSizes(ms[..k]) <= |EncodeAll(ms[..k])| <= |EncodeAll(ms)|
    ensures EncodeAll(ms)[SumSizes(ms[..k])..] == Leftover(ms[..k]) + EncodeAll(ms[k..])
    ensures Closed(Leftover(ms[..k]))
    ensures NoneEmpty(ms[..k]) ==> Leftover(ms[..k]) == ""
  {
    hide NoneEmpty;
    assert ms == ms[..k] + ms[k..];
    EncodeAllAppend(ms[..k], ms[k..]);
    LogLength(ms[..k]);
    LogClosed(ms[..k]);
  }

  // ----- Parsing bytes that end with a NUL -----

  lemma SplitClosed(x: string, rest: string, isBody: bool)
    requires Closed(x) && x != ""
    ensures SplitLen(x, isBody) < |x| && SplitLen(x + rest, isBody) == SplitLen(x, isBody)
  {
    hide SplitLen;
    var n := SplitLen(x, isBody);
    assert forall j :: 0 <= j < |x| ==> (x + rest)[j] == x[j];
    SplitLenUnique(x + rest, isBody, n);
  }

  lemma ClosedRest(x: string, k: nat)
    requires Closed(x) && k <= |x|
    ensures Closed(x[k..])
  {
  }

  /** A round that finishes a frame inside x leaves at least one byte of it, the one that the offset skips. */
  lemma FinishInside(f: Frame, x: string)
    requires Closed(x) && x != "" && ValidFrame(f) && !f.status.Finished?
    requires Update(f, x[0], x[..SplitLen(x, f.status.Body?)]).1.Complete?
    ensures StepLen(f, x) + 1 <= |x|
  {
    hide SplitLen, MatchCommand, Pieces;
    SplitClosed(x, "", f.status.Body?);
  }

  /** One round on x followed by anything is one round on x. */
  lemma RoundClosed(f: Frame, x: string, rest: string)
    requires Closed(x) && x != ""
    ensures var n, k := SplitLen(x, f.status.Body?), StepLen(f, x);
      && n < |x| && k <= |x| && SplitLen(x + rest, f.status.Body?) == n && StepLen(f, x + rest) == k
      && (x + rest)[..n] == x[..n] && (x + rest)[0] == x[0] && (x + rest)[k..] == x[k..] + rest && Closed(x[k..])
  {
    hide SplitLen;
    SplitClosed(x, rest, f.status.Body?);
    ClosedRest(x, StepLen(f, x));
  }

  /** The end of x is a round's end: parsing goes on behind it with the frame that x alone gives. */
  lemma {:induction false} ParseClosed(f: Frame, x: string, rest: string, base: nat, offset: int)
    requires Closed(x) && ValidFrame(f) && !f.status.Finished?
    ensures var p, q := ParseFrom(f, x, base, offset), ParseFrom(f, x + rest, base, offset);
      && !p.Carried?
      && (p.Parsed? ==> q == p && p.offset <= base + |x|)
      && (p.Unfinished? ==> q == ParseFrom(p.frame, rest, base + |x|, p.offset) && ValidFrame(p.frame) && !p.frame.status.Finished?)
    decreases |x|
  {
    hide ParseFrom, SplitLen, StepLen, Update, ValidFrame, Closed;
    if x == "" {
      assert x + rest == rest;
      ParseEnd(f, base, offset);
    } else {
      RoundClosed(f, x, rest);
      var n, k := SplitLen(x, f.status.Body?), StepLen(f, x);
      ParseUnfold(f, x, base, offset);
      ParseUnfold(f, x + rest, base, offset);
      UpdateKeepsValid(f, x[0], x[..n]);
      if Update(f, x[0], x[..n]).1.Complete? {
        FinishInside(f, x);
      } else {
        ParseClosed(Update(f, x[0], x[..n]).0, x[k..], rest, base + k, base + k + 1);
      }
    }
  }

  /** x leaves a new frame untouched if and only if no line of it starts with a command. */
  lemma {:induction false} SkipsNames(x: string, base: nat, offset: int)
    requires Closed(x)
    ensures var p := ParseFrom(NEW_FRAME, x, base, offset);
      if Skips(x) then p.Unfinished? && p.frame == NEW_FRAME else !p.frame.status.Born?
    decreases |x|
  {
    hide ParseFrom, SplitLen, MatchCommand;
    if x == "" {
      ParseEnd(NEW_FRAME, base, offset);
    } else {
      SplitClosed(x, "", false);
      var n := SplitLen(x, false);
      ParseUnfold(NEW_FRAME, x, base, offset);
      if MatchCommand(x[..n]) == "" {
        ClosedRest(x, n + 1);
        SkipsNames(x[n + 1..], base + n + 1, base + n + 2);
      } else {
        ParseKeepsName(Update(NEW_FRAME, x[0], x[..n]).0, x[Min(n + 1, |x|)..], base + n + 1, base + n + 2);
      }
    }
  }

  // ----- Loading behind bytes that are skipped -----

  /** What parse_frame is given at index |pre|: the rest of the buffer and some of the memory behind it. */
  lemma InputAt(pre: string, y: string, junk: string)
    requires |pre + y| <= |junk|
    ensures ((pre + y) + junk)[|pre|..|pre| + |pre + y|] == y + junk[..|pre|]
  {
  }

  /** A frame f was finished by the call at index i, which went on with f0; the messages `rest` follow from n on. */
  lemma ContinueLoad(buf: string, i: nat, n: nat, rest: seq<Message>, junk: string, frames: seq<Frame>, f0: Frame, f: Frame)
    requires i < |buf| <= |junk| && n <= |buf| && buf[n..] == EncodeAll(rest) && AllWellFormed(rest)
    requires ParseFrameOf(f0, (buf + junk)[i..i + |buf|]) == Parsed(f, n - i)
    ensures Appends(LoadBuffer(buf, junk, i, frames, f0), frames + [f], rest)
  {
    hide ParseFrameOf, LoadBuffer, AllWellFormed, Appends, EncodeAll;
    LoadBufferUnfold(buf, junk, i, frames, f0);
    assert buf[..n] + buf[n..] == buf;
    if rest == [] {
      NoMessages();
      AppendsNone(frames + [f]);
    } else {
      LoadBufferEncoded(buf[..n], rest, junk, frames + [f]);
    }
  }

  lemma NoMessages()
    ensures EncodeAll([]) == ""
  {
  }

  lemma ParseBehind(x: string, m: Message, rest: string)
    requires Closed(x) && Skips(x) && WellFormed(m)
    ensures var p := ParseFrameOf(NEW_FRAME, x + (Encode(m) + rest));
      p.Parsed? && FrameOf(p.frame, m) && p.offset == |x| + |Encode(m)|
  {
    hide ParseFrom, FrameOf, WellFormed, Encode, Skips, Closed;
    NewFrameValid();
    SkipsNames(x, 0, -1);
    ParseClosed(NEW_FRAME, x, Encode(m) + rest, 0, -1);
    ParseEncoded(m, rest);
    var off := ParseFrom(NEW_FRAME, x, 0, -1).offset;
    ParseShift(NEW_FRAME, Encode(m) + rest, |x|, off, 0, -1);
  }

  /** Bytes that are skipped do not matter. */
  lemma LoadSkipping(pre: string, x: string, b: seq<Message>, junk: string, frames: seq<Frame>)
    requires Closed(x) && Skips(x) && b != [] && AllWellFormed(b) && |pre + (x + EncodeAll(b))| <= |junk|
    ensures |pre| < |pre + (x + EncodeAll(b))|
    ensures Appends(LoadBuffer(pre + (x + EncodeAll(b)), junk, |pre|, frames, NEW_FRAME), frames, b)
  {
    hide ParseFrameOf, LoadBuffer, FrameOf, WellFormed, Encode, Skips, Closed, Appends;
    var m, y := b[0], x + EncodeAll(b);
    assert m in b;
    EncodeSome(m);
    var tail := EncodeAll(b[1..]) + junk[..|pre|];
    assert y + junk[..|pre|] == x + (Encode(m) + tail);
    ParseBehind(x, m, tail);
    var f := ParseFrameOf(NEW_FRAME, y + junk[..|pre|]).frame;
    InputAt(pre, y, junk);
    var n := |pre| + |x| + |Encode(m)|;
    assert (pre + y)[n..] == EncodeAll(b[1..]);
    ContinueLoad(pre + y, |pre|, n, b[1..], junk, frames, NEW_FRAME, f);
    AppendsOne(LoadBuffer(pre + y, junk, |pre|, frames, NEW_FRAME), frames, f, b);
  }

  /** Like Aligned, with n bytes before the first frame. */
  ghost predicate AlignedAfter(n: nat, ms: seq<Message>, bufferLen: nat) {
    || n + |EncodeAll(ms)| <= bufferLen
    || exists k :: 0 < k <= |ms| && n + |EncodeAll(ms[..k])| == bufferLen && Aligned(ms[k..], bufferLen)
  }

  lemma FirstGroupAfter(x: string, ms: seq<Message>, bufferLen: nat) returns (k: nat)
    requires AlignedAfter(|x|, ms, bufferLen)
    ensures k <= |ms| && Aligned(ms[k..], bufferLen)
    ensures var n := |x| + |EncodeAll(ms[..k])|; n == bufferLen || (n < bufferLen && ms[k..] == [])
    ensures k == 0 ==> ms == []
  {
    hide Encode;
    k := |ms|;
    assert ms[..k] == ms && ms[k..] == [];
    if |x| + |EncodeAll(ms)| > bufferLen {
      k :| 0 < k <= |ms| && |x| + |EncodeAll(ms[..k])| == bufferLen && Aligned(ms[k..], bufferLen);
    }
  }

  lemma LoadFirstSkipping(x: string, b: seq<Message>, junk: string, frames: seq<Frame>)
    requires Closed(x) && Skips(x) && x != "" && AllWellFormed(b) && |x + EncodeAll(b)| <= |junk|
    ensures Appends(LoadBuffer(x + EncodeAll(b), junk, 0, frames, NEW_FRAME), frames, b)
  {
    hide LoadBuffer, Appends, WellFormed, Encode, ParseFrom, Skips, Closed;
    var buf := x + EncodeAll(b);
    if b == [] {
      assert buf == x && (buf + junk)[0..0 + |buf|] == x;
      SkipsNames(x, 0, -1);
      LoadBufferUnfold(buf, junk, 0, frames, NEW_FRAME);
      AppendsNone(frames);
    } else {
      assert "" + buf == buf;
      LoadSkipping("", x, b, junk, frames);
    }
  }

  /** The log holds x and then ms from position pos to its end. */
  ghost predicate Holds(data: string, pos: nat, x: string, ms: seq<Message>) {
    pos <= |data| && data[pos..] == x + EncodeAll(ms)
  }

  /** The first buffer holds the skipped bytes and the first k messages. */
  lemma LoadGroupSkipping(data: string, pos: nat, x: string, ms: seq<Message>, k: nat, bufferLen: nat, junk: nat -> string)
    returns (r: Load, next: nat)
    requires bufferLen > 0 && forall p :: |junk(p)| >= bufferLen
    requires Holds(data, pos, x, ms) && AllWellFormed(ms) && k <= |ms|
    requires Closed(x) && Skips(x) && x != ""
    requires var n := |x| + |EncodeAll(ms[..k])|; n == bufferLen || (n < bufferLen && ms[k..] == [])
    ensures Holds(data, next, "", ms[k..])
    ensures r.Loaded? && Appends(r, [], ms[..k])
    ensures LoadFrom(data, pos, bufferLen, junk, [], NEW_FRAME) == LoadFrom(data, next, bufferLen, junk, r.frames, NEW_FRAME)
  {
    hide LoadFrom, LoadBuffer, Appends, WellFormed, Encode, Skips, Closed;
    var a, b := ms[..k], ms[k..];
    assert ms == a + b;
    EncodeAllAppend(a, b);
    var first := x + EncodeAll(a);
    assert data[pos..] == first + EncodeAll(b);
    FirstBuffer(data, pos, first, EncodeAll(b), bufferLen);
    LoadFirstSkipping(x, a, junk(pos), []);
    LoadFromUnfold(data, pos, bufferLen, junk, [], NEW_FRAME);
    r := LoadBuffer(first, junk(pos), 0, [], NEW_FRAME);
    AppendsParts(r, [], a);
    next := pos + |first|;
  }

  lemma LoadBehindSome(data: string, pos: nat, x: string, ms: seq<Message>, bufferLen: nat, junk: nat -> string)
    requires bufferLen > 0 && forall p :: |junk(p)| >= bufferLen
    requires Holds(data, pos, x, ms) && AllWellFormed(ms)
    requires Closed(x) && Skips(x) && x != "" && AlignedAfter(|x|, ms, bufferLen)
    ensures Appends(LoadFrom(data, pos, bufferLen, junk, [], NEW_FRAME), [], ms)
  {
    hide LoadFrom, Appends, AllWellFormed, EncodeAll, Skips, Closed, Aligned, AlignedAfter, Holds;
    var k := FirstGroupAfter(x, ms, bufferLen);
    var r, next := LoadGroupSkipping(data, pos, x, ms, k, bufferLen, junk);
    LoadRest(data, next, ms, k, bufferLen, junk, r);
  }

  /** After the first buffer. */
  lemma LoadRest(data: string, next: nat, ms: seq<Message>, k: nat, bufferLen: nat, junk: nat -> string, r: Load)
    requires bufferLen > 0 && forall p :: |junk(p)| >= bufferLen
    requires k <= |ms| && Holds(data, next, "", ms[k..]) && AllWellFormed(ms)
    requires r.Loaded? && Appends(r, [], ms[..k]) && Aligned(ms[k..], bufferLen)
    ensures Appends(LoadFrom(data, next, bufferLen, junk, r.frames, NEW_FRAME), [], ms)
  {
    hide LoadFrom, Appends, AllWellFormed, EncodeAll, Aligned;
    WellFormedFrom(ms, k);
    LoadAligned(data, next, ms[k..], bufferLen, junk, r.frames);
    AppendsTwice(r, LoadFrom(data, next, bufferLen, junk, r.frames, NEW_FRAME), [], ms, k);
  }

  lemma WellFormedFrom(ms: seq<Message>, k: nat)
    requires AllWellFormed(ms) && k <= |ms|
    ensures AllWellFormed(ms[k..])
  {
    hide WellFormed;
  }

  lemma LoadBehind(data: string, pos: nat, x: string, ms: seq<Message>, bufferLen: nat, junk: nat -> string)
    requires bufferLen > 0 && forall p :: |junk(p)| >= bufferLen
    requires Holds(data, pos, x, ms) && AllWellFormed(ms)
    requires Closed(x) && Skips(x) && AlignedAfter(|x|, ms, bufferLen)
    ensures Appends(LoadFrom(data, pos, bufferLen, junk, [], NEW_FRAME), [], ms)
  {
    hide LoadFrom, Appends, AllWellFormed, EncodeAll, Skips, Closed, Aligned, AlignedAfter;
    if x == "" {
      assert x + EncodeAll(ms) == EncodeAll(ms);
      AlignedAfterNothing(ms, bufferLen);
      LoadAligned(data, pos, ms, bufferLen, junk, []);
    } else {
      LoadBehindSome(data, pos, x, ms, bufferLen, junk);
    }
  }

  lemma AlignedAfterNothing(ms: seq<Message>, bufferLen: nat)
    ensures AlignedAfter(0, ms, bufferLen) <==> Aligned(ms, bufferLen)
  {
    hide Encode;
  }

  lemma AppendsParts(r: Load, frames: seq<Frame>, ms: seq<Message>)
    requires Appends(r, frames, ms)
    ensures r.Loaded? && r.frame == NEW_FRAME
  {
  }

  /** The loader returned exactly the frames of ms, in order. */
  ghost predicate Restores(r: Load, ms: seq<Message>) {
    r.Loaded? && FramesOf(r.frames, ms)
  }

  /**
   Loading from the sum of the sizes of the first k frames yields exactly the frames from k on, if
   the bytes before frame k are skipped and buffer ends fall on frame ends.
   */
  lemma SeekLoad(ms: seq<Message>, k: nat, bufferLen: nat, junk: nat -> string)
    requires bufferLen > 0 && forall p :: |junk(p)| >= bufferLen
    requires AllWellFormed(ms) && k <= |ms| && SumSizes(ms[..k]) <= |EncodeAll(ms[..k])|
    requires Skips(Leftover(ms[..k])) && AlignedAfter(|Leftover(ms[..k])|, ms[k..], bufferLen)
    ensures Restores(LoadLog(EncodeAll(ms), SumSizes(ms[..k]), bufferLen, junk), ms[k..])
  {
    hide LoadFrom, FrameOf, WellFormed, Encode, AlignedAfter, Skips, Closed, Leftover;
    SeekSplit(ms, k);
    LoadBehind(EncodeAll(ms), SumSizes(ms[..k]), Leftover(ms[..k]), ms[k..], bufferLen, junk);
    var r := LoadFrom(EncodeAll(ms), SumSizes(ms[..k]), bufferLen, junk, [], NEW_FRAME);
    assert r.frames[0..] == r.frames;
  }

  /** In particular when no body before frame k is empty. */
  lemma SeekLoadFull(ms: seq<Message>, k: nat, bufferLen: nat, junk: nat -> string)
    requires bufferLen > 0 && forall p :: |junk(p)| >= bufferLen
    requires AllWellFormed(ms) && k <= |ms| && NoneEmpty(ms[..k]) && Aligned(ms[k..], bufferLen)
    ensures Restores(LoadLog(EncodeAll(ms), SumSizes(ms[..k]), bufferLen, junk), ms[k..])
  {
    hide LoadLog, Restores, WellFormed, Encode, Aligned, AlignedAfter, Leftover;
    SeekSplit(ms, k);
    AlignedAfterNothing(ms[k..], bufferLen);
    SeekLoad(ms, k, bufferLen, junk);
  }

  /** The whole log round trip: what the serializer wrote is what the loader returns. */
  lemma LogRoundTrip(fs: seq<Frame>, ms: seq<Message>, bufferLen: nat, junk: nat -> string)
    requires bufferLen > 0 && forall p :: |junk(p)| >= bufferLen
    requires AllWellFormed(ms) && FramesOf(fs, ms) && Aligned(ms, bufferLen)
    ensures Restores(LoadLog(WriteAll(fs), 0, bufferLen, junk), ms)
  {
    hide LoadLog, FrameOf, WellFormed, Encode, Aligned, Restores;
    WriteAllEncodes(fs, ms);
    assert ms[..0] == [] && ms[0..] == ms;
    SeekLoadFull(ms, 0, bufferLen, junk);
  }
}
