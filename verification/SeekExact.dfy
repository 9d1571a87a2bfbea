/**
 The other direction of Seek: when a line between the sent index and the next frame starts with a
 command, unpersist_queue_context takes it for a frame, and that frame swallows frames of the log.
 */
module SeekExact {
  import opened Frames
  import opened LogParser
  import opened QueueLog
  import opened Seek

  // ----- A frame that is still reading headers swallows the next message -----

  /** One line for a frame in the header state. */
  lemma AddLine(g: Frame, h: string)
    requires g.status.Header? && HeaderOk(h)
    ensures Update(g, h[0], h) == (AddHeader(g, h), More)
    ensures AddHeader(g, h).attrs == g.attrs + [h]
  {
    assert !IsStop(h[0], false);
  }

  /** g has the first i headers of m as its last attributes, and at least one attribute before them. */
  ghost predicate Swallowing(g: Frame, m: Message, i: nat) {
    && i <= |m.headers| && g.status.Header? && g.hasContentlen == 0
    && |g.attrs| > i
    && (ContentlenOf(m.headers[..i]) == -1 || g.contentlen == ContentlenOf(m.headers[..i]))
  }

  lemma SwallowName(g: Frame, m: Message)
    requires g.status.Header? && g.hasContentlen == 0 && HeaderOk(m.name)
    ensures Swallowing(AddHeader(g, m.name), m, 0)
  {
    AddLine(g, m.name);
    assert m.headers[..0] == [];
  }

  lemma SwallowHeader(g: Frame, m: Message, i: nat)
    requires Swallowing(g, m, i) && i < |m.headers| && HeaderOk(m.headers[i])
    ensures Swallowing(AddHeader(g, m.headers[i]), m, i + 1)
  {
    hide HeaderOk, Atoi;
    AddLine(g, m.headers[i]);
    assert m.headers[..i + 1][..i] == m.headers[..i];
  }

  lemma {:induction false} BodyEnds(g: Frame, t: string, rest: string, base: nat, offset: int)
    requires g.status.Body? && BodyOk(t) && |t| > 0 && g.hasContentlen + |t| == g.contentlen
    ensures var p := ParseFrom(g, t + "\0" + rest, base, offset);
      p.Parsed? && p.frame.attrs == g.attrs && p.offset == base + |t| + 1
    decreases |t|
  {
    hide ParseFrom, SplitLen;
    var s, n := t + "\0" + rest, Min(|t|, LD_MAX);
    assert forall j :: 0 <= j < n ==> s[j] == t[j];
    SplitLenUnique(s, true, n);
    assert s[..n] == t[..n];
    ParseUnfold(g, s, base, offset);
    if n < |t| {
      assert s[n..] == t[n..] + "\0" + rest;
      BodyEnds(AddBody(g, t[..n]), t[n..], rest, base + n, base + n + 1);
    }
  }

  lemma SwallowBlank(g: Frame, m: Message, rest: string, base: nat, offset: int)
    requires WellFormed(m) && Swallowing(g, m, |m.headers|)
    ensures var t := HeaderTail(m, |m.headers|);
      var p := ParseFrom(g, t + "\0" + rest, base, offset);
      p.Parsed? && |p.frame.attrs| > |m.headers| && p.offset == base + |t| + 1
  {
    hide ParseFrom, SplitLen;
    var t := HeaderTail(m, |m.headers|);
    assert m.headers[..|m.headers|] == m.headers;
    assert t == "\n" + m.body;
    var s := t + "\0" + rest;
    assert SplitLen(s, false) == 0;
    assert s[..0] == "";
    ParseUnfold(g, s, base, offset);
    if m.body != "" {
      assert s[1..] == m.body + "\0" + rest;
      BodyEnds(g.(status := Body, size := g.size + 1), m.body, rest, base + 1, base + 2);
    }
  }

  lemma {:induction false} SwallowHeaders(g: Frame, m: Message, i: nat, rest: string, base: nat, offset: int)
    requires WellFormed(m) && Swallowing(g, m, i)
    ensures var t := HeaderTail(m, i);
      var p := ParseFrom(g, t + "\0" + rest, base, offset);
      p.Parsed? && |p.frame.attrs| > |m.headers| && p.offset == base + |t| + 1
    decreases |m.headers| - i
  {
    hide ParseFrom, Update, ContentlenOf, Lines, NextContentlen, HeaderTail;
    if i == |m.headers| {
      SwallowBlank(g, m, rest, base, offset);
    } else {
      var h := m.headers[i];
      var s := HeaderTail(m, i) + "\0" + rest;
      HeaderTailStep(m, i);
      assert s == (h + "\n" + HeaderTail(m, i + 1)) + ("\0" + rest);
      StringAssoc(h, HeaderTail(m, i + 1), "\0" + rest);
      assert s[|h| + 1..] == HeaderTail(m, i + 1) + "\0" + rest;
      AddLine(g, h);
      SwallowHeader(g, m, i);
      ParseLine(g, h, s, base, offset);
      SwallowHeaders(AddHeader(g, h), m, i + 1, rest, base + |h| + 1, base + |h| + 2);
    }
  }

  /** The message is taken for headers and a body of g: the result ends where m ends, and is not m. */
  lemma HeaderSwallows(g: Frame, m: Message, rest: string, base: nat, offset: int)
    requires WellFormed(m) && g.status.Header? && g.hasContentlen == 0
    ensures var p := ParseFrom(g, Encode(m) + rest, base, offset);
      p.Parsed? && |p.frame.attrs| > |m.headers| && p.offset == base + |Encode(m)|
  {
    hide ParseFrom, Update, ContentlenOf, Lines, IsCommand, HeaderTail, Swallowing;
    var s, t := Encode(m) + rest, HeaderTail(m, 0);
    CommandIsLine(m.name);
    assert s == (m.name + "\n" + t) + ("\0" + rest);
    StringAssoc(m.name, t, "\0" + rest);
    assert s[|m.name| + 1..] == t + "\0" + rest;
    AddLine(g, m.name);
    SwallowName(g, m);
    ParseLine(g, m.name, s, base, offset);
    SwallowHeaders(AddHeader(g, m.name), m, 0, rest, base + |m.name| + 1, base + |m.name| + 2);
  }

  // ----- A frame that is still reading its body swallows whole messages -----

  lemma {:induction false} LinesNulFree(hs: seq<string>)
    requires forall i :: 0 <= i < |hs| ==> HeaderOk(hs[i])
    ensures BodyOk(Lines(hs))
  {
    if hs != [] {
      assert HeaderOk(hs[0]);
      assert forall j :: 0 <= j < |hs[0]| ==> !IsStop(hs[0][j], false);
      LinesNulFree(hs[1..]);
    }
  }

  lemma WireNulFree(m: Message)
    requires WellFormed(m)
    ensures BodyOk(Wire(m)) && |Wire(m)| > |m.body|
  {
    CommandIsLine(m.name);
    assert forall j :: 0 <= j < |m.name| ==> !IsStop(m.name[j], false);
    assert m.headers[0..] == m.headers;
    LinesNulFree(m.headers);
  }

  /** A run of bytes without NUL, closed by one, for a frame in the body state. */
  lemma BodyPiece(g: Frame, w: string, rest: string, base: nat, offset: int)
    requires g.status.Body? && BodyOk(w) && 0 < |w| <= LD_MAX && g.hasContentlen < g.contentlen
    ensures var p, h, n := ParseFrom(g, w + "\0" + rest, base, offset), AddBody(g, w), base + |w| + 1;
      if g.contentlen <= g.hasContentlen + |w|
      then p == Parsed(h.(status := Finished, size := h.size + 1), n)
      else p == ParseFrom(h, rest, n, n + 1)
  {
    hide ParseFrom, SplitLen;
    var s := w + "\0" + rest;
    SplitLenUnique(s, true, |w|);
    assert s[..|w|] == w;
    ParseUnfold(g, s, base, offset);
    if g.contentlen > g.hasContentlen + |w| {
      var h := AddBody(g, w);
      var t := s[|w|..];
      assert t == "\0" + rest;
      assert SplitLen(t, true) == 0;
      assert t[..0] == "" && t[1..] == rest;
      ParseUnfold(h, t, base + |w|, base + |w| + 1);
    }
  }

  /** The memory behind the buffer has no NUL. */
  lemma BodyRest(g: Frame, junk: string, base: nat, offset: int)
    requires g.status.Body? && BodyOk(junk) && |junk| <= LD_MAX
    ensures var p := ParseFrom(g, junk, base, offset);
      if junk == "" then p.Unfinished? else p.Carried?
  {
    if junk != "" {
      SplitLenUnique(junk, true, |junk|);
    }
  }

  /** Message j of b was swallowed last, and is longer than the body that it should have. */
  ghost predicate EndsAt(p: Parse, b: seq<Message>, j: nat, base: nat) {
    && j < |b| && p.Parsed?
    && p.offset == base + |EncodeAll(b[..j + 1])|
    && |Flatten(p.frame.data)| > |b[j].body|
  }

  lemma EndsAtHead(p: Parse, b: seq<Message>, base: nat)
    requires b != [] && p.Parsed? && p.offset == base + |Encode(b[0])| && |Flatten(p.frame.data)| > |b[0].body|
    ensures EndsAt(p, b, 0, base)
  {
    hide Encode;
    assert b[..1] == [b[0]] && [b[0]][1..] == [];
    assert EncodeAll([b[0]]) == Encode(b[0]) + EncodeAll([]);
  }

  lemma EndsAtTail(p: Parse, b: seq<Message>, j: nat, base: nat)
    requires b != [] && EndsAt(p, b[1..], j, base + |Encode(b[0])|)
    ensures EndsAt(p, b, j + 1, base)
  {
    hide Encode;
    assert b[..j + 2][1..] == b[1..][..j + 1];
  }

  lemma {:induction false} BodySwallows(g: Frame, b: seq<Message>, junk: string, base: nat, offset: int) returns (j: nat)
    requires g.status.Body? && g.hasContentlen < g.contentlen
    requires AllWellFormed(b) && |EncodeAll(b)| <= LD_MAX && BodyOk(junk) && |junk| <= LD_MAX
    ensures var p := ParseFrom(g, EncodeAll(b) + junk, base, offset);
      p.Carried? || (p.Unfinished? && junk == "") || EndsAt(p, b, j, base)
    decreases |b|
  {
    hide ParseFrom, WellFormed, Wire, EndsAt;
    j := 0;
    if b == [] {
      assert EncodeAll(b) + junk == junk;
      BodyRest(g, junk, base, offset);
    } else {
      var m, rest := b[0], EncodeAll(b[1..]) + junk;
      assert m in b;
      WireNulFree(m);
      assert EncodeAll(b) + junk == Wire(m) + "\0" + rest;
      BodyPiece(g, Wire(m), rest, base, offset);
      var h, n := AddBody(g, Wire(m)), base + |Wire(m)| + 1;
      if g.contentlen <= g.hasContentlen + |Wire(m)| {
        BodyGrows(g, Wire(m));
        EndsAtHead(ParseFrom(g, EncodeAll(b) + junk, base, offset), b, base);
      } else {
        j := BodySwallows(h, b[1..], junk, n, n + 1);
        if EndsAt(ParseFrom(h, rest, n, n + 1), b[1..], j, n) {
          EndsAtTail(ParseFrom(h, rest, n, n + 1), b, j, base);
          j := j + 1;
        }
      }
    }
  }

  // ----- The loader goes on behind what was swallowed -----

  /** A frame that is none of message j of b stands where message j should be, or the count is wrong. */
  lemma WrongPlace(r: Load, frames: seq<Frame>, g: Frame, b: seq<Message>, j: nat)
    requires j < |b| && Appends(r, frames + [g], b[j + 1..]) && !FrameOf(g, b[j])
    ensures !Restores(r, b)
  {
    hide FrameOf;
    assert r.frames[..|frames| + 1] == frames + [g];
    assert r.frames[|frames|] == (frames + [g])[|frames|] == g;
  }

  lemma TooMany(r: Load, frames: seq<Frame>, b: seq<Message>)
    requires frames != [] && Appends(r, frames, b)
    ensures !Restores(r, b)
  {
    hide FrameOf;
  }

  /** Behind message j of the buffer. */
  lemma Behind(pre: string, b: seq<Message>, j: nat)
    requires j < |b|
    ensures var n := |pre| + |EncodeAll(b[..j + 1])|;
      n <= |pre + EncodeAll(b)| && (pre + EncodeAll(b))[n..] == EncodeAll(b[j + 1..])
  {
    hide Encode;
    var a, c := b[..j + 1], b[j + 1..];
    assert b == a + c;
    EncodeAllAppend(a, c);
    assert pre + EncodeAll(b) == (pre + EncodeAll(a)) + EncodeAll(c);
  }

  /** The call at index i ended behind message j of b, which starts behind pre, with a frame that is not message j. */
  lemma SwallowedLoad(pre: string, i: nat, b: seq<Message>, j: nat, junk: string, frames: seq<Frame>, p: Parse)
    requires AllWellFormed(b) && j < |b| && i <= |pre| && i < |pre + EncodeAll(b)| <= |junk|
    requires p == ParseFrameOf(NEW_FRAME, (pre + EncodeAll(b) + junk)[i..i + |pre + EncodeAll(b)|])
    requires p.Parsed? && !FrameOf(p.frame, b[j]) && i + p.offset == |pre| + |EncodeAll(b[..j + 1])|
    ensures !Restores(LoadBuffer(pre + EncodeAll(b), junk, i, frames, NEW_FRAME), b)
  {
    hide ParseFrameOf, LoadBuffer, FrameOf, WellFormed, Encode, Appends, Restores;
    Behind(pre, b, j);
    ContinueLoad(pre + EncodeAll(b), i, i + p.offset, b[j + 1..], junk, frames, NEW_FRAME, p.frame);
    WrongPlace(LoadBuffer(pre + EncodeAll(b), junk, i, frames, NEW_FRAME), frames, p.frame, b, j);
  }

  /** What the call at index |pre| sees, and what it makes of the bytes x before the messages. */
  lemma CallAt(pre: string, x: string, b: seq<Message>, junk: string) returns (p: Parse, q: Parse)
    requires Closed(x) && |pre + x + EncodeAll(b)| <= |junk|
    ensures var buf, tail := pre + x + EncodeAll(b), EncodeAll(b) + junk[..|pre|];
      && p == ParseFrom(NEW_FRAME, x, 0, -1)
      && q == ParseFrameOf(NEW_FRAME, (buf + junk)[|pre|..|pre| + |buf|])
      && !p.Carried? && ValidFrame(p.frame) && (Skips(x) ==> p == Unfinished(NEW_FRAME, p.offset))
      && (p.Parsed? ==> q == p && 0 < p.offset <= |x|)
      && (p.Unfinished? ==> q == ParseFrom(p.frame, tail, |x|, p.offset) && !p.frame.status.Finished?)
      && (p.Unfinished? && p.frame.status.Born? ==> Skips(x))
  {
    hide ParseFrom, Closed, Skips, EncodeAll, ValidFrame;
    var buf, tail := pre + x + EncodeAll(b), EncodeAll(b) + junk[..|pre|];
    assert (buf + junk)[|pre|..|pre| + |buf|] == x + tail;
    NewFrameValid();
    p := ParseFrom(NEW_FRAME, x, 0, -1);
    q := ParseFrom(NEW_FRAME, x + tail, 0, -1);
    SkipsNames(x, 0, -1);
    ParseClosed(NEW_FRAME, x, tail, 0, -1);
    ParseKeepsValid(NEW_FRAME, x, 0, -1);
  }

  /** Bytes that leave a frame in the header state spoil the load, whatever lies behind the buffer. */
  lemma HeaderMisloads(pre: string, x: string, b: seq<Message>, junk: string, frames: seq<Frame>)
    requires Closed(x) && AllWellFormed(b) && b != [] && |pre + x + EncodeAll(b)| <= |junk|
    requires var p := ParseFrom(NEW_FRAME, x, 0, -1); p.Unfinished? && p.frame.status.Header?
    ensures |pre| < |pre + x + EncodeAll(b)|
    ensures !Restores(LoadBuffer(pre + x + EncodeAll(b), junk, |pre|, frames, NEW_FRAME), b)
  {
    hide ParseFrom, LoadBuffer, WellFormed, Encode, Restores, Closed, Skips;
    var p, q := CallAt(pre, x, b, junk);
    var m, rest := b[0], EncodeAll(b[1..]) + junk[..|pre|];
    assert m in b;
    EncodeSome(m);
    assert EncodeAll(b) + junk[..|pre|] == Encode(m) + rest;
    HeaderSwallows(p.frame, m, rest, |x|, p.offset);
    assert b[..1] == [m] && [m][1..] == [];
    assert EncodeAll([m]) == Encode(m) + EncodeAll([]);
    SwallowedLoad(pre + x, |pre|, b, 0, junk, frames, q);
  }

  lemma BodyMisloads(pre: string, x: string, b: seq<Message>, junk: string, frames: seq<Frame>)
    requires Closed(x) && AllWellFormed(b) && b != [] && |pre + x + EncodeAll(b)| <= |junk|
    requires |pre + x + EncodeAll(b)| <= LD_MAX && BodyOk(junk) && (pre == "" ==> frames == [])
    requires var p := ParseFrom(NEW_FRAME, x, 0, -1); p.Unfinished? && p.frame.status.Body?
    ensures |pre| < |pre + x + EncodeAll(b)|
    ensures !Restores(LoadBuffer(pre + x + EncodeAll(b), junk, |pre|, frames, NEW_FRAME), b)
  {
    hide ParseFrom, LoadBuffer, WellFormed, Encode, Closed, Skips, FrameOf;
    var p, q := CallAt(pre, x, b, junk);
    EncodeSome(b[0]);
    var j := BodySwallows(p.frame, b, junk[..|pre|], |x|, p.offset);
    if q.Parsed? {
      BodyNotOf(q.frame, b[j]);
      SwallowedLoad(pre + x, |pre|, b, j, junk, frames, q);
    } else {
      LoadBufferUnfold(pre + x + EncodeAll(b), junk, |pre|, frames, NEW_FRAME);
    }
  }

  lemma BodyNotOf(f: Frame, m: Message)
    requires |Flatten(f.data)| > |m.body|
    ensures !FrameOf(f, m)
  {
  }

  lemma LogSome(b: seq<Message>)
    requires b != []
    ensures |EncodeAll(b)| > 0
  {
    EncodeSome(b[0]);
  }

  /** Frames found in x, or one begun in it, spoil the load. */
  lemma {:induction false} Misloads(pre: string, x: string, b: seq<Message>, junk: string, frames: seq<Frame>)
    requires Closed(x) && AllWellFormed(b) && b != [] && |pre + x + EncodeAll(b)| <= |junk|
    requires |pre + x + EncodeAll(b)| <= LD_MAX && BodyOk(junk)
    requires if frames == [] then !Skips(x) else pre != ""
    ensures |pre| < |pre + x + EncodeAll(b)|
    ensures !Restores(LoadBuffer(pre + x + EncodeAll(b), junk, |pre|, frames, NEW_FRAME), b)
    decreases |x|
  {
    hide ParseFrom, LoadBuffer, AllWellFormed, EncodeAll, Closed, Skips, Restores, BodyOk, ValidFrame, Appends;
    var buf := pre + x + EncodeAll(b);
    var p, q := CallAt(pre, x, b, junk);
    LogSome(b);
    if p.Parsed? {
      LoadBufferUnfold(buf, junk, |pre|, frames, NEW_FRAME);
      ClosedRest(x, p.offset);
      assert pre + x[..p.offset] + x[p.offset..] + EncodeAll(b) == buf;
      Misloads(pre + x[..p.offset], x[p.offset..], b, junk, frames + [p.frame]);
    } else if p.frame.status.Born? {
      assert pre + (x + EncodeAll(b)) == buf;
      LoadSkipping(pre, x, b, junk, frames);
      TooMany(LoadBuffer(buf, junk, |pre|, frames, NEW_FRAME), frames, b);
    } else if p.frame.status.Header? {
      HeaderMisloads(pre, x, b, junk, frames);
    } else {
      BodyMisloads(pre, x, b, junk, frames);
    }
  }

  // ----- Exactly when loading from the sent index works -----

  lemma OneBuffer(data: string, pos: nat, bufferLen: nat, junk: nat -> string, b: seq<Message>)
    requires bufferLen > 0 && forall p :: |junk(p)| >= bufferLen
    requires pos < |data| <= pos + bufferLen
    ensures Restores(LoadLog(data, pos, bufferLen, junk), b)
            <==> Restores(LoadBuffer(data[pos..], junk(pos), 0, [], NEW_FRAME), b)
  {
    hide LoadBuffer, FramesOf, LoadFrom;
    assert ReadAt(data, pos, bufferLen) == data[pos..];
    LoadFromUnfold(data, pos, bufferLen, junk, [], NEW_FRAME);
    var r := LoadBuffer(data[pos..], junk(pos), 0, [], NEW_FRAME);
    if r.Loaded? {
      LoadFromUnfold(data, |data|, bufferLen, junk, r.frames, r.frame);
    }
  }

  /** Where the load starts, and that one read takes everything from there on. */
  lemma SeekOneBuffer(ms: seq<Message>, k: nat, bufferLen: nat, junk: nat -> string)
    requires bufferLen > 0 && forall p :: |junk(p)| >= bufferLen
    requires k < |ms| && |EncodeAll(ms)| <= SumSizes(ms[..k]) + bufferLen
    ensures SumSizes(ms[..k]) <= |EncodeAll(ms[..k])|
    ensures var x, b := Leftover(ms[..k]), ms[k..];
      && Closed(x) && |x + EncodeAll(b)| <= bufferLen
      && |x + EncodeAll(b)| > 0
      && (Restores(LoadLog(EncodeAll(ms), SumSizes(ms[..k]), bufferLen, junk), b)
          <==> Restores(LoadBuffer(x + EncodeAll(b), junk(SumSizes(ms[..k])), 0, [], NEW_FRAME), b))
  {
    hide LoadBuffer, LoadLog, Restores, Closed, Leftover, Encode, NoneEmpty;
    SeekSplit(ms, k);
    EncodeSome(ms[k..][0]);
    OneBuffer(EncodeAll(ms), SumSizes(ms[..k]), bufferLen, junk, ms[k..]);
  }

  /**
   When everything from the sent index on fits into one buffer of at most LD_MAX bytes, and no NUL
   lies behind it, the loader returns exactly the frames from k on if and only if no line of the
   bytes before frame k starts with a command.
   */
  lemma SeekLoadIff(ms: seq<Message>, k: nat, bufferLen: nat, junk: nat -> string)
    requires 0 < bufferLen <= LD_MAX && forall p :: |junk(p)| >= bufferLen && BodyOk(junk(p))
    requires AllWellFormed(ms) && k < |ms| && |EncodeAll(ms)| <= SumSizes(ms[..k]) + bufferLen
    ensures SumSizes(ms[..k]) <= |EncodeAll(ms[..k])|
    ensures Restores(LoadLog(EncodeAll(ms), SumSizes(ms[..k]), bufferLen, junk), ms[k..]) <==> Skips(Leftover(ms[..k]))
  {
    hide LoadLog, LoadBuffer, Restores, Closed, Leftover, EncodeAll, Skips, WellFormed, BodyOk;
    SeekOneBuffer(ms, k, bufferLen, junk);
    var x, b := Leftover(ms[..k]), ms[k..];
    if Skips(x) {
      SeekLoad(ms, k, bufferLen, junk);
    } else {
      assert "" + x + EncodeAll(b) == x + EncodeAll(b);
      Misloads("", x, b, junk(SumSizes(ms[..k])), []);
    }
  }

  /** The same, without a condition on the memory behind the buffer. */
  lemma SeekLoadAlwaysIff(ms: seq<Message>, k: nat, bufferLen: nat)
    requires 0 < bufferLen <= LD_MAX
    requires AllWellFormed(ms) && k < |ms| && |EncodeAll(ms)| <= SumSizes(ms[..k]) + bufferLen
    ensures SumSizes(ms[..k]) <= |EncodeAll(ms[..k])|
    ensures (forall junk: nat -> string :: (forall p :: |junk(p)| >= bufferLen) ==>
              Restores(LoadLog(EncodeAll(ms), SumSizes(ms[..k]), bufferLen, junk), ms[k..]))
            <==> Skips(Leftover(ms[..k]))
  {
    hide LoadLog, Restores, Leftover, EncodeAll, Skips, WellFormed;
    var blanks := seq(bufferLen, _ => ' ');
    SeekLoadIff(ms, k, bufferLen, _ => blanks);
    if Skips(Leftover(ms[..k])) {
      forall junk: nat -> string | forall p :: |junk(p)| >= bufferLen
        ensures Restores(LoadLog(EncodeAll(ms), SumSizes(ms[..k]), bufferLen, junk), ms[k..])
      {
        SeekOneBuffer(ms, k, bufferLen, junk);
        SeekLoad(ms, k, bufferLen, junk);
      }
    }
  }

  // ----- Empty bodies -----

  const EMPTY_SEND: Message := Message("SEND", ["content-length:0"], "")
  const ACK_SEND: Message := Message("SEND", ["content-length:3"], "ACK")
  const MISLEADING: seq<Message> := [EMPTY_SEND, EMPTY_SEND, EMPTY_SEND, EMPTY_SEND, ACK_SEND]

  /**
   Four empty frames put the sent index four bytes short. After them a frame with the body ACK
   makes the loader take these bytes for a command, whatever frames follow in the buffer and
   whatever lies behind it.
   */
  lemma EmptyBodiesMislead(b: seq<Message>, bufferLen: nat, junk: nat -> string)
    requires forall p :: |junk(p)| >= bufferLen
    requires AllWellFormed(b) && b != [] && 4 + |EncodeAll(b)| <= bufferLen
    ensures AllWellFormed(MISLEADING)
    ensures !Restores(LoadLog(EncodeAll(MISLEADING + b), SumSizes(MISLEADING), bufferLen, junk), b)
  {
    hide LoadLog, LoadBuffer, Restores, EncodeAll, WellFormed, ParseFrom;
    ExamplesWellFormed();
    FourShort();
    var ms, k := MISLEADING + b, |MISLEADING|;
    assert ms[..k] == MISLEADING && ms[k..] == b;
    EncodeAllAppend(MISLEADING, b);
    SeekOneBuffer(ms, k, bufferLen, junk);
    AckTaken();
    assert "" + "ACK\0" + EncodeAll(b) == "ACK\0" + EncodeAll(b);
    HeaderMisloads("", "ACK\0", b, junk(SumSizes(MISLEADING)), []);
  }

  lemma ExamplesWellFormed()
    ensures WellFormed(EMPTY_SEND) && WellFormed(ACK_SEND)
  {
    assert COMMANDS[0] == "SEND";
    LengthHeader('0', "content-length:0");
    LengthHeader('3', "content-length:3");
  }

  lemma LengthHeader(d: char, h: string)
    requires IsDigit(d) && h == CONTENT_LENGTH + [d]
    ensures HeaderOk(h) && ContentlenOf([h]) == (d - '0') as int
  {
    assert h[|CONTENT_LENGTH|..] == [d];
    var n := (d - '0') as nat;
    assert [d][1..] == "" && [d] != "" && DigitsFrom("", n) == n;
    assert DigitsFrom([d], 0) == n;
    assert !IsSpace(d) && d != '-' && d != '+';
    assert [h][..0] == [];
  }

  lemma FourShort()
    ensures SumSizes(MISLEADING) + 4 == |EncodeAll(MISLEADING)|
    ensures Leftover(MISLEADING) == "ACK\0"
  {
    hide Encode, SizeOf;
    var es := [EMPTY_SEND, EMPTY_SEND, EMPTY_SEND, EMPTY_SEND];
    LogLength(MISLEADING);
    CountFour();
    assert MISLEADING == es + [ACK_SEND];
    EncodeAllAppend(es, [ACK_SEND]);
    assert EncodeAll([ACK_SEND]) == Encode(ACK_SEND) by {
      assert [ACK_SEND][1..] == [];
    }
    AckEnds();
    var e := Encode(ACK_SEND);
    assert EncodeAll(MISLEADING)[SumSizes(MISLEADING)..] == e[|e| - 4..];
  }

  lemma CountFour()
    ensures CountEmpty(MISLEADING) == 4
  {
    var one := [EMPTY_SEND, ACK_SEND];
    assert one[1..] == [ACK_SEND] && [ACK_SEND][1..] == [];
    assert |ACK_SEND.body| == 3;
    assert CountEmpty([ACK_SEND]) == 0;
    assert CountEmpty(one) == 1;
    var two := [EMPTY_SEND, EMPTY_SEND, ACK_SEND];
    assert two[1..] == one;
    assert CountEmpty(two) == 2;
    var three := [EMPTY_SEND, EMPTY_SEND, EMPTY_SEND, ACK_SEND];
    assert three[1..] == two;
    assert CountEmpty(three) == 3;
    assert MISLEADING[1..] == three;
  }

  lemma AckEnds()
    ensures var e := Encode(ACK_SEND); |e| >= 4 && e[|e| - 4..] == "ACK\0"
  {
    var e := Encode(ACK_SEND);
    assert e == (ACK_SEND.name + "\n" + (Lines(ACK_SEND.headers[0..]) + "\n")) + "ACK\0";
  }

  lemma AckTaken()
    ensures var p := ParseFrom(NEW_FRAME, "ACK\0", 0, -1); p.Unfinished? && p.frame.status.Header?
  {
    hide ParseFrom, SplitLen, Update;
    var s := "ACK\0";
    assert s[0] == 'A' && s[1] == 'C' && s[2] == 'K' && s[3] == '\0';
    SplitLenUnique(s, false, 3);
    assert s[..3] == "ACK" && s[4..] == "";
    ParseUnfold(NEW_FRAME, s, 0, -1);
    AckNamed(s[0]);
    ParseEnd(Update(NEW_FRAME, s[0], "ACK").0, 4, 5);
  }

  lemma AckNamed(first: char)
    ensures Update(NEW_FRAME, first, "ACK").1 == More
    ensures Update(NEW_FRAME, first, "ACK").0.status.Header?
  {
    assert COMMANDS[4] == "ACK";
    assert IsCommand("ACK") && "ACK" <= "ACK";
  }
}
