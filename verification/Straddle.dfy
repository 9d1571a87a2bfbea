/**
 A frame that lies across a buffer end of unpersist_queue_context (src/lib/persistent_worker.c:235-257).
 The frame under construction goes on with the next buffer, but a line does not: the end of the
 buffer is the end of the line. This module says for which cuts the frame comes back whole.
 */
module Straddle {
  import opened Frames
  import opened Options
  import opened Chunking
  import opened LogParser
  import opened QueueLog
  import opened Seek
  import opened StreamCuts
  import opened ContentLength
  import SeekExact

  // ----- The first buffer -----

  /** Whole lines at the start of a buffer. */
  lemma {:induction false} LinesParsed(f: Frame, m: Message, j: nat, i: nat, t: string, base: nat, offset: int) returns (g: Frame, off: int)
    requires WellFormed(m) && HeaderFrame(f, m, j) && j <= i <= |m.headers|
    ensures HeaderFrame(g, m, i)
    ensures var s := Lines(m.headers[j..i]); ParseFrom(f, s + t, base, offset) == ParseFrom(g, t, base + |s|, off)
    decreases i - j
  {
    hide ParseFrom, Update, ContentlenOf;
    var s := Lines(m.headers[j..i]);
    if i == j {
      g, off := f, offset;
      assert s + t == t;
    } else {
      var h, more := m.headers[j], Lines(m.headers[j + 1..i]);
      assert m.headers[j..i][1..] == m.headers[j + 1..i];
      assert s + t == h + "\n" + (more + t);
      assert (s + t)[..|h|] == h && (s + t)[|h|] == '\n' && (s + t)[|h| + 1..] == more + t;
      UpdateHeader(f, m, j);
      ParseLine(f, h, s + t, base, offset);
      g, off := LinesParsed(Update(f, h[0], h).0, m, j + 1, i, t, base + |h| + 1, base + |h| + 2);
    }
  }

  lemma StartParsed(m: Message, i: nat, t: string) returns (f: Frame, off: int)
    requires WellFormed(m) && i <= |m.headers|
    ensures HeaderFrame(f, m, i) && ParseFrameOf(NEW_FRAME, Start(m, i) + t) == ParseFrom(f, t, |Start(m, i)|, off)
  {
    hide ParseFrom, Update, HeaderFrame, Lines, IsCommand, ContentlenOf;
    var s, ls := Start(m, i) + t, Lines(m.headers[..i]);
    assert s == m.name + "\n" + (ls + t);
    assert s[..|m.name|] == m.name && s[|m.name|] == '\n' && s[|m.name| + 1..] == ls + t;
    CommandIsLine(m.name);
    UpdateName(m, m.name[0]);
    ParseLine(NEW_FRAME, m.name, s, 0, -1);
    assert m.headers[..i] == m.headers[0..i];
    f, off := LinesParsed(Update(NEW_FRAME, m.name[0], m.name).0, m, 0, i, t, |m.name| + 1, |m.name| + 2);
  }

  /** The end of the buffer ends a line outside the body. */
  lemma LineAtEnd(f: Frame, line: string, base: nat, offset: int)
    requires !f.status.Body? && HeaderOk(line) && Update(f, line[0], line).1 == More
    ensures var p := ParseFrom(f, line, base, offset); p.Unfinished? && p.frame == Update(f, line[0], line).0
  {
    hide ParseFrom, SplitLen, Update;
    SplitLenUnique(line, false, |line|);
    assert line[..|line|] == line;
    ParseUnfold(f, line, base, offset);
    assert line[Min(|line| + 1, |line|)..] == "";
    ParseEnd(Update(f, line[0], line).0, base + |line| + 1, base + |line| + 2);
  }

  lemma NameAtEnd(m: Message)
    requires WellFormed(m)
    ensures var p := ParseFrameOf(NEW_FRAME, m.name); p.Unfinished? && HeaderFrame(p.frame, m, 0)
  {
    hide ParseFrom, Update, HeaderFrame, IsCommand, ContentlenOf;
    CommandIsLine(m.name);
    UpdateName(m, m.name[0]);
    LineAtEnd(NEW_FRAME, m.name, 0, -1);
  }

  /** Behind the blank line. */
  lemma BlankAtEnd(f: Frame, m: Message, base: nat, offset: int)
    requires WellFormed(m) && HeaderFrame(f, m, |m.headers|)
    ensures var p := ParseFrom(f, "\n", base, offset);
      if m.body == "" then p.Parsed? && FrameOf(p.frame, m) && p.offset == base + 2 else p.Unfinished? && BodyFrame(p.frame, m, 0)
  {
    hide ParseFrom, Update, FrameOf, BodyFrame, ContentlenOf, WellFormed, Lines;
    var s := "\n";
    assert s[..0] == "";
    UpdateBlank(f, m, "");
    ParseUnfold(f, s, base, offset);
    assert s[Min(1, |s|)..] == "";
    ParseEnd(Update(f, '\n', "").0, base + 1, base + 2);
  }

  /** Inside the body the rest goes to prev_buffer. */
  lemma BodyAtEnd(f: Frame, m: Message, r: nat, base: nat, offset: int)
    requires WellFormed(m) && HeaderFrame(f, m, |m.headers|) && 0 < r <= |m.body| && r <= LD_MAX
    ensures ParseFrom(f, "\n" + m.body[..r], base, offset).Carried?
  {
    hide ParseFrom, Update, SplitLen, ContentlenOf, Lines;
    var s, t := "\n" + m.body[..r], m.body[..r];
    assert s[..0] == "" && s[1..] == t;
    UpdateBlank(f, m, "");
    ParseUnfold(f, s, base, offset);
    SplitLenUnique(t, true, r);
    ParseUnfold(Update(f, '\n', "").0, t, base + 1, base + 2);
  }

  // ----- The second buffer -----

  /** The newline of a line that was ended by the buffer. */
  lemma LateParsed(f: Frame, m: Message, i: nat, junk: string)
    requires WellFormed(m) && HeaderFrame(f, m, i) && f.contentlen < 0
    ensures var s := "\n" + HeaderTail(m, i) + "\0";
      var r := ParseFrameOf(f, s + junk); r.Parsed? && FrameOf(r.frame, m) && r.offset == |s|
  {
    hide ParseFrom, FrameOf, HeaderTail, ContentlenOf, WellFormed, Lines;
    var tail := HeaderTail(m, i) + "\0" + junk;
    var s := "\n" + HeaderTail(m, i) + "\0" + junk;
    assert s[..0] == "" && s[1..] == tail;
    ParseUnfold(f, s, 0, -1);
    ParseHeaders(f, m, i, junk, 1, 2);
  }

  /** Fewer than three bytes hold no name. */
  lemma {:induction false} TinyParsed(s: string, base: nat, offset: int)
    requires |s| < 3
    ensures var p := ParseFrom(NEW_FRAME, s, base, offset); p.Unfinished? && p.frame == NEW_FRAME
    decreases |s|
  {
    hide ParseFrom, SplitLen;
    if s == "" {
      ParseEnd(NEW_FRAME, base, offset);
    } else {
      ParseUnfold(NEW_FRAME, s, base, offset);
      var n := SplitLen(s, false);
      var c := MatchCommand(s[..n]);
      if c != "" {
        CommandHeads(c);
      }
      TinyParsed(s[Min(n + 1, |s|)..], base + n + 1, base + n + 2);
    }
  }

  /** What is left of a log behind the first k bytes of its first message. */
  function Behind(m: Message, rest: seq<Message>, k: nat): string
    requires k <= |Encode(m)|
  {
    Encode(m)[k..] + EncodeAll(rest)
  }

  /** Reading goes on at the start of a buffer that holds x, the rest of m, and the messages behind it. */
  lemma FinishLoad(f: Frame, m: Message, x: string, rest: seq<Message>, junk: string)
    requires x != "" && AllWellFormed(rest) && |x + EncodeAll(rest)| <= |junk|
    requires var p := ParseFrameOf(f, x + EncodeAll(rest)); p.Parsed? && FrameOf(p.frame, m) && p.offset == |x|
    ensures Restores(LoadBuffer(x + EncodeAll(rest), junk, 0, [], f), [m] + rest)
  {
    hide ParseFrameOf, LoadBuffer, FrameOf, WellFormed, Encode, EncodeAll;
    var buf := x + EncodeAll(rest);
    assert (buf + junk)[0..0 + |buf|] == buf;
    var g := ParseFrameOf(f, buf).frame;
    assert buf[|x|..] == EncodeAll(rest);
    ContinueLoad(buf, 0, |x|, rest, junk, [], f, g);
    OneMore(LoadBuffer(buf, junk, 0, [], f), g, m, rest);
  }

  lemma OneMore(r: Load, g: Frame, m: Message, rest: seq<Message>)
    requires Appends(r, [] + [g], rest) && FrameOf(g, m)
    ensures Restores(r, [m] + rest)
  {
    hide FrameOf;
    assert [] + [g] == [g];
    assert r.frames == [g] + r.frames[1..] by {
      assert r.frames[..1] == [g];
    }
  }

  // ----- Cuts that lose the frame -----

  lemma {:induction false} ParseDoomed(f: Frame, m: Message, s: string, base: nat, offset: int)
    requires Doomed(f, m)
    ensures var p := ParseFrom(f, s, base, offset); !(p.Parsed? && FrameOf(p.frame, m))
    decreases |s|
  {
    hide ParseFrom, SplitLen, Update, Doomed, FrameOf;
    if s == "" {
      ParseEnd(f, base, offset);
    } else {
      ParseUnfold(f, s, base, offset);
      var n, k := SplitLen(s, f.status.Body?), StepLen(f, s);
      DoomedStays(f, m, s[0], s[..n]);
      if !Update(f, s[0], s[..n]).1.Complete? {
        ParseDoomed(Update(f, s[0], s[..n]).0, m, s[Min(k, |s|)..], base + k, base + k + 1);
      }
    }
  }

  lemma {:induction false} LoadExtends(buf: string, junk: string, index: nat, frames: seq<Frame>, f: Frame)
    requires index < |buf| <= |junk|
    ensures frames <= LoadBuffer(buf, junk, index, frames, f).frames
    decreases |buf| - index
  {
    hide ParseFrameOf;
    var p := ParseFrameOf(f, (buf + junk)[index..index + |buf|]);
    if p.Parsed? && index + p.offset < |buf| {
      LoadExtends(buf, junk, index + p.offset, frames + [p.frame], NEW_FRAME);
    }
  }

  /** When the first call does not return m, the load is wrong. */
  lemma WrongFirst(buf: string, junk: string, f: Frame, m: Message, rest: seq<Message>)
    requires 0 < |buf| <= |junk|
    requires var p := ParseFrameOf(f, buf); !(p.Parsed? && FrameOf(p.frame, m))
    ensures !Restores(LoadBuffer(buf, junk, 0, [], f), [m] + rest)
  {
    hide ParseFrameOf, LoadBuffer, FrameOf;
    assert (buf + junk)[0..0 + |buf|] == buf;
    LoadBufferUnfold(buf, junk, 0, [], f);
    var p := ParseFrameOf(f, buf);
    if p.Parsed? {
      if p.offset < |buf| {
        LoadExtends(buf, junk, p.offset, [] + [p.frame], NEW_FRAME);
      }
      WrongHead(LoadBuffer(buf, junk, 0, [], f), p.frame, m, rest);
    }
  }

  lemma WrongHead(r: Load, g: Frame, m: Message, rest: seq<Message>)
    requires !r.BadIndex? && [] + [g] <= r.frames && !FrameOf(g, m)
    ensures !Restores(r, [m] + rest)
  {
    hide FrameOf;
    assert r.frames[0] == ([] + [g])[0] == g && ([m] + rest)[0] == m;
  }

  lemma ShortLineDooms(f: Frame, m: Message, i: nat, q: nat)
    requires HeaderFrame(f, m, i) && i < |m.headers| && HeaderOk(m.headers[i]) && 0 < q < |m.headers[i]|
    ensures var line := m.headers[i][..q];
      HeaderOk(line) && Update(f, line[0], line).1 == More && Doomed(Update(f, line[0], line).0, m)
  {
    hide ContentlenOf, Lines, NextContentlen;
    var line := m.headers[i][..q];
    assert !IsStop(line[0], false);
    assert Pieces(line) == [line];
    assert (f.attrs + [line])[i] == line;
  }

  /** The newline is read as the blank line before the body. */
  lemma LateBodyWrong(f: Frame, m: Message, rest: string)
    requires WellFormed(m) && HeaderFrame(f, m, |m.headers|) && 0 < |m.body| < LD_MAX
    ensures var p := ParseFrameOf(f, "\n" + HeaderTail(m, |m.headers|) + "\0" + rest); !(p.Parsed? && FrameOf(p.frame, m))
  {
    hide ParseFrom, Update, SplitLen, ContentlenOf;
    var t := "\n" + m.body;
    assert HeaderTail(m, |m.headers|) == t;
    var s := "\n" + t + "\0" + rest;
    assert s[..0] == "" && s[1..] == t + "\0" + rest;
    UpdateBlank(f, m, "");
    ParseUnfold(f, s, 0, -1);
    var g, u := Update(f, '\n', "").0, t + "\0" + rest;
    SplitLenUnique(u, true, |t|);
    assert u[..|t|] == t;
    LongBody(g, m, u[0], t);
    ParseUnfold(g, u, 1, 2);
  }

  lemma LongBody(g: Frame, m: Message, first: char, t: string)
    requires BodyFrame(g, m, 0) && |t| == |m.body| + 1
    ensures var r := Update(g, first, t); r.1.Complete? && !FrameOf(r.0, m)
  {
    BodyGrows(g, t);
  }

  lemma LateWrong(f: Frame, m: Message, i: nat, rest: string)
    requires WellFormed(m) && HeaderFrame(f, m, i) && !MayBeLate(m, i) && |m.body| < LD_MAX
    ensures var p := ParseFrameOf(f, "\n" + HeaderTail(m, i) + "\0" + rest); !(p.Parsed? && FrameOf(p.frame, m))
  {
    hide ParseFrom, ContentlenOf, HeaderTail;
    if i == |m.headers| {
      LateBodyWrong(f, m, rest);
    } else {
      var s := "\n" + HeaderTail(m, i) + "\0" + rest;
      assert s[..0] == "";
      ParseUnfold(f, s, 0, -1);
      var g := Update(f, '\n', "").0;
      assert g.attrs != m.headers;
      if f.contentlen > 0 {
        ParseDoomed(g, m, s[1..], 1, 2);
      }
    }
  }

  // ----- Two buffers -----

  /** The first buffer ends inside m; the second one holds all that is left. */
  lemma TwoBuffers(m: Message, rest: seq<Message>, bufferLen: nat, junk: nat -> string)
    requires 0 < bufferLen < |Encode(m)| && |EncodeAll([m] + rest)| <= 2 * bufferLen && forall p :: |junk(p)| >= bufferLen
    ensures var first, second := Encode(m)[..bufferLen], Behind(m, rest, bufferLen);
      var r, l := LoadBuffer(first, junk(0), 0, [], NEW_FRAME), LoadLog(EncodeAll([m] + rest), 0, bufferLen, junk);
      && 0 < |second| <= bufferLen
      && (r.Incomplete? ==> l == r)
      && (r.Loaded? ==> (Restores(l, [m] + rest) <==> Restores(LoadBuffer(second, junk(bufferLen), 0, r.frames, r.frame), [m] + rest)))
  {
    hide LoadBuffer, LoadFrom, FramesOf, Encode;
    var data, first, second := EncodeAll([m] + rest), Encode(m)[..bufferLen], Behind(m, rest, bufferLen);
    assert ([m] + rest)[1..] == rest;
    assert data == first + second;
    assert ReadAt(data, 0, bufferLen) == first;
    assert ReadAt(data, bufferLen, bufferLen) == second;
    LoadFromUnfold(data, 0, bufferLen, junk, [], NEW_FRAME);
    var r := LoadBuffer(first, junk(0), 0, [], NEW_FRAME);
    if r.Loaded? {
      LoadFromUnfold(data, bufferLen, bufferLen, junk, r.frames, r.frame);
      var u := LoadBuffer(second, junk(bufferLen), 0, r.frames, r.frame);
      if u.Loaded? {
        LoadFromUnfold(data, |data|, bufferLen, junk, u.frames, u.frame);
      }
    }
  }

  lemma FirstCall(buf: string, junk: string)
    requires 0 < |buf| <= |junk|
    ensures var p, r := ParseFrameOf(NEW_FRAME, buf), LoadBuffer(buf, junk, 0, [], NEW_FRAME);
      && (p.Carried? ==> r == Incomplete([]))
      && (p.Unfinished? ==> r == Loaded([], p.frame))
      && (p.Parsed? && p.offset >= |buf| ==> r == Loaded([p.frame], NEW_FRAME))
  {
    hide ParseFrameOf, LoadBuffer;
    assert (buf + junk)[0..0 + |buf|] == buf;
    LoadBufferUnfold(buf, junk, 0, [], NEW_FRAME);
    assert forall g: Frame :: [] + [g] == [g];
  }

  // ----- Exactly which cuts -----

  /**
   The buffer ends behind the name line or a header line, or in front of the newline of such a line
   where this newline may come late, or right behind the blank line.
   */
  ghost predicate GoodCut(m: Message, p: nat) {
    || (exists i :: 0 <= i <= |m.headers| && (p == |Start(m, i)| || (p == |Start(m, i)| - 1 && MayBeLate(m, i))))
    || p == |Start(m, |m.headers|)| + 1
  }

  /** The bytes of m around the end of its first i header lines. */
  lemma EncodeAt(m: Message, i: nat)
    requires i <= |m.headers|
    ensures Encode(m) == Start(m, i) + (HeaderTail(m, i) + "\0")
  {
    hide Lines;
    assert m.headers == m.headers[..i] + m.headers[i..] && m.headers[0..] == m.headers;
    LinesAppend(m.headers[..i], m.headers[i..]);
  }

  lemma StartNext(m: Message, i: nat)
    requires i < |m.headers|
    ensures Start(m, i + 1) == Start(m, i) + m.headers[i] + "\n"
  {
    hide Lines;
    assert m.headers[..i + 1] == m.headers[..i] + [m.headers[i]];
    LinesSnoc(m.headers[..i], m.headers[i]);
  }

  lemma CutAt(m: Message, rest: seq<Message>, a: string, b: string)
    requires Encode(m) == a + b
    ensures Encode(m)[..|a|] == a && Behind(m, rest, |a|) == b + EncodeAll(rest)
  {
  }

  /** What the two buffers hold, and what follows when the first call leaves the frame f. */
  lemma LoadSecond(m: Message, rest: seq<Message>, a: string, b: string, junk: nat -> string)
    requires Encode(m) == a + b && a != "" && b != "" && |EncodeAll([m] + rest)| <= 2 * |a| && forall p :: |junk(p)| >= |a|
    requires ParseFrameOf(NEW_FRAME, a).Unfinished?
    ensures |b + EncodeAll(rest)| <= |junk(|a|)| && |b + EncodeAll(rest)| <= |a|
    ensures var f := ParseFrameOf(NEW_FRAME, a).frame;
      Restores(LoadLog(EncodeAll([m] + rest), 0, |a|, junk), [m] + rest)
      <==> Restores(LoadBuffer(b + EncodeAll(rest), junk(|a|), 0, [], f), [m] + rest)
  {
    hide ParseFrameOf, LoadLog, LoadBuffer, Restores, Encode, EncodeAll, Behind;
    CutAt(m, rest, a, b);
    TwoBuffers(m, rest, |a|, junk);
    FirstCall(a, junk(0));
  }

  ghost predicate Setting(m: Message, rest: seq<Message>, bufferLen: nat, junk: nat -> string) {
    && WellFormed(m) && AllWellFormed(rest)
    && 0 < bufferLen <= LD_MAX && (forall p :: |junk(p)| >= bufferLen)
    && |m.name| <= bufferLen < |Encode(m)| && |EncodeAll([m] + rest)| <= 2 * bufferLen
  }

  ghost predicate Comes(m: Message, rest: seq<Message>, bufferLen: nat, junk: nat -> string)
    requires bufferLen > 0 && forall p :: |junk(p)| >= bufferLen
  {
    Restores(LoadLog(EncodeAll([m] + rest), 0, bufferLen, junk), [m] + rest)
  }

  lemma AfterLine(m: Message, rest: seq<Message>, i: nat, junk: nat -> string)
    requires i <= |m.headers| && Setting(m, rest, |Start(m, i)|, junk)
    ensures Comes(m, rest, |Start(m, i)|, junk)
  {
    hide ParseFrom, LoadLog, LoadBuffer, Restores, EncodeAll, HeaderTail, FrameOf, WellFormed, AllWellFormed, HeaderFrame;
    var a, b := Start(m, i), HeaderTail(m, i) + "\0";
    EncodeAt(m, i);
    assert a + "" == a;
    var f, off := StartParsed(m, i, "");
    ParseEnd(f, |a|, off);
    LoadSecond(m, rest, a, b, junk);
    ParseHeaders(f, m, i, EncodeAll(rest), 0, -1);
    FinishLoad(f, m, b, rest, junk(|a|));
  }

  /** In front of the newline of the name line or of a header line: the line was taken whole. */
  lemma LineWithoutNewline(m: Message, i: nat) returns (a: string)
    requires WellFormed(m) && i <= |m.headers|
    ensures |a| == |Start(m, i)| - 1 && Encode(m) == a + ("\n" + HeaderTail(m, i) + "\0") && a != ""
    ensures var p := ParseFrameOf(NEW_FRAME, a); p.Unfinished? && HeaderFrame(p.frame, m, i)
  {
    hide ParseFrom, HeaderTail, HeaderFrame, ContentlenOf, IsCommand, Update, HeaderOk;
    EncodeAt(m, i);
    var t := HeaderTail(m, i) + "\0";
    if i == 0 {
      a := m.name;
      assert Start(m, 0) == a + "\n";
      NameAtEnd(m);
      CommandLetters(m.name);
    } else {
      var h := m.headers[i - 1];
      StartNext(m, i - 1);
      a := Start(m, i - 1) + h;
      assert HeaderOk(h);
      var f, off := StartParsed(m, i - 1, h);
      UpdateHeader(f, m, i - 1);
      HeaderStatus(f, m, i - 1);
      LineAtEnd(f, h, |Start(m, i - 1)|, off);
    }
    assert Start(m, i) == a + "\n";
    assert (a + "\n") + t == a + ("\n" + HeaderTail(m, i) + "\0");
  }

  lemma BeforeNewline(m: Message, rest: seq<Message>, i: nat, junk: nat -> string)
    requires i <= |m.headers| && 1 < |Start(m, i)| && Setting(m, rest, |Start(m, i)| - 1, junk)
    ensures Comes(m, rest, |Start(m, i)| - 1, junk) <==> MayBeLate(m, i)
  {
    hide ParseFrom, LoadLog, LoadBuffer, Restores, EncodeAll, HeaderTail, FrameOf, WellFormed, AllWellFormed, HeaderFrame, MayBeLate, Start, Encode;
    var a := LineWithoutNewline(m, i);
    var b := "\n" + HeaderTail(m, i) + "\0";
    LoadSecond(m, rest, a, b, junk);
    LateIff(ParseFrameOf(NEW_FRAME, a).frame, m, i, rest, junk(|a|));
  }

  lemma LateIff(f: Frame, m: Message, i: nat, rest: seq<Message>, junk: string)
    requires WellFormed(m) && HeaderFrame(f, m, i) && AllWellFormed(rest)
    requires var buf := "\n" + HeaderTail(m, i) + "\0" + EncodeAll(rest); |buf| <= |junk| && |buf| <= LD_MAX
    ensures Restores(LoadBuffer("\n" + HeaderTail(m, i) + "\0" + EncodeAll(rest), junk, 0, [], f), [m] + rest) <==> MayBeLate(m, i)
  {
    hide ParseFrom, LoadBuffer, Restores, EncodeAll, FrameOf, WellFormed, AllWellFormed, Lines, ContentlenOf;
    var b := "\n" + HeaderTail(m, i) + "\0";
    if !MayBeLate(m, i) {
      LateWrong(f, m, i, EncodeAll(rest));
      WrongFirst(b + EncodeAll(rest), junk, f, m, rest);
    } else if f.contentlen < 0 {
      LateParsed(f, m, i, EncodeAll(rest));
      FinishLoad(f, m, b, rest, junk);
    } else {
      EmptyLate(f, m, rest, junk);
    }
  }

  /** A frame without a body ends at the late newline; its blank line and its NUL are skipped. */
  lemma EmptyLate(f: Frame, m: Message, rest: seq<Message>, junk: string)
    requires WellFormed(m) && HeaderFrame(f, m, |m.headers|) && m.body == "" && AllWellFormed(rest)
    requires |"\n" + HeaderTail(m, |m.headers|) + "\0" + EncodeAll(rest)| <= |junk|
    ensures Restores(LoadBuffer("\n" + HeaderTail(m, |m.headers|) + "\0" + EncodeAll(rest), junk, 0, [], f), [m] + rest)
  {
    hide ParseFrom, LoadBuffer, Update, Restores, EncodeAll, FrameOf, WellFormed, AllWellFormed, ContentlenOf, HeaderFrame;
    assert HeaderTail(m, |m.headers|) == "\n";
    var buf := "\n\n" + ("\0" + EncodeAll(rest));
    assert "\n" + HeaderTail(m, |m.headers|) + "\0" + EncodeAll(rest) == buf;
    assert (buf + junk)[0..0 + |buf|] == buf && buf[..0] == "" && buf[0] == '\n';
    UpdateBlank(f, m, "");
    HeaderStatus(f, m, |m.headers|);
    ParseUnfold(f, buf, 0, -1);
    LoadBufferUnfold(buf, junk, 0, [], f);
    var g := Update(f, '\n', "").0;
    NulBehind("\n\n", rest, junk, [] + [g]);
    OneMore(LoadBuffer(buf, junk, 0, [], f), g, m, rest);
  }

  /** A single NUL in front of the messages, at an index of at most two. */
  lemma NulBehind(pre: string, rest: seq<Message>, junk: string, frames: seq<Frame>)
    requires |pre| <= 2 && AllWellFormed(rest) && |pre + ("\0" + EncodeAll(rest))| <= |junk|
    ensures Appends(LoadBuffer(pre + ("\0" + EncodeAll(rest)), junk, |pre|, frames, NEW_FRAME), frames, rest)
  {
    hide ParseFrom, LoadBuffer, Appends, WellFormed, Encode;
    var x := "\0";
    assert Skips(x) by {
      NulSkips();
    }
    if rest == [] {
      NoMessages();
      var buf := pre + x;
      assert pre + (x + EncodeAll(rest)) == buf;
      InputAt(pre, x, junk);
      var s := x + junk[..|pre|];
      ParseClosed(NEW_FRAME, x, junk[..|pre|], 0, -1);
      SkipsNames(x, 0, -1);
      TinyParsed(junk[..|pre|], 1, ParseFrom(NEW_FRAME, x, 0, -1).offset);
      LoadBufferUnfold(buf, junk, |pre|, frames, NEW_FRAME);
      AppendsNone(frames);
    } else {
      LoadSkipping(pre, x, rest, junk, frames);
    }
  }

  lemma NulSkips()
    ensures Skips("\0")
  {
    var x := "\0";
    assert SplitLen(x, false) == 0 && x[..0] == "" && x[Min(1, |x|)..] == "";
    assert MatchCommand("") == "";
  }

  lemma AfterBlank(m: Message, rest: seq<Message>, junk: nat -> string)
    requires var p := |Start(m, |m.headers|)| + 1; Setting(m, rest, p, junk)
    ensures Comes(m, rest, |Start(m, |m.headers|)| + 1, junk)
  {
    hide ParseFrom, LoadLog, LoadBuffer, Restores, EncodeAll, FrameOf, WellFormed, AllWellFormed, HeaderFrame, BodyFrame, ContentlenOf;
    var n := |m.headers|;
    var s := Start(m, n);
    EncodeAt(m, n);
    assert HeaderTail(m, n) == "\n" + m.body;
    var a, b := s + "\n", m.body + "\0";
    assert Encode(m) == a + b;
    var f, off := StartParsed(m, n, "\n");
    BlankAtEnd(f, m, |s|, off);
    if m.body == "" {
      CutAt(m, rest, a, b);
      TwoBuffers(m, rest, |a|, junk);
      FirstCall(a, junk(0));
      var g := ParseFrameOf(NEW_FRAME, a).frame;
      assert "" + ("\0" + EncodeAll(rest)) == b + EncodeAll(rest);
      NulBehind("", rest, junk(|a|), [] + [g]);
      assert [] + [g] == [g];
      OneMore(LoadBuffer(b + EncodeAll(rest), junk(|a|), 0, [g], NEW_FRAME), g, m, rest);
    } else {
      LoadSecond(m, rest, a, b, junk);
      var g := ParseFrameOf(NEW_FRAME, a).frame;
      assert m.body[0..] == m.body;
      ParseBody(g, m, 0, EncodeAll(rest), 0, -1);
      FinishLoad(g, m, b, rest, junk(|a|));
    }
  }

  lemma InsideLine(m: Message, rest: seq<Message>, i: nat, q: nat, junk: nat -> string)
    requires i < |m.headers| && 0 < q < |m.headers[i]| && Setting(m, rest, |Start(m, i)| + q, junk)
    ensures !Comes(m, rest, |Start(m, i)| + q, junk)
  {
    hide ParseFrom, LoadLog, LoadBuffer, Restores, EncodeAll, HeaderTail, FrameOf, AllWellFormed, HeaderFrame, Update, HeaderOk, IsCommand, ContentlenOf, BodyOk, Doomed;
    var h := m.headers[i];
    assert HeaderOk(h);
    var a, b := Start(m, i) + h[..q], h[q..] + "\n" + HeaderTail(m, i + 1) + "\0";
    EncodeAt(m, i);
    HeaderTailStep(m, i);
    assert h == h[..q] + h[q..];
    assert Encode(m) == a + b;
    var f, off := StartParsed(m, i, h[..q]);
    ShortLineDooms(f, m, i, q);
    HeaderStatus(f, m, i);
    LineAtEnd(f, h[..q], |Start(m, i)|, off);
    LoadSecond(m, rest, a, b, junk);
    var g := ParseFrameOf(NEW_FRAME, a).frame;
    ParseDoomed(g, m, b + EncodeAll(rest), 0, -1);
    WrongFirst(b + EncodeAll(rest), junk(|a|), g, m, rest);
  }

  lemma InsideBody(m: Message, rest: seq<Message>, r: nat, junk: nat -> string)
    requires 0 < r <= |m.body| && Setting(m, rest, |Start(m, |m.headers|)| + 1 + r, junk)
    ensures !Comes(m, rest, |Start(m, |m.headers|)| + 1 + r, junk)
  {
    hide ParseFrom, LoadLog, LoadBuffer, EncodeAll, FrameOf, WellFormed, AllWellFormed, HeaderFrame, ContentlenOf;
    var n := |m.headers|;
    EncodeAt(m, n);
    assert HeaderTail(m, n) == "\n" + m.body;
    var a, b := Start(m, n) + ("\n" + m.body[..r]), m.body[r..] + "\0";
    assert m.body == m.body[..r] + m.body[r..];
    assert Encode(m) == a + b;
    var f, off := StartParsed(m, n, "\n" + m.body[..r]);
    BodyAtEnd(f, m, r, |Start(m, n)|, off);
    CutAt(m, rest, a, b);
    TwoBuffers(m, rest, |a|, junk);
    FirstCall(a, junk(0));
  }

  /** The header line in which p lies, counting its newline; or none, when p lies behind all of them. */
  lemma {:induction false} Locate(m: Message, p: nat, n: nat) returns (i: nat)
    requires n <= |m.headers| && |Start(m, 0)| <= p
    ensures i <= n && |Start(m, i)| <= p
    ensures i < n ==> p < |Start(m, i)| + |m.headers[i]| + 1
    decreases n
  {
    hide Start;
    if n == 0 {
      i := 0;
    } else {
      i := Locate(m, p, n - 1);
      StartNext(m, n - 1);
      if i == n - 1 && p >= |Start(m, n)| {
        i := n;
      }
    }
  }

  lemma NameCut(m: Message, rest: seq<Message>, junk: nat -> string)
    requires Setting(m, rest, |m.name|, junk)
    ensures Comes(m, rest, |m.name|, junk) && GoodCut(m, |m.name|)
  {
    hide LoadLog, Restores, EncodeAll, Encode, WellFormed, AllWellFormed;
    assert m.headers[..0] == [];
    assert |Start(m, 0)| == |m.name| + 1;
    assert MayBeLate(m, 0);
    BeforeNewline(m, rest, 0, junk);
  }

  lemma GoodComes(m: Message, rest: seq<Message>, bufferLen: nat, junk: nat -> string)
    requires Setting(m, rest, bufferLen, junk) && GoodCut(m, bufferLen)
    ensures Comes(m, rest, bufferLen, junk)
  {
    hide Comes, Start, MayBeLate, EncodeAll, Encode, WellFormed, AllWellFormed;
    if bufferLen == |Start(m, |m.headers|)| + 1 {
      AfterBlank(m, rest, junk);
    } else {
      var i :| 0 <= i <= |m.headers| && (bufferLen == |Start(m, i)| || (bufferLen == |Start(m, i)| - 1 && MayBeLate(m, i)));
      if bufferLen == |Start(m, i)| {
        AfterLine(m, rest, i, junk);
      } else {
        BeforeNewline(m, rest, i, junk);
      }
    }
  }

  lemma BadLoses(m: Message, rest: seq<Message>, bufferLen: nat, junk: nat -> string)
    requires Setting(m, rest, bufferLen, junk) && !GoodCut(m, bufferLen) && |Start(m, 0)| <= bufferLen
    ensures !Comes(m, rest, bufferLen, junk)
  {
    hide Comes, Start, MayBeLate, EncodeAll, WellFormed, AllWellFormed, HeaderTail;
    var n := |m.headers|;
    var i := Locate(m, bufferLen, n);
    if i < n {
      var q := bufferLen - |Start(m, i)|;
      StartNext(m, i);
      if q == |m.headers[i]| {
        BeforeNewline(m, rest, i + 1, junk);
      } else {
        InsideLine(m, rest, i, q, junk);
      }
    } else {
      EncodeAt(m, n);
      assert |HeaderTail(m, n)| == 1 + |m.body| by {
        LastTail(m);
      }
      InsideBody(m, rest, bufferLen - |Start(m, n)| - 1, junk);
    }
  }

  lemma LastTail(m: Message)
    ensures HeaderTail(m, |m.headers|) == "\n" + m.body
  {
  }

  /**
   A log of two buffers whose first frame lies across the end of the first buffer, behind its name:
   it is loaded completely and in order if and only if the buffer ends at a good place.
   */
  lemma StraddleIff(m: Message, rest: seq<Message>, bufferLen: nat, junk: nat -> string)
    requires WellFormed(m) && AllWellFormed(rest)
    requires 0 < bufferLen <= LD_MAX && forall p :: |junk(p)| >= bufferLen
    requires |m.name| <= bufferLen < |Encode(m)| && |EncodeAll([m] + rest)| <= 2 * bufferLen
    ensures Restores(LoadLog(EncodeAll([m] + rest), 0, bufferLen, junk), [m] + rest) <==> GoodCut(m, bufferLen)
  {
    hide LoadLog, Restores, GoodCut, EncodeAll, Encode, WellFormed, AllWellFormed;
    assert Setting(m, rest, bufferLen, junk);
    if bufferLen == |m.name| {
      NameCut(m, rest, junk);
    } else if GoodCut(m, bufferLen) {
      GoodComes(m, rest, bufferLen, junk);
    } else {
      BadLoses(m, rest, bufferLen, junk);
    }
  }

  // ----- A frame that does not start its buffer -----

  /** The memory behind the buffer, as far as parse_frame looks at it, becomes a header of the frame. */
  lemma StaleLine(m: Message, i: nat, stale: string) returns (g: Frame)
    requires WellFormed(m) && i <= |m.headers| && HeaderOk(stale) && !Sets(stale)
    ensures SeekExact.Swallowing(g, m, i)
    ensures var p := ParseFrameOf(NEW_FRAME, Start(m, i) + stale); p.Unfinished? && p.frame == g
  {
    hide ParseFrom, Update, IsCommand, Start, Lines, HeaderOk;
    var f, off := StartParsed(m, i, stale);
    HeaderStatus(f, m, i);
    SeekExact.AddLine(f, stale);
    LineAtEnd(f, stale, |Start(m, i)|, off);
    g := AddHeader(f, stale);
    LineSets(f.contentlen, stale, "");
    SwallowingStale(f, m, i, stale);
  }

  lemma SwallowingStale(f: Frame, m: Message, i: nat, stale: string)
    requires HeaderFrame(f, m, i) && HeaderOk(stale) && NextContentlen(f.contentlen, stale) == f.contentlen
    ensures SeekExact.Swallowing(AddHeader(f, stale), m, i)
  {
    hide NextContentlen, ContentlenOf, Lines;
    SeekExact.AddLine(f, stale);
  }

  /** The buffer holds the frame a and the first lines of m. */
  lemma StaleFirst(a: Message, m: Message, i: nat, junk: string) returns (fa: Frame, g: Frame)
    requires WellFormed(a) && WellFormed(m) && i <= |m.headers| && |Encode(a) + Start(m, i)| <= |junk|
    requires HeaderOk(junk[..|Encode(a)|]) && !Sets(junk[..|Encode(a)|])
    ensures FrameOf(fa, a) && SeekExact.Swallowing(g, m, i)
    ensures |Encode(a)| < |Encode(a) + Start(m, i)| && LoadBuffer(Encode(a) + Start(m, i), junk, 0, [], NEW_FRAME) == Loaded([fa], g)
  {
    hide ParseFrameOf, LoadBuffer, FrameOf, WellFormed, Encode, HeaderOk, Sets;
    var e, t := Encode(a), Start(m, i);
    var buf := e + t;
    EncodeSome(a);
    ParseEncoded(a, t);
    assert (buf + junk)[0..0 + |buf|] == buf;
    LoadBufferUnfold(buf, junk, 0, [], NEW_FRAME);
    fa := ParseFrameOf(NEW_FRAME, buf).frame;
    InputAt(e, t, junk);
    g := StaleLine(m, i, junk[..|e|]);
    LoadBufferUnfold(buf, junk, |e|, [] + [fa], NEW_FRAME);
    assert [] + [fa] == [fa];
  }

  /** The second buffer holds the rest of m and the messages behind it. */
  lemma StaleSecond(g: Frame, fa: Frame, m: Message, i: nat, rest: seq<Message>, junk: string) returns (fm: Frame)
    requires WellFormed(m) && AllWellFormed(rest) && i <= |m.headers| && SeekExact.Swallowing(g, m, i)
    requires |HeaderTail(m, i) + "\0" + EncodeAll(rest)| <= |junk|
    ensures |fm.attrs| > |m.headers|
    ensures Appends(LoadBuffer(HeaderTail(m, i) + "\0" + EncodeAll(rest), junk, 0, [fa], g), [fa] + [fm], rest)
  {
    hide ParseFrom, LoadBuffer, WellFormed, AllWellFormed, HeaderTail, EncodeAll, Appends, SeekExact.Swallowing;
    var x := HeaderTail(m, i) + "\0";
    var buf := x + EncodeAll(rest);
    SeekExact.SwallowHeaders(g, m, i, EncodeAll(rest), 0, -1);
    assert (buf + junk)[0..0 + |buf|] == buf && buf[|x|..] == EncodeAll(rest);
    fm := ParseFrameOf(g, buf).frame;
    ContinueLoad(buf, 0, |x|, rest, junk, [fa], g, fm);
  }

  /**
   A frame m behind another one in the first buffer, cut behind one of its lines: it comes back with
   a header made of the memory behind the buffer, and all other frames come back whole.
   */
  lemma StaleHeader(a: Message, m: Message, i: nat, rest: seq<Message>, bufferLen: nat, junk: nat -> string) returns (r: Load)
    requires WellFormed(a) && WellFormed(m) && AllWellFormed(rest) && i <= |m.headers|
    requires bufferLen == |Encode(a) + Start(m, i)| && forall p :: |junk(p)| >= bufferLen
    requires |EncodeAll([a, m] + rest)| <= 2 * bufferLen
    requires HeaderOk(junk(0)[..|Encode(a)|]) && !Sets(junk(0)[..|Encode(a)|])
    ensures bufferLen > 0 && r == LoadLog(EncodeAll([a, m] + rest), 0, bufferLen, junk)
    ensures r.Loaded? && |r.frames| == 2 + |rest| && FrameOf(r.frames[0], a) && FramesOf(r.frames[2..], rest)
    ensures |r.frames[1].attrs| > |m.headers|
  {
    hide LoadBuffer, LoadFrom, FrameOf, WellFormed, Encode, EncodeAll, HeaderTail, Start, HeaderOk, Sets, SeekExact.Swallowing;
    var data, first, second := EncodeAll([a, m] + rest), Encode(a) + Start(m, i), HeaderTail(m, i) + "\0" + EncodeAll(rest);
    StaleData(a, m, i, rest);
    EncodeSome(a);
    var fa, g := StaleFirst(a, m, i, junk(0));
    var fm := StaleSecond(g, fa, m, i, rest, junk(bufferLen));
    r := LoadBuffer(second, junk(bufferLen), 0, [fa], g);
    StaleRun(data, first, second, bufferLen, junk, fa, g);
    StaleResult(r, fa, fm, rest);
  }

  lemma StaleData(a: Message, m: Message, i: nat, rest: seq<Message>)
    requires i <= |m.headers|
    ensures EncodeAll([a, m] + rest) == (Encode(a) + Start(m, i)) + (HeaderTail(m, i) + "\0" + EncodeAll(rest))
    ensures |HeaderTail(m, i) + "\0" + EncodeAll(rest)| > 0
  {
    hide Encode, Start, HeaderTail;
    var ms := [a, m] + rest;
    assert ms[1..] == [m] + rest && ms[1..][1..] == rest;
    EncodeAt(m, i);
  }

  lemma StaleRun(data: string, first: string, second: string, bufferLen: nat, junk: nat -> string, fa: Frame, g: Frame)
    requires bufferLen == |first| > 0 && (forall p :: |junk(p)| >= bufferLen) && data == first + second && 0 < |second| <= bufferLen
    requires LoadBuffer(first, junk(0), 0, [], NEW_FRAME) == Loaded([fa], g)
    ensures var r := LoadBuffer(second, junk(bufferLen), 0, [fa], g);
      r.Loaded? ==> LoadLog(data, 0, bufferLen, junk) == r
  {
    hide LoadBuffer, LoadFrom;
    assert ReadAt(data, 0, bufferLen) == first && ReadAt(data, bufferLen, bufferLen) == second;
    LoadFromUnfold(data, 0, bufferLen, junk, [], NEW_FRAME);
    LoadFromUnfold(data, bufferLen, bufferLen, junk, [fa], g);
    var r := LoadBuffer(second, junk(bufferLen), 0, [fa], g);
    if r.Loaded? {
      LoadFromUnfold(data, |data|, bufferLen, junk, r.frames, r.frame);
    }
  }

  lemma StaleResult(r: Load, fa: Frame, fm: Frame, rest: seq<Message>)
    requires Appends(r, [fa] + [fm], rest)
    ensures r.Loaded? && |r.frames| == 2 + |rest| && r.frames[0] == fa && r.frames[1] == fm && FramesOf(r.frames[2..], rest)
  {
    hide FrameOf;
    assert r.frames[..2] == [fa, fm];
  }
}
