/**
 Fragmentation does not matter: a stream of well-formed frames fills the bucket with exactly
 those frames, for every way of cutting the stream into recv_data calls.
 */
module Chunking {
  import opened Frames
  import opened Options
  import opened Stomp

  // ----- Streams -----

  /** The bytes that are skipped between frames. */
  predicate IsPad(c: char) {
    c == '\0' || IsNewline(c)
  }

  /**
   A line that reads the same however it is cut: it holds no carriage return, and a command name
   occurs in it only at its end, and only where the newline may come late.
   */
  ghost predicate CutSafe(h: string, late: bool) {
    && (forall j :: 0 <= j < |h| ==> h[j] != '\r')
    && (forall p: nat, c: string :: p <= |h| && IsCommand(c) && c <= h[p..] ==> p + |c| == |h| && late)
  }

  /**
   A newline behind the first i headers that is read as a line of its own does no harm: no content
   length is known yet, or it ends the frame as the blank line would.
   */
  predicate MayBeLate(m: Message, i: nat)
    requires i <= |m.headers|
  {
    ContentlenOf(m.headers[..i]) < 0 || (i == |m.headers| && m.body == "")
  }

  ghost predicate Streamable(m: Message) {
    && WellFormed(m)
    && forall i :: 0 <= i < |m.headers| ==> CutSafe(m.headers[i], MayBeLate(m, i + 1))
  }

  ghost predicate AllStreamable(ms: seq<Message>) {
    forall m :: m in ms ==> Streamable(m)
  }

  /** s is the frames of ms, each closed by a NUL, with any padding before, between and after them. */
  ghost predicate IsStream(s: string, ms: seq<Message>)
    decreases |s|
  {
    if s == "" then ms == []
    else if IsPad(s[0]) then IsStream(s[1..], ms)
    else
      && ms != []
      && |Wire(ms[0])| < |s|
      && s[..|Wire(ms[0])|] == Wire(ms[0])
      && s[|Wire(ms[0])|] == '\0'
      && IsStream(s[|Wire(ms[0])|..], ms[1..])
  }

  /** u starts with the rest t of a frame and its NUL; a stream of ms follows. */
  ghost predicate Tail(t: string, u: string, ms: seq<Message>) {
    && |t| < |u|
    && u[..|t|] == t
    && u[|t|] == '\0'
    && IsStream(u[|t|..], ms)
  }

  lemma TailDrop(a: string, b: string, u: string, ms: seq<Message>)
    requires Tail(a + b, u, ms)
    ensures u[..|a|] == a
    ensures Tail(b, u[|a|..], ms)
  {
    var t := a + b;
    forall j | 0 <= j < |a| ensures u[j] == a[j] {
      assert u[..|t|][j] == t[j];
    }
    forall j | 0 <= j < |b| ensures u[|a|..][j] == b[j] {
      assert u[..|t|][|a| + j] == t[|a| + j];
    }
    assert u[|a|..][|b|..] == u[|t|..];
  }

  lemma TailLine(a: string, b: string, u: string, ms: seq<Message>)
    requires Tail(a + "\n" + b, u, ms)
    ensures |a| < |u| && u[..|a|] == a && u[|a|] == '\n'
    ensures Tail(b, u[|a| + 1..], ms)
  {
    assert a + "\n" + b == a + ("\n" + b);
    TailDrop(a, "\n" + b, u, ms);
    TailDrop("\n", b, u[|a|..], ms);
    assert u[|a|..][1..] == u[|a| + 1..];
    assert u[|a|..][0] == '\n';
  }

  // ----- What the parser still expects -----

  ghost predicate ExpectHeader(c: Conn, f: Frame, rest: string, ms: seq<Message>)
    requires ms != []
  {
    var m, i := ms[0], |f.attrs|;
    && HeaderFrame(f, m, i)
    && (|| (&& Tail(HeaderTail(m, i), c.prev + rest, ms[1..])
            && (c.prev != "" ==> i < |m.headers| && c.prev <= m.headers[i]))
        // the line end of a line that was taken early is still to come
        || (&& c.prev == "" && MayBeLate(m, i)
            && rest != "" && rest[0] == '\n'
            && Tail(HeaderTail(m, i), rest[1..], ms[1..])))
  }

  ghost predicate ExpectBody(c: Conn, f: Frame, rest: string, ms: seq<Message>)
    requires ms != []
  {
    && BodyFrame(f, ms[0], f.hasContentlen)
    && f.hasContentlen + |c.prev| <= |ms[0].body|
    && Tail(ms[0].body[f.hasContentlen..], c.prev + rest, ms[1..])
  }

  /** In state c, the frames of ms will come out when exactly the bytes of rest are still to come. */
  ghost predicate Expect(c: Conn, rest: string, ms: seq<Message>) {
    match c.frame
    case None =>
      && IsStream(c.prev + rest, ms)
      && (c.prev != "" ==> ms != [] && c.prev <= ms[0].name)
    case Some(f) =>
      && ms != []
      && (f.status.Header? || f.status.Body?)
      && (f.status.Header? ==> ExpectHeader(c, f, rest, ms))
      && (f.status.Body? ==> ExpectBody(c, f, rest, ms))
  }

  /** d is reached from c after some progress; at most one frame was finished, the first of ms. */
  ghost predicate Advances(c: Conn, d: Conn, rest: string, ms: seq<Message>) {
    && d.errors == c.errors
    && (|| (d.bucket == c.bucket && Expect(d, rest, ms))
        || (&& ms != []
            && |d.bucket| == |c.bucket| + 1
            && d.bucket[..|c.bucket|] == c.bucket
            && FrameOf(d.bucket[|c.bucket|], ms[0])
            && Expect(d, rest, ms[1..])))
  }

  /** One round of the loop on the part s of the input s + r. */
  ghost predicate Progress(c: Conn, s: string, r: string, ms: seq<Message>)
    requires |s| > 0
  {
    Consume(c, s).1 + |c.prev| > 0 && Advances(c, Consume(c, s).0, After(c, s, r), ms)
  }

  /** The input that is left after one round. */
  function After(c: Conn, s: string, r: string): string
    requires |s| > 0
  {
    s[Min(Consume(c, s).1, |s|)..] + r
  }

  // ----- One round of the loop -----

  lemma CommandLetters(c: string)
    requires IsCommand(c)
    ensures 0 < |c| <= LD_MAX
    ensures forall j :: 0 <= j < |c| ==> 'A' <= c[j] <= 'Z'
  {
  }

  /** A nonempty line without line ends, closed by a newline, of which `prev` was carried. */
  ghost predicate LineAhead(line: string, prev: string, s: string, r: string) {
    && |s| > 0 && 0 < |line| <= LD_MAX && prev <= line
    && (forall j :: 0 <= j < |line| ==> !IsStop(line[j], false) && line[j] != '\r')
    && |line| < |prev + (s + r)|
    && (prev + (s + r))[..|line|] == line
    && (prev + (s + r))[|line|] == '\n'
  }

  lemma SplitLine(line: string, prev: string, s: string, r: string)
    requires LineAhead(line, prev, s, r)
    ensures var n := |line| - |prev|;
      if |s| > n then
        && SplitLen(s, false) == n && prev + s[..n] == line
        && (prev + (s + r))[|line| + 1..] == s[n + 1..] + r
      else
        && SplitLen(s, false) == |s| && prev + s == line[..|prev| + |s|]
        && s == line[|prev|..][..|s|]
    ensures prev == "" ==> s[0] == line[0]
  {
    var u, n := prev + (s + r), |line| - |prev|;
    forall j | 0 <= j < |s| && j < n
      ensures s[j] == line[|prev| + j]
    {
      assert s[j] == u[|prev| + j] == u[..|line|][|prev| + j];
    }
    if |s| > n {
      assert s[n] == u[|line|];
      SplitLenUnique(s, false, n);
      assert u[|line| + 1..] == s[n + 1..] + r;
    } else {
      SplitLenUnique(s, false, |s|);
    }
  }

  lemma StepPad(c: Conn, s: string, r: string, ms: seq<Message>)
    requires |s| > 0 && c.frame.None? && c.prev == "" && IsPad(s[0])
    requires Expect(c, s + r, ms)
    ensures Progress(c, s, r, ms)
  {
    hide Update, MatchCommand, Taken, HeaderTail, ExpectHeader, ExpectBody, FrameOf;
    assert c.prev + (s + r) == s + r;
    assert Consume(c, s) == (c, 1) by {
      assert c.prev + s[..0] == "";
    }
    assert (s + r)[1..] == s[1..] + r;
    assert c.prev + (s[1..] + r) == s[1..] + r;
  }

  /** How a round treats a line outside the body: with its newline, without it, or not yet. */
  datatype How = Whole | Early | Carried

  lemma ConsumeTaken(c: Conn, line: string, s: string)
    requires |s| > 0 && !InBody(c) && !Carries(c, s) && line != ""
    requires c.prev + s[..SplitLen(s, false)] == line && (c.prev == "" ==> s[0] == line[0])
    ensures Consume(c, s) == (TakenAs(c, Update(CurrentFrame(c), line[0], line)), SplitLen(s, false) + 1)
  {
    hide Update, SplitLen, Taken, Carries;
    assert c.prev != "" ==> c.prev[0] == line[0];
  }

  lemma ConsumeCarried(c: Conn, s: string, r: string)
    requires |s| > 0 && Carries(c, s)
    ensures Consume(c, s) == (c.(prev := c.prev + s), |s|)
    ensures After(c, s, r) == r
  {
    hide Update, SplitLen, Taken, Carries;
    assert s[|s|..] + r == r;
  }

  lemma ConsumeLine(c: Conn, line: string, s: string, r: string) returns (how: How)
    requires !InBody(c) && LineAhead(line, c.prev, s, r)
    requires forall e :: IsCommand(e) && e <= line[|c.prev|..] ==> |c.prev| + |e| == |line|
    ensures Consume(c, s).1 > 0
    ensures !how.Carried? ==> Consume(c, s).0 == TakenAs(c, Update(CurrentFrame(c), line[0], line))
    ensures how.Whole? ==> After(c, s, r) == (c.prev + (s + r))[|line| + 1..]
    ensures how.Early? ==> After(c, s, r) == (c.prev + (s + r))[|line|..] && c.prev + s == line && IsCommand(MatchCommand(s)) && MatchCommand(s) <= s
    ensures how.Carried? ==> Consume(c, s).0 == c.(prev := c.prev + s) && c.prev + s <= line
                             && After(c, s, r) == r && c.prev + s + r == c.prev + (s + r)
  {
    hide Update, SplitLen, MatchCommand, TakenAs, IsCommand, Consume;
    if |s| > |line| - |c.prev| {
      how := Whole;
      SplitLine(line, c.prev, s, r);
      ConsumeTaken(c, line, s);
      assert After(c, s, r) == (c.prev + (s + r))[|line| + 1..];
    } else if MatchCommand(s) == "" {
      how := Carried;
      SplitLine(line, c.prev, s, r);
      ConsumeCarried(c, s, r);
      assert c.prev + s + r == c.prev + (s + r);
    } else {
      how := Early;
      EarlyLine(line, c.prev, s, r);
      ConsumeTaken(c, line, s);
      assert After(c, s, r) == s[|s|..] + r;
    }
  }

  lemma EarlyLine(line: string, prev: string, s: string, r: string)
    requires LineAhead(line, prev, s, r) && |s| <= |line| - |prev| && MatchCommand(s) != ""
    requires forall e :: IsCommand(e) && e <= line[|prev|..] ==> |prev| + |e| == |line|
    ensures prev + s == line && s[..|s|] == s && SplitLen(s, false) == |s|
    ensures (prev + (s + r))[|line|..] == s[|s|..] + r
    ensures prev == "" ==> s[0] == line[0]
  {
    hide SplitLen, MatchCommand, IsCommand;
    SplitLine(line, prev, s, r);
    assert MatchCommand(s) <= line[|prev|..];
  }

  function TakenAs(c: Conn, r: (Frame, Outcome)): Conn {
    Taken(c, r.0, r.1)
  }

  /** A name or header line was taken; its newline is behind (early == false) or still ahead. */
  lemma TakenLine(c: Conn, g: Frame, i: nat, rest: string, ms: seq<Message>, early: bool)
    requires ms != [] && HeaderFrame(g, ms[0], i)
    requires early ==> MayBeLate(ms[0], i) && rest != "" && rest[0] == '\n'
    requires Tail(HeaderTail(ms[0], i), if early then rest[1..] else rest, ms[1..])
    ensures Advances(c, Taken(c, g, More), rest, ms)
  {
    hide IsStream, HeaderTail, ContentlenOf, Lines;
    assert "" + rest == rest;
  }

  /** A round that takes a name or header line leaves the right expectation. */
  lemma LineTaken(c: Conn, line: string, s: string, r: string, ms: seq<Message>, g: Frame, i: nat, early: bool)
    requires LineAhead(line, c.prev, s, r) && |s| > 0 && |line| < |c.prev + (s + r)|
    requires Consume(c, s).1 > 0 && Consume(c, s).0 == Taken(c, g, More)
    requires After(c, s, r) == (c.prev + (s + r))[if early then |line| else |line| + 1..]
    requires ms != [] && HeaderFrame(g, ms[0], i) && (early ==> MayBeLate(ms[0], i))
    requires Tail(HeaderTail(ms[0], i), (c.prev + (s + r))[|line| + 1..], ms[1..])
    ensures Progress(c, s, r, ms)
  {
    hide Consume, After, Tail, HeaderTail, HeaderFrame, LineAhead, Expect, Advances;
    LineEndAhead(line, c.prev, s, r);
    TakenLine(c, g, i, After(c, s, r), ms, early);
  }

  lemma NameCarried(c: Conn, s: string, r: string, ms: seq<Message>)
    requires |s| > 0 && c.frame.None? && Expect(c, s + r, ms)
    requires Consume(c, s).1 > 0 && Consume(c, s).0 == c.(prev := c.prev + s) && After(c, s, r) == r
    requires ms != [] && c.prev + s <= ms[0].name && c.prev + s + r == c.prev + (s + r)
    ensures Progress(c, s, r, ms)
  {
    hide Consume, After, IsStream;
  }

  lemma NameTaken(c: Conn, s: string, r: string, ms: seq<Message>, early: bool)
    requires ms != [] && WellFormed(ms[0]) && IsCommand(ms[0].name) && 0 < |ms[0].name| < |c.prev + (s + r)|
    requires LineAhead(ms[0].name, c.prev, s, r) && |s| > 0
    requires Consume(c, s).1 > 0 && Consume(c, s).0 == TakenAs(c, Update(NEW_FRAME, ms[0].name[0], ms[0].name))
    requires After(c, s, r) == (c.prev + (s + r))[if early then |ms[0].name| else |ms[0].name| + 1..]
    requires Tail(HeaderTail(ms[0], 0), (c.prev + (s + r))[|ms[0].name| + 1..], ms[1..])
    ensures Progress(c, s, r, ms)
  {
    hide Update, Consume, After, Taken, IsCommand, HeaderTail, Tail, HeaderFrame, LineAhead, WellFormed, Progress;
    var m := ms[0];
    UpdateName(m, m.name[0]);
    LineTaken(c, m.name, s, r, ms, Update(NEW_FRAME, m.name[0], m.name).0, 0, early);
  }

  lemma StepName(c: Conn, s: string, r: string, ms: seq<Message>)
    requires |s| > 0 && c.frame.None? && (c.prev == "" ==> !IsPad(s[0]))
    requires AllStreamable(ms) && Expect(c, s + r, ms)
    ensures Progress(c, s, r, ms)
  {
    hide Update, Consume, After, Taken, TakenAs, IsCommand, MatchCommand, HeaderTail, Tail, LineAhead, AllStreamable, WellFormed, Expect, Progress;
    NameAhead(c, s, r, ms);
    NameSuffix(ms[0].name, |c.prev|);
    var how := ConsumeLine(c, ms[0].name, s, r);
    if how.Carried? {
      NameCarried(c, s, r, ms);
    } else {
      NameTaken(c, s, r, ms, how.Early?);
    }
  }

  lemma LineEndAhead(line: string, prev: string, s: string, r: string)
    requires LineAhead(line, prev, s, r)
    ensures var v := (prev + (s + r))[|line|..];
      v != "" && v[0] == '\n' && v[1..] == (prev + (s + r))[|line| + 1..]
  {
  }

  lemma NameAhead(c: Conn, s: string, r: string, ms: seq<Message>)
    requires |s| > 0 && c.frame.None? && (c.prev == "" ==> !IsPad(s[0]))
    requires AllStreamable(ms) && Expect(c, s + r, ms)
    ensures ms != [] && WellFormed(ms[0]) && IsCommand(ms[0].name)
    ensures LineAhead(ms[0].name, c.prev, s, r) && 0 < |ms[0].name| < |c.prev + (s + r)| && c.prev <= ms[0].name
    ensures Tail(HeaderTail(ms[0], 0), (c.prev + (s + r))[|ms[0].name| + 1..], ms[1..])
  {
    hide HeaderTail, IsCommand;
    var u := c.prev + (s + r);
    if c.prev != "" {
      assert ms[0] in ms;
      CommandLetters(ms[0].name);
      assert u[0] == c.prev[0] == ms[0].name[0];
    }
    var m := ms[0];
    assert m in ms;
    CommandLetters(m.name);
    assert Tail(m.name + "\n" + HeaderTail(m, 0), u, ms[1..]);
    TailLine(m.name, HeaderTail(m, 0), u, ms[1..]);
  }

  lemma NameSuffix(name: string, p: nat)
    requires IsCommand(name) && p <= |name|
    ensures forall e :: IsCommand(e) && e <= name[p..] ==> p + |e| == |name|
  {
    hide IsCommand;
    forall e | IsCommand(e) && e <= name[p..] ensures p + |e| == |name| {
      CommandInsideCommand(name, e, p);
    }
  }

  /** The expectation of a header line, in the state with frame f. */
  ghost predicate HeaderAhead(c: Conn, f: Frame, i: nat, s: string, r: string, ms: seq<Message>) {
    && |s| > 0 && c.frame == Some(f) && ms != [] && Streamable(ms[0])
    && HeaderFrame(f, ms[0], i) && i < |ms[0].headers|
    && c.prev <= ms[0].headers[i]
    && Tail(HeaderTail(ms[0], i), c.prev + (s + r), ms[1..])
  }

  lemma HeaderLineAhead(c: Conn, f: Frame, i: nat, s: string, r: string, ms: seq<Message>)
    requires HeaderAhead(c, f, i, s, r, ms)
    ensures var h := ms[0].headers[i];
      && LineAhead(h, c.prev, s, r) && 0 < |h| < |c.prev + (s + r)|
      && Tail(HeaderTail(ms[0], i + 1), (c.prev + (s + r))[|h| + 1..], ms[1..])
      && CutSafe(h, MayBeLate(ms[0], i + 1))
  {
    hide HeaderTail, HeaderFrame, ContentlenOf, IsCommand;
    var m := ms[0];
    HeaderTailStep(m, i);
    assert HeaderOk(m.headers[i]);
    TailLine(m.headers[i], HeaderTail(m, i + 1), c.prev + (s + r), ms[1..]);
  }

  lemma HeaderTaken(c: Conn, f: Frame, i: nat, s: string, r: string, ms: seq<Message>, early: bool)
    requires HeaderAhead(c, f, i, s, r, ms)
    requires var h := ms[0].headers[i];
      && LineAhead(h, c.prev, s, r) && 0 < |h| < |c.prev + (s + r)|
      && Tail(HeaderTail(ms[0], i + 1), (c.prev + (s + r))[|h| + 1..], ms[1..])
      && Consume(c, s).1 > 0 && Consume(c, s).0 == TakenAs(c, Update(f, h[0], h))
      && After(c, s, r) == (c.prev + (s + r))[if early then |h| else |h| + 1..]
    requires early ==> MayBeLate(ms[0], i + 1)
    ensures Progress(c, s, r, ms)
  {
    hide Update, Consume, After, Taken, IsCommand, HeaderTail, Tail, LineAhead, Progress, CutSafe, ContentlenOf, Lines;
    var m := ms[0];
    UpdateHeader(f, m, i);
    LineTaken(c, m.headers[i], s, r, ms, Update(f, m.headers[i][0], m.headers[i]).0, i + 1, early);
  }

  lemma HeaderCarried(c: Conn, f: Frame, i: nat, s: string, r: string, ms: seq<Message>)
    requires HeaderAhead(c, f, i, s, r, ms)
    requires Consume(c, s).1 > 0 && Consume(c, s).0 == c.(prev := c.prev + s) && After(c, s, r) == r
    requires c.prev + s <= ms[0].headers[i] && c.prev + s + r == c.prev + (s + r)
    ensures Progress(c, s, r, ms)
  {
    hide Consume, After, Tail, HeaderTail, Streamable, ContentlenOf, Lines;
  }

  lemma StepHeader(c: Conn, f: Frame, i: nat, s: string, r: string, ms: seq<Message>)
    requires HeaderAhead(c, f, i, s, r, ms)
    ensures Progress(c, s, r, ms)
  {
    hide Update, Consume, After, Taken, TakenAs, IsCommand, MatchCommand, HeaderTail, Tail, LineAhead, ContentlenOf, Progress, Streamable;
    HeaderLineAhead(c, f, i, s, r, ms);
    var h := ms[0].headers[i];
    var how := ConsumeLine(c, h, s, r);
    if how.Carried? {
      HeaderCarried(c, f, i, s, r, ms);
    } else {
      if how.Early? {
        var e := MatchCommand(s);
        assert e <= h[|c.prev|..] by {
          assert h[|c.prev|..] == s;
        }
      }
      HeaderTaken(c, f, i, s, r, ms, how.Early?);
    }
  }

  /** A round on a newline outside the body, with nothing carried. */
  lemma ConsumeNewline(c: Conn, s: string, r: string)
    requires |s| > 0 && s[0] == '\n' && c.prev == "" && c.frame.Some? && c.frame.value.status.Header?
    ensures Consume(c, s) == (TakenAs(c, Update(c.frame.value, '\n', "")), 1)
    ensures After(c, s, r) == (c.prev + (s + r))[1..]
  {
    hide Update, MatchCommand;
    assert c.prev + s[..0] == "";
  }

  /** The newline of a line that was taken early is skipped, or ends a frame without a body. */
  lemma StepLateNewline(c: Conn, f: Frame, s: string, r: string, ms: seq<Message>)
    requires |s| > 0 && s[0] == '\n' && c.frame == Some(f) && c.prev == ""
    requires ms != [] && WellFormed(ms[0]) && HeaderFrame(f, ms[0], |f.attrs|) && MayBeLate(ms[0], |f.attrs|)
    requires Tail(HeaderTail(ms[0], |f.attrs|), (s + r)[1..], ms[1..])
    ensures Progress(c, s, r, ms)
  {
    hide Consume, After, Tail, HeaderTail, ContentlenOf, Lines, WellFormed, Advances;
    ConsumeNewline(c, s, r);
    assert c.prev + (s + r) == s + r;
    if f.contentlen < 0 {
      TakenLine(c, f, |f.attrs|, After(c, s, r), ms, false);
    } else {
      UpdateBlank(f, ms[0], "");
      BlankIsPad(ms[0], After(c, s, r), ms[1..]);
      FrameEnds(c, Update(f, '\n', "").0, After(c, s, r), ms);
    }
  }

  /** The blank line of a frame without a body, when the frame has ended before it. */
  lemma BlankIsPad(m: Message, u: string, ms: seq<Message>)
    requires m.body == "" && Tail(HeaderTail(m, |m.headers|), u, ms)
    ensures IsStream(u, ms)
  {
    hide Wire;
    assert HeaderTail(m, |m.headers|) == "\n";
    assert u[0] == u[..1][0];
  }

  lemma FrameEnds(c: Conn, g: Frame, rest: string, ms: seq<Message>)
    requires ms != [] && FrameOf(g, ms[0]) && IsStream(rest, ms[1..])
    ensures Advances(c, Taken(c, g, Complete), rest, ms)
  {
    hide FrameOf, IsStream;
    assert "" + rest == rest;
  }

  /** The blank line after the headers. */
  lemma StepBlank(c: Conn, f: Frame, s: string, r: string, ms: seq<Message>)
    requires |s| > 0 && c.frame == Some(f) && c.prev == ""
    requires ms != [] && WellFormed(ms[0]) && HeaderFrame(f, ms[0], |ms[0].headers|)
    requires Tail(HeaderTail(ms[0], |ms[0].headers|), s + r, ms[1..])
    ensures Progress(c, s, r, ms)
  {
    hide Consume, After, Update, ContentlenOf, WellFormed;
    var m := ms[0];
    assert HeaderTail(m, |m.headers|) == "" + "\n" + m.body;
    TailLine("", m.body, s + r, ms[1..]);
    assert (s + r)[0] == '\n';
    ConsumeNewline(c, s, r);
    UpdateBlank(f, m, "");
    assert c.prev + (s + r) == s + r;
    var d := Consume(c, s).0;
    assert d.prev + After(c, s, r) == (s + r)[1..];
    assert m.body[0..] == m.body;
  }

  // ----- The body -----

  ghost predicate BodyAhead(c: Conn, f: Frame, s: string, r: string, ms: seq<Message>) {
    && |s| > 0 && c.frame == Some(f) && ms != [] && WellFormed(ms[0])
    && ExpectBody(c, f, s + r, ms)
  }

  lemma SplitBody(c: Conn, f: Frame, s: string, r: string, ms: seq<Message>)
    requires BodyAhead(c, f, s, r, ms)
    ensures var b, n, q := ms[0].body, SplitLen(s, true), f.hasContentlen + |c.prev|;
      && q + n <= |b|
      && c.prev + s[..n] == b[f.hasContentlen..q + n]
      && (n == 0 ==> q == |b|)
      && (q + n == |b| && n < |s| ==> s[n] == '\0')
  {
    var b, n, q := ms[0].body, SplitLen(s, true), f.hasContentlen + |c.prev|;
    var t, u := b[f.hasContentlen..], c.prev + (s + r);
    forall j | 0 <= j < |t| ensures u[j] == t[j] {
      assert u[..|t|][j] == t[j];
    }
    assert q < |b| ==> s[0] == u[|c.prev|] == t[|c.prev|] == b[q];
    assert u[|t|] == '\0';
    assert |b| - q < |s| ==> s[|b| - q] == u[|t|];
    forall j | 0 <= j < |c.prev| + n ensures (c.prev + s[..n])[j] == b[f.hasContentlen + j] {
      assert u[j] == t[j];
    }
    assert c.prev + s[..n] == b[f.hasContentlen..q + n];
    if q + n == |b| && n < |s| {
      assert s[n] == u[|t|];
    }
  }

  lemma ConsumeBody(c: Conn, f: Frame, s: string, r: string, ms: seq<Message>)
    requires BodyAhead(c, f, s, r, ms) && !Carries(c, s)
    ensures var b, n, q := ms[0].body, SplitLen(s, true), f.hasContentlen + |c.prev|;
      && q + n <= |b|
      && Consume(c, s).1 == (if q + n == |b| then n + 1 else n)
      && var d := Consume(c, s).0;
         && d.errors == c.errors && d.prev == ""
         && if q + n == |b| then
              d.frame == None && |d.bucket| == |c.bucket| + 1 && d.bucket[..|c.bucket|] == c.bucket && FrameOf(d.bucket[|c.bucket|], ms[0])
            else
              n > 0 && d.frame.Some? && d.bucket == c.bucket && BodyFrame(d.frame.value, ms[0], q + n)
  {
    hide Update, SplitLen, MatchCommand, WellFormed, FrameOf, Tail, Carries;
    SplitBody(c, f, s, r, ms);
    var n, q := SplitLen(s, true), f.hasContentlen + |c.prev|;
    UpdateBody(f, ms[0], f.hasContentlen, if c.prev == "" then s[0] else c.prev[0], |c.prev| + n);
  }

  lemma BodyCarried(c: Conn, f: Frame, s: string, r: string, ms: seq<Message>)
    requires BodyAhead(c, f, s, r, ms) && Carries(c, s)
    ensures Progress(c, s, r, ms)
  {
    hide Update, SplitLen, MatchCommand, WellFormed, FrameOf, Tail;
    SplitBody(c, f, s, r, ms);
    assert s[|s|..] + r == r;
    assert c.prev + s + r == c.prev + (s + r);
  }

  lemma BodyRest(c: Conn, f: Frame, s: string, r: string, ms: seq<Message>)
    requires BodyAhead(c, f, s, r, ms) && !Carries(c, s)
    ensures var b, n, q := ms[0].body, SplitLen(s, true), f.hasContentlen + |c.prev|;
      && q + n <= |b|
      && (q + n == |b| ==> IsStream(s[Min(n + 1, |s|)..] + r, ms[1..]))
      && (q + n < |b| ==> Tail(b[q + n..], s[n..] + r, ms[1..]))
  {
    hide SplitLen, Carries, IsStream, BodyFrame, WellFormed;
    SplitBody(c, f, s, r, ms);
    var b, n, q := ms[0].body, SplitLen(s, true), f.hasContentlen + |c.prev|;
    RestAfter(c.prev, s, r, n, b[f.hasContentlen..q + n], b[q + n..], ms[1..], b[f.hasContentlen..]);
  }

  /** The rest of a stream after `a`, of which prev was carried and n bytes were just read. */
  lemma RestAfter(prev: string, s: string, r: string, n: nat, a: string, b: string, ms: seq<Message>, t: string)
    requires n <= |s| && |a| == |prev| + n && t == a + b
    requires Tail(t, prev + (s + r), ms)
    ensures Tail(b, s[n..] + r, ms)
    ensures b == "" ==> IsStream(s[Min(n + 1, |s|)..] + r, ms)
  {
    hide Wire;
    TailDrop(a, b, prev + (s + r), ms);
    var v := s[n..] + r;
    assert v == (prev + (s + r))[|a|..];
    if b == "" {
      assert v[0..] == v;
      if n < |s| {
        assert v[1..] == s[n + 1..] + r;
      }
    }
  }

  lemma StepBody(c: Conn, f: Frame, s: string, r: string, ms: seq<Message>)
    requires BodyAhead(c, f, s, r, ms)
    ensures Progress(c, s, r, ms)
  {
    hide Consume, SplitLen, Carries, IsStream, Tail, FrameOf, WellFormed;
    if Carries(c, s) {
      BodyCarried(c, f, s, r, ms);
    } else {
      ConsumeBody(c, f, s, r, ms);
      BodyRest(c, f, s, r, ms);
      var d := Consume(c, s).0;
      assert d.prev + After(c, s, r) == After(c, s, r);
    }
  }

  // ----- Whole runs -----

  lemma Step(c: Conn, s: string, r: string, ms: seq<Message>)
    requires |s| > 0 && AllStreamable(ms) && Expect(c, s + r, ms)
    ensures Progress(c, s, r, ms)
  {
    hide Progress, IsStream, Tail, HeaderTail, ExpectBody, HeaderFrame, FrameOf, BodyFrame;
    if c.frame.None? {
      if c.prev == "" && IsPad(s[0]) {
        StepPad(c, s, r, ms);
      } else {
        StepName(c, s, r, ms);
      }
    } else {
      var f := c.frame.value;
      assert ms[0] in ms;
      if f.status.Body? {
        StepBody(c, f, s, r, ms);
      } else {
        StepInHeader(c, f, s, r, ms);
      }
    }
  }

  lemma StepInHeader(c: Conn, f: Frame, s: string, r: string, ms: seq<Message>)
    requires |s| > 0 && c.frame == Some(f) && ms != [] && Streamable(ms[0]) && ExpectHeader(c, f, s + r, ms)
    ensures Progress(c, s, r, ms)
  {
    hide Progress, Tail, HeaderTail, ContentlenOf, Lines;
    var m, i := ms[0], |f.attrs|;
    if Tail(HeaderTail(m, i), c.prev + (s + r), ms[1..]) && (c.prev != "" ==> i < |m.headers| && c.prev <= m.headers[i]) {
      if i < |m.headers| {
        StepHeader(c, f, i, s, r, ms);
      } else {
        assert c.prev + (s + r) == s + r;
        StepBlank(c, f, s, r, ms);
      }
    } else {
      assert (s + r)[0] == s[0];
      StepLateNewline(c, f, s, r, ms);
    }
  }

  /** The bucket holds the first frames of ms, and the rest of ms is expected. */
  ghost predicate Reached(c: Conn, rest: string, ms: seq<Message>) {
    && c.errors == 0
    && |c.bucket| <= |ms|
    && (forall i :: 0 <= i < |c.bucket| ==> FrameOf(c.bucket[i], ms[i]))
    && Expect(c, rest, ms[|c.bucket|..])
  }

  lemma StepReached(c: Conn, s: string, r: string, ms: seq<Message>)
    requires |s| > 0 && AllStreamable(ms) && Reached(c, s + r, ms)
    ensures Consume(c, s).1 + |c.prev| > 0
    ensures Reached(Consume(c, s).0, After(c, s, r), ms)
  {
    hide Consume, After, Expect, FrameOf, Streamable;
    var ahead := ms[|c.bucket|..];
    assert AllStreamable(ahead);
    Step(c, s, r, ahead);
    assert ahead != [] ==> ahead[1..] == ms[|c.bucket| + 1..];
  }

  lemma {:induction false} RecvReached(c: Conn, s: string, r: string, ms: seq<Message>)
    requires AllStreamable(ms) && Reached(c, s + r, ms)
    ensures Recv(c, s).Done? && Reached(Recv(c, s).conn, r, ms)
    decreases |s|, |c.prev|
  {
    hide Consume, Recv, Reached, AllStreamable;
    RecvUnfold(c, s);
    if s == "" {
      assert s + r == r;
    } else {
      StepReached(c, s, r, ms);
      var (d, k) := Consume(c, s);
      RecvReached(d, s[Min(k, |s|)..], r, ms);
    }
  }

  lemma {:induction false} FeedReached(c: Conn, chunks: seq<string>, ms: seq<Message>)
    requires AllStreamable(ms) && Reached(c, Flatten(chunks), ms)
    ensures Feed(c, chunks).Done? && Reached(Feed(c, chunks).conn, "", ms)
    decreases |chunks|
  {
    hide Recv, Reached, AllStreamable;
    if chunks != [] {
      RecvReached(c, chunks[0], Flatten(chunks[1..]), ms);
      FeedReached(Recv(c, chunks[0]).conn, chunks[1..], ms);
    }
  }

  /** The bucket holds exactly the frames of ms, in order. */
  ghost predicate Delivers(r: Received, ms: seq<Message>) {
    && r.Done?
    && r.conn == Conn(None, "", r.conn.bucket, 0)
    && |r.conn.bucket| == |ms|
    && forall i :: 0 <= i < |ms| ==> FrameOf(r.conn.bucket[i], ms[i])
  }

  lemma NothingLeft(c: Conn, ms: seq<Message>)
    requires AllStreamable(ms) && Reached(c, "", ms)
    ensures c.frame.None? && c.prev == "" && |c.bucket| == |ms|
  {
    hide FrameOf, ContentlenOf, BodyFrame;
    var ahead := ms[|c.bucket|..];
    assert c.prev + "" == c.prev;
    if c.frame.Some? {
      var m, f := ahead[0], c.frame.value;
      if f.status.Header? && |f.attrs| < |m.headers| {
        HeaderTailStep(m, |f.attrs|);
      }
    } else if c.prev != "" {
      assert ahead[0] in ms;
      CommandLetters(ahead[0].name);
    }
  }

  /** Every way of cutting a stream of frames yields exactly these frames, no error and no leftover. */
  lemma ChunkedParse(chunks: seq<string>, ms: seq<Message>)
    requires AllStreamable(ms) && IsStream(Flatten(chunks), ms)
    ensures Delivers(Feed(NEW_CONN, chunks), ms)
  {
    hide FrameOf, Feed, AllStreamable;
    assert ms[0..] == ms;
    assert "" + Flatten(chunks) == Flatten(chunks);
    FeedReached(NEW_CONN, chunks, ms);
    NothingLeft(Feed(NEW_CONN, chunks).conn, ms);
  }

  /** The parts of a frame that do not depend on where its body was cut into pieces. */
  ghost predicate SameFrame(f: Frame, g: Frame) {
    && f.name == g.name && f.attrs == g.attrs && Flatten(f.data) == Flatten(g.data)
    && f.contentlen == g.contentlen && f.hasContentlen == g.hasContentlen && f.size == g.size
  }

  /** Two ways of cutting the same stream fill the bucket with the same frames. */
  lemma ChunkInvariance(a: seq<string>, b: seq<string>, ms: seq<Message>)
    requires AllStreamable(ms) && IsStream(Flatten(a), ms) && Flatten(a) == Flatten(b)
    ensures Feed(NEW_CONN, a).Done? && Feed(NEW_CONN, b).Done?
    ensures var x, y := Feed(NEW_CONN, a).conn, Feed(NEW_CONN, b).conn;
      && x.(bucket := []) == y.(bucket := [])
      && |x.bucket| == |y.bucket|
      && forall i :: 0 <= i < |x.bucket| ==> SameFrame(x.bucket[i], y.bucket[i])
  {
    hide Feed, IsStream, AllStreamable;
    ChunkedParse(a, ms);
    ChunkedParse(b, ms);
  }

  /** The encoded messages, one after the other, are a stream. */
  lemma {:induction false} EncodedIsStream(ms: seq<Message>)
    requires forall m :: m in ms ==> WellFormed(m)
    ensures IsStream(EncodeAll(ms), ms)
  {
    if ms != [] {
      var m := ms[0];
      assert m in ms;
      EncodedIsStream(ms[1..]);
      CommandLetters(m.name);
      var s := EncodeAll(ms);
      assert s[0] == m.name[0];
      assert s[..|Wire(m)|] == Wire(m);
      var rest := s[|Wire(m)|..];
      assert rest[1..] == EncodeAll(ms[1..]);
    }
  }
}
