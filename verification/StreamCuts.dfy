/**
 Exactly when fragmentation matters for whole streams: a stream of well-formed messages fills the
 bucket with its frames for every way of cutting it if and only if every message is Streamable.
 */
module StreamCuts {
  import opened Frames
  import opened Options
  import opened Stomp
  import opened Chunking
  import opened CutSafety
  import opened LogParser
  import opened QueueLog
  import opened OneCall

  // ----- A frame that can no longer become m -----

  ghost predicate Doomed(g: Frame, m: Message) {
    || (g.status.Header? && !(g.attrs <= m.headers))
    || (g.status.Body? && g.attrs != m.headers)
  }

  /** The frame at place k of the bucket is not m, or will not be. */
  ghost predicate Spoilt(c: Conn, k: nat, m: Message) {
    if k < |c.bucket| then !FrameOf(c.bucket[k], m)
    else k == |c.bucket| && c.frame.Some? && Doomed(c.frame.value, m)
  }

  lemma DoomedStays(g: Frame, m: Message, first: char, line: string)
    requires Doomed(g, m)
    ensures var r := Update(g, first, line); if r.1.Complete? then !FrameOf(r.0, m) else Doomed(r.0, m)
  {
    hide MatchCommand, Pieces, NextContentlen;
  }

  lemma SpoiltStep(c: Conn, s: string, k: nat, m: Message)
    requires |s| > 0 && Spoilt(c, k, m)
    ensures Spoilt(Consume(c, s).0, k, m)
  {
    hide SplitLen, MatchCommand, Update, FrameOf, Doomed;
    if k == |c.bucket| {
      var n := SplitLen(s, InBody(c));
      var first, line := if c.prev == "" then s[0] else c.prev[0], c.prev + s[..n];
      DoomedStays(c.frame.value, m, first, line);
      var r := Update(c.frame.value, first, line);
      assert Carries(c, s) || Consume(c, s).0 == Taken(c, r.0, r.1);
      assert Spoilt(Taken(c, r.0, r.1), k, m);
    }
  }

  lemma {:induction false} SpoiltRecv(c: Conn, s: string, k: nat, m: Message)
    requires Spoilt(c, k, m)
    ensures Spoilt(Recv(c, s).conn, k, m)
    decreases |s|, |c.prev|
  {
    hide Consume, Recv, Spoilt;
    RecvUnfold(c, s);
    if s != "" {
      SpoiltStep(c, s, k, m);
      var (d, n) := Consume(c, s);
      if n != 0 || c.prev != "" {
        SpoiltRecv(d, s[Min(n, |s|)..], k, m);
      }
    }
  }

  lemma {:induction false} SpoiltFeed(c: Conn, chunks: seq<string>, k: nat, m: Message)
    requires Spoilt(c, k, m)
    ensures Spoilt(Feed(c, chunks).conn, k, m)
    decreases |chunks|
  {
    hide Recv, Spoilt;
    if chunks != [] {
      SpoiltRecv(c, chunks[0], k, m);
      if Recv(c, chunks[0]).Done? {
        SpoiltFeed(Recv(c, chunks[0]).conn, chunks[1..], k, m);
      }
    }
  }

  // ----- Cuts -----


  /** There is a way of cutting s that spoils m. */
  ghost predicate Spoils(c: Conn, s: string, k: nat, m: Message) {
    exists chunks :: Flatten(chunks) == s && Spoilt(Feed(c, chunks).conn, k, m)
  }

  lemma SpoilsNow(c: Conn, s: string, k: nat, m: Message)
    requires Spoilt(c, k, m) || Spoilt(Recv(c, s).conn, k, m)
    ensures Spoils(c, s, k, m)
  {
    hide Recv, Spoilt;
    if Spoilt(c, k, m) {
      SpoiltRecv(c, s, k, m);
    }
    assert [s][1..] == [] && Flatten([s]) == s + Flatten([]) && Flatten([]) == "";
    assert Feed(c, [s]).conn == Recv(c, s).conn;
  }

  /** a in one call, and then a cut of b. */
  lemma SpoilsNext(c: Conn, a: string, b: string, d: Conn, k: nat, m: Message)
    requires Recv(c, a) == Done(d) && Spoils(d, b, k, m)
    ensures Spoils(c, a + b, k, m)
  {
    hide Recv, Spoilt;
    var chunks :| Flatten(chunks) == b && Spoilt(Feed(d, chunks).conn, k, m);
    assert ([a] + chunks)[1..] == chunks;
    assert Flatten([a] + chunks) == a + b;
  }

  /** Only q bytes of header i were taken for a line. */
  lemma ShortDooms(f: Frame, m: Message, i: nat, q: nat)
    requires HeaderFrame(f, m, i) && i < |m.headers| && 0 < q < |m.headers[i]| <= LD_MAX
    ensures Spoilt(AtHeader(AddHeader(f, m.headers[i][..q])), 0, m)
  {
    hide ContentlenOf, Lines, NextContentlen;
    var x := m.headers[i][..q];
    assert Pieces(x) == [x];
    assert (f.attrs + [x])[i] == x;
  }

  /** What follows the first q bytes of header i, up to the end of the message. */
  function RestOf(m: Message, i: nat, q: nat): string
    requires i < |m.headers| && q <= |m.headers[i]|
  {
    m.headers[i][q..] + ("\n" + HeaderTail(m, i + 1) + "\0")
  }

  lemma RestSplits(m: Message, i: nat, p: nat, q: nat)
    requires i < |m.headers| && p <= q <= |m.headers[i]|
    ensures RestOf(m, i, p) == m.headers[i][p..q] + RestOf(m, i, q)
    ensures RestOf(m, i, 0) == HeaderTail(m, i) + "\0"
  {
    hide HeaderTail;
    HeaderTailStep(m, i);
    assert m.headers[i][p..] == m.headers[i][p..q] + m.headers[i][q..];
  }

  /** The line is taken after q of its bytes, because h[p..q] starts with a command. */
  lemma SpoilsEarly(f: Frame, m: Message, i: nat, p: nat, q: nat)
    requires HeaderFrame(f, m, i) && i < |m.headers| && HeaderOk(m.headers[i])
    requires p < q < |m.headers[i]| && m.headers[i][p] != '\r' && MatchCommand(m.headers[i][p..q]) != ""
    ensures Spoils(AtHeader(f).(prev := m.headers[i][..p]), RestOf(m, i, p), 0, m)
  {
    hide Recv, Spoils, Spoilt, RestOf, MatchCommand, HeaderFrame, AddHeader;
    var h := m.headers[i];
    HeaderStatus(f, m, i);
    TakenEarly(f, h, p, q);
    ShortDooms(f, m, i, q);
    SpoilsNow(AtHeader(AddHeader(f, h[..q])), RestOf(m, i, q), 0, m);
    SpoilsNext(AtHeader(f).(prev := h[..p]), h[p..q], RestOf(m, i, q), AtHeader(AddHeader(f, h[..q])), 0, m);
    RestSplits(m, i, p, q);
  }

  /** The first p bytes of the line are carried, or they spoil the message on their own. */
  lemma SpoilsAfter(f: Frame, m: Message, i: nat, p: nat)
    requires HeaderFrame(f, m, i) && i < |m.headers| && HeaderOk(m.headers[i]) && p < |m.headers[i]|
    requires Spoils(AtHeader(f).(prev := m.headers[i][..p]), RestOf(m, i, p), 0, m)
    ensures Spoils(AtHeader(f), RestOf(m, i, 0), 0, m)
  {
    hide Recv, Spoils, RestOf, MatchCommand, HeaderFrame, AddHeader, HeaderOk;
    var h := m.headers[i];
    HeaderFirst(h);
    HeaderStatus(f, m, i);
    if MatchCommand(h[..p]) != "" {
      assert h[0..p] == h[..p] && AtHeader(f).(prev := h[..0]) == AtHeader(f);
      SpoilsEarly(f, m, i, 0, p);
    } else {
      Carry(f, h, p);
      assert h[0..p] == h[..p];
      RestSplits(m, i, 0, p);
      SpoilsNext(AtHeader(f), h[..p], RestOf(m, i, p), AtHeader(f).(prev := h[..p]), 0, m);
    }
  }

  lemma SpoilsReturn(f: Frame, m: Message, i: nat, p: nat)
    requires HeaderFrame(f, m, i) && i < |m.headers| && HeaderOk(m.headers[i])
    requires p < |m.headers[i]| && m.headers[i][p] == '\r'
    ensures Spoils(AtHeader(f), RestOf(m, i, 0), 0, m)
  {
    hide Recv, Spoils, RestOf, HeaderFrame, AddHeader, Spoilt;
    var h := m.headers[i];
    HeaderStatus(f, m, i);
    RestSplits(m, i, p, p + 1);
    assert h[p..p + 1] == "\r";
    ReturnTaken(f, h, p, RestOf(m, i, p + 1));
    ShortDooms(f, m, i, p);
    SpoiltRecv(AtHeader(AddHeader(f, h[..p])), RestOf(m, i, p + 1), 0, m);
    SpoilsNow(AtHeader(f).(prev := h[..p]), RestOf(m, i, p), 0, m);
    SpoilsAfter(f, m, i, p);
  }

  // ----- A newline that comes late -----

  /** One byte of a body at a time: everything is carried. */
  lemma {:induction false} CarriesBytes(c: Conn, t: string) returns (chunks: seq<string>)
    requires InBody(c) && BodyOk(t)
    ensures Flatten(chunks) == t && Feed(c, chunks) == Done(c.(prev := c.prev + t))
    decreases |t|
  {
    hide Recv;
    if t == "" {
      chunks := [];
      assert c.prev + t == c.prev;
    } else {
      var d := c.(prev := c.prev + t[..1]);
      CarriesByte(c, t[0]);
      assert t[..1] == [t[0]];
      var rest := CarriesBytes(d, t[1..]);
      chunks := [t[..1]] + rest;
      assert chunks[1..] == rest;
      assert t == t[..1] + t[1..] && d.prev + t[1..] == c.prev + t;
    }
  }

  lemma CarriesByte(c: Conn, b: char)
    requires InBody(c) && b != '\0'
    ensures Recv(c, [b]) == Done(c.(prev := c.prev + [b]))
  {
    hide Recv, Consume;
    SplitLenUnique([b], true, 1);
    var e := MatchCommand([b]);
    if e != "" {
      CommandHeads(e);
    }
    ConsumeCarried(c, [b], "");
    RecvUnfold(c, [b]);
    RecvUnfold(c.(prev := c.prev + [b]), "");
  }

  /** The closing NUL takes all that was carried. */
  lemma NulTakes(g: Frame, line: string)
    requires g.status.Body? && line != "" && g.contentlen <= g.hasContentlen + |line|
    ensures var h := AddBody(g, line);
      Recv(AtHeader(g).(prev := line), "\0") == Done(Conn(None, "", [h.(status := Finished, size := h.size + 1)], 0))
  {
    hide Recv, Pieces, MatchCommand;
    var c, h := AtHeader(g).(prev := line), AddBody(g, line);
    var s := "\0";
    assert s[..0] == "" && c.prev + s[..0] == line;
    assert SplitLen(s, true) == 0 && !Carries(c, s);
    var x := h.(status := Finished, size := h.size + 1);
    assert Update(g, line[0], line) == (x, Complete);
    assert c.bucket + [x] == [x];
    assert Consume(c, s) == (Conn(None, "", [x], 0), 1);
    RecvUnfold(c, s);
    assert s[Min(1, |s|)..] == "";
    RecvUnfold(Conn(None, "", [x], 0), "");
  }

  /** The body of m with the blank line before it. */
  lemma LateBody(g: Frame, m: Message)
    requires BodyOk(m.body) && g.status.Body? && g.contentlen == |m.body| && g.hasContentlen == 0
    ensures Spoils(AtHeader(g), "\n" + m.body + "\0", 0, m)
  {
    hide Recv, Feed, AddBody;
    var line := "\n" + m.body;
    var a := CarriesBytes(AtHeader(g), line);
    assert AtHeader(g).prev + line == line;
    NulTakes(g, line);
    BodyGrows(g, line);
    var d := AtHeader(g).(prev := line);
    SpoilsNow(d, "\0", 0, m);
    SpoilsBehind(AtHeader(g), a, d, line, "\0", 0, m);
  }

  lemma {:induction false} FeedAppend(c: Conn, a: seq<string>, b: seq<string>)
    requires Feed(c, a).Done?
    ensures Feed(c, a + b) == Feed(Feed(c, a).conn, b)
    decreases |a|
  {
    hide Recv;
    if a == [] {
      assert a + b == b;
    } else {
      assert (a + b)[1..] == a[1..] + b;
      FeedAppend(Recv(c, a[0]).conn, a[1..], b);
    }
  }

  /** Several calls, and then a cut of t. */
  lemma SpoilsBehind(c: Conn, a: seq<string>, d: Conn, s: string, t: string, k: nat, m: Message)
    requires Feed(c, a) == Done(d) && Flatten(a) == s && Spoils(d, t, k, m)
    ensures Spoils(c, s + t, k, m)
  {
    hide Feed, Spoilt;
    var b :| Flatten(b) == t && Spoilt(Feed(d, b).conn, k, m);
    FeedAppend(c, a, b);
    FlattenAppend(a, b);
  }

  /** A newline that is read as the blank line, in the middle of the headers or before a body. */
  lemma SpoilsLate(g: Frame, m: Message, i: nat)
    requires WellFormed(m) && HeaderFrame(g, m, i) && !MayBeLate(m, i)
    ensures Spoils(AtHeader(g), "\n" + HeaderTail(m, i) + "\0", 0, m)
  {
    hide Recv, Spoils, ContentlenOf, IsCommand;
    NewlineRead(g);
    var d, t := Recv(AtHeader(g), "\n").conn, HeaderTail(m, i) + "\0";
    assert m.headers[..|m.headers|] == m.headers;
    if i < |m.headers| {
      SpoilsNow(d, t, 0, m);
    } else {
      assert t == "\n" + m.body + "\0";
      LateBody(d.frame.value, m);
    }
    SpoilsNext(AtHeader(g), "\n", t, d, 0, m);
    assert "\n" + t == "\n" + HeaderTail(m, i) + "\0";
  }

  lemma SpoilsCommand(f: Frame, m: Message, i: nat, p: nat, e: string)
    requires WellFormed(m) && HeaderFrame(f, m, i) && i < |m.headers| && HeaderOk(m.headers[i])
    requires p <= |m.headers[i]| && IsCommand(e) && e <= m.headers[i][p..]
    requires !(p + |e| == |m.headers[i]| && MayBeLate(m, i + 1))
    ensures Spoils(AtHeader(f), RestOf(m, i, 0), 0, m)
  {
    hide Recv, Spoils, HeaderFrame, AddHeader, IsCommand, MayBeLate, WellFormed, MatchCommand, HeaderOk, RestOf, HeaderTail;
    var h, q := m.headers[i], p + |e|;
    CommandLetters(e);
    assert h[p] == h[p..][0] == e[0];
    assert h[p..q] == e;
    if q < |h| {
      SpoilsEarly(f, m, i, p, q);
    } else {
      SpoilsLast(f, m, i, p);
    }
    SpoilsAfter(f, m, i, p);
  }

  /** The line is taken whole, without its newline. */
  lemma SpoilsLast(f: Frame, m: Message, i: nat, p: nat)
    requires WellFormed(m) && HeaderFrame(f, m, i) && i < |m.headers| && HeaderOk(m.headers[i])
    requires p < |m.headers[i]| && m.headers[i][p] != '\r' && MatchCommand(m.headers[i][p..]) != ""
    requires !MayBeLate(m, i + 1)
    ensures Spoils(AtHeader(f).(prev := m.headers[i][..p]), RestOf(m, i, p), 0, m)
  {
    hide Recv, Spoils, HeaderFrame, AddHeader, IsCommand, MayBeLate, WellFormed, MatchCommand, HeaderOk, HeaderTail, Update;
    var h := m.headers[i];
    var g, t := AddHeader(f, h), "\n" + HeaderTail(m, i + 1) + "\0";
    HeaderStatus(f, m, i);
    HeaderFirst(h);
    FirstNotNewline(h);
    assert h[p..|h|] == h[p..] && h[..|h|] == h;
    TakenEarly(f, h, p, |h|);
    UpdateHeader(f, m, i);
    HeaderUpdate(f, h);
    SpoilsLate(g, m, i + 1);
    SpoilsNext(AtHeader(f).(prev := h[..p]), h[p..], t, AtHeader(g), 0, m);
  }

  lemma FirstNotNewline(h: string)
    requires HeaderOk(h)
    ensures h != "" && !IsNewline(h[0])
  {
    assert !IsStop(h[0], false);
  }

  // ----- Whole messages -----

  /** The lines before header i. */
  function Start(m: Message, i: nat): string
    requires i <= |m.headers|
  {
    m.name + "\n" + Lines(m.headers[..i])
  }

  lemma {:induction false} LinesAppend(a: seq<string>, b: seq<string>)
    ensures Lines(a + b) == Lines(a) + Lines(b)
  {
    if a == [] {
      assert a + b == b;
    } else {
      assert (a + b)[1..] == a[1..] + b;
      LinesAppend(a[1..], b);
    }
  }

  lemma EncodeFrom(m: Message, i: nat)
    requires i < |m.headers|
    ensures Encode(m) == Start(m, i) + RestOf(m, i, 0)
  {
    hide Lines;
    assert m.headers == m.headers[..i] + m.headers[i..] && m.headers[0..] == m.headers;
    LinesAppend(m.headers[..i], m.headers[i..]);
    RestSplits(m, i, 0, 0);
  }

  /** Whole lines in one call. */
  lemma {:induction false} ReachHeader(f: Frame, m: Message, j: nat, i: nat) returns (g: Frame)
    requires WellFormed(m) && HeaderFrame(f, m, j) && j <= i <= |m.headers|
    ensures HeaderFrame(g, m, i) && Recv(AtHeader(f), Lines(m.headers[j..i])) == Done(AtHeader(g))
    decreases i - j
  {
    hide Recv, Update, ContentlenOf;
    if i == j {
      g := f;
      RecvUnfold(AtHeader(f), "");
    } else {
      var h, s := m.headers[j], Lines(m.headers[j..i]);
      assert m.headers[j..i][1..] == m.headers[j + 1..i];
      assert s == h + "\n" + Lines(m.headers[j + 1..i]);
      assert s[..|h|] == h && s[|h|] == '\n' && s[|h| + 1..] == Lines(m.headers[j + 1..i]);
      UpdateHeader(f, m, j);
      WholeLine(AtHeader(f), h, s);
      g := ReachHeader(Update(f, h[0], h).0, m, j + 1, i);
    }
  }

  lemma ReachStart(m: Message, i: nat) returns (f: Frame)
    requires WellFormed(m) && i <= |m.headers|
    ensures HeaderFrame(f, m, i) && Recv(NEW_CONN, Start(m, i)) == Done(AtHeader(f))
  {
    hide Recv, Update, HeaderFrame, Lines, IsCommand, ContentlenOf;
    var s, t := Start(m, i), Lines(m.headers[..i]);
    assert s[..|m.name|] == m.name && s[|m.name|] == '\n' && s[|m.name| + 1..] == t;
    CommandIsLine(m.name);
    UpdateName(m, m.name[0]);
    WholeLine(NEW_CONN, m.name, s);
    assert m.headers[..i] == m.headers[0..i];
    f := ReachHeader(Update(NEW_FRAME, m.name[0], m.name).0, m, 0, i);
  }

  lemma SpoilsHeader(f: Frame, m: Message, i: nat)
    requires WellFormed(m) && HeaderFrame(f, m, i) && i < |m.headers| && HeaderOk(m.headers[i])
    requires !CutSafe(m.headers[i], MayBeLate(m, i + 1))
    ensures Spoils(AtHeader(f), RestOf(m, i, 0), 0, m)
  {
    hide Spoils, HeaderFrame, IsCommand, MayBeLate, WellFormed, HeaderOk, RestOf;
    var h, late := m.headers[i], MayBeLate(m, i + 1);
    if exists j :: 0 <= j < |h| && h[j] == '\r' {
      var j :| 0 <= j < |h| && h[j] == '\r';
      SpoilsReturn(f, m, i, j);
    } else {
      var p: nat, e: string :| p <= |h| && IsCommand(e) && e <= h[p..] && !(p + |e| == |h| && late);
      SpoilsCommand(f, m, i, p, e);
    }
  }

  /** A message that is not streamable has a cut that spoils it. */
  lemma UnsafeSpoils(m: Message)
    requires WellFormed(m) && !Streamable(m)
    ensures Spoils(NEW_CONN, Encode(m), 0, m)
  {
    hide Recv, Spoils, HeaderFrame, MayBeLate, CutSafe, Encode, RestOf, Start, ContentlenOf, IsCommand;
    var i :| 0 <= i < |m.headers| && !CutSafe(m.headers[i], MayBeLate(m, i + 1));
    var f := ReachStart(m, i);
    assert HeaderOk(m.headers[i]);
    SpoilsHeader(f, m, i);
    SpoilsNext(NEW_CONN, Start(m, i), RestOf(m, i, 0), AtHeader(f), 0, m);
    EncodeFrom(m, i);
  }

  // ----- Whole streams -----

  /** The same state, behind the frames and the errors of an earlier part of the stream. */
  function Under(c: Conn, b: seq<Frame>, e: nat): Conn {
    c.(bucket := b + c.bucket, errors := e + c.errors)
  }

  lemma ConsumeUnder(c: Conn, s: string, b: seq<Frame>, e: nat)
    requires |s| > 0
    ensures Consume(Under(c, b, e), s) == (Under(Consume(c, s).0, b, e), Consume(c, s).1)
  {
    hide Update, SplitLen, MatchCommand, Taken;
    var n, first := SplitLen(s, InBody(c)), if c.prev == "" then s[0] else c.prev[0];
    var r := Update(CurrentFrame(c), first, c.prev + s[..n]);
    TakenUnder(c, r.0, r.1, b, e);
  }

  lemma TakenUnder(c: Conn, g: Frame, out: Outcome, b: seq<Frame>, e: nat)
    ensures Taken(Under(c, b, e), g, out) == Under(Taken(c, g, out), b, e)
  {
    assert b + (c.bucket + [g]) == (b + c.bucket) + [g];
  }

  lemma {:induction false} RecvUnder(c: Conn, s: string, b: seq<Frame>, e: nat)
    ensures var r, u := Recv(c, s), Recv(Under(c, b, e), s);
      u.conn == Under(r.conn, b, e) && (u.Done? <==> r.Done?)
    decreases |s|, |c.prev|
  {
    hide Recv, Consume, Under;
    UnderKeeps(c, b, e);
    RecvUnfold(c, s);
    RecvUnfold(Under(c, b, e), s);
    if s != "" {
      ConsumeUnder(c, s, b, e);
      var (d, k) := Consume(c, s);
      if k != 0 || c.prev != "" {
        RecvUnder(d, s[Min(k, |s|)..], b, e);
      }
    }
  }

  lemma UnderKeeps(c: Conn, b: seq<Frame>, e: nat)
    ensures Under(c, b, e).prev == c.prev
  {
  }

  /** What came before does not matter. */
  lemma {:induction false} FeedUnder(c: Conn, chunks: seq<string>, b: seq<Frame>, e: nat)
    ensures var r, u := Feed(c, chunks), Feed(Under(c, b, e), chunks);
      u.conn == Under(r.conn, b, e) && (u.Done? <==> r.Done?)
    decreases |chunks|
  {
    hide Recv, Under;
    if chunks != [] {
      RecvUnder(c, chunks[0], b, e);
      if Recv(c, chunks[0]).Done? {
        FeedUnder(Recv(c, chunks[0]).conn, chunks[1..], b, e);
      }
    }
  }

  lemma SpoiltUnder(c: Conn, b: seq<Frame>, k: nat, m: Message)
    requires Spoilt(c, k, m)
    ensures Spoilt(Under(c, b, 0), |b| + k, m)
  {
    hide FrameOf, Doomed;
  }

  lemma SpoilsUnder(c: Conn, s: string, b: seq<Frame>, m: Message)
    requires Spoils(c, s, 0, m)
    ensures Spoils(Under(c, b, 0), s, |b|, m)
  {
    hide Feed, Spoilt, Under;
    var chunks :| Flatten(chunks) == s && Spoilt(Feed(c, chunks).conn, 0, m);
    FeedUnder(c, chunks, b, 0);
    SpoiltUnder(Feed(c, chunks).conn, b, 0, m);
  }

  /** Whatever follows. */
  lemma SpoilsOn(c: Conn, s: string, t: string, k: nat, m: Message)
    requires Spoils(c, s, k, m)
    ensures Spoils(c, s + t, k, m)
  {
    hide Feed, Spoilt;
    var a :| Flatten(a) == s && Spoilt(Feed(c, a).conn, k, m);
    FlattenAppend(a, [t]);
    assert Flatten([t]) == t + Flatten([]) by {
      assert [t][1..] == [];
    }
    if Feed(c, a).Done? {
      FeedAppend(c, a, [t]);
      SpoiltFeed(Feed(c, a).conn, [t], k, m);
    } else {
      FeedHung(c, a, [t]);
    }
  }

  lemma {:induction false} FeedHung(c: Conn, a: seq<string>, b: seq<string>)
    requires Feed(c, a).Hang?
    ensures Feed(c, a + b) == Feed(c, a)
    decreases |a|
  {
    hide Recv;
    assert (a + b)[0] == a[0] && (a + b)[1..] == a[1..] + b;
    if Recv(c, a[0]).Done? {
      FeedHung(Recv(c, a[0]).conn, a[1..], b);
    }
  }

  /** Every way of cutting the stream fills the bucket with the frames of ms. */
  ghost predicate AnyCut(s: string, ms: seq<Message>) {
    forall chunks: seq<string> :: Flatten(chunks) == s ==> Delivers(Feed(NEW_CONN, chunks), ms)
  }

  lemma SpoiltFails(s: string, ms: seq<Message>, k: nat)
    requires k < |ms| && Spoils(NEW_CONN, s, k, ms[k])
    ensures !AnyCut(s, ms)
  {
    hide Feed, FrameOf;
    var chunks :| Flatten(chunks) == s && Spoilt(Feed(NEW_CONN, chunks).conn, k, ms[k]);
    assert !Delivers(Feed(NEW_CONN, chunks), ms);
  }

  /** The messages before the unsafe one, in one call. */
  lemma FirstCall(ms: seq<Message>, k: nat) returns (b: seq<Frame>)
    requires AllWellFormed(ms) && k <= |ms|
    ensures |b| == k && Recv(NEW_CONN, EncodeAll(ms[..k])) == Done(Under(NEW_CONN, b, 0))
  {
    hide Recv, WellFormed, Encode, IsStream, FrameOf;
    EncodedIsStream(ms[..k]);
    OneCallParse(EncodeAll(ms[..k]), ms[..k]);
    b := Recv(NEW_CONN, EncodeAll(ms[..k])).conn.bucket;
    assert b + [] == b;
  }

  lemma EncodeAround(ms: seq<Message>, k: nat)
    requires k < |ms|
    ensures EncodeAll(ms) == EncodeAll(ms[..k]) + Encode(ms[k]) + EncodeAll(ms[k + 1..])
  {
    hide Encode, EncodeAll;
    var b := ms[k..];
    assert ms == ms[..k] + b;
    EncodeAllAppend(ms[..k], b);
    EncodeFirst(b);
    assert b[0] == ms[k] && b[1..] == ms[k + 1..];
  }

  lemma EncodeFirst(ms: seq<Message>)
    requires ms != []
    ensures EncodeAll(ms) == Encode(ms[0]) + EncodeAll(ms[1..])
  {
  }

  lemma UnsafeFails(ms: seq<Message>, k: nat)
    requires AllWellFormed(ms) && k < |ms| && !Streamable(ms[k])
    ensures !AnyCut(EncodeAll(ms), ms)
  {
    hide Recv, Spoils, AnyCut, Streamable, WellFormed, Encode, EncodeAll, Under;
    var a, m, rest := EncodeAll(ms[..k]), ms[k], EncodeAll(ms[k + 1..]);
    assert m in ms;
    var b := FirstCall(ms, k);
    UnsafeSpoils(m);
    SpoilsUnder(NEW_CONN, Encode(m), b, m);
    SpoilsNext(NEW_CONN, a, Encode(m), Under(NEW_CONN, b, 0), k, m);
    SpoilsOn(NEW_CONN, a + Encode(m), rest, k, m);
    EncodeAround(ms, k);
    SpoiltFails(EncodeAll(ms), ms, k);
  }

  /**
   Well-formed messages come out the same for every way of cutting their encoding into recv_data
   calls if and only if every one of them is streamable.
   */
  lemma AnyCutIff(ms: seq<Message>)
    requires AllWellFormed(ms)
    ensures AnyCut(EncodeAll(ms), ms) <==> AllStreamable(ms)
  {
    hide Feed, Streamable, WellFormed, Encode, IsStream, Delivers;
    if AllStreamable(ms) {
      EncodedIsStream(ms);
      forall chunks: seq<string> | Flatten(chunks) == EncodeAll(ms) ensures Delivers(Feed(NEW_CONN, chunks), ms) {
        ChunkedParse(chunks, ms);
      }
    } else {
      var m :| m in ms && !Streamable(m);
      var k :| 0 <= k < |ms| && ms[k] == m;
      UnsafeFails(ms, k);
    }
  }
}
