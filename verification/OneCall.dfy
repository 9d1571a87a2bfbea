/**
 A stream that arrives in one recv_data call needs nothing beyond well-formed messages: every line
 ends inside the buffer, so that neither carriage returns nor command names in a header matter.
 */
module OneCall {
  import opened Frames
  import opened Options
  import opened Stomp
  import opened Chunking
  import opened LogParser
  import opened QueueLog

  /** No line is carried. */
  function At(frame: Option<Frame>, bucket: seq<Frame>): Conn {
    Conn(frame, "", bucket, 0)
  }

  /** A name or header line with its newline. */
  lemma WholeLine(c: Conn, line: string, s: string)
    requires c.prev == "" && !InBody(c) && HeaderOk(line)
    requires |line| < |s| && s[..|line|] == line && s[|line|] == '\n'
    ensures Recv(c, s) == Recv(TakenAs(c, Update(CurrentFrame(c), line[0], line)), s[|line| + 1..])
  {
    hide Recv, Consume, Update, MatchCommand, TakenAs;
    forall j | 0 <= j < |line| ensures s[j] == line[j] {
      assert s[..|line|][j] == line[j];
    }
    SplitLenUnique(s, false, |line|);
    assert c.prev + s[..|line|] == line;
    ConsumeTaken(c, line, s);
    RecvUnfold(c, s);
  }

  lemma {:induction false} WholeHeaders(f: Frame, m: Message, i: nat, u: string, ms: seq<Message>, bucket: seq<Frame>)
    returns (g: Frame, rest: string)
    requires WellFormed(m) && HeaderFrame(f, m, i) && Tail(HeaderTail(m, i), u, ms)
    ensures FrameOf(g, m) && |rest| < |u| && IsStream(rest, ms)
    ensures Recv(At(Some(f), bucket), u) == Recv(At(None, bucket + [g]), rest)
    decreases |m.headers| - i
  {
    hide Recv, Update, FrameOf, ContentlenOf, IsStream, Lines;
    if i == |m.headers| {
      g, rest := WholeBlank(f, m, u, ms, bucket);
    } else {
      var h := m.headers[i];
      HeaderTailStep(m, i);
      TailLine(h, HeaderTail(m, i + 1), u, ms);
      UpdateHeader(f, m, i);
      WholeLine(At(Some(f), bucket), h, u);
      g, rest := WholeHeaders(Update(f, h[0], h).0, m, i + 1, u[|h| + 1..], ms, bucket);
    }
  }

  lemma WholeBlank(f: Frame, m: Message, u: string, ms: seq<Message>, bucket: seq<Frame>) returns (g: Frame, rest: string)
    requires WellFormed(m) && HeaderFrame(f, m, |m.headers|) && Tail(HeaderTail(m, |m.headers|), u, ms)
    ensures FrameOf(g, m) && |rest| < |u| && IsStream(rest, ms)
    ensures Recv(At(Some(f), bucket), u) == Recv(At(None, bucket + [g]), rest)
  {
    hide Recv, Consume, Update, FrameOf, ContentlenOf, WellFormed, IsStream, BodyFrame;
    var c := At(Some(f), bucket);
    assert HeaderTail(m, |m.headers|) == "" + "\n" + m.body;
    TailLine("", m.body, u, ms);
    assert u[0] == '\n';
    ConsumeNewline(c, u, "");
    UpdateBlank(f, m, "");
    RecvUnfold(c, u);
    g := Update(f, '\n', "").0;
    rest := u[1..];
    if m.body == "" {
      assert rest[0..] == rest;
    } else {
      assert m.body[0..] == m.body;
      g, rest := WholeBody(g, m, 0, u[1..], ms, bucket);
    }
  }

  lemma {:induction false} WholeBody(f: Frame, m: Message, q: nat, u: string, ms: seq<Message>, bucket: seq<Frame>)
    returns (g: Frame, rest: string)
    requires WellFormed(m) && BodyFrame(f, m, q) && Tail(m.body[q..], u, ms)
    ensures FrameOf(g, m) && |rest| < |u| && IsStream(rest, ms)
    ensures Recv(At(Some(f), bucket), u) == Recv(At(None, bucket + [g]), rest)
    decreases |m.body| - q
  {
    hide Recv, Consume, Update, SplitLen, FrameOf, WellFormed, IsStream, MatchCommand;
    var c, n := At(Some(f), bucket), Min(|m.body| - q, LD_MAX);
    BodySplit(f, m, q, u, ms);
    UpdateBody(f, m, q, u[0], n);
    BodyTaken(c, f, u, n);
    RecvUnfold(c, u);
    g := Update(f, u[0], u[..n]).0;
    if q + n == |m.body| {
      rest := u[n + 1..];
      PadAfter(u, n, ms);
    } else {
      TailDrop(m.body[q..q + n], m.body[q + n..], u, ms);
      g, rest := WholeBody(g, m, q + n, u[n..], ms, bucket);
    }
  }

  lemma BodySplit(f: Frame, m: Message, q: nat, u: string, ms: seq<Message>)
    requires WellFormed(m) && BodyFrame(f, m, q) && Tail(m.body[q..], u, ms)
    ensures var n := Min(|m.body| - q, LD_MAX);
      && n < |u| && SplitLen(u, true) == n && u[..n] == m.body[q..q + n]
      && m.body[q..] == m.body[q..q + n] + m.body[q + n..]
      && (q + n == |m.body| ==> u[n] == '\0' && IsStream(u[n..], ms))
  {
    hide SplitLen, IsStream, ContentlenOf;
    var t, n := m.body[q..], Min(|m.body| - q, LD_MAX);
    forall j | 0 <= j < n ensures u[j] == m.body[q + j] {
      assert u[..|t|][j] == t[j];
    }
    SplitLenUnique(u, true, n);
  }

  lemma BodyTaken(c: Conn, f: Frame, u: string, n: nat)
    requires c == At(Some(f), c.bucket) && f.status.Body? && 0 < n < |u| && SplitLen(u, true) == n
    ensures var (g, out) := Update(f, u[0], u[..n]);
      Consume(c, u) == (Taken(c, g, out), if out.Complete? then n + 1 else n)
  {
    hide Update, SplitLen, MatchCommand;
    assert "" + u[..n] == u[..n];
  }

  lemma PadAfter(u: string, n: nat, ms: seq<Message>)
    requires n < |u| && u[n] == '\0' && IsStream(u[n..], ms)
    ensures IsStream(u[n + 1..], ms)
  {
    hide Wire;
    assert u[n..][1..] == u[n + 1..];
  }

  lemma WholeMessage(s: string, ms: seq<Message>, bucket: seq<Frame>) returns (g: Frame, rest: string)
    requires s != "" && !IsPad(s[0]) && IsStream(s, ms) && AllWellFormed(ms)
    ensures ms != [] && FrameOf(g, ms[0]) && |rest| < |s| && IsStream(rest, ms[1..])
    ensures Recv(At(None, bucket), s) == Recv(At(None, bucket + [g]), rest)
  {
    hide Recv, Update, FrameOf, HeaderTail, HeaderFrame, IsCommand, ContentlenOf;
    var m := ms[0];
    assert m in ms;
    assert Tail(m.name + "\n" + HeaderTail(m, 0), s, ms[1..]);
    TailLine(m.name, HeaderTail(m, 0), s, ms[1..]);
    CommandIsLine(m.name);
    UpdateName(m, m.name[0]);
    WholeLine(At(None, bucket), m.name, s);
    g, rest := WholeHeaders(Update(NEW_FRAME, m.name[0], m.name).0, m, 0, s[|m.name| + 1..], ms[1..], bucket);
  }

  lemma SkipPad(s: string, bucket: seq<Frame>)
    requires s != "" && IsPad(s[0])
    ensures Recv(At(None, bucket), s) == Recv(At(None, bucket), s[1..])
  {
    hide Recv, Update, MatchCommand;
    assert "" + s[..0] == "";
    RecvUnfold(At(None, bucket), s);
  }

  lemma {:induction false} WholeStream(s: string, ms: seq<Message>, bucket: seq<Frame>)
    requires IsStream(s, ms) && AllWellFormed(ms)
    ensures var r := Recv(At(None, bucket), s);
      && r.Done? && r.conn == At(None, r.conn.bucket)
      && |r.conn.bucket| == |bucket| + |ms| && r.conn.bucket[..|bucket|] == bucket
      && FramesOf(r.conn.bucket[|bucket|..], ms)
    decreases |s|
  {
    hide Recv, FrameOf, Wire, WellFormed;
    RecvUnfold(At(None, bucket), s);
    if s == "" {
      assert bucket[..|bucket|] == bucket;
    } else if IsPad(s[0]) {
      SkipPad(s, bucket);
      WholeStream(s[1..], ms, bucket);
    } else {
      var g, rest := WholeMessage(s, ms, bucket);
      WholeStream(rest, ms[1..], bucket + [g]);
      var b := Recv(At(None, bucket), s).conn.bucket;
      assert b[..|bucket|] == b[..|bucket| + 1][..|bucket|];
      assert b[|bucket|..] == [g] + b[|bucket| + 1..];
    }
  }

  /** Every stream of well-formed messages that arrives in one call fills the bucket with exactly its frames. */
  lemma OneCallParse(s: string, ms: seq<Message>)
    requires IsStream(s, ms) && AllWellFormed(ms)
    ensures Delivers(Recv(NEW_CONN, s), ms)
  {
    hide Recv, IsStream, FrameOf;
    WholeStream(s, ms, []);
    var b := Recv(NEW_CONN, s).conn.bucket;
    assert b[0..] == b;
  }
}
