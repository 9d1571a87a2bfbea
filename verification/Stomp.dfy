/**
 The network side (src/lib/stomp.c): recv_data takes whatever bytes one recv call returned,
 carries an unfinished line and an unfinished frame from call to call, and puts finished
 frames into the bucket that the management worker empties.
 */
module Stomp {
  import opened Frames
  import opened Options

  /** The state that survives a call of recv_data. prev == "" stands for prev_data == NULL. */
  datatype Conn = Conn(frame: Option<Frame>, prev: string, bucket: seq<Frame>, errors: nat)

  const NEW_CONN: Conn := Conn(None, "", [], 0)

  /** Hang: the loop has reached a state that one more round does not change. */
  datatype Received = Done(conn: Conn) | Hang(conn: Conn)

  predicate InBody(c: Conn) {
    c.frame.Some? && c.frame.value.status.Body?
  }

  /** The frame under construction, allocated when there is none. */
  function CurrentFrame(c: Conn): Frame {
    if c.frame.None? then NEW_FRAME else c.frame.value
  }

  /** The input is an unfinished line that does not start with a command name: it is carried over. */
  predicate Carries(c: Conn, s: string)
    requires |s| > 0
  {
    SplitLen(s, InBody(c)) == |s| && MatchCommand(s) == ""
  }

  /** One round of the loop on the remaining input: the new state and the distance to the next position. */
  function Consume(c: Conn, s: string): (r: (Conn, nat))
    requires |s| > 0
    ensures r.1 == 0 ==> r.0.prev == ""
  {
    if Carries(c, s) then
      (c.(prev := c.prev + s), |s|)
    else
      var n := SplitLen(s, InBody(c));
      var line := c.prev + s[..n];
      var first := if c.prev == "" then s[0] else c.prev[0];
      var step := if InBody(c) then n else n + 1;
      if c.frame.None? && line == "" then
        (c.(prev := ""), step)
      else
        var (g, out) := Update(CurrentFrame(c), first, line);
        (Taken(c, g, out), if out.Complete? && InBody(c) then step + 1 else step)
  }

  /** The state after frame_update made g of the frame under construction. */
  function Taken(c: Conn, g: Frame, out: Outcome): Conn {
    match out
    case Complete => Conn(None, "", c.bucket + [g], c.errors)
    case More => Conn(Some(g), "", c.bucket, c.errors)
    case BadName => Conn(Some(g), "", c.bucket, c.errors + 1)
  }

  /** One call of recv_data. */
  function Recv(c: Conn, s: string): Received
    decreases |s|, |c.prev|
  {
    if s == "" then
      Done(c)
    else
      var (d, k) := Consume(c, s);
      if k == 0 && c.prev == "" then Hang(c) else Recv(d, s[Min(k, |s|)..])
  }

  lemma RecvUnfold(c: Conn, s: string)
    ensures s == "" ==> Recv(c, s) == Done(c)
    ensures s != "" ==> var (d, k) := Consume(c, s);
              Recv(c, s) == if k == 0 && c.prev == "" then Hang(d) else Recv(d, s[Min(k, |s|)..])
  {
    if s != "" && Consume(c, s).1 == 0 && c.prev == "" {
      assert s[..0] == "";
    }
  }

  /** A series of recv_data calls. */
  function Feed(c: Conn, chunks: seq<string>): Received
    decreases |chunks|
  {
    if chunks == [] then Done(c)
    else
      var r := Recv(c, chunks[0]);
      if r.Hang? then r else Feed(r.conn, chunks[1..])
  }

  // ----- Termination -----

  /**
   A round makes no progress exactly when a NUL is met in body mode while the bytes gathered so
   far, counting the carried fragment, are fewer than contentlen.
   */
  lemma ZeroStepIff(c: Conn, s: string)
    requires |s| > 0 && ValidConn(c)
    ensures Consume(c, s).1 == 0 <==>
            InBody(c) && s[0] == '\0' && c.frame.value.hasContentlen + |c.prev| < c.frame.value.contentlen
  {
    if InBody(c) && s[0] == '\0' {
      assert c.prev + s[..0] == c.prev;
    }
  }

  /** A round that makes no progress twice in a row is repeated for ever: the state no longer changes. */
  lemma HangIsFixpoint(c: Conn, s: string)
    requires |s| > 0 && ValidConn(c) && Consume(c, s).1 == 0 && c.prev == ""
    ensures Consume(c, s).0 == c
  {
    assert s[..0] == "";
  }

  /** A body piece of n bytes, or what was carried: it completes the body, or reading goes on behind it. */
  lemma BodyPiece(c: Conn, s: string, n: nat)
    requires ValidConn(c) && InBody(c) && |s| > 0 && SplitLen(s, true) == n && !Carries(c, s)
    ensures var (d, k) := Consume(c, s);
      var q := c.frame.value.hasContentlen + |c.prev| + n;
      && d.prev == "" && ValidConn(d)
      && if q < c.frame.value.contentlen
         then k == n && d.bucket == c.bucket && InBody(d) && d.frame.value.contentlen == c.frame.value.contentlen && d.frame.value.hasContentlen == q
         else k == n + 1 && |d.bucket| == |c.bucket| + 1
  {
    hide SplitLen, MatchCommand, Pieces, ValidConn;
    ConsumeKeepsValid(c, s);
  }

  /** Frames do not leave the bucket. */
  lemma {:induction false} BucketGrows(c: Conn, s: string)
    ensures |Recv(c, s).conn.bucket| >= |c.bucket|
    decreases |s|, |c.prev|
  {
    hide Recv, Update, SplitLen, MatchCommand;
    RecvUnfold(c, s);
    if s != "" {
      var (d, k) := Consume(c, s);
      if k != 0 || c.prev != "" {
        BucketGrows(d, s[Min(k, |s|)..]);
      }
    }
  }

  function FirstNul(s: string): (p: nat)
    ensures p <= |s| && (p < |s| ==> s[p] == '\0') && forall j :: 0 <= j < p ==> s[j] != '\0'
  {
    if s == "" || s[0] == '\0' then 0 else 1 + FirstNul(s[1..])
  }

  lemma BodySplitLen(s: string)
    requires |s| > 0
    ensures SplitLen(s, true) == Min(FirstNul(s), LD_MAX)
  {
    hide SplitLen;
    SplitLenUnique(s, true, Min(FirstNul(s), LD_MAX));
  }

  lemma FirstNulAfter(s: string, n: nat)
    requires n <= FirstNul(s)
    ensures FirstNul(s[n..]) == FirstNul(s) - n
  {
    hide FirstNul;
    var t, p := s[n..], FirstNul(s[n..]);
    assert p < |t| ==> t[p] == s[n + p];
    assert FirstNul(s) - n < |t| ==> t[FirstNul(s) - n] == s[FirstNul(s)];
  }

  /**
   recv_data loops for ever inside the body of the frame under construction if and only if the
   first NUL of the input lies before the end of that body.
   */
  lemma {:induction false} HangsInBodyIff(c: Conn, s: string)
    requires ValidConn(c) && InBody(c)
    ensures Recv(c, s).Hang? && Recv(c, s).conn.bucket == c.bucket <==>
            FirstNul(s) < |s| && c.frame.value.hasContentlen + |c.prev| + FirstNul(s) < c.frame.value.contentlen
    decreases |s|, |c.prev|
  {
    hide Recv, Consume, SplitLen, ValidConn, FirstNul, MatchCommand;
    RecvUnfold(c, s);
    if s != "" {
      var (d, k) := Consume(c, s);
      var n := Min(FirstNul(s), LD_MAX);
      BodySplitLen(s);
      if Carries(c, s) {
        CarriedIsDone(c, s);
      } else {
        BodyPiece(c, s, n);
        if InBody(d) && d.bucket == c.bucket {
          FirstNulAfter(s, n);
          if n > 0 || c.prev != "" {
            HangsInBodyIff(d, s[n..]);
          }
        } else {
          BucketGrows(d, s[Min(k, |s|)..]);
        }
      }
    }
  }

  lemma CarriedIsDone(c: Conn, s: string)
    requires |s| > 0 && Carries(c, s)
    ensures Recv(c, s) == Done(c.(prev := c.prev + s))
  {
    hide Recv, SplitLen, MatchCommand, Update;
    RecvUnfold(c, s);
    assert s[|s|..] == "";
    RecvUnfold(c.(prev := c.prev + s), "");
  }

  // ----- What every call keeps, on every input -----

  ghost predicate ValidConn(c: Conn) {
    && (c.frame.Some? ==> ValidFrame(c.frame.value) && !c.frame.value.status.Finished?)
    && (forall f :: f in c.bucket ==> ValidFrame(f) && f.status.Finished?)
  }

  lemma ConsumeKeepsValid(c: Conn, s: string)
    requires |s| > 0 && ValidConn(c)
    ensures ValidConn(Consume(c, s).0)
  {
    hide Update, SplitLen, MatchCommand, ValidFrame;
    var n := SplitLen(s, InBody(c));
    var line := c.prev + s[..n];
    var first := if c.prev == "" then s[0] else c.prev[0];
    NewFrameValid();
    UpdateKeepsValid(CurrentFrame(c), first, line);
    var (g, out) := Update(CurrentFrame(c), first, line);
    assert ValidConn(Taken(c, g, out));
  }

  lemma {:induction false} RecvKeepsValid(c: Conn, s: string)
    requires ValidConn(c)
    ensures ValidConn(Recv(c, s).conn)
    decreases |s|, |c.prev|
  {
    if s != "" {
      ConsumeKeepsValid(c, s);
      var (d, k) := Consume(c, s);
      if k != 0 || c.prev != "" {
        RecvKeepsValid(d, s[Min(k, |s|)..]);
      }
    }
  }

  /** The parser-state invariant holds after every series of calls, however the input is cut. */
  lemma {:induction false} FeedKeepsValid(c: Conn, chunks: seq<string>)
    requires ValidConn(c)
    ensures ValidConn(Feed(c, chunks).conn)
    decreases |chunks|
  {
    if chunks != [] {
      RecvKeepsValid(c, chunks[0]);
      var r := Recv(c, chunks[0]);
      if !r.Hang? {
        FeedKeepsValid(r.conn, chunks[1..]);
      }
    }
  }

  // ----- The imperative form -----

  /** stomp_frame_bucket. */
  class FrameBucket {
    var frames: seq<Frame>

    constructor ()
      ensures frames == []
    {
      frames := [];
    }

    method Add(f: Frame)
      modifies this
      ensures frames == old(frames) + [f]
    {
      frames := frames + [f];
    }

    method GetFrame() returns (f: Option<Frame>)
      modifies this
      ensures f.None? <==> old(frames) == []
      ensures f.None? ==> frames == []
      ensures f.Some? ==> old(frames) == [f.value] + frames
    {
      f := None;
      if frames != [] {
        f := Some(frames[0]);
        frames := frames[1..];
      }
    }
  }

  /** stomp_conninfo_t. */
  class Connection {
    var frame: Option<Frame>
    var prev: string
    var errors: nat
    const bucket: FrameBucket

    constructor (bucket: FrameBucket)
      ensures this.bucket == bucket
      ensures State() == NEW_CONN.(bucket := bucket.frames)
    {
      this.bucket := bucket;
      frame, prev, errors := None, "", 0;
    }

    function State(): Conn
      reads this, bucket
    {
      Conn(frame, prev, bucket.frames, errors)
    }

    /** The body of the loop, on the input from the current position on. */
    method Round(s: string) returns (step: nat)
      requires |s| > 0
      modifies this, bucket
      ensures (State(), step) == Consume(old(State()), s)
    {
      hide Update, SplitLen, MatchCommand;
      var isBody := frame.Some? && frame.value.status.Body?;
      var n, complete := Ssplit(s, isBody);
      if !complete {
        assert s[..n] == s;
        var command := SearchCommand(s[..n]);
        if command == "" {
          prev := prev + s[..n];
          return n;
        }
      }
      step := if isBody then n else n + 1;
      var line := prev + s[..n];
      var first := if prev != "" then prev[0] else s[0];
      if frame.Some? || |line| > 0 {
        var f := if frame.None? then NEW_FRAME else frame.value;
        var g, out := FrameUpdate(f, first, line);
        frame := Some(g);
        if out.Complete? {
          bucket.Add(g);
          frame := None;
          if isBody {
            step := step + 1;
          }
        } else if out.BadName? {
          errors := errors + 1;
        }
      }
      prev := "";
    }

    /** hangs reports that the loop would go on for ever in the state reached. */
    method RecvData(data: string) returns (hangs: bool)
      modifies this, bucket
      ensures Recv(old(State()), data) == if hangs then Hang(State()) else Done(State())
    {
      hide Recv, Consume;
      var curr := 0;
      while curr < |data|
        invariant curr >= 0
        invariant Recv(old(State()), data) == Recv(State(), data[Min(curr, |data|)..])
        decreases |data| - curr, |prev|
      {
        ghost var before, rest := State(), data[curr..];
        var hadPrev := prev != "";
        var step := Round(data[curr..]);
        if step == 0 && !hadPrev {
          RecvUnfold(before, rest);
          return true;
        }
        RecvUnfold(before, rest);
        assert rest[Min(step, |rest|)..] == data[Min(curr + step, |data|)..];
        curr := curr + step;
      }
      assert data[Min(curr, |data|)..] == "";
      RecvUnfold(State(), "");
      hangs := false;
    }
  }
}
