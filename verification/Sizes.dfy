/**
 Size accounting: the size field of a frame finished by either parser is what the serializer
 writes, on every input and not only on well-formed messages, provided that its own name line was
 exactly a command and its own header lines fitted LD_MAX. Other frames of the same stream may be
 of any shape.
 */
module Sizes {
  import opened Frames
  import opened Options
  import opened Stomp
  import opened LogParser
  import opened QueueLog

  /** What is asked of a line, in the state in which it is read. */
  predicate LineFits(f: Frame, line: string) {
    match f.status
    case Born => IsCommand(line) || MatchCommand(line) == ""
    case Header => |line| <= LD_MAX
    case Body => true
    case Finished => true
  }

  /** The bytes that name and headers take when the frame is written. */
  function HeadLen(f: Frame): nat {
    |f.name| + 1 + |Lines(f.attrs)|
  }

  ghost predicate SizeInv(f: Frame) {
    match f.status
    case Born => f == NEW_FRAME
    case Header => f.size == HeadLen(f) && f.data == [] && f.hasContentlen == 0
    case Body => f.size == HeadLen(f) + 1 + |Flatten(f.data)| && 0 < f.contentlen
    case Finished => Accounted(f)
  }

  /** The size is the number of bytes written, and one less for an empty content length. */
  ghost predicate Accounted(f: Frame) {
    0 <= f.contentlen && f.size + (if f.contentlen == 0 then 1 else 0) == |WriteOut(f)|
  }

  lemma WriteOutLen(f: Frame)
    ensures |WriteOut(f)| == HeadLen(f) + 2 + |Flatten(f.data)|
  {
  }

  lemma UpdateKeepsSize(f: Frame, first: char, line: string)
    requires SizeInv(f) && LineFits(f, line) && !f.status.Finished?
    ensures SizeInv(Update(f, first, line).0)
  {
    hide WriteOut, IsCommand, MatchCommand, Lines;
    var g := Update(f, first, line).0;
    WriteOutLen(g);
    match f.status
    case Born =>
      if MatchCommand(line) != "" {
        assert line[0..] == line;
        CommandInsideCommand(line, MatchCommand(line), 0);
        NoLines();
      }
    case Header => LinesSnoc(f.attrs, line);
    case Body => FlattenAppend(f.data, Pieces(line));
    case _ =>
  }

  lemma NoLines()
    ensures Lines([]) == ""
  {
  }

  // ----- The network side -----

  /** For the frame under construction and for every frame in the bucket: have all its lines fitted? */
  datatype Track = Track(current: bool, bucket: seq<bool>)

  function TrackRound(c: Conn, s: string, t: Track): Track
    requires |s| > 0
  {
    var line := c.prev + s[..SplitLen(s, InBody(c))];
    if Carries(c, s) || (c.frame.None? && line == "") then t
    else
      var fits := (c.frame.None? || t.current) && LineFits(CurrentFrame(c), line);
      var first := if c.prev == "" then s[0] else c.prev[0];
      if Update(CurrentFrame(c), first, line).1.Complete? then Track(true, t.bucket + [fits]) else Track(fits, t.bucket)
  }

  function TrackRecv(c: Conn, s: string, t: Track): Track
    decreases |s|, |c.prev|
  {
    if s == "" then t
    else
      var (d, k) := Consume(c, s);
      var u := TrackRound(c, s, t);
      if k == 0 && c.prev == "" then u else TrackRecv(d, s[Min(k, |s|)..], u)
  }

  function TrackFeed(c: Conn, chunks: seq<string>, t: Track): Track
    decreases |chunks|
  {
    if chunks == [] then t
    else
      var r, u := Recv(c, chunks[0]), TrackRecv(c, chunks[0], t);
      if r.Hang? then u else TrackFeed(r.conn, chunks[1..], u)
  }

  ghost predicate Tracked(c: Conn, t: Track) {
    && |t.bucket| == |c.bucket|
    && (c.frame.Some? ==> !c.frame.value.status.Finished? && (t.current ==> SizeInv(c.frame.value)))
    && (forall i :: 0 <= i < |c.bucket| && t.bucket[i] ==> c.bucket[i].status.Finished? && SizeInv(c.bucket[i]))
  }

  lemma UpdateFinishes(f: Frame, first: char, line: string)
    requires !f.status.Finished?
    ensures Update(f, first, line).1.Complete? <==> Update(f, first, line).0.status.Finished?
  {
    hide MatchCommand, Pieces;
  }

  lemma RoundTracked(c: Conn, s: string, t: Track)
    requires |s| > 0 && Tracked(c, t)
    ensures Tracked(Consume(c, s).0, TrackRound(c, s, t))
  {
    hide Update, SplitLen, SizeInv, LineFits, Carries;
    var line := c.prev + s[..SplitLen(s, InBody(c))];
    var first := if c.prev == "" then s[0] else c.prev[0];
    var f := CurrentFrame(c);
    UpdateFinishes(f, first, line);
    NewFits();
    if (c.frame.None? || t.current) && LineFits(f, line) {
      UpdateKeepsSize(f, first, line);
    }
    if !Carries(c, s) && !(c.frame.None? && line == "") {
      TakenTracked(c, t, Update(f, first, line).0, Update(f, first, line).1, (c.frame.None? || t.current) && LineFits(f, line));
    }
  }

  lemma NewFits()
    ensures SizeInv(NEW_FRAME) && !NEW_FRAME.status.Finished?
  {
  }

  lemma TakenTracked(c: Conn, t: Track, g: Frame, out: Outcome, fits: bool)
    requires Tracked(c, t) && (out.Complete? <==> g.status.Finished?) && (fits ==> SizeInv(g))
    ensures Tracked(Taken(c, g, out), if out.Complete? then Track(true, t.bucket + [fits]) else Track(fits, t.bucket))
  {
    hide SizeInv;
  }

  lemma {:induction false} RecvTracked(c: Conn, s: string, t: Track)
    requires Tracked(c, t)
    ensures Tracked(Recv(c, s).conn, TrackRecv(c, s, t))
    decreases |s|, |c.prev|
  {
    hide Consume, Recv, Tracked, TrackRound;
    RecvUnfold(c, s);
    if s != "" {
      RoundTracked(c, s, t);
      var (d, k) := Consume(c, s);
      if k != 0 || c.prev != "" {
        RecvTracked(d, s[Min(k, |s|)..], TrackRound(c, s, t));
      }
    }
  }

  lemma {:induction false} FeedTracked(c: Conn, chunks: seq<string>, t: Track)
    requires Tracked(c, t)
    ensures Tracked(Feed(c, chunks).conn, TrackFeed(c, chunks, t))
    decreases |chunks|
  {
    hide Recv, TrackRecv, Tracked;
    if chunks != [] {
      RecvTracked(c, chunks[0], t);
      var r := Recv(c, chunks[0]);
      if !r.Hang? {
        FeedTracked(r.conn, chunks[1..], TrackRecv(c, chunks[0], t));
      }
    }
  }

  /**
   For every input of the network parser, however it is cut: a frame in the bucket whose name line
   was exactly a command and whose header lines fitted LD_MAX is accounted for.
   */
  lemma SizeAccounting(chunks: seq<string>, i: nat)
    requires i < |Feed(NEW_CONN, chunks).conn.bucket|
    ensures var t := TrackFeed(NEW_CONN, chunks, Track(true, []));
      && |t.bucket| == |Feed(NEW_CONN, chunks).conn.bucket|
      && (t.bucket[i] ==> Accounted(Feed(NEW_CONN, chunks).conn.bucket[i]))
  {
    hide Feed, TrackFeed, Accounted;
    FeedTracked(NEW_CONN, chunks, Track(true, []));
  }

  // ----- The log side -----

  predicate LinesFit(f: Frame, s: string)
    decreases |s|
  {
    s == "" || (var n := SplitLen(s, f.status.Body?);
      (n == |s| && f.status.Body?) || (LineFits(f, s[..n]) &&
        (Update(f, s[0], s[..n]).1.Complete? || LinesFit(Update(f, s[0], s[..n]).0, s[Min(StepLen(f, s), |s|)..]))))
  }

  lemma {:induction false} ParseKeepsSize(f: Frame, s: string, base: nat, offset: int)
    requires SizeInv(f) && !f.status.Finished? && LinesFit(f, s)
    ensures SizeInv(ParseFrom(f, s, base, offset).frame)
    ensures ParseFrom(f, s, base, offset).Parsed? ==> ParseFrom(f, s, base, offset).frame.status.Finished?
    decreases |s|
  {
    hide ParseFrom, SplitLen, Update, SizeInv, LineFits;
    if s == "" {
      ParseEnd(f, base, offset);
    } else {
      ParseUnfold(f, s, base, offset);
      var n, k := SplitLen(s, f.status.Body?), StepLen(f, s);
      if !(n == |s| && f.status.Body?) {
        UpdateKeepsSize(f, s[0], s[..n]);
        UpdateFinishes(f, s[0], s[..n]);
        if !Update(f, s[0], s[..n]).1.Complete? {
          ParseKeepsSize(Update(f, s[0], s[..n]).0, s[Min(k, |s|)..], base + k, base + k + 1);
        }
      }
    }
  }

  /** For every input of the log parser: a frame whose lines fitted is accounted for. */
  lemma ParsedAccounted(input: string)
    requires LinesFit(NEW_FRAME, input) && ParseFrameOf(NEW_FRAME, input).Parsed?
    ensures Accounted(ParseFrameOf(NEW_FRAME, input).frame)
  {
    hide ParseFrom, LinesFit, Accounted;
    NewFits();
    ParseKeepsSize(NEW_FRAME, input, 0, -1);
  }
}
