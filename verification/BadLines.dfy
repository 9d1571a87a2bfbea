/**
 Lines that are no frame names (recv_data of src/lib/stomp.c:442-451): each one is answered with an
 error, and what follows is read as if it had not been there.
 */
module BadLines {
  import opened Frames
  import opened Options
  import opened Stomp
  import opened Chunking
  import opened CutSafety
  import opened LogParser
  import opened QueueLog
  import opened OneCall
  import opened StreamCuts

  /** No frame has got its name, and nothing is carried. */
  predicate Searching(c: Conn) {
    c.prev == "" && CurrentFrame(c) == NEW_FRAME
  }

  /** A frame was allocated for a line that was no name, and n errors were sent. */
  function Failed(c: Conn, n: nat): Conn {
    Conn(Some(NEW_FRAME), "", c.bucket, c.errors + n)
  }

  /** A nonempty line of any length of which no stored part starts with a command. */
  ghost predicate BadLine(h: string) {
    h != "" && LongLine(h) && forall p :: p in Stored(h) ==> MatchCommand(p) == ""
  }

  /** One error for every part, and one for the newline when it is read as a line of its own. */
  function Errors(h: string): nat {
    |Stored(h)| + if Full(h) then 1 else 0
  }

  lemma BadSplit(h: string, rest: string, n: nat)
    requires h != "" && h[0] != '\r' && Unbroken(h) && n == Min(LD_MAX, |h|)
    ensures var s := h + "\n" + rest; 0 < n < |s| && SplitLen(s, false) == n && s[..n] == h[..n] && s[0] == h[0]
  {
    hide SplitLen;
    var s := h + "\n" + rest;
    assert forall j :: 0 <= j < n ==> s[j] == h[j];
    assert !IsStop(h[0], false);
    SplitLenUnique(s, false, n);
  }

  lemma NameRefused(c: Conn, s: string, line: string, n: nat)
    requires Searching(c) && n < |s| && SplitLen(s, false) == n && s[..n] == line && line != "" && MatchCommand(line) == ""
    ensures Consume(c, s) == (Failed(c, 1), n + 1)
  {
    hide SplitLen, MatchCommand, Consume;
    assert c.prev + s[..n] == line;
    assert s[0] == line[0];
    ConsumeTaken(c, line, s);
  }

  /** One round on a line that is no name. */
  lemma BadRound(c: Conn, h: string, rest: string, n: nat)
    requires Searching(c) && h != "" && h[0] != '\r' && Unbroken(h) && n == Min(LD_MAX, |h|) && MatchCommand(h[..n]) == ""
    ensures Recv(c, h + "\n" + rest) == Recv(Failed(c, 1), (h + "\n" + rest)[n + 1..])
  {
    hide Recv, Consume, SplitLen, MatchCommand, Unbroken, Searching, Failed;
    BadSplit(h, rest, n);
    NameRefused(c, h + "\n" + rest, h[..n], n);
    RecvUnfold(c, h + "\n" + rest);
  }

  /** Once a frame is allocated, an empty line is refused like any other. */
  lemma EmptyRefused(c: Conn, rest: string)
    ensures Recv(Failed(c, 0), "\n" + rest) == Recv(Failed(c, 1), rest)
  {
    hide Recv;
    var d, s := Failed(c, 0), "\n" + rest;
    assert d.prev + s[..0] == "";
    assert MatchCommand("") == "";
    assert Consume(d, s) == (Failed(c, 1), 1);
    RecvUnfold(d, s);
    assert s[1..] == rest;
  }

  lemma FailedTwice(c: Conn, a: nat, b: nat)
    ensures Failed(Failed(c, a), b) == Failed(c, a + b) && Searching(Failed(c, a))
  {
  }

  lemma BadRest(h: string)
    requires BadLine(h)
    ensures var n, rest := Min(LD_MAX, |h|), h[Min(LD_MAX + 1, |h|)..];
      && h != "" && MatchCommand(h[..n]) == "" && Unbroken(h) && h[0] != '\r'
      && (rest == "" || BadLine(rest))
      && Errors(h) == 1 + (if rest != "" then Errors(rest) else if |h| > LD_MAX then 1 else 0)
  {
    hide MatchCommand, Unbroken, Full;
    FullRest(h);
    var n, rest := Min(LD_MAX, |h|), h[Min(LD_MAX + 1, |h|)..];
    assert Stored(h) == [h[..n]] + Stored(rest);
    assert Stored(h)[0] in Stored(h);
    assert forall p :: p in Stored(rest) ==> p in Stored(h);
    assert Full("") by {
      StoredNothing(NEW_FRAME);
    }
  }

  /** A bad line is answered with its errors, and reading goes on behind it. */
  lemma {:induction false} BadLineRead(c: Conn, h: string, rest: string)
    requires Searching(c) && BadLine(h)
    ensures Recv(c, h + "\n" + rest) == Recv(Failed(c, Errors(h)), rest)
    decreases |h|
  {
    hide Recv, MatchCommand, BadLine, Errors, Failed, Searching, Unbroken;
    BadRest(h);
    var n, t := Min(LD_MAX, |h|), h[Min(LD_MAX + 1, |h|)..];
    BadRound(c, h, rest, n);
    var s := (h + "\n" + rest)[n + 1..];
    FailedTwice(c, 1, 0);
    if |h| <= LD_MAX {
      assert s == rest;
    } else if t == "" {
      assert s == "\n" + rest;
      EmptyRefused(Failed(c, 1), rest);
      FailedTwice(c, 1, 1);
    } else {
      assert s == t + "\n" + rest;
      BadLineRead(Failed(c, 1), t, rest);
      FailedTwice(c, 1, Errors(t));
    }
  }

  function Total(lines: seq<string>): nat {
    if lines == [] then 0 else Errors(lines[0]) + Total(lines[1..])
  }

  lemma ShortErrors(h: string)
    requires 0 < |h| <= LD_MAX
    ensures Errors(h) == 1
  {
    FullRest(h);
    assert h[|h|..] == "";
    assert |Stored(h)| == 1 + |Stored(h[Min(LD_MAX + 1, |h|)..])|;
  }

  /** Lines of at most LD_MAX bytes make one error each. */
  lemma {:induction false} OneErrorEach(lines: seq<string>)
    requires forall h :: h in lines ==> 0 < |h| <= LD_MAX
    ensures Total(lines) == |lines|
  {
    hide Errors;
    if lines != [] {
      assert lines[0] in lines;
      ShortErrors(lines[0]);
      OneErrorEach(lines[1..]);
    }
  }

  lemma {:induction false} BadLinesRead(c: Conn, lines: seq<string>, rest: string)
    requires Searching(c) && lines != [] && forall h :: h in lines ==> BadLine(h)
    ensures Recv(c, Lines(lines) + rest) == Recv(Failed(c, Total(lines)), rest)
    decreases |lines|
  {
    hide Recv, BadLine, Errors, Failed, Searching;
    var h, more := lines[0], lines[1..];
    assert Lines(lines) + rest == h + "\n" + (Lines(more) + rest);
    BadLineRead(c, h, Lines(more) + rest);
    FailedTwice(c, Errors(h), Total(more));
    if more == [] {
      assert Lines(more) + rest == rest;
    } else {
      BadLinesRead(Failed(c, Errors(h)), more, rest);
    }
  }

  /** A line that is no name, on a new connection. */
  lemma BadLineAlone(h: string)
    requires BadLine(h)
    ensures Recv(NEW_CONN, h + "\n") == Done(Conn(Some(NEW_FRAME), "", [], Errors(h)))
  {
    hide Recv, BadLine, Errors;
    assert h + "\n" + "" == h + "\n";
    BadLineRead(NEW_CONN, h, "");
    RecvUnfold(Failed(NEW_CONN, Errors(h)), "");
  }

  /** In particular one of at most LD_MAX bytes: one error, no frame in the bucket, and the frame is still without a name. */
  lemma ShortBadLine(h: string)
    requires HeaderOk(h) && MatchCommand(h) == ""
    ensures Recv(NEW_CONN, h + "\n") == Done(Conn(Some(NEW_FRAME), "", [], 1))
  {
    hide Recv, MatchCommand, Errors;
    assert BadLine(h) by {
      ShortIsBad(h);
    }
    ShortErrors(h);
    BadLineAlone(h);
  }

  lemma ShortIsBad(h: string)
    requires HeaderOk(h) && MatchCommand(h) == ""
    ensures BadLine(h)
  {
    hide MatchCommand;
    assert h[|h|..] == "" && h[..|h|] == h;
    assert Stored(h) == [h] + Stored("") && Stored("") == [];
    assert Unbroken(h) && LongLine("") && LongLine(h[Min(LD_MAX + 1, |h|)..]);
  }

  /** A frame that is allocated but has no name makes no difference for the next message. */
  lemma AllocatedReads(e: nat, m: Message, rest: string)
    requires WellFormed(m)
    ensures Recv(Conn(Some(NEW_FRAME), "", [], e), Encode(m) + rest) == Recv(Conn(None, "", [], e), Encode(m) + rest)
  {
    hide Recv, Update, IsCommand, HeaderTail, ContentlenOf;
    var s := Encode(m) + rest;
    CommandIsLine(m.name);
    assert s == (m.name + "\n" + HeaderTail(m, 0)) + ("\0" + rest);
    StringAssoc(m.name, HeaderTail(m, 0), "\0" + rest);
    WholeLine(Conn(Some(NEW_FRAME), "", [], e), m.name, s);
    WholeLine(Conn(None, "", [], e), m.name, s);
    UpdateName(m, m.name[0]);
  }

  lemma MessagesAfter(e: nat, ms: seq<Message>)
    requires AllWellFormed(ms) && ms != []
    ensures var r := Recv(Conn(Some(NEW_FRAME), "", [], e), EncodeAll(ms));
      r.Done? && r.conn == Conn(None, "", r.conn.bucket, e) && FramesOf(r.conn.bucket, ms)
  {
    hide Recv, FrameOf, WellFormed, Encode, IsStream;
    var s := EncodeAll(ms);
    assert ms[0] in ms && s == Encode(ms[0]) + EncodeAll(ms[1..]);
    AllocatedReads(e, ms[0], EncodeAll(ms[1..]));
    EncodedIsStream(ms);
    OneCallParse(s, ms);
    RecvUnder(NEW_CONN, s, [], e);
    var b := Recv(NEW_CONN, s).conn.bucket;
    assert [] + b == b;
    assert Under(NEW_CONN, [], e) == Conn(None, "", [], e);
  }

  /** Messages behind any number of bad lines are delivered, and errors is what the lines made. */
  lemma BadLinesThenMessages(lines: seq<string>, ms: seq<Message>)
    requires lines != [] && (forall h :: h in lines ==> BadLine(h)) && AllWellFormed(ms) && ms != []
    ensures var r := Recv(NEW_CONN, Lines(lines) + EncodeAll(ms));
      r.Done? && r.conn == Conn(None, "", r.conn.bucket, Total(lines)) && FramesOf(r.conn.bucket, ms)
  {
    hide Recv, BadLine, FramesOf, AllWellFormed, EncodeAll, Lines, Total;
    BadLinesRead(NEW_CONN, lines, EncodeAll(ms));
    assert Failed(NEW_CONN, Total(lines)) == Conn(Some(NEW_FRAME), "", [], Total(lines));
    MessagesAfter(Total(lines), ms);
  }
}
