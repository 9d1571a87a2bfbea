/**
 Exactly when fragmentation matters: a header line is read the same for every way of cutting it
 if and only if it is CutSafe.
 */
module CutSafety {
  import opened Frames
  import opened Options
  import opened Stomp
  import opened Chunking

  /** A connection that has read the name and some headers, and nothing of the next line. */
  function AtHeader(f: Frame): Conn {
    Conn(Some(f), "", [], 0)
  }

  ghost predicate CutInvariant(f: Frame, h: string) {
    forall chunks: seq<string> :: Flatten(chunks) == h + "\n" ==>
      Feed(AtHeader(f), chunks) == Done(AtHeader(AddHeader(f, h)))
  }

  // ----- Safe lines -----

  /** Some of the line is carried; or it has been taken, and its newline may still be ahead. */
  ghost predicate Reading(c: Conn, f: Frame, h: string, rest: string) {
    || (c == AtHeader(f).(prev := c.prev) && c.prev <= h && c.prev + rest == h + "\n")
    || (c == AtHeader(AddHeader(f, h)) && (rest == "" || (rest == "\n" && AddHeader(f, h).contentlen < 0)))
  }

  lemma ReadingStep(c: Conn, f: Frame, h: string, s: string, r: string)
    requires |s| > 0 && f.status.Header? && HeaderOk(h) && CutSafe(h, AddHeader(f, h).contentlen < 0)
    requires Reading(c, f, h, s + r)
    ensures Consume(c, s).1 > 0
    ensures Reading(Consume(c, s).0, f, h, After(c, s, r))
  {
    if c.frame == Some(f) && c.prev <= h && c.prev + (s + r) == h + "\n" {
      ReadingCarried(c, f, h, s, r);
    } else {
      hide Consume, After, CutSafe, AddHeader;
      assert s == "\n" && r == "";
      ConsumeNewline(c, s, r);
      assert (c.prev + (s + r))[1..] == "";
    }
  }

  lemma ReadingCarried(c: Conn, f: Frame, h: string, s: string, r: string)
    requires |s| > 0 && f.status.Header? && HeaderOk(h) && CutSafe(h, AddHeader(f, h).contentlen < 0)
    requires c == AtHeader(f).(prev := c.prev) && c.prev <= h && c.prev + (s + r) == h + "\n"
    ensures Consume(c, s).1 > 0
    ensures Reading(Consume(c, s).0, f, h, After(c, s, r))
  {
    hide Consume, After, MatchCommand, IsCommand, AddHeader;
    assert LineAhead(h, c.prev, s, r);
    var how := ConsumeLine(c, h, s, r);
    HeaderUpdate(f, h);
    if how.Early? {
      assert h[|c.prev|..] == s;
      assert MatchCommand(s) <= h[|c.prev|..];
      assert (h + "\n")[|h|..] == "\n";
    }
  }

  lemma HeaderUpdate(f: Frame, h: string)
    requires f.status.Header? && h != "" && !IsNewline(h[0])
    ensures Update(f, h[0], h) == (AddHeader(f, h), More)
  {
    hide AddHeader;
  }

  lemma {:induction false} ReadingRecv(c: Conn, f: Frame, h: string, s: string, r: string)
    requires f.status.Header? && HeaderOk(h) && CutSafe(h, AddHeader(f, h).contentlen < 0)
    requires Reading(c, f, h, s + r)
    ensures Recv(c, s).Done? && Reading(Recv(c, s).conn, f, h, r)
    decreases |s|
  {
    hide Consume, Recv, Reading, CutSafe, AddHeader, HeaderOk;
    RecvUnfold(c, s);
    if s == "" {
      assert s + r == r;
    } else {
      ReadingStep(c, f, h, s, r);
      var (d, k) := Consume(c, s);
      ReadingRecv(d, f, h, s[Min(k, |s|)..], r);
    }
  }

  lemma {:induction false} ReadingFeed(c: Conn, f: Frame, h: string, chunks: seq<string>)
    requires f.status.Header? && HeaderOk(h) && CutSafe(h, AddHeader(f, h).contentlen < 0)
    requires Reading(c, f, h, Flatten(chunks))
    ensures Feed(c, chunks).Done? && Reading(Feed(c, chunks).conn, f, h, "")
    decreases |chunks|
  {
    hide Recv, Reading, CutSafe, AddHeader, HeaderOk;
    if chunks != [] {
      ReadingRecv(c, f, h, chunks[0], Flatten(chunks[1..]));
      ReadingFeed(Recv(c, chunks[0]).conn, f, h, chunks[1..]);
    }
  }

  lemma SafeIsInvariant(f: Frame, h: string)
    requires f.status.Header? && HeaderOk(h) && CutSafe(h, AddHeader(f, h).contentlen < 0)
    ensures CutInvariant(f, h)
  {
    hide Feed, CutSafe, AddHeader, HeaderOk;
    forall chunks: seq<string> | Flatten(chunks) == h + "\n"
      ensures Feed(AtHeader(f), chunks) == Done(AtHeader(AddHeader(f, h)))
    {
      assert AtHeader(f).prev + Flatten(chunks) == h + "\n";
      ReadingFeed(AtHeader(f), f, h, chunks);
      var c := Feed(AtHeader(f), chunks).conn;
      assert c.prev + "" == c.prev;
    }
  }

  // ----- Unsafe lines -----

  /** A wrong header x at index i stays: it is in the frame, or the frame has left the connection. */
  ghost predicate Stuck(c: Conn, i: nat, x: string) {
    || c.bucket != []
    || (c.frame.Some? && !c.frame.value.status.Born? && i < |c.frame.value.attrs| && c.frame.value.attrs[i] == x)
  }

  lemma StuckStep(c: Conn, s: string, i: nat, x: string)
    requires |s| > 0 && Stuck(c, i, x)
    ensures Stuck(Consume(c, s).0, i, x)
  {
    hide SplitLen, MatchCommand, Pieces, NextContentlen;
  }

  lemma {:induction false} StuckRecv(c: Conn, s: string, i: nat, x: string)
    requires Stuck(c, i, x)
    ensures Stuck(Recv(c, s).conn, i, x)
    decreases |s|, |c.prev|
  {
    hide Consume, Recv, Stuck;
    RecvUnfold(c, s);
    if s != "" {
      StuckStep(c, s, i, x);
      var (d, k) := Consume(c, s);
      if k != 0 || c.prev != "" {
        StuckRecv(d, s[Min(k, |s|)..], i, x);
      }
    }
  }

  /** Taking the line after only q of its bytes leaves a header that does not go away. */
  lemma ShortHeader(f: Frame, h: string, q: nat, s: string)
    requires f.status.Header? && HeaderOk(h) && 0 < q < |h|
    ensures Recv(AtHeader(AddHeader(f, h[..q])), s) != Done(AtHeader(AddHeader(f, h)))
  {
    hide Recv;
    assert Pieces(h[..q]) == [h[..q]];
    assert Pieces(h) == [h];
    var i := |f.attrs|;
    StuckRecv(AtHeader(AddHeader(f, h[..q])), s, i, h[..q]);
    assert (f.attrs + [h])[i] == h;
  }

  /** A newline after a line that was taken early is read as the blank line once contentlen is known. */
  lemma EarlyBlank(f: Frame, h: string)
    requires f.status.Header? && HeaderOk(h) && AddHeader(f, h).contentlen >= 0
    ensures Recv(AtHeader(AddHeader(f, h)), "\n") != Done(AtHeader(AddHeader(f, h)))
  {
    hide AddHeader, Recv, Consume;
    var c := AtHeader(AddHeader(f, h));
    assert c.frame.value.status.Header? by {
      HeaderStays(f, h);
    }
    ConsumeNewline(c, "\n", "");
    RecvUnfold(c, "\n");
    var d := Consume(c, "\n").0;
    assert "\n"[Min(1, 1)..] == "";
    RecvUnfold(d, "");
  }

  lemma HeaderStays(f: Frame, h: string)
    ensures AddHeader(f, h).status == f.status
  {
  }

  /** A piece h[p..q] that is taken as the end of the line, after h[..p] was carried. */
  lemma TakenEarly(f: Frame, h: string, p: nat, q: nat)
    requires f.status.Header? && HeaderOk(h) && p < q <= |h| && h[p] != '\r'
    requires MatchCommand(h[p..q]) != ""
    ensures Recv(AtHeader(f).(prev := h[..p]), h[p..q]) == Done(AtHeader(AddHeader(f, h[..q])))
  {
    hide Recv, Consume, MatchCommand, AddHeader;
    var c, s := AtHeader(f).(prev := h[..p]), h[p..q];
    SplitLenUnique(s, false, |s|);
    assert s[..|s|] == s;
    assert c.prev + s == h[..q];
    ConsumeTaken(c, h[..q], s);
    HeaderUpdate(f, h[..q]);
    RecvUnfold(c, s);
    assert s[Min(|s| + 1, |s|)..] == "";
    RecvUnfold(AtHeader(AddHeader(f, h[..q])), "");
  }

  lemma Carry(f: Frame, h: string, p: nat)
    requires f.status.Header? && HeaderOk(h) && p <= |h| && MatchCommand(h[..p]) == ""
    ensures Recv(AtHeader(f), h[..p]) == Done(AtHeader(f).(prev := h[..p]))
  {
    hide Recv, Consume, MatchCommand;
    var s := h[..p];
    RecvUnfold(AtHeader(f), s);
    if p > 0 {
      SplitLenUnique(s, false, |s|);
      ConsumeCarried(AtHeader(f), s, "");
      assert AtHeader(f).prev + s == s;
      assert s[Min(|s|, |s|)..] == "";
      RecvUnfold(AtHeader(f).(prev := s), "");
    }
  }

  lemma FeedTwo(c: Conn, a: string, b: string)
    ensures Flatten([a, b]) == a + b
    ensures Recv(c, a).Done? ==> Feed(c, [a, b]) == Recv(Recv(c, a).conn, b)
  {
    hide Recv;
    assert [a, b][1..] == [b];
    assert [b][1..] == [];
    assert Flatten([b]) == b;
    if Recv(c, a).Done? {
      var d := Recv(c, a).conn;
      assert Feed(c, [a, b]) == Feed(d, [b]);
    }
  }

  lemma FeedThree(c: Conn, a: string, b: string, e: string)
    ensures Flatten([a, b, e]) == a + b + e
    ensures Recv(c, a).Done? && Recv(Recv(c, a).conn, b).Done? ==>
              Feed(c, [a, b, e]) == Recv(Recv(Recv(c, a).conn, b).conn, e)
  {
    hide Recv, Feed;
    assert [a, b, e][1..] == [b, e];
    FeedTwo(Recv(c, a).conn, b, e);
    if Recv(c, a).Done? {
      FeedUnfold(c, [a, b, e]);
    }
  }

  lemma FeedUnfold(c: Conn, chunks: seq<string>)
    requires chunks != [] && Recv(c, chunks[0]).Done?
    ensures Feed(c, chunks) == Feed(Recv(c, chunks[0]).conn, chunks[1..])
  {
  }

  /** A prefix that starts with a command name is taken as a line of its own. */
  lemma PrefixBreaks(f: Frame, h: string, p: nat)
    requires f.status.Header? && HeaderOk(h) && 0 < p < |h| && MatchCommand(h[..p]) != ""
    ensures !CutInvariant(f, h)
  {
    hide Recv, Feed, MatchCommand, AddHeader, HeaderOk;
    var rest := h[p..] + "\n";
    assert h[0..p] == h[..p] && AtHeader(f).(prev := h[..0]) == AtHeader(f);
    assert HeaderOk(h) ==> h[0] != '\r' by {
      HeaderFirst(h);
    }
    TakenEarly(f, h, 0, p);
    FeedTwo(AtHeader(f), h[..p], rest);
    assert h[..p] + rest == h + "\n";
    ShortHeader(f, h, p, rest);
  }

  lemma HeaderFirst(h: string)
    requires HeaderOk(h)
    ensures h != "" && h[0] != '\r'
  {
  }

  lemma CommandBreaks(f: Frame, h: string, p: nat, e: string)
    requires f.status.Header? && HeaderOk(h) && p <= |h| && IsCommand(e) && e <= h[p..]
    requires !(p + |e| == |h| && AddHeader(f, h).contentlen < 0)
    ensures !CutInvariant(f, h)
  {
    hide Recv, Feed, MatchCommand, AddHeader, HeaderOk, IsCommand;
    var q := p + |e|;
    CommandLetters(e);
    assert h[p] == h[p..][0] == e[0];
    if MatchCommand(h[..p]) != "" {
      PrefixBreaks(f, h, p);
    } else {
      var rest := h[q..] + "\n";
      assert h[p..q] == e;
      Carry(f, h, p);
      TakenEarly(f, h, p, q);
      FeedThree(AtHeader(f), h[..p], e, rest);
      assert h[..p] + e + rest == h + "\n";
      if q < |h| {
        ShortHeader(f, h, q, rest);
      } else {
        assert h[..q] == h && rest == "\n";
        EarlyBlank(f, h);
      }
    }
  }

  lemma CarriageReturnBreaks(f: Frame, h: string, p: nat)
    requires f.status.Header? && HeaderOk(h) && p < |h| && h[p] == '\r'
    ensures !CutInvariant(f, h)
  {
    hide Recv, Feed, MatchCommand, AddHeader, HeaderOk;
    HeaderFirst(h);
    if MatchCommand(h[..p]) != "" {
      PrefixBreaks(f, h, p);
    } else {
      var s := h[p..] + "\n";
      Carry(f, h, p);
      FeedTwo(AtHeader(f), h[..p], s);
      assert h[..p] + s == h + "\n";
      assert s == "\r" + s[1..];
      ReturnTaken(f, h, p, s[1..]);
      ShortHeader(f, h, p, s[1..]);
    }
  }

  /** A carriage return ends a line of which something was carried; `rest` is what follows it. */
  lemma ReturnTaken(f: Frame, h: string, p: nat, rest: string)
    requires f.status.Header? && HeaderOk(h) && 0 < p < |h|
    ensures Recv(AtHeader(f).(prev := h[..p]), "\r" + rest) == Recv(AtHeader(AddHeader(f, h[..p])), rest)
  {
    hide Recv, Consume, MatchCommand, AddHeader;
    var c, s := AtHeader(f).(prev := h[..p]), "\r" + rest;
    assert c.prev + s[..0] == h[..p];
    ConsumeTaken(c, h[..p], s);
    HeaderUpdate(f, h[..p]);
    RecvUnfold(c, s);
    assert s[1..] == rest;
  }

  /** A header line is read the same for every way of cutting it if and only if it is cut-safe. */
  lemma HeaderCutIff(f: Frame, h: string)
    requires f.status.Header? && HeaderOk(h)
    ensures CutInvariant(f, h) <==> CutSafe(h, NextContentlen(f.contentlen, h) < 0)
  {
    hide CutInvariant, HeaderOk, IsCommand, NextContentlen;
    if CutSafe(h, AddHeader(f, h).contentlen < 0) {
      SafeIsInvariant(f, h);
    } else if exists j :: 0 <= j < |h| && h[j] == '\r' {
      var j :| 0 <= j < |h| && h[j] == '\r';
      CarriageReturnBreaks(f, h, j);
    } else {
      var p: nat, e: string :| p <= |h| && IsCommand(e) && e <= h[p..] && !(p + |e| == |h| && AddHeader(f, h).contentlen < 0);
      CommandBreaks(f, h, p, e);
    }
  }

  /** A destination that holds a command name is cut in two by an unlucky fragmentation. */
  lemma SenderIsUnsafe(f: Frame)
    requires f.status.Header?
    ensures !CutInvariant(f, "destination:/queue/SENDER")
  {
    hide CutInvariant;
    var h := "destination:/queue/SENDER";
    assert h[19..] == "SENDER";
    assert COMMANDS[0] == "SEND" && IsCommand("SEND");
    CommandBreaks(f, h, 19, "SEND");
  }

  // ----- Long header lines -----

  /** The headers that a line without line ends is stored as: LD_MAX bytes each, and the byte behind each is lost. */
  function Stored(h: string): seq<string>
    decreases |h|
  {
    if h == "" then [] else [h[..Min(LD_MAX, |h|)]] + Stored(h[Min(LD_MAX + 1, |h|)..])
  }

  function AddHeaders(f: Frame, hs: seq<string>): Frame
    decreases |hs|
  {
    if hs == [] then f else AddHeaders(AddHeader(f, hs[0]), hs[1..])
  }

  /** A line without line ends; a carriage return would be one wherever a new header starts. */
  predicate LongLine(h: string)
    decreases |h|
  {
    h == "" || (Unbroken(h) && h[0] != '\r' && LongLine(h[Min(LD_MAX + 1, |h|)..]))
  }

  predicate Unbroken(h: string) {
    forall j :: 0 <= j < |h| ==> !IsStop(h[j], false)
  }

  /** All bytes of the line go into full rounds, so that its newline is left. */
  predicate Full(h: string) {
    |h| % (LD_MAX + 1) == 0
  }

  lemma FullRest(h: string)
    requires h != ""
    ensures if |h| <= LD_MAX then !Full(h) else Full(h) == Full(h[LD_MAX + 1..])
  {
  }

  /** One byte is lost for every LD_MAX + 1. */
  lemma {:induction false} StoredLength(h: string)
    ensures |Flatten(Stored(h))| == |h| - |h| / (LD_MAX + 1)
    ensures |Stored(h)| == (|h| + LD_MAX) / (LD_MAX + 1)
    decreases |h|
  {
    if h != "" {
      var rest := h[Min(LD_MAX + 1, |h|)..];
      StoredLength(rest);
      assert Stored(h)[1..] == Stored(rest);
    }
  }

  /** The first LD_MAX bytes, or the whole line with its newline, are one round. */
  lemma LongRound(f: Frame, h: string, n: nat)
    requires f.status.Header? && h != "" && h[0] != '\r' && Unbroken(h) && n == Min(LD_MAX, |h|)
    ensures Recv(AtHeader(f), h + "\n") == Recv(AtHeader(AddHeader(f, h[..n])), (h + "\n")[n + 1..])
  {
    hide Recv, Consume, MatchCommand, AddHeader, SplitLen, Unbroken, Update;
    LongSplit(h, n);
    LongConsume(f, h + "\n", h[..n], n);
    RecvUnfold(AtHeader(f), h + "\n");
  }

  lemma LongConsume(f: Frame, s: string, line: string, n: nat)
    requires f.status.Header? && n < |s| && SplitLen(s, false) == n && s[..n] == line && line != "" && !IsNewline(line[0])
    ensures Consume(AtHeader(f), s) == (AtHeader(AddHeader(f, line)), n + 1)
  {
    hide Consume, MatchCommand, AddHeader, SplitLen;
    assert AtHeader(f).prev + s[..n] == line;
    ConsumeTaken(AtHeader(f), line, s);
    HeaderUpdate(f, line);
  }

  lemma LongSplit(h: string, n: nat)
    requires h != "" && h[0] != '\r' && Unbroken(h) && n == Min(LD_MAX, |h|)
    ensures 0 < n <= |h| && SplitLen(h + "\n", false) == n && (h + "\n")[..n] == h[..n] && !IsNewline(h[..n][0])
  {
    hide SplitLen;
    var s := h + "\n";
    assert forall j :: 0 <= j < n ==> s[j] == h[j];
    assert !IsStop(h[0], false);
    SplitLenUnique(s, false, n);
  }

  /**
   What a header line of any length becomes. When its length is a multiple of LD_MAX + 1, its own
   newline is not used up and is read as a line of its own.
   */
  lemma {:induction false} LongHeader(f: Frame, h: string)
    requires f.status.Header? && h != "" && LongLine(h)
    ensures var g := AddHeaders(f, Stored(h));
      Recv(AtHeader(f), h + "\n") ==
        Done(if Full(h) then TakenAs(AtHeader(g), Update(g, '\n', "")) else AtHeader(g))
    decreases |h|
  {
    hide Recv, AddHeader, TakenAs, Update, Full, Unbroken, Stored, AddHeaders;
    var n := Min(LD_MAX, |h|);
    var f1, rest := AddHeader(f, h[..n]), h[Min(LD_MAX + 1, |h|)..];
    LongRound(f, h, n);
    FullRest(h);
    HeaderStays(f, h[..n]);
    StoredStep(f, h);
    StoredNothing(f1);
    if |h| <= LD_MAX {
      assert (h + "\n")[n + 1..] == "";
      RecvUnfold(AtHeader(f1), "");
    } else {
      assert (h + "\n")[n + 1..] == rest + "\n";
      if rest == "" {
        assert rest + "\n" == "\n";
        NewlineRead(f1);
      } else {
        LongHeader(f1, rest);
      }
    }
  }

  /** The limit is 1024: a header line of so many bytes is stored whole, one byte more is lost and the newline is left. */
  lemma LongestHeader(f: Frame, h: string)
    requires f.status.Header? && LongLine(h)
    ensures |h| == 1024 ==> Recv(AtHeader(f), h + "\n") == Done(AtHeader(AddHeader(f, h)))
    ensures |h| == 1025 ==> var g := AddHeader(f, h[..1024]);
              Recv(AtHeader(f), h + "\n") == Done(TakenAs(AtHeader(g), Update(g, '\n', "")))
  {
    hide Recv, AddHeader, TakenAs, Update, LongLine, Stored, AddHeaders;
    if |h| == 1024 || |h| == 1025 {
      LongHeader(f, h);
      StoredStep(f, h);
      assert h[Min(LD_MAX + 1, |h|)..] == "" && (|h| == 1024 ==> h[..1024] == h);
      StoredNothing(AddHeader(f, h[..1024]));
    }
  }

  lemma StoredNothing(f: Frame)
    ensures AddHeaders(f, Stored("")) == f && Full("")
  {
  }

  lemma StoredStep(f: Frame, h: string)
    requires h != ""
    ensures AddHeaders(f, Stored(h)) == AddHeaders(AddHeader(f, h[..Min(LD_MAX, |h|)]), Stored(h[Min(LD_MAX + 1, |h|)..]))
  {
    hide AddHeader;
    assert Stored(h)[1..] == Stored(h[Min(LD_MAX + 1, |h|)..]);
  }

  lemma NewlineRead(g: Frame)
    requires g.status.Header?
    ensures Recv(AtHeader(g), "\n") == Done(TakenAs(AtHeader(g), Update(g, '\n', "")))
  {
    hide Recv, Consume, Update, TakenAs;
    ConsumeNewline(AtHeader(g), "\n", "");
    RecvUnfold(AtHeader(g), "\n");
    RecvUnfold(TakenAs(AtHeader(g), Update(g, '\n', "")), "");
  }

  // ----- Fragments of a body -----

  /**
   A fragment without NUL in a body: it is kept for the next call, unless it starts with a command
   name; then it goes into the frame at once, with what was kept before it.
   */
  lemma BodyFragment(f: Frame, prev: string, s: string)
    requires f.status.Body? && BodyOk(s) && 0 < |s| <= LD_MAX
    ensures var c := AtHeader(f).(prev := prev);
      Recv(c, s) == Done(
        if forall e :: IsCommand(e) ==> !(e <= s) then c.(prev := prev + s)
        else TakenAs(c, Update(f, (prev + s)[0], prev + s)))
  {
    hide Recv, Update, SplitLen, IsCommand;
    var c := AtHeader(f).(prev := prev);
    SplitLenUnique(s, true, |s|);
    assert s[..|s|] == s && (prev + s)[0] == if prev == "" then s[0] else prev[0];
    RecvUnfold(c, s);
    if MatchCommand(s) == "" {
      ConsumeCarried(c, s, "");
    } else {
      FragmentTaken(c, f, s);
    }
    var d := Consume(c, s).0;
    assert s[Min(Consume(c, s).1, |s|)..] == "";
    RecvUnfold(d, "");
  }

  lemma FragmentTaken(c: Conn, f: Frame, s: string)
    requires c.frame == Some(f) && f.status.Body? && |s| > 0 && SplitLen(s, true) == |s| && MatchCommand(s) != ""
    ensures Consume(c, s).0 == TakenAs(c, Update(f, (c.prev + s)[0], c.prev + s)) && Consume(c, s).1 >= |s|
  {
    hide Update, SplitLen, MatchCommand;
    assert s[..|s|] == s && (c.prev + s)[0] == if c.prev == "" then s[0] else c.prev[0];
  }
}
