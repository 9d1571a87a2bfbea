/**
 Messages with CRLF line ends, which STOMP 1.2 allows: what recv_data (src/lib/stomp.c) makes of
 them, in one call. The carriage return stays in every header, and the one of the blank line ends
 the headers on its own, so that the body starts with the newline behind it.
 */
module Crlf {
  import opened Frames
  import opened Options
  import opened Stomp
  import opened Chunking
  import opened CutSafety
  import opened ContentLength
  import opened OneCall

  /** Every line with a carriage return at its end. */
  function Returned(hs: seq<string>): seq<string> {
    if hs == [] then [] else Returned(hs[..|hs| - 1]) + [hs[|hs| - 1] + "\r"]
  }

  /** The message on the wire with CRLF line ends. */
  function CrlfEncode(m: Message): string {
    m.name + "\r\n" + Lines(Returned(m.headers)) + "\r\n" + m.body + "\0"
  }

  /** The body that the broker stores: one byte too long or, for multiples of LD_MAX, without its last byte. */
  function Shifted(body: string): string {
    if body == "" then ""
    else if |body| % LD_MAX == 0 then "\n" + body[..|body| - 1]
    else "\n" + body
  }

  /** Nothing but the name of the length header; with a carriage return it would set the length to 0. */
  predicate Bare(h: string) {
    h == "content-length:"
  }

  /** Header lines that fit with the carriage return, and none that is nothing but the name of the length header. */
  ghost predicate CrlfOk(m: Message) {
    WellFormed(m) && forall h :: h in m.headers ==> |h| < LD_MAX && !Bare(h)
  }

  // ----- The content length -----

  lemma {:induction false} DigitsReturn(v: string, acc: nat)
    ensures DigitsFrom(v + "\r", acc) == DigitsFrom(v, acc)
  {
    if v == "" {
      assert v + "\r" == "\r";
    } else {
      assert (v + "\r")[1..] == v[1..] + "\r";
      if IsDigit(v[0]) {
        DigitsReturn(v[1..], 10 * acc + (v[0] - '0') as nat);
      }
    }
  }

  lemma {:induction false} AtoiReturn(v: string)
    ensures Atoi(v + "\r") == Atoi(v)
  {
    if v == "" {
      assert (v + "\r")[1..] == "";
    } else {
      assert (v + "\r")[1..] == v[1..] + "\r";
      AtoiReturn(v[1..]);
      DigitsReturn(v[1..], 0);
      DigitsReturn(v, 0);
    }
  }

  lemma LineReturn(c: int, h: string)
    requires !Bare(h)
    ensures NextContentlen(c, h + "\r") == NextContentlen(c, h)
  {
    hide NextContentlen;
    if Sets(h) {
      var v := h[15..];
      assert h == "content-length:" + v && h + "\r" == "content-length:" + (v + "\r");
      LineSets(c, h, v);
      LineSets(c, h, v + "\r");
      AtoiReturn(v);
    } else {
      LineSets(c, h, "");
      assert h == (h + "\r")[..|h|];
      LineSets(c, h + "\r", "");
    }
  }

  lemma {:induction false} ReturnedContentlen(hs: seq<string>)
    requires forall h :: h in hs ==> !Bare(h)
    ensures |Returned(hs)| == |hs| && ContentlenOf(Returned(hs)) == ContentlenOf(hs)
  {
    hide NextContentlen, Bare;
    if hs != [] {
      var n := |hs| - 1;
      assert !Bare(hs[n]);
      ReturnedContentlen(hs[..n]);
      assert Returned(hs)[..n] == Returned(hs[..n]);
      LineReturn(ContentlenOf(hs[..n]), hs[n]);
    }
  }

  // ----- The lines -----

  /** f has taken the name and the headers hs, and nothing else. */
  ghost predicate Headed(f: Frame, m: Message, hs: seq<string>) {
    f.status.Header? && f.name == m.name && f.attrs == hs && f.data == [] && f.hasContentlen == 0 && f.contentlen == ContentlenOf(hs)
  }

  lemma CrlfName(m: Message, rest: string) returns (f: Frame)
    requires IsCommand(m.name)
    ensures Headed(f, m, []) && Recv(NEW_CONN, m.name + "\r\n" + rest) == Recv(At(Some(f), []), rest)
  {
    hide Recv, IsCommand;
    var line, s := m.name + "\r", m.name + "\r\n" + rest;
    NameAccepted(m.name, "\r");
    CommandLetters(m.name);
    assert line[0] == m.name[0];
    LineWithReturn(m.name);
    assert s[..|line|] == line && s[|line|] == '\n' && s[|line| + 1..] == rest;
    WholeLine(NEW_CONN, line, s);
    f := Update(NEW_FRAME, line[0], line).0;
  }

  lemma LineWithReturn(h: string)
    requires 0 < |h| < LD_MAX && h[0] != '\r' && forall j :: 0 <= j < |h| ==> !IsStop(h[j], false)
    ensures HeaderOk(h + "\r")
  {
  }

  lemma CrlfHeader(f: Frame, m: Message, hs: seq<string>, h: string)
    requires Headed(f, m, hs) && HeaderOk(h)
    ensures Update(f, h[0], h).1 == More && Headed(Update(f, h[0], h).0, m, hs + [h])
  {
    hide Atoi;
    assert !IsStop(h[0], false);
    HeaderUpdate(f, h);
    assert (hs + [h])[..|hs|] == hs;
  }

  lemma {:induction false} LinesTaken(f: Frame, m: Message, hs: seq<string>, more: seq<string>, rest: string) returns (g: Frame)
    requires Headed(f, m, hs) && forall h :: h in more ==> HeaderOk(h)
    ensures Headed(g, m, hs + more) && Recv(At(Some(f), []), Lines(more) + rest) == Recv(At(Some(g), []), rest)
    decreases |more|
  {
    hide Recv, HeaderOk, Update, Headed;
    if more == [] {
      g := f;
      assert hs + more == hs && Lines(more) + rest == rest;
    } else {
      var h, t := more[0], Lines(more[1..]) + rest;
      var s := Lines(more) + rest;
      assert s == h + "\n" + t;
      assert s[..|h|] == h && s[|h|] == '\n' && s[|h| + 1..] == t;
      HeaderFirst(h);
      CrlfHeader(f, m, hs, h);
      NotInBody(f, m, hs);
      WholeLine(At(Some(f), []), h, s);
      g := LinesTaken(Update(f, h[0], h).0, m, hs + [h], more[1..], rest);
      assert hs + [h] + more[1..] == hs + more;
    }
  }

  lemma NotInBody(f: Frame, m: Message, hs: seq<string>)
    requires Headed(f, m, hs)
    ensures f.status.Header?
  {
  }

  lemma {:induction false} ReturnedOk(hs: seq<string>)
    requires forall h :: h in hs ==> HeaderOk(h) && |h| < LD_MAX
    ensures forall h :: h in Returned(hs) ==> HeaderOk(h)
  {
    if hs != [] {
      var n := |hs| - 1;
      ReturnedOk(hs[..n]);
      assert HeaderOk(hs[n]);
      LineWithReturn(hs[n]);
    }
  }

  // ----- The blank line and the body -----

  /** The carriage return ends the headers; the newline behind it is left. */
  lemma ReturnIsBlank(f: Frame, rest: string)
    requires f.status.Header?
    ensures Recv(At(Some(f), []), "\r" + rest) == Recv(TakenAs(At(Some(f), []), Update(f, '\r', "")), rest)
  {
    hide Recv, Update, MatchCommand;
    var c, s := At(Some(f), []), "\r" + rest;
    assert c.prev + s[..0] == "";
    assert Consume(c, s) == (TakenAs(c, Update(f, '\r', "")), 1);
    RecvUnfold(c, s);
    assert s[1..] == rest;
  }

  lemma NulSkipped(b: seq<Frame>)
    ensures Recv(At(None, b), "\0") == Done(At(None, b))
  {
    hide Recv;
    SkipPad("\0", b);
    assert "\0"[1..] == "";
    RecvUnfold(At(None, b), "");
  }

  /** One piece of the body t, which is one byte longer than the content length. */
  lemma ShiftedPiece(f: Frame, t: string, q: nat, p: nat)
    requires f.status.Body? && f.contentlen == |t| - 1 && f.hasContentlen == q < |t| - 1 && Flatten(f.data) == t[..q]
    requires BodyOk(t) && p == Min(|t| - q, LD_MAX)
    ensures var c, s := At(Some(f), []), t[q..] + "\0";
      var (g, out) := Update(f, s[0], s[..p]);
      && 0 < p < |s| && Consume(c, s) == (Taken(c, g, out), if out.Complete? then p + 1 else p)
      && (out.Complete? <==> |t| - 1 <= q + p) && (out == More || out == Complete)
      && g.name == f.name && g.attrs == f.attrs && g.contentlen == f.contentlen && g.hasContentlen == q + p && Flatten(g.data) == t[..q + p]
      && (out == More ==> g.status.Body?)
  {
    hide SplitLen, MatchCommand, Pieces, Consume;
    var c, s := At(Some(f), []), t[q..] + "\0";
    assert forall j :: 0 <= j < p ==> s[j] == t[q + j];
    SplitLenUnique(s, true, p);
    BodyTaken(c, f, s, p);
    FlattenAppend(f.data, Pieces(s[..p]));
    assert t[..q] + s[..p] == t[..q + p];
  }

  lemma {:induction false} ShiftedBody(f: Frame, t: string, q: nat) returns (g: Frame)
    requires f.status.Body? && f.contentlen == |t| - 1 && f.hasContentlen == q < |t| - 1 && Flatten(f.data) == t[..q]
    requires BodyOk(t) && q % LD_MAX == 0
    ensures Recv(At(Some(f), []), t[q..] + "\0") == Done(At(None, [g]))
    ensures g.name == f.name && g.attrs == f.attrs
    ensures Flatten(g.data) == if (|t| - 1) % LD_MAX == 0 then t[..|t| - 1] else t
    decreases |t| - q
  {
    hide Recv, Consume, Update, Flatten;
    var c, s, p := At(Some(f), []), t[q..] + "\0", Min(|t| - q, LD_MAX);
    ShiftedPiece(f, t, q, p);
    RecvUnfold(c, s);
    g := Update(f, s[0], s[..p]).0;
    if |t| - 1 <= q + p {
      assert [] + [g] == [g];
      assert t[..|t|] == t;
      if q + p == |t| {
        assert s[Min(p + 1, |s|)..] == "";
        RecvUnfold(At(None, [g]), "");
      } else {
        assert s[p + 1..] == "\0";
        NulSkipped([g]);
      }
    } else {
      assert s[p..] == t[q + p..] + "\0";
      g := ShiftedBody(g, t, q + p);
    }
  }

  lemma CrlfBlank(f: Frame, m: Message, hs: seq<string>) returns (g: Frame)
    requires Headed(f, m, hs) && ContentlenOf(hs) == |m.body| && BodyOk(m.body)
    ensures Recv(At(Some(f), []), "\r\n" + m.body + "\0") == Done(At(None, [g]))
    ensures g.name == m.name && g.attrs == hs && Flatten(g.data) == Shifted(m.body)
  {
    hide Recv, ContentlenOf;
    var rest := "\n" + m.body + "\0";
    assert "\r\n" + m.body + "\0" == "\r" + rest;
    ReturnIsBlank(f, rest);
    g := Update(f, '\r', "").0;
    if m.body == "" {
      assert rest == "\n\0" && rest[1..] == "\0" && [] + [g] == [g];
      SkipPad(rest, [g]);
      NulSkipped([g]);
    } else {
      var t := "\n" + m.body;
      assert t[0..] + "\0" == rest && t[..0] == "";
      assert t[..|t| - 1] == "\n" + m.body[..|m.body| - 1];
      g := ShiftedBody(g, t, 0);
    }
  }

  lemma CrlfHead(m: Message, hs: seq<string>, tail: string) returns (f: Frame)
    requires IsCommand(m.name) && forall h :: h in hs ==> HeaderOk(h)
    ensures Headed(f, m, hs) && Recv(NEW_CONN, m.name + "\r\n" + (Lines(hs) + tail)) == Recv(At(Some(f), []), tail)
  {
    hide Recv, Headed, IsCommand, HeaderOk, Lines;
    var g := CrlfName(m, Lines(hs) + tail);
    f := LinesTaken(g, m, [], hs, tail);
    assert [] + hs == hs;
  }

  /**
   A message with CRLF line ends comes out as one frame without an error; every header keeps its
   carriage return, and the body is shifted by the newline of the blank line.
   */
  lemma CrlfMessage(m: Message) returns (g: Frame)
    requires CrlfOk(m)
    ensures Recv(NEW_CONN, CrlfEncode(m)) == Done(Conn(None, "", [g], 0))
    ensures g.name == m.name && g.attrs == Returned(m.headers) && Flatten(g.data) == Shifted(m.body)
    ensures !FrameOf(g, m)
  {
    hide Recv, Headed, IsCommand, HeaderOk, Lines, Flatten, Shifted, ContentlenOf, Returned, Bare, BodyOk;
    var hs, tail := Returned(m.headers), "\r\n" + m.body + "\0";
    assert CrlfEncode(m) == m.name + "\r\n" + (Lines(hs) + tail);
    ReturnedContentlen(m.headers);
    ReturnedOk(m.headers);
    var f := CrlfHead(m, hs, tail);
    g := CrlfBlank(f, m, hs);
    NoHeaders(m);
    NeverSame(m.headers);
  }

  lemma NeverSame(hs: seq<string>)
    ensures hs != [] ==> Returned(hs) != hs
  {
    if hs != [] {
      var n := |hs| - 1;
      assert Returned(hs)[|Returned(hs)| - 1] == hs[n] + "\r";
    }
  }

  lemma NoHeaders(m: Message)
    requires WellFormed(m)
    ensures m.headers != []
  {
  }
}
