/**
 The frame under construction and the line-level operations that both parsers share:
 the network-side parser of src/lib/stomp.c and the log-side parser of src/lib/frame.c.
 A C `char` is a Dafny `char`; nothing here depends on the range of the type.
 */
module Frames {

  const LD_MAX: nat := 1024
  const CONTENT_LENGTH: string := "content-length:"

  /** The command table, in the order in which it is searched. */
  const COMMANDS: seq<string> := [
    "SEND", "SUBSCRIBE", "CONNECT", "STOMP", "ACK", "BEGIN",
    "COMMIT", "ABORT", "NACK", "UNSUBSCRIBE", "DISCONNECT"
  ]

  predicate IsCommand(c: string) {
    c in COMMANDS
  }

  datatype Status = Born | Header | Body | Finished

  /** frame_t, without the fields that belong to sockets, ids and list links. */
  datatype Frame = Frame(
    name: string,
    status: Status,
    contentlen: int,
    hasContentlen: nat,
    attrs: seq<string>,
    data: seq<string>,
    size: nat)

  const NEW_FRAME: Frame := Frame("", Born, -1, 0, [], [], 0)

  /** What one call of frame_update reports: -1, 0 or 1. */
  datatype Outcome = BadName | More | Complete

  // ----- Splitting off one line -----

  function Min(a: nat, b: nat): nat {
    if a < b then a else b
  }

  predicate IsNewline(c: char) {
    c == '\n' || c == '\r'
  }

  predicate IsStop(c: char, isBody: bool) {
    c == '\0' || (c == '\n' && !isBody)
  }

  predicate IsSeparation(c: char, isBody: bool) {
    c == '\0' || (!isBody && IsNewline(c))
  }

  /** The first position from k on at which the scan of one line ends. */
  function Scan(s: string, k: nat, isBody: bool): (r: nat)
    requires k <= |s| && k <= LD_MAX
    ensures k <= r <= |s| && r <= LD_MAX
    ensures forall j :: k <= j < r ==> !IsStop(s[j], isBody)
    ensures r < |s| ==> r == LD_MAX || IsStop(s[r], isBody)
    decreases |s| - k
  {
    if k == |s| || k == LD_MAX || IsStop(s[k], isBody) then k else Scan(s, k + 1, isBody)
  }

  /** The length that ssplit reports; the line was complete iff it is below |s|. */
  function SplitLen(s: string, isBody: bool): (r: nat)
    requires |s| > 0
    ensures r <= |s| && r <= LD_MAX
    ensures r == 0 <==> IsSeparation(s[0], isBody)
    ensures forall j :: 0 <= j < r ==> !IsStop(s[j], isBody)
    ensures 0 < r < |s| ==> r == LD_MAX || IsStop(s[r], isBody)
  {
    if IsSeparation(s[0], isBody) then 0 else Scan(s, 1, isBody)
  }

  /** The length is determined by where the first stop lies. */
  lemma SplitLenUnique(s: string, isBody: bool, n: nat)
    requires 0 < |s| && n <= |s| && n <= LD_MAX
    requires n == 0 <==> IsSeparation(s[0], isBody)
    requires forall j :: 0 <= j < n ==> !IsStop(s[j], isBody)
    requires 0 < n < |s| ==> n == LD_MAX || IsStop(s[n], isBody)
    ensures SplitLen(s, isBody) == n
  {
  }

  method Ssplit(s: string, isBody: bool) returns (len: nat, complete: bool)
    requires |s| > 0
    ensures len == SplitLen(s, isBody)
    ensures complete <==> len < |s|
  {
    if IsSeparation(s[0], isBody) {
      return 0, true;
    }
    len := 1;
    complete := len < |s|;
    while len < |s| && len < LD_MAX && !IsStop(s[len], isBody)
      invariant 1 <= len <= |s| && len <= LD_MAX
      invariant forall j :: 0 <= j < len ==> !IsStop(s[j], isBody)
      invariant complete <==> len < |s|
    {
      len := len + 1;
      if len >= |s| {
        complete := false;
      }
    }
    SplitLenUnique(s, isBody, len);
  }

  // ----- Command names -----

  /** The table search of frame_setname and is_frame_name from entry i on; "" when nothing matches. */
  function SearchFrom(data: string, i: nat): (c: string)
    requires i <= |COMMANDS|
    ensures c != "" ==> IsCommand(c) && c <= data
    ensures c == "" ==> forall j :: i <= j < |COMMANDS| ==> !(COMMANDS[j] <= data)
    decreases |COMMANDS| - i
  {
    if i == |COMMANDS| then ""
    else if COMMANDS[i] <= data then COMMANDS[i]
    else SearchFrom(data, i + 1)
  }

  function MatchCommand(data: string): (c: string)
    ensures c != "" ==> IsCommand(c) && c <= data
    ensures c == "" ==> forall d :: IsCommand(d) ==> !(d <= data)
  {
    SearchFrom(data, 0)
  }

  method SearchCommand(data: string) returns (c: string)
    ensures c == MatchCommand(data)
  {
    c := "";
    var i := 0;
    while i < |COMMANDS|
      invariant 0 <= i <= |COMMANDS|
      invariant SearchFrom(data, 0) == SearchFrom(data, i)
    {
      if COMMANDS[i] <= data {
        return COMMANDS[i];
      }
      i := i + 1;
    }
  }

  lemma CommandHeads(d: string)
    requires IsCommand(d)
    ensures |d| >= 3
    ensures d[0] == 'S' ==> (d[1] == 'E' && |d| == 4) || (d[1] == 'U' && |d| == 9) || (d[1] == 'T' && |d| == 5)
    ensures d[0] == 'C' ==> d[1] == 'O' && ((d[2] == 'N' && |d| == 7) || (d[2] == 'M' && |d| == 6))
    ensures d[0] == 'A' ==> (d[1] == 'C' && |d| == 3) || (d[1] == 'B' && |d| == 5)
    ensures d[0] == 'B' ==> d[1] == 'E' && |d| == 5
    ensures d[0] == 'N' ==> d[1] == 'A' && |d| == 4
    ensures d[0] == 'U' ==> d[1] == 'N' && |d| == 11
    ensures d[0] == 'D' ==> d[1] == 'I' && |d| == 10
    ensures d[0] in "SCABNUD"
  {
  }

  /** A command name occurs in another one only as a suffix. */
  lemma CommandInsideCommand(e: string, d: string, i: nat)
    requires IsCommand(e) && IsCommand(d)
    requires i <= |e| && d <= e[i..]
    ensures i + |d| == |e|
  {
    CommandHeads(d);
    var k :| 0 <= k < |COMMANDS| && COMMANDS[k] == e;
    InsideFirst(e, d, i, k);
    InsideSecond(e, d, i, k);
    InsideThird(e, d, i, k);
  }

  ghost predicate HeadsAt(e: string, d: string, i: nat) {
    && 3 <= |d| && i + |d| <= |e|
    && d[0] == e[i] && d[1] == e[i + 1] && d[2] == e[i + 2]
  }

  lemma InsideFirst(e: string, d: string, i: nat, k: nat)
    requires k < 4 ==> k < |COMMANDS| && e == COMMANDS[k] && IsCommand(d) && i <= |e| && d <= e[i..]
    ensures k < 4 ==> i + |d| == |e|
  {
    if k < 4 {
      hide IsCommand;
      CommandHeads(d);
      assert HeadsAt(e, d, i);
      assert e == "SEND" || e == "SUBSCRIBE" || e == "CONNECT" || e == "STOMP";
    }
  }

  lemma InsideSecond(e: string, d: string, i: nat, k: nat)
    requires 4 <= k < 8 ==> k < |COMMANDS| && e == COMMANDS[k] && IsCommand(d) && i <= |e| && d <= e[i..]
    ensures 4 <= k < 8 ==> i + |d| == |e|
  {
    if 4 <= k < 8 {
      hide IsCommand;
      CommandHeads(d);
      assert HeadsAt(e, d, i);
      assert e == "ACK" || e == "BEGIN" || e == "COMMIT" || e == "ABORT";
    }
  }

  lemma InsideThird(e: string, d: string, i: nat, k: nat)
    requires 8 <= k < 11 ==> k < |COMMANDS| && e == COMMANDS[k] && IsCommand(d) && i <= |e| && d <= e[i..]
    ensures 8 <= k < 11 ==> i + |d| == |e|
  {
    if 8 <= k < 11 {
      hide IsCommand;
      CommandHeads(d);
      assert HeadsAt(e, d, i);
      assert e == "NACK" || e == "UNSUBSCRIBE" || e == "DISCONNECT";
    }
  }

  /** The eleven names, and no others. */
  lemma CommandNames(c: string)
    ensures IsCommand(c) <==>
            c == "SEND" || c == "SUBSCRIBE" || c == "CONNECT" || c == "STOMP" || c == "ACK" || c == "BEGIN" ||
            c == "COMMIT" || c == "ABORT" || c == "NACK" || c == "UNSUBSCRIBE" || c == "DISCONNECT"
  {
    assert COMMANDS[0] == "SEND" && COMMANDS[1] == "SUBSCRIBE" && COMMANDS[2] == "CONNECT" && COMMANDS[3] == "STOMP";
    assert COMMANDS[4] == "ACK" && COMMANDS[5] == "BEGIN" && COMMANDS[6] == "COMMIT" && COMMANDS[7] == "ABORT";
    assert COMMANDS[8] == "NACK" && COMMANDS[9] == "UNSUBSCRIBE" && COMMANDS[10] == "DISCONNECT";
  }

  /** A line is given the one name that it starts with, whatever follows the name. */
  lemma NameAccepted(name: string, rest: string)
    requires IsCommand(name)
    ensures MatchCommand(name + rest) == name
  {
    hide IsCommand;
    var line := name + rest;
    assert name <= line;
    var c := MatchCommand(line);
    if |c| <= |name| {
      assert c <= name[0..];
      CommandInsideCommand(name, c, 0);
    } else {
      assert name <= c[0..];
      CommandInsideCommand(c, name, 0);
    }
  }

  // ----- stomp_setdata -----

  function Flatten(pieces: seq<string>): string {
    if pieces == [] then "" else pieces[0] + Flatten(pieces[1..])
  }

  lemma {:induction false} FlattenAppend(a: seq<string>, b: seq<string>)
    ensures Flatten(a + b) == Flatten(a) + Flatten(b)
  {
    if a == [] {
      assert a + b == b;
    } else {
      assert (a + b)[1..] == a[1..] + b;
      FlattenAppend(a[1..], b);
    }
  }

  /** A line cut into linedata_t pieces; an empty line still makes one piece. */
  function Pieces(line: string): (r: seq<string>)
    ensures |r| > 0
    ensures forall p :: p in r ==> |p| <= LD_MAX
    ensures Flatten(r) == line
    ensures |line| <= LD_MAX ==> r == [line]
    decreases |line|
  {
    if |line| <= LD_MAX then
      [line]
    else
      var rest := Pieces(line[LD_MAX..]);
      assert ([line[..LD_MAX]] + rest)[1..] == rest;
      [line[..LD_MAX]] + rest
  }

  lemma PiecesStep(line: string, offset: nat)
    requires offset <= |line|
    ensures var rest := line[offset..];
      if |rest| > LD_MAX then Pieces(rest) == [line[offset..offset + LD_MAX]] + Pieces(line[offset + LD_MAX..])
      else Pieces(rest) == [line[offset..offset + |rest|]]
  {
    var rest := line[offset..];
    if |rest| > LD_MAX {
      assert rest[..LD_MAX] == line[offset..offset + LD_MAX];
      assert rest[LD_MAX..] == line[offset + LD_MAX..];
    } else {
      assert rest == line[offset..offset + |rest|];
    }
  }

  method StompSetdata(line: string, head: seq<string>) returns (r: seq<string>)
    ensures r == head + Pieces(line)
  {
    hide Pieces;
    r := head;
    var offset := 0;
    var attrlen := |line|;
    assert line[0..] == line;
    while true
      invariant 0 <= offset <= |line| && attrlen == |line| - offset
      invariant r + Pieces(line[offset..]) == head + Pieces(line)
      decreases |line| - offset
    {
      PiecesStep(line, offset);
      if attrlen > LD_MAX {
        attrlen := LD_MAX;
      }
      r := r + [line[offset..offset + attrlen]];
      offset := offset + attrlen;
      attrlen := |line| - offset;
      if offset >= |line| {
        break;
      }
    }
  }

  // ----- The content-length header -----

  predicate IsDigit(c: char) {
    '0' <= c <= '9'
  }

  predicate IsSpace(c: char) {
    c == ' ' || (9 as char <= c <= 13 as char)
  }

  function DigitsFrom(s: string, acc: nat): nat {
    if s != "" && IsDigit(s[0]) then DigitsFrom(s[1..], 10 * acc + (s[0] - '0') as nat) else acc
  }

  function Atoi(s: string): int {
    if s == "" then 0
    else if IsSpace(s[0]) then Atoi(s[1..])
    else if s[0] == '-' then 0 - DigitsFrom(s[1..], 0)
    else if s[0] == '+' then DigitsFrom(s[1..], 0)
    else DigitsFrom(s, 0)
  }

  predicate IsContentLength(line: string) {
    |line| > |CONTENT_LENGTH| && CONTENT_LENGTH <= line
  }

  function NextContentlen(contentlen: int, line: string): int {
    if IsContentLength(line) then Atoi(line[|CONTENT_LENGTH|..]) else contentlen
  }

  /** The contentlen field after a list of header lines; the last content-length header wins. */
  function ContentlenOf(headers: seq<string>): int {
    if headers == [] then -1
    else NextContentlen(ContentlenOf(headers[..|headers| - 1]), headers[|headers| - 1])
  }

  // ----- frame_update -----

  /** `first` is the byte that the line pointer points at, also when the line has length 0. */
  function Update(f: Frame, first: char, line: string): (Frame, Outcome) {
    match f.status
    case Born =>
      var c := MatchCommand(line);
      if c == "" then (f, BadName)
      else (f.(name := c, status := Header, size := f.size + |line| + 1), More)
    case Header =>
      if IsNewline(first) && f.contentlen > 0 then
        (f.(status := Body, size := f.size + 1), More)
      else if IsNewline(first) && f.contentlen == 0 then
        (f.(status := Finished, size := f.size + 1), Complete)
      else if line != "" then
        (AddHeader(f, line), More)
      else
        (f, More)
    case Body =>
      var g := if line != "" then AddBody(f, line) else f;
      if g.contentlen <= g.hasContentlen then
        (g.(status := Finished, size := g.size + 1), Complete)
      else
        (g, More)
    case Finished => (f, More)
  }

  function AddHeader(f: Frame, line: string): Frame {
    f.(contentlen := NextContentlen(f.contentlen, line),
       attrs := f.attrs + Pieces(line),
       size := f.size + |line| + 1)
  }

  function AddBody(f: Frame, line: string): Frame {
    f.(hasContentlen := f.hasContentlen + |line|,
       data := f.data + Pieces(line),
       size := f.size + |line|)
  }

  lemma BodyGrows(f: Frame, line: string)
    ensures |Flatten(AddBody(f, line).data)| >= |line|
  {
    FlattenAppend(f.data, Pieces(line));
  }

  method FrameUpdate(f: Frame, first: char, line: string) returns (g: Frame, out: Outcome)
    ensures (g, out) == Update(f, first, line)
  {
    g, out := f, More;
    if f.status.Born? {
      var c := SearchCommand(line);
      if c == "" {
        return f, BadName;
      }
      g := g.(name := c, status := Header, size := g.size + |line| + 1);
    } else if f.status.Header? {
      if IsNewline(first) {
        if f.contentlen > 0 {
          g := g.(status := Body, size := g.size + 1);
          return;
        } else if f.contentlen == 0 {
          g := g.(status := Finished, size := g.size + 1);
          return g, Complete;
        }
      }
      if |line| > 0 {
        if IsContentLength(line) {
          g := g.(contentlen := Atoi(line[|CONTENT_LENGTH|..]));
        }
        var attrs := StompSetdata(line, g.attrs);
        g := g.(attrs := attrs, size := g.size + |line| + 1);
      }
    } else if f.status.Body? {
      if |line| > 0 {
        g := g.(hasContentlen := g.hasContentlen + |line|);
        var data := StompSetdata(line, g.data);
        g := g.(data := data, size := g.size + |line|);
      }
      if g.contentlen <= g.hasContentlen {
        g := g.(status := Finished, size := g.size + 1);
        out := Complete;
      }
    }
  }

  // ----- What every update keeps, on every input -----

  /** The parser-state invariant of a frame. */
  ghost predicate ValidFrame(f: Frame) {
    && (f.status.Born? || (IsCommand(f.name) && f.size > 0))
    && (f.status.Born? ==> f == NEW_FRAME)
    && (f.status.Header? ==> f.data == [] && f.hasContentlen == 0)
    && (f.status.Body? ==> 0 < f.contentlen && f.hasContentlen < f.contentlen)
    && (f.status.Finished? ==> 0 <= f.contentlen <= f.hasContentlen)
    && (forall p :: p in f.attrs ==> |p| <= LD_MAX)
    && (forall p :: p in f.data ==> |p| <= LD_MAX)
    && |Flatten(f.data)| == f.hasContentlen
  }

  lemma NewFrameValid()
    ensures ValidFrame(NEW_FRAME)
  {
  }

  lemma UpdateKeepsValid(f: Frame, first: char, line: string)
    requires ValidFrame(f) && !f.status.Finished?
    ensures var (g, out) := Update(f, first, line);
      && ValidFrame(g)
      && (out.Complete? <==> g.status.Finished?)
      && (out.BadName? ==> g == f)
  {
    if f.status.Body? && line != "" {
      FlattenAppend(f.data, Pieces(line));
    }
  }

  // ----- Messages -----

  /** What a sender means by a frame. */
  datatype Message = Message(name: string, headers: seq<string>, body: string)

  predicate HeaderOk(h: string) {
    && 0 < |h| <= LD_MAX
    && h[0] != '\r'
    && (forall j :: 0 <= j < |h| ==> !IsStop(h[j], false))
  }

  predicate BodyOk(body: string) {
    forall j :: 0 <= j < |body| ==> body[j] != '\0'
  }

  predicate WellFormed(m: Message) {
    && IsCommand(m.name)
    && (forall i :: 0 <= i < |m.headers| ==> HeaderOk(m.headers[i]))
    && BodyOk(m.body)
    && ContentlenOf(m.headers) == |m.body|
  }

  function Lines(hs: seq<string>): string {
    if hs == [] then "" else hs[0] + "\n" + Lines(hs[1..])
  }

  lemma {:induction false} LinesSnoc(hs: seq<string>, h: string)
    ensures Lines(hs + [h]) == Lines(hs) + h + "\n"
  {
    if hs == [] {
      assert [h][1..] == [];
    } else {
      assert (hs + [h])[1..] == hs[1..] + [h];
      LinesSnoc(hs[1..], h);
    }
  }

  /** What follows the first i header lines, without the closing NUL. */
  function HeaderTail(m: Message, i: nat): string
    requires i <= |m.headers|
  {
    Lines(m.headers[i..]) + "\n" + m.body
  }

  lemma HeaderTailStep(m: Message, i: nat)
    requires i < |m.headers|
    ensures HeaderTail(m, i) == m.headers[i] + "\n" + HeaderTail(m, i + 1)
  {
    assert m.headers[i..][1..] == m.headers[i + 1..];
  }

  /** The bytes of a message, without the closing NUL. */
  function Wire(m: Message): string {
    m.name + "\n" + HeaderTail(m, 0)
  }

  /** The bytes of a message on the wire and in the queue log. */
  function Encode(m: Message): string {
    Wire(m) + "\0"
  }

  function EncodeAll(ms: seq<Message>): string {
    if ms == [] then "" else Encode(ms[0]) + EncodeAll(ms[1..])
  }

  lemma {:induction false} EncodeAllAppend(a: seq<Message>, b: seq<Message>)
    ensures EncodeAll(a + b) == EncodeAll(a) + EncodeAll(b)
  {
    if a == [] {
      assert a + b == b;
    } else {
      assert (a + b)[1..] == a[1..] + b;
      EncodeAllAppend(a[1..], b);
    }
  }

  /** The value that the size field has when the frame is finished. */
  function SizeOf(m: Message): nat {
    |m.name| + 1 + |Lines(m.headers)| + (if m.body == "" then 1 else |m.body| + 2)
  }

  /** f is the finished frame that stands for m. */
  ghost predicate FrameOf(f: Frame, m: Message) {
    && f.status.Finished?
    && f.name == m.name
    && f.attrs == m.headers
    && Flatten(f.data) == m.body
    && f.contentlen == f.hasContentlen == |m.body|
    && f.size == SizeOf(m)
  }

  /** f has taken the name and the first i header lines of m, and nothing else. */
  ghost predicate HeaderFrame(f: Frame, m: Message, i: nat) {
    && i <= |m.headers|
    && f.status.Header?
    && f.name == m.name
    && f.attrs == m.headers[..i]
    && f.data == [] && f.hasContentlen == 0
    && f.contentlen == ContentlenOf(m.headers[..i])
    && f.size == |m.name| + 1 + |Lines(m.headers[..i])|
  }

  /** f has taken all headers of m and the first n bytes of its body. */
  ghost predicate BodyFrame(f: Frame, m: Message, n: nat) {
    && n < |m.body|
    && f.status.Body?
    && f.name == m.name
    && f.attrs == m.headers
    && f.contentlen == |m.body|
    && f.hasContentlen == n
    && Flatten(f.data) == m.body[..n]
    && f.size == |m.name| + 2 + |Lines(m.headers)| + n
  }

  lemma UpdateName(m: Message, first: char)
    requires WellFormed(m)
    ensures Update(NEW_FRAME, first, m.name).1 == More
    ensures HeaderFrame(Update(NEW_FRAME, first, m.name).0, m, 0)
    ensures Update(NEW_FRAME, first, m.name).0.contentlen < 0
  {
    var c := MatchCommand(m.name);
    assert c != "";
    CommandInsideCommand(m.name, c, 0);
    assert c == m.name;
    assert m.headers[..0] == [];
  }

  lemma UpdateHeader(f: Frame, m: Message, i: nat)
    requires WellFormed(m) && i < |m.headers| && HeaderFrame(f, m, i)
    ensures Update(f, m.headers[i][0], m.headers[i]).1 == More
    ensures HeaderFrame(Update(f, m.headers[i][0], m.headers[i]).0, m, i + 1)
  {
    var h := m.headers[i];
    assert HeaderOk(h);
    assert !IsStop(h[0], false);
    assert m.headers[..i + 1] == m.headers[..i] + [h];
    LinesSnoc(m.headers[..i], h);
    assert m.headers[..i + 1][..i] == m.headers[..i];
  }

  lemma UpdateBlank(f: Frame, m: Message, line: string)
    requires WellFormed(m) && HeaderFrame(f, m, |m.headers|)
    ensures var (g, out) := Update(f, '\n', line);
      if m.body == "" then out == Complete && FrameOf(g, m) else out == More && BodyFrame(g, m, 0)
  {
    assert m.headers[..|m.headers|] == m.headers;
    assert m.body[..0] == "";
  }

  lemma UpdateBody(f: Frame, m: Message, n: nat, first: char, k: nat)
    requires WellFormed(m) && BodyFrame(f, m, n) && n + k <= |m.body|
    ensures var (g, out) := Update(f, first, m.body[n..n + k]);
      if n + k == |m.body| then out == Complete && FrameOf(g, m) else out == More && BodyFrame(g, m, n + k)
  {
    hide WellFormed, Lines;
    var line := m.body[n..n + k];
    if k > 0 {
      FlattenAppend(f.data, Pieces(line));
      assert m.body[..n] + line == m.body[..n + k];
    }
    assert m.body[..|m.body|] == m.body;
  }

  // ----- Size accounting -----

  /** The size counts the whole name line, the serializer writes only the command that it starts with. */
  lemma NameLineExcess(line: string, first: char)
    requires MatchCommand(line) != ""
    ensures var f := Update(NEW_FRAME, first, line).0;
      && IsCommand(f.name) && f.name <= line
      && f.size == |f.name + "\n"| + (|line| - |f.name|)
      && (f.size == |f.name + "\n"| <==> IsCommand(line))
  {
    var c := MatchCommand(line);
    if IsCommand(line) {
      hide IsCommand;
      assert c <= line[0..];
      CommandInsideCommand(line, c, 0);
    } else {
      assert c != line;
    }
  }
}
