/**
 The log side (src/lib/frame.c): parse_frame reads one frame from a buffer. The static
 prev_buffer of the source, which continues a body over a buffer end, is not part of this
 model: a call that would fill it ends with Carried.
 */
module LogParser {
  import opened Frames

  /**
   Parsed: RET_SUCCESS with the frame and the offset of what follows it. Unfinished: the buffer
   ended first. Carried: the buffer ended inside a body and the rest went to prev_buffer.
   */
  datatype Parse = Parsed(frame: Frame, offset: int) | Unfinished(frame: Frame, offset: int) | Carried(frame: Frame, offset: int)

  /** How far one round advances. */
  function StepLen(f: Frame, s: string): (k: nat)
    requires |s| > 0
    ensures k > 0
  {
    var n := SplitLen(s, f.status.Body?);
    if !f.status.Body? then n + 1 else if s[0] == '\0' then n + 1 else n
  }

  /** The loop of parse_frame on the remaining input s, `base` bytes after the start of the buffer. */
  function ParseFrom(f: Frame, s: string, base: nat, offset: int): (r: Parse)
    ensures r.Parsed? ==> base < r.offset
    ensures r.Unfinished? && s != "" ==> base + |s| < r.offset
    decreases |s|
  {
    if s == "" then
      Unfinished(f, offset)
    else
      var n := SplitLen(s, f.status.Body?);
      if n == |s| && f.status.Body? then
        Carried(f, offset)
      else
        var k := StepLen(f, s);
        var (g, out) := Update(f, s[0], s[..n]);
        if out.Complete? then Parsed(g, base + k + 1)
        else ParseFrom(g, s[Min(k, |s|)..], base + k, base + k + 1)
  }

  /** One call of parse_frame with nothing in prev_buffer. */
  function ParseFrameOf(f: Frame, input: string): (r: Parse)
    ensures r.Parsed? ==> 0 < r.offset
    ensures r.Unfinished? && input != "" ==> |input| < r.offset
  {
    ParseFrom(f, input, 0, -1)
  }

  lemma ParseUnfold(f: Frame, s: string, base: nat, offset: int)
    requires s != ""
    ensures var n := SplitLen(s, f.status.Body?);
      ParseFrom(f, s, base, offset) ==
        if n == |s| && f.status.Body? then Carried(f, offset)
        else if Update(f, s[0], s[..n]).1.Complete? then Parsed(Update(f, s[0], s[..n]).0, base + StepLen(f, s) + 1)
        else ParseFrom(Update(f, s[0], s[..n]).0, s[Min(StepLen(f, s), |s|)..], base + StepLen(f, s), base + StepLen(f, s) + 1)
  {
    hide Update, SplitLen, StepLen;
  }

  method ParseFrame(f: Frame, input: string) returns (r: Parse)
    ensures r == ParseFrameOf(f, input)
  {
    hide ParseFrom, SplitLen, Update;
    var frame, offset, curr := f, -1, 0;
    while curr < |input|
      invariant 0 <= curr
      invariant ParseFrom(f, input, 0, -1) == ParseFrom(frame, input[Min(curr, |input|)..], curr, offset)
      decreases |input| - curr
    {
      var s := input[curr..];
      ParseUnfold(frame, s, curr, offset);
      var n, complete := Ssplit(s, frame.status.Body?);
      if !complete && frame.status.Body? {
        return Carried(frame, offset);
      }
      var next := curr + n + 1;
      if frame.status.Body? {
        next := curr + n;
        if input[curr] == '\0' {
          next := next + 1;
        }
      }
      assert next == curr + StepLen(frame, s);
      offset := next + 1;
      var g, out := FrameUpdate(frame, s[0], s[..n]);
      if out.Complete? {
        return Parsed(g, offset);
      }
      assert s[Min(StepLen(frame, s), |s|)..] == input[Min(next, |input|)..];
      frame, curr := g, next;
    }
    assert input[Min(curr, |input|)..] == "";
    ParseEnd(frame, curr, offset);
    r := Unfinished(frame, offset);
  }

  lemma ParseEnd(f: Frame, base: nat, offset: int)
    ensures ParseFrom(f, "", base, offset) == Unfinished(f, offset)
  {
  }

  // ----- What every call keeps, on every input -----

  lemma {:induction false} ParseKeepsValid(f: Frame, s: string, base: nat, offset: int)
    requires ValidFrame(f) && !f.status.Finished?
    ensures var r := ParseFrom(f, s, base, offset);
      && ValidFrame(r.frame)
      && (r.Parsed? <==> r.frame.status.Finished?)
      && (r.Parsed? ==> base < r.offset <= base + |s| + 2)
    decreases |s|
  {
    hide ParseFrom, SplitLen, Update, ValidFrame;
    if s == "" {
      ParseEnd(f, base, offset);
    } else {
      ParseUnfold(f, s, base, offset);
      var n, k := SplitLen(s, f.status.Body?), StepLen(f, s);
      var (g, out) := Update(f, s[0], s[..n]);
      UpdateKeepsValid(f, s[0], s[..n]);
      if !(n == |s| && f.status.Body?) && !out.Complete? {
        ParseKeepsValid(g, s[Min(k, |s|)..], base + k, base + k + 1);
        ParseEnd(g, base + k, base + k + 1);
      }
    }
  }

  // ----- Reading back one encoded message -----

  /** One line, closed by a newline, outside the body. */
  lemma ParseLine(f: Frame, line: string, s: string, base: nat, offset: int)
    requires !f.status.Body? && HeaderOk(line) && |line| < |s| && s[..|line|] == line && s[|line|] == '\n'
    requires Update(f, line[0], line).1 == More
    ensures ParseFrom(f, s, base, offset)
            == ParseFrom(Update(f, line[0], line).0, s[|line| + 1..], base + |line| + 1, base + |line| + 2)
  {
    hide ParseFrom, SplitLen, Update;
    forall j | 0 <= j < |line| ensures s[j] == line[j] {
      assert s[..|line|][j] == line[j];
    }
    SplitLenUnique(s, false, |line|);
    ParseUnfold(f, s, base, offset);
  }

  lemma StringAssoc(a: string, b: string, c: string)
    ensures (a + "\n" + b) + c == a + "\n" + (b + c)
    ensures var s := (a + "\n" + b) + c;
      |a| < |s| && s[..|a|] == a && s[|a|] == '\n' && s[|a| + 1..] == b + c
  {
    var s := (a + "\n" + b) + c;
    assert s == a + "\n" + (b + c);
  }

  lemma {:induction false} ParseHeaders(f: Frame, m: Message, i: nat, junk: string, base: nat, offset: int)
    requires WellFormed(m) && HeaderFrame(f, m, i)
    ensures var r := ParseFrom(f, HeaderTail(m, i) + "\0" + junk, base, offset);
      r.Parsed? && FrameOf(r.frame, m) && r.offset == base + |HeaderTail(m, i)| + 1
    decreases |m.headers| - i
  {
    hide ParseFrom, Update, FrameOf, ContentlenOf, Lines;
    var s := HeaderTail(m, i) + "\0" + junk;
    if i == |m.headers| {
      ParseBlank(f, m, junk, base, offset);
    } else {
      var h := m.headers[i];
      HeaderTailStep(m, i);
      assert s == (h + "\n" + HeaderTail(m, i + 1)) + ("\0" + junk);
      StringAssoc(h, HeaderTail(m, i + 1), "\0" + junk);
      assert s[|h| + 1..] == HeaderTail(m, i + 1) + "\0" + junk;
      UpdateHeader(f, m, i);
      ParseLine(f, h, s, base, offset);
      ParseHeaders(Update(f, h[0], h).0, m, i + 1, junk, base + |h| + 1, base + |h| + 2);
    }
  }

  lemma ParseBlank(f: Frame, m: Message, junk: string, base: nat, offset: int)
    requires WellFormed(m) && HeaderFrame(f, m, |m.headers|)
    ensures var r := ParseFrom(f, HeaderTail(m, |m.headers|) + "\0" + junk, base, offset);
      r.Parsed? && FrameOf(r.frame, m) && r.offset == base + |HeaderTail(m, |m.headers|)| + 1
  {
    hide ParseFrom, Update, FrameOf, ContentlenOf, WellFormed, HeaderFrame, BodyFrame;
    assert HeaderTail(m, |m.headers|) == "\n" + m.body;
    var s := HeaderTail(m, |m.headers|) + "\0" + junk;
    assert f.status.Header? by {
      HeaderStatus(f, m, |m.headers|);
    }
    assert s[..0] == "";
    UpdateBlank(f, m, "");
    ParseUnfold(f, s, base, offset);
    if m.body != "" {
      var g := Update(f, '\n', "").0;
      assert s[1..] == m.body[0..] + "\0" + junk;
      ParseBody(g, m, 0, junk, base + 1, base + 2);
    }
  }

  lemma HeaderStatus(f: Frame, m: Message, i: nat)
    requires HeaderFrame(f, m, i)
    ensures f.status.Header?
  {
  }

  lemma {:induction false} ParseBody(f: Frame, m: Message, q: nat, junk: string, base: nat, offset: int)
    requires WellFormed(m) && BodyFrame(f, m, q)
    ensures var r := ParseFrom(f, m.body[q..] + "\0" + junk, base, offset);
      r.Parsed? && FrameOf(r.frame, m) && r.offset == base + |m.body| - q + 1
    decreases |m.body| - q
  {
    hide ParseFrom, Update, FrameOf, SplitLen, ContentlenOf, Lines;
    var s, n := m.body[q..] + "\0" + junk, Min(|m.body| - q, LD_MAX);
    assert forall j :: 0 <= j < n ==> s[j] == m.body[q + j];
    SplitLenUnique(s, true, n);
    assert s[..n] == m.body[q..q + n];
    UpdateBody(f, m, q, s[0], n);
    ParseUnfold(f, s, base, offset);
    if q + n < |m.body| {
      assert s[n..] == m.body[q + n..] + "\0" + junk;
      ParseBody(Update(f, s[0], s[..n]).0, m, q + n, junk, base + n, base + n + 1);
    }
  }

  lemma CommandIsLine(c: string)
    requires IsCommand(c)
    ensures HeaderOk(c)
  {
  }

  /**
   parse_frame undoes the serializer: the frame comes back whole, and the offset is exactly the
   length of its encoding, whatever bytes follow.
   */
  lemma ParseEncoded(m: Message, junk: string)
    requires WellFormed(m)
    ensures var r := ParseFrameOf(NEW_FRAME, Encode(m) + junk);
      r.Parsed? && FrameOf(r.frame, m) && r.offset == |Encode(m)|
  {
    hide ParseFrom, Update, FrameOf, ContentlenOf, HeaderTail, HeaderFrame, IsCommand;
    var s, t := Encode(m) + junk, HeaderTail(m, 0);
    CommandIsLine(m.name);
    assert s == (m.name + "\n" + t) + ("\0" + junk);
    StringAssoc(m.name, t, "\0" + junk);
    assert s[|m.name| + 1..] == t + "\0" + junk;
    UpdateName(m, m.name[0]);
    ParseLine(NEW_FRAME, m.name, s, 0, -1);
    ParseHeaders(Update(NEW_FRAME, m.name[0], m.name).0, m, 0, junk, |m.name| + 1, |m.name| + 2);
  }

  /** Once a frame has its name, parsing does not change it. */
  lemma {:induction false} ParseKeepsName(f: Frame, s: string, base: nat, offset: int)
    requires !f.status.Born?
    ensures ParseFrom(f, s, base, offset).frame.name == f.name
    ensures !ParseFrom(f, s, base, offset).frame.status.Born?
    decreases |s|
  {
    hide ParseFrom, SplitLen, MatchCommand;
    if s == "" {
      ParseEnd(f, base, offset);
    } else {
      ParseUnfold(f, s, base, offset);
      var n, k := SplitLen(s, f.status.Body?), StepLen(f, s);
      ParseKeepsName(Update(f, s[0], s[..n]).0, s[Min(k, |s|)..], base + k, base + k + 1);
    }
  }

  /** Where the buffer starts matters only for the offset. */
  lemma {:induction false} ParseShift(f: Frame, s: string, a: nat, x: int, b: nat, y: int)
    ensures var p, q := ParseFrom(f, s, a, x), ParseFrom(f, s, b, y);
      && p.frame == q.frame && p.Parsed? == q.Parsed? && p.Unfinished? == q.Unfinished? && p.Carried? == q.Carried?
      && (p.Parsed? ==> p.offset - a == q.offset - b)
    decreases |s|
  {
    hide ParseFrom, SplitLen, Update;
    if s == "" {
      ParseEnd(f, a, x);
      ParseEnd(f, b, y);
    } else {
      ParseUnfold(f, s, a, x);
      ParseUnfold(f, s, b, y);
      var n, k := SplitLen(s, f.status.Body?), StepLen(f, s);
      ParseShift(Update(f, s[0], s[..n]).0, s[Min(k, |s|)..], a + k, a + k + 1, b + k, b + k + 1);
    }
  }
}
