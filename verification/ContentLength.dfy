/**
 The content-length header (is_contentlen, get_contentlen and frame_update of src/lib/stomp.c):
 which lines set the length of the body, what atoi reads from them, and that every message that a
 client would write is well formed.
 */
module ContentLength {
  import opened Frames

  // ----- Which lines -----

  /** A line sets the length if and only if something follows the literal prefix. */
  lemma LineSets(contentlen: int, line: string, v: string)
    ensures v != "" ==> NextContentlen(contentlen, "content-length:" + v) == Atoi(v)
    ensures !("content-length:" < line) ==> NextContentlen(contentlen, line) == contentlen
  {
    var h := "content-length:" + v;
    assert h[15..] == v;
  }

  /** In the header state a line with that prefix sets contentlen, and any other line leaves it as it was. */
  lemma HeaderSets(f: Frame, first: char, line: string, v: string)
    requires f.status.Header? && !IsNewline(first)
    ensures v != "" ==> Update(f, first, "content-length:" + v).0.contentlen == Atoi(v)
    ensures !("content-length:" < line) ==> Update(f, first, line).0.contentlen == f.contentlen
  {
    hide NextContentlen;
    LineSets(f.contentlen, line, v);
  }

  ghost predicate Sets(h: string) {
    "content-length:" < h
  }

  /** The last such header counts; without one there is no content length. */
  lemma {:induction false} LastCounts(pre: seq<string>, v: string, post: seq<string>)
    requires v != "" && forall h :: h in post ==> !Sets(h)
    ensures ContentlenOf(pre + ["content-length:" + v] + post) == Atoi(v)
    decreases |post|
  {
    hide NextContentlen;
    var hs := pre + ["content-length:" + v] + post;
    var n := |hs| - 1;
    LineSets(ContentlenOf(hs[..n]), hs[n], v);
    if post != [] {
      var m := |post| - 1;
      assert hs[..n] == pre + ["content-length:" + v] + post[..m] && hs[n] == post[m];
      assert !Sets(post[m]);
      LastCounts(pre, v, post[..m]);
    }
  }

  lemma {:induction false} NoneCounts(hs: seq<string>)
    requires forall h :: h in hs ==> !Sets(h)
    ensures ContentlenOf(hs) == -1
  {
    hide NextContentlen;
    if hs != [] {
      var n := |hs| - 1;
      LineSets(ContentlenOf(hs[..n]), hs[n], "");
      assert !Sets(hs[n]);
      NoneCounts(hs[..n]);
    }
  }

  // ----- atoi -----

  ghost predicate Digits(s: string) {
    forall i :: 0 <= i < |s| ==> '0' <= s[i] <= '9'
  }

  ghost predicate Blanks(s: string) {
    forall i :: 0 <= i < |s| ==> s[i] == ' ' || 9 as char <= s[i] <= 13 as char
  }

  /** The value of a numeral, from its last digit. */
  function Number(s: string): nat
    requires Digits(s)
  {
    if s == "" then 0 else 10 * Number(s[..|s| - 1]) + (s[|s| - 1] - '0') as nat
  }

  lemma {:induction false} DigitsSnoc(s: string, d: char, acc: nat)
    requires Digits(s) && '0' <= d <= '9'
    ensures DigitsFrom(s + [d], acc) == 10 * DigitsFrom(s, acc) + (d - '0') as nat
  {
    if s == "" {
      assert (s + [d])[1..] == "";
    } else {
      assert (s + [d])[1..] == s[1..] + [d];
      DigitsSnoc(s[1..], d, 10 * acc + (s[0] - '0') as nat);
    }
  }

  lemma {:induction false} DigitsNumber(s: string)
    requires Digits(s)
    ensures DigitsFrom(s, 0) == Number(s)
  {
    if s != "" {
      var n := |s| - 1;
      DigitsNumber(s[..n]);
      DigitsSnoc(s[..n], s[n], 0);
      assert s == s[..n] + [s[n]];
    }
  }

  lemma {:induction false} DigitsStop(s: string, rest: string, acc: nat)
    requires Digits(s) && (rest == "" || !('0' <= rest[0] <= '9'))
    ensures DigitsFrom(s + rest, acc) == DigitsFrom(s, acc)
  {
    if s == "" {
      assert s + rest == rest;
    } else {
      assert (s + rest)[1..] == s[1..] + rest;
      DigitsStop(s[1..], rest, 10 * acc + (s[0] - '0') as nat);
    }
  }

  lemma {:induction false} SkipBlanks(blanks: string, rest: string)
    requires Blanks(blanks)
    ensures Atoi(blanks + rest) == Atoi(rest)
  {
    if blanks == "" {
      assert blanks + rest == rest;
    } else {
      assert (blanks + rest)[1..] == blanks[1..] + rest;
      SkipBlanks(blanks[1..], rest);
    }
  }

  /** atoi skips blanks, takes one sign, and reads digits up to the first other byte. */
  lemma AtoiReads(blanks: string, sign: string, digits: string, rest: string)
    requires Blanks(blanks) && sign in {"", "-", "+"} && Digits(digits)
    requires rest == "" || !('0' <= rest[0] <= '9')
    requires sign == "" && digits == "" && rest != "" ==> !Blanks(rest[..1]) && rest[0] != '-' && rest[0] != '+'
    ensures Atoi(blanks + (sign + (digits + rest))) == if sign == "-" then 0 - Number(digits) else Number(digits)
  {
    var s := sign + (digits + rest);
    SkipBlanks(blanks, s);
    DigitsStop(digits, rest, 0);
    DigitsNumber(digits);
    if sign == "" {
      assert s == digits + rest;
      assert rest != "" ==> rest[..1][0] == rest[0];
    } else {
      assert s[1..] == digits + rest && s[0] == sign[0];
    }
  }

  // ----- Messages as clients write them -----

  function Decimal(n: nat): (s: string)
    ensures s != "" && Digits(s) && Number(s) == n
  {
    if n < 10 then ['0' + n as char]
    else
      var s := Decimal(n / 10) + ['0' + (n % 10) as char];
      assert s[..|s| - 1] == Decimal(n / 10);
      s
  }

  /** atoi reads back what was written in decimal. */
  lemma AtoiDecimal(blanks: string, n: nat)
    requires Blanks(blanks)
    ensures Atoi(blanks + Decimal(n)) == n
  {
    var s := Decimal(n);
    AtoiReads(blanks, "", s, "");
    assert blanks + ("" + (s + "")) == blanks + s;
  }

  /**
   A command, header lines, a content-length header in decimal anywhere among them, of which it is
   the last, and a body without NUL are well formed.
   */
  lemma ClientMessage(name: string, pre: seq<string>, blanks: string, post: seq<string>, body: string)
    requires IsCommand(name) && BodyOk(body) && Blanks(blanks)
    requires (forall h :: h in pre ==> HeaderOk(h)) && (forall h :: h in post ==> HeaderOk(h) && !Sets(h))
    requires HeaderOk("content-length:" + (blanks + Decimal(|body|)))
    ensures WellFormed(Message(name, pre + ["content-length:" + (blanks + Decimal(|body|))] + post, body))
  {
    hide IsCommand, Decimal, HeaderOk, Atoi, Blanks, Digits, Sets, ContentlenOf;
    var v := blanks + Decimal(|body|);
    AtoiDecimal(blanks, |body|);
    LastCounts(pre, v, post);
    AllOk(pre, "content-length:" + v, post);
  }

  lemma AllOk(pre: seq<string>, h: string, post: seq<string>)
    requires HeaderOk(h) && (forall x :: x in pre ==> HeaderOk(x)) && (forall x :: x in post ==> HeaderOk(x))
    ensures var hs := pre + [h] + post; forall i :: 0 <= i < |hs| ==> HeaderOk(hs[i])
  {
    hide HeaderOk;
  }
}
