/** The two parsers agree: recv_data and parse_frame build the same frames from the same bytes. */
module ParserAgreement {
  import opened Frames
  import opened Options
  import opened Stomp
  import opened Chunking
  import opened OneCall
  import opened LogParser
  import opened QueueLog
  import opened Seek

  /** The bytes arrived in one call, or in any number of calls and every header line is cut-safe. */
  ghost predicate Arrived(ms: seq<Message>, chunks: seq<string>) {
    Flatten(chunks) == EncodeAll(ms) && (|chunks| == 1 || AllStreamable(ms))
  }

  lemma ArrivedDelivers(ms: seq<Message>, chunks: seq<string>)
    requires AllWellFormed(ms) && Arrived(ms, chunks)
    ensures Delivers(Feed(NEW_CONN, chunks), ms)
  {
    hide Recv, IsStream, Encode, WellFormed, FrameOf;
    EncodedIsStream(ms);
    if |chunks| == 1 {
      assert chunks[1..] == [] && Flatten(chunks[1..]) == "";
      assert Flatten(chunks) == chunks[0];
      OneCallParse(chunks[0], ms);
    } else {
      ChunkedParse(chunks, ms);
    }
  }

  /**
   recv_data and parse_frame build the same frame from a well-formed message: recv_data when it gets
   the bytes in one call, or in any cut if the headers are cut-safe; parse_frame whatever follows.
   */
  lemma ParsersAgree(m: Message, chunks: seq<string>, junk: string)
    requires WellFormed(m) && Arrived([m], chunks)
    ensures var r, p := Feed(NEW_CONN, chunks), ParseFrameOf(NEW_FRAME, Encode(m) + junk);
      r.Done? && |r.conn.bucket| == 1 && p.Parsed? && SameFrame(r.conn.bucket[0], p.frame)
  {
    hide Feed, ParseFrameOf, Encode, WellFormed, Arrived;
    ArrivedDelivers([m], chunks);
    ParseEncoded(m, junk);
  }

  /** A whole log is the same frames, read by the loader or received over the network. */
  lemma LoaderAgrees(ms: seq<Message>, chunks: seq<string>, bufferLen: nat, junk: nat -> string)
    requires bufferLen > 0 && forall p :: |junk(p)| >= bufferLen
    requires AllWellFormed(ms) && Arrived(ms, chunks) && Aligned(ms, bufferLen)
    ensures var r, l := Feed(NEW_CONN, chunks), LoadLog(EncodeAll(ms), 0, bufferLen, junk);
      && r.Done? && l.Loaded? && |r.conn.bucket| == |l.frames| == |ms|
      && forall i :: 0 <= i < |ms| ==> SameFrame(r.conn.bucket[i], l.frames[i])
  {
    hide Feed, LoadLog, Encode, WellFormed, Aligned, Arrived;
    ArrivedDelivers(ms, chunks);
    assert ms[..0] == [] && ms[0..] == ms;
    SeekLoadFull(ms, 0, bufferLen, junk);
  }
}
