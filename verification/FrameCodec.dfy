/** The codec that frames messages for a connection and takes them out of its read buffer
    again, on the real message objects. */
module FrameCodec {
  import opened Wire
  import opened Fields
  import opened Message
  import opened Decoding
  import opened RpcMessages
  import opened ArrayOutput
  import opened Serializer
  import opened Parser
  import opened Frames
  import Runs
  import Worlds

  class Conn {
    var readBuf: Bytes

    constructor ()
      ensures readBuf == []
    {
      readBuf := [];
    }
  }

  /** Reserves room for the byte size and a checksum, serializes there and commits what was
      written; that is always as much as the byte size announced. */
  method SerializeToBuffer(m: RpcMessage, buf: Bytes) returns (now: Bytes)
    requires m.Valid() && |Encode(m.model)| + CHECKSUM_LEN < TWO_31
    modifies m`cachedSize
    ensures m.Valid() && m.model == old(m.model)
    ensures now == buf + Encode(m.model)
  {
    var size := ByteSize(m);
    var space := new byte[size + CHECKSUM_LEN];
    var end := SerializeWithCachedSizesToArray(m, space, 0);
    assert end == size;
    now := buf + space[..end];
  }

  method FillEmptyBuffer(m: RpcMessage) returns (buf: Bytes)
    requires m.Valid() && |Encode(m.model)| + MIN_MESSAGE_LEN < TWO_31
    modifies m`cachedSize
    ensures m.Valid() && m.model == old(m.model)
    ensures buf == Frame(Encode(m.model))
  {
    buf := SerializeToBuffer(m, TAG);
    buf := buf + ToNetwork(Checksum(buf));
    buf := ToNetwork(|buf|) + buf;
  }

  /** The messages behind the first n are what parsing the payloads makes of new ones. */
  ghost predicate Parsed(msgs: seq<Msg>, n: nat, payloads: seq<Bytes>) {
    && |msgs| == n + |payloads|
    && forall k :: 0 <= k < |payloads| ==> Runs.ParsedTo(EMPTY, payloads[k], msgs[n + k])
  }

  /** Hands one payload to a new message. */
  method ParsePayload(w: Worlds.World, payload: Bytes, ghost n: nat, ghost before: seq<Bytes>)
    requires w.Valid() && Parsed(w.state.msgs, n, before)
    modifies w.repr
    ensures w.Valid() && fresh(w.repr - old(w.repr)) && Parsed(w.state.msgs, n, before + [payload])
  {
    w.Create();
    w.Apply(|w.msgs| - 1, Runs.Parse(|w.msgs| - 1, payload));
  }

  /** Takes a length and, if all of it is there, a frame out of the read buffer. */
  method TakeFrame(conn: Conn) returns (accepted: bool, payload: Bytes, error: Option<CodecError>)
    requires |conn.readBuf| >= MIN_MESSAGE_LEN + HEADER_LEN
    modifies conn
    ensures NextTurn(old(conn.readBuf))
            == if accepted then Accepted(payload, conn.readBuf) else Stuck(conn.readBuf, error)
    ensures accepted ==> error == None
  {
    accepted, payload, error := false, [], None;
    var len := FromNetwork(conn.readBuf[..HEADER_LEN]);
    conn.readBuf := conn.readBuf[HEADER_LEN..];
    if LengthRefused(len) {
      error := Some(InvalidLength);
    } else if |conn.readBuf| >= len % TWO_32 {
      var frame := conn.readBuf[..len % TWO_32];
      error := CheckFrame(frame);
      if error.None? {
        accepted, payload := true, PayloadOf(frame);
        conn.readBuf := conn.readBuf[len % TWO_32..];
      }
    }
  }

  /** From start the loop has handed on the payloads and stands at buf. */
  predicate Handed(start: Bytes, payloads: seq<Bytes>, buf: Bytes) {
    Receive(start) == Deliver(payloads, Receive(buf))
  }

  lemma HandedMore(start: Bytes, payloads: seq<Bytes>, buf: Bytes, payload: Bytes, after: Bytes)
    requires Handed(start, payloads, buf) && NextTurn(buf) == Accepted(payload, after)
    ensures Handed(start, payloads + [payload], after)
  {
    DeliverAppend(payloads, [payload], Receive(after));
  }

  lemma HandedLast(start: Bytes, payloads: seq<Bytes>, buf: Bytes)
    requires Handed(start, payloads, buf) && !NextTurn(buf).Accepted?
    ensures Receive(start) == match NextTurn(buf)
                              case Idle => Received(payloads, buf, None)
                              case Stuck(after, error) => Received(payloads, after, error)
  {
    assert payloads + [] == payloads;
  }

  /** The receiving loop. The messages it hands to the callback are the ones it adds. */
  method OnMessage(conn: Conn, w: Worlds.World) returns (error: Option<CodecError>)
    requires w.Valid() && conn !in w.repr
    modifies conn, w.repr
    ensures w.Valid() && fresh(w.repr - old(w.repr))
    ensures conn.readBuf == Receive(old(conn.readBuf)).rest
    ensures error == Receive(old(conn.readBuf)).error
    ensures Parsed(w.state.msgs, |old(w.state).msgs|, Receive(old(conn.readBuf)).payloads)
  {
    ghost var start, n := conn.readBuf, |w.state.msgs|;
    ghost var payloads: seq<Bytes> := [];
    error := None;
    while |conn.readBuf| >= MIN_MESSAGE_LEN + HEADER_LEN
      invariant w.Valid() && fresh(w.repr - old(w.repr)) && conn !in w.repr && error == None
      invariant Parsed(w.state.msgs, n, payloads)
      invariant Handed(start, payloads, conn.readBuf)
      decreases |conn.readBuf|
    {
      ghost var before := conn.readBuf;
      var accepted, payload;
      accepted, payload, error := TakeFrame(conn);
      if !accepted {
        HandedLast(start, payloads, before);
        return;
      }
      HandedMore(start, payloads, before, payload, conn.readBuf);
      ParsePayload(w, payload, n, payloads);
      payloads := payloads + [payload];
    }
    HandedLast(start, payloads, conn.readBuf);
  }

  // -------------------------------------------------- messages over streams

  function Encodings(ms: seq<Msg>): (ps: seq<Bytes>)
    ensures |ps| == |ms| && forall i :: 0 <= i < |ms| ==> ps[i] == Encode(ms[i])
  {
    seq(|ms|, i requires 0 <= i < |ms| => Encode(ms[i]))
  }

  /** Parsing the payload of a normal short message yields that message, and nothing else. */
  lemma PayloadRoundTrip(m: Msg, after: Msg)
    requires Normal(m) && Short(m) && Runs.ParsedTo(EMPTY, Encode(m), after)
    ensures after == m
  {
    RoundTrip(m);
  }

  /** A tag without its field is no message. */
  lemma CutFieldFails()
    ensures Decode(EMPTY, [9]).outcome == Failed(9)
  {
    assert ReadVarint32([9]) == Got(9, 1);
  }

  /** A payload that does not parse is delivered like any other: here, a record cut short. */
  lemma BrokenPayloadDelivered()
    ensures Receive(Frame([9])) == Received([[9]], [], None) && Decode(EMPTY, [9]).outcome == Failed(9)
  {
    DeliveredIfFits([9]);
    CutFieldFails();
  }

  /** Normal short messages, framed, sent and received in chunks, all arrive unchanged and
      nothing else happens, if and only if the cuts are safe. */
  lemma StreamRoundTrip(ms: seq<Msg>, chunks: seq<Bytes>, received: seq<Msg>)
    requires forall i :: 0 <= i < |ms| ==> Normal(ms[i]) && Short(ms[i]) && Fits(Encode(ms[i]))
    requires Concat(chunks) == FrameAll(Encodings(ms))
    requires var ps := Feed([], chunks).payloads;
             |received| == |ps| && forall i :: 0 <= i < |ps| ==> Runs.ParsedTo(EMPTY, ps[i], received[i])
    ensures var r := Feed([], chunks);
            received == ms && r.rest == [] && r.error == None <==> SafeCuts(Encodings(ms), 0, chunks)
  {
    var ps, r := Encodings(ms), Feed([], chunks);
    assert [] + Concat(chunks) == FrameAll(ps);
    DeliveredInPieces(ps, [], chunks);
    if r == Received(ps, [], None) {
      forall i | 0 <= i < |ms| ensures received[i] == ms[i] {
        PayloadRoundTrip(ms[i], received[i]);
      }
    } else if received == ms && r.rest == [] && r.error == None {
      FeedPrefix(ps, [], chunks);
      assert false;
    }
  }

  /** Whatever the cuts, only leading frames of the stream are ever delivered. */
  lemma {:induction false} FeedPrefix(ps: seq<Bytes>, held: Bytes, chunks: seq<Bytes>)
    requires AllFit(ps) && |held| < 12 && held + Concat(chunks) == FrameAll(ps)
    ensures Feed(held, chunks).payloads <= ps
    decreases chunks
  {
    if chunks != [] {
      var n := |held| + |chunks[0]|;
      StepFits(ps, held, chunks);
      var j, part := WholeFrames(ps, n), CutPart(ps, n);
      FeedStep(ps, held, chunks, n);
      if |part| < 12 {
        FeedPrefix(ps[j..], part, chunks[1..]);
      } else {
        LostCut(ps, n, chunks[1..]);
      }
      JoinPrefix(ps, j, Feed(Kept(part), chunks[1..]).payloads);
    }
  }

  lemma JoinPrefix(ps: seq<Bytes>, j: nat, later: seq<Bytes>)
    requires j <= |ps| && later <= ps[j..]
    ensures ps[..j] + later <= ps
  {
  }
}
