/** The frames that carry serialized messages over a connection: a big-endian length, the
    tag "mRpc", the message and a checksum. Says what the receiving loop makes of any
    bytes, and exactly when a stream of frames survives being delivered in pieces. */
module Frames {
  import opened Wire
  import opened Fields
  import opened Message
  import opened Decoding

  const HEADER_LEN := 4
  const CHECKSUM_LEN := 4
  const TAG: Bytes := [0x6d, 0x52, 0x70, 0x63]
  const MIN_MESSAGE_LEN := |TAG| + CHECKSUM_LEN
  const MAX_MESSAGE_LEN := 64 * 1024 * 1024

  datatype CodecError = InvalidLength | UnknownMessageType | ParseError

  lemma SplitConcat(a: Bytes, b: Bytes)
    ensures (a + b)[..|a|] == a && (a + b)[|a|..] == b
  {
  }

  lemma CutConcat(a: Bytes, b: Bytes, n: nat)
    requires |a| <= n <= |a| + |b|
    ensures (a + b)[..n] == a + b[..n - |a|] && (a + b)[n..] == b[n - |a|..]
  {
  }

  // --------------------------------------------------- network byte order

  function ToNetwork(e: int32): (s: Bytes)
    ensures |s| == 4
  {
    var n := e % TWO_32;
    [n / 256 / 256 / 256, n / 256 / 256 % 256, n / 256 % 256, n % 256]
  }

  function FromNetwork(s: Bytes): (e: int32)
    requires |s| == 4
  {
    var b0: int, b1: int, b2: int, b3: int := s[0], s[1], s[2], s[3];
    ToInt32(((b0 * 256 + b1) * 256 + b2) * 256 + b3)
  }

  lemma NetworkInverse(e: int32)
    ensures FromNetwork(ToNetwork(e)) == e
  {
    var n := e % TWO_32;
    DivMod256(n);
    DivMod256(n / 256);
    DivMod256(n / 256 / 256);
    assert ToInt32(n) == e;
  }

  function BigEndian(s: Bytes): (n: int)
    requires |s| == 4
    ensures 0 <= n < 0x1_0000_0000
  {
    var b0: int, b1: int, b2: int := s[0], s[1], s[2];
    b0 * 0x100_0000 + b1 * 0x1_0000 + b2 * 0x100 + s[3]
  }

  lemma DivThrice(n: nat)
    ensures n / 256 / 256 == n / 0x1_0000 && n / 256 / 256 / 256 == n / 0x100_0000
  {
  }

  /** Written with the most significant byte first, in two's complement. */
  lemma WrittenOrder(e: int32)
    ensures var n := if e < 0 then 0x1_0000_0000 + e else e;
            ToNetwork(e) == [n / 0x100_0000, n / 0x1_0000 % 256, n / 0x100 % 256, n % 256]
  {
    var n := if e < 0 then 0x1_0000_0000 + e else e;
    assert e % TWO_32 == n;
    DivThrice(n);
  }

  /** And read so. */
  lemma ReadOrder(s: Bytes)
    requires |s| == 4
    ensures FromNetwork(s) == if BigEndian(s) < 0x8000_0000 then BigEndian(s) else BigEndian(s) - 0x1_0000_0000
  {
    var b0: int, b1: int, b2: int := s[0], s[1], s[2];
    assert ((b0 * 256 + b1) * 256 + b2) * 256 + s[3] == BigEndian(s);
    ToInt32Cases(BigEndian(s));
  }

  lemma ToInt32Cases(n: nat)
    requires n < 0x1_0000_0000
    ensures ToInt32(n) == if n < 0x8000_0000 then n else n - 0x1_0000_0000
  {
  }

  lemma DigitsOf(n: int, a: byte, b: byte, c: byte, d: byte)
    requires var x: int, y: int, z: int := a, b, c; n == x * 0x100_0000 + y * 0x1_0000 + z * 0x100 + d
    ensures n / 0x100_0000 == a && n / 0x1_0000 % 256 == b && n / 0x100 % 256 == c && n % 256 == d
  {
    var x: int, y: int, z: int := a, b, c;
    assert n / 0x1_0000 == x * 0x100 + y;
    assert n / 0x100 == x * 0x1_0000 + y * 0x100 + z;
  }

  /** And back: four bytes are what their number is written as. */
  lemma NetworkOutverse(s: Bytes)
    requires |s| == 4
    ensures ToNetwork(FromNetwork(s)) == s
  {
    ReadOrder(s);
    WrittenOrder(FromNetwork(s));
    DigitsOf(BigEndian(s), s[0], s[1], s[2], s[3]);
  }

  lemma DivMod256(n: nat)
    ensures n / 256 * 256 + n % 256 == n
  {
  }

  // -------------------------------------------------------------- checksum

  const ADLER_BASE := 65521

  /** Adler-32 continued from the two running sums. */
  function AdlerFrom(a: nat, b: nat, s: Bytes): uint32
    requires a < ADLER_BASE && b < ADLER_BASE
    decreases s
  {
    if s == [] then b * 0x1_0000 + a
    else
      var next := (a + s[0]) % ADLER_BASE;
      AdlerFrom(next, (b + next) % ADLER_BASE, s[1..])
  }

  function Sum(s: Bytes): nat {
    if s == [] then 0 else Sum(s[..|s| - 1]) + s[|s| - 1]
  }

  /** The sum of one more than the sum of each prefix but the empty one. */
  function SumOfSums(s: Bytes): nat {
    if s == [] then 0 else SumOfSums(s[..|s| - 1]) + 1 + Sum(s)
  }

  lemma AdlerStep(s: Bytes, b: byte)
    ensures var a, next := (1 + Sum(s)) % ADLER_BASE, (1 + Sum(s + [b])) % ADLER_BASE;
            && next == (a + b) % ADLER_BASE
            && SumOfSums(s + [b]) % ADLER_BASE == (SumOfSums(s) % ADLER_BASE + next) % ADLER_BASE
  {
    assert (s + [b])[..|s|] == s;
    SumMod(1 + Sum(s), b);
    SumMod(SumOfSums(s), 1 + Sum(s + [b]));
    SumMod(1 + Sum(s + [b]), SumOfSums(s) % ADLER_BASE);
  }

  lemma SumMod(x: nat, y: nat)
    ensures (x + y) % ADLER_BASE == (x % ADLER_BASE + y) % ADLER_BASE
  {
  }

  lemma Shift(s: Bytes, t: Bytes)
    requires t != []
    ensures s + t == (s + [t[0]]) + t[1..]
  {
  }

  lemma {:induction false} AdlerRun(s: Bytes, t: Bytes, whole: Bytes, a: nat, b: nat)
    requires whole == s + t && a == (1 + Sum(s)) % ADLER_BASE && b == SumOfSums(s) % ADLER_BASE
    ensures AdlerFrom(a, b, t) == SumOfSums(whole) % ADLER_BASE * 0x1_0000 + (1 + Sum(whole)) % ADLER_BASE
    decreases t
  {
    if t == [] {
      assert s == whole;
    } else {
      var next := (a + t[0]) % ADLER_BASE;
      AdlerStep(s, t[0]);
      Shift(s, t);
      AdlerRun(s + [t[0]], t[1..], whole, next, (b + next) % ADLER_BASE);
    }
  }

  lemma AdlerIs(s: Bytes)
    ensures AdlerFrom(1, 0, s) == SumOfSums(s) % 65521 * 0x1_0000 + (1 + Sum(s)) % 65521
  {
    assert [] + s == s;
    AdlerRun([], s, s, 1, 0);
  }

  function Checksum(s: Bytes): int32 {
    ToInt32(AdlerFrom(1, 0, s))
  }

  /** The checksum in numbers: the low half is one more than the sum of the bytes, the high
      half the sum of the low halves after each byte, both modulo 65521. */
  lemma ChecksumIs(s: Bytes)
    ensures var n := SumOfSums(s) % 65521 * 0x1_0000 + (1 + Sum(s)) % 65521;
            Checksum(s) == if n < 0x8000_0000 then n else n - 0x1_0000_0000
  {
    AdlerIs(s);
    ToInt32Cases(AdlerFrom(1, 0, s));
  }

  // -------------------------------------------------------------- sending

  /** A frame without its length. */
  function Body(p: Bytes): (s: Bytes)
    ensures |s| == |p| + MIN_MESSAGE_LEN
  {
    TAG + p + ToNetwork(Checksum(TAG + p))
  }

  /** Length, tag, payload and checksum. */
  function Frame(payload: Bytes): (s: Bytes)
    requires |payload| + MIN_MESSAGE_LEN < TWO_31
    ensures |s| == HEADER_LEN + MIN_MESSAGE_LEN + |payload|
  {
    ToNetwork(|payload| + MIN_MESSAGE_LEN) + Body(payload)
  }

  // ------------------------------------------------------------- receiving

  /** One call of the receiving loop: the payloads handed to the parser and on to the
      message callback, the bytes left in the buffer, and the error reported, if any. */
  datatype Received = Received(payloads: seq<Bytes>, rest: Bytes, error: Option<CodecError>)

  /** The check of a complete frame without its length: a wrong checksum is reported as an
      unknown message type and a wrong tag as a parse error. A payload that does not parse
      is no error here. */
  function CheckFrame(s: Bytes): Option<CodecError>
    requires |s| >= MIN_MESSAGE_LEN
  {
    if FromNetwork(s[|s| - CHECKSUM_LEN..]) != Checksum(s[..|s| - CHECKSUM_LEN]) then Some(UnknownMessageType)
    else if s[..|TAG|] != TAG then Some(ParseError)
    else None
  }

  function PayloadOf(s: Bytes): Bytes
    requires |s| >= MIN_MESSAGE_LEN
  {
    s[|TAG|..|s| - CHECKSUM_LEN]
  }

  /** A length is refused when it is too large as a signed or too small as an unsigned
      number, so a negative one is not refused: it is waited for. */
  predicate LengthRefused(len: int32) {
    len > MAX_MESSAGE_LEN || len % TWO_32 < MIN_MESSAGE_LEN
  }

  /** What one turn of the loop meets. */
  datatype Turn =
    | Idle
    | Stuck(after: Bytes, error: Option<CodecError>)
    | Accepted(payload: Bytes, after: Bytes)

  /** What the bytes behind a length amount to. */
  function TurnAfter(len: int32, after: Bytes): (t: Turn)
    ensures t.Accepted? ==> |t.after| <= |after|
  {
    var n := len % TWO_32;
    if LengthRefused(len) then Stuck(after, Some(InvalidLength))
    else if |after| < n then Stuck(after, None)
    else CheckedTurn(after[..n], after[n..], after)
  }

  /** A frame is taken out of the buffer only when it has passed the check. */
  function CheckedTurn(frame: Bytes, rest: Bytes, after: Bytes): Turn
    requires |frame| >= MIN_MESSAGE_LEN
  {
    match CheckFrame(frame)
    case Some(e) => Stuck(after, Some(e))
    case None => Accepted(PayloadOf(frame), rest)
  }

  /** A turn is taken while a length and the smallest frame are there. The length is taken
      out of the buffer before it is known whether the whole frame has arrived. */
  function NextTurn(buf: Bytes): (t: Turn)
    ensures t.Accepted? ==> |t.after| < |buf|
  {
    if |buf| < MIN_MESSAGE_LEN + HEADER_LEN then Idle
    else TurnAfter(FromNetwork(buf[..HEADER_LEN]), buf[HEADER_LEN..])
  }

  function Receive(buf: Bytes): (r: Received)
    decreases |buf|
  {
    match NextTurn(buf)
    case Idle => Received([], buf, None)
    case Stuck(after, error) => Received([], after, error)
    case Accepted(payload, after) => Deliver([payload], Receive(after))
  }

  function Deliver(payloads: seq<Bytes>, r: Received): Received {
    r.(payloads := payloads + r.payloads)
  }

  /** Exactly which lengths are refused; the smallest possible frame is eight bytes. */
  lemma RefusedLengths(len: int32)
    ensures LengthRefused(len) <==> len > 0x400_0000 || 0 <= len < 8
  {
  }

  lemma NegativeLength(len: int32)
    requires len < 0
    ensures len % TWO_32 >= TWO_31 && !LengthRefused(len)
  {
    assert len % TWO_32 == len + TWO_32;
  }

  /** So a negative length is silently taken out of the buffer, however small the rest is. */
  lemma NegativeLengthWaits(len: int32, after: Bytes)
    requires len < 0 && 8 <= |after| < TWO_31
    ensures Receive(ToNetwork(len) + after) == Received([], after, None)
  {
    NetworkInverse(len);
    SplitConcat(ToNetwork(len), after);
    NegativeLength(len);
    Starve(ToNetwork(len) + after, ToNetwork(len), len, after);
  }

  /** What a turn does when the rest of the frame is not there yet. */
  lemma Starve(buf: Bytes, head: Bytes, len: int32, after: Bytes)
    requires |buf| >= 12 && buf[..HEADER_LEN] == head && buf[HEADER_LEN..] == after && FromNetwork(head) == len
    requires !LengthRefused(len) && |after| < len % TWO_32
    ensures Receive(buf) == Received([], after, None)
  {
    assert NextTurn(buf) == Stuck(after, None);
  }

  // ------------------------------------------------------ whole frames

  predicate Fits(payload: Bytes) {
    |payload| + MIN_MESSAGE_LEN <= MAX_MESSAGE_LEN
  }

  predicate AllFit(ps: seq<Bytes>) {
    forall i :: 0 <= i < |ps| ==> Fits(ps[i])
  }

  function FrameAll(ps: seq<Bytes>): (s: Bytes)
    requires AllFit(ps)
  {
    if ps == [] then [] else Frame(ps[0]) + FrameAll(ps[1..])
  }

  /** A complete frame at the front of the buffer is accepted. */
  lemma AcceptFrame(p: Bytes, rest: Bytes)
    requires Fits(p)
    ensures NextTurn(Frame(p) + rest) == Accepted(p, rest)
  {
    var head, body := ToNetwork(|Body(p)|), Body(p);
    NetworkInverse(|body|);
    ConcatAssociative(head, body, rest);
    SplitConcat(head, body + rest);
    TurnOnWhole(body, rest);
    FrameChecks(p);
  }

  lemma TurnOnWhole(frame: Bytes, rest: Bytes)
    requires MIN_MESSAGE_LEN <= |frame| <= MAX_MESSAGE_LEN
    ensures TurnAfter(|frame|, frame + rest) == CheckedTurn(frame, rest, frame + rest)
  {
    SplitConcat(frame, rest);
  }

  /** A frame byte by byte. */
  lemma FrameLayout(p: Bytes)
    requires |p| + 8 < 0x8000_0000
    ensures var checked: Bytes := [0x6d, 0x52, 0x70, 0x63] + p;
            Frame(p) == ToNetwork(|p| + 8) + (checked + ToNetwork(Checksum(checked)))
  {
  }

  /** A frame without its length passes the check only if it is laid out as one. */
  lemma CheckedIsBody(s: Bytes)
    requires |s| >= 8 && CheckFrame(s) == None
    ensures s == Body(PayloadOf(s))
  {
    var n := |s| - 4;
    assert s == s[..n] + s[n..];
    assert s[..n] == TAG + PayloadOf(s);
    NetworkOutverse(s[n..]);
  }

  /** Accepted is exactly a frame of acceptable length at the front of the buffer. */
  lemma AcceptedIsFrame(buf: Bytes, p: Bytes, rest: Bytes)
    requires |buf| < TWO_31
    ensures NextTurn(buf) == Accepted(p, rest) <==> Fits(p) && buf == Frame(p) + rest
  {
    if Fits(p) && buf == Frame(p) + rest {
      AcceptFrame(p, rest);
    } else if NextTurn(buf) == Accepted(p, rest) {
      TakenIsFrame(buf, p, rest);
      assert false;
    }
  }

  lemma TakenAfter(len: int32, after: Bytes, p: Bytes, rest: Bytes)
    requires |after| < TWO_31 && TurnAfter(len, after) == Accepted(p, rest)
    ensures 8 <= len <= MAX_MESSAGE_LEN && |p| + 8 == len && after == Body(p) + rest
  {
    assert len >= 0;
    CheckedIsBody(after[..len]);
    assert after == after[..len] + after[len..];
  }

  lemma TakenIsFrame(buf: Bytes, p: Bytes, rest: Bytes)
    requires |buf| < TWO_31 && NextTurn(buf) == Accepted(p, rest)
    ensures Fits(p) && buf == Frame(p) + rest
  {
    var len := FromNetwork(buf[..4]);
    TakenAfter(len, buf[4..], p, rest);
    NetworkOutverse(buf[..4]);
    assert buf == buf[..4] + buf[4..];
    ConcatAssociative(ToNetwork(len), Body(p), rest);
  }

  /** Why a complete frame f of acceptable length is refused: its last four bytes are not
      the checksum of the others, or they are and it does not begin with the tag. */
  lemma RefusedFrames(f: Bytes, rest: Bytes)
    requires 8 <= |f| <= 0x400_0000
    ensures var sum := FromNetwork(f[|f| - 4..]) == Checksum(f[..|f| - 4]);
            NextTurn(ToNetwork(|f|) + (f + rest))
            == if !sum then Stuck(f + rest, Some(UnknownMessageType))
               else if f[..4] != [0x6d, 0x52, 0x70, 0x63] then Stuck(f + rest, Some(ParseError))
               else Accepted(f[4..|f| - 4], rest)
  {
    NetworkInverse(|f|);
    SplitConcat(ToNetwork(|f|), f + rest);
    TurnOnWhole(f, rest);
  }

  /** What a turn makes of a length before any frame: out of range it is an error, and when
      fewer bytes have arrived, taken as unsigned, the turn waits, without the length. */
  lemma LengthOnly(len: int32, after: Bytes)
    requires 8 <= |after| < 0x8000_0000
    ensures len > 0x400_0000 || 0 <= len < 8 ==>
              NextTurn(ToNetwork(len) + after) == Stuck(after, Some(InvalidLength))
    ensures len < 0 || |after| < len <= 0x400_0000 ==> NextTurn(ToNetwork(len) + after) == Stuck(after, None)
  {
    NetworkInverse(len);
    SplitConcat(ToNetwork(len), after);
    RefusedLengths(len);
    assert len < 0 ==> len % TWO_32 >= TWO_31;
  }

  /** A turn waits for twelve bytes. */
  lemma IdleBelowTwelve(buf: Bytes)
    ensures NextTurn(buf) == Idle <==> |buf| < 12
  {
  }

  lemma {:induction false} ReceiveAll(ps: seq<Bytes>, rest: Bytes)
    requires AllFit(ps)
    ensures Receive(FrameAll(ps) + rest) == Deliver(ps, Receive(rest))
    decreases ps
  {
    if ps == [] {
      assert FrameAll(ps) + rest == rest;
    } else {
      var more := FrameAll(ps[1..]) + rest;
      assert FrameAll(ps) + rest == Frame(ps[0]) + more by {
        ConcatAssociative(Frame(ps[0]), FrameAll(ps[1..]), rest);
      }
      assert NextTurn(FrameAll(ps) + rest) == Accepted(ps[0], more) by {
        AcceptFrame(ps[0], more);
      }
      ReceiveAll(ps[1..], rest);
      DeliverTwice(ps, Receive(rest));
    }
  }

  lemma DeliverAppend(ps: seq<Bytes>, qs: seq<Bytes>, r: Received)
    ensures Deliver(ps, Deliver(qs, r)) == Deliver(ps + qs, r)
  {
    assert ps + (qs + r.payloads) == (ps + qs) + r.payloads;
  }

  lemma DeliverTwice(ps: seq<Bytes>, r: Received)
    requires ps != []
    ensures Deliver([ps[0]], Deliver(ps[1..], r)) == Deliver(ps, r)
  {
    DeliverAppend([ps[0]], ps[1..], r);
    assert [ps[0]] + ps[1..] == ps;
  }

  lemma FrameChecks(p: Bytes)
    ensures CheckFrame(Body(p)) == None && PayloadOf(Body(p)) == p
  {
    var body := Body(p);
    NetworkInverse(Checksum(TAG + p));
    assert body[|body| - CHECKSUM_LEN..] == ToNetwork(Checksum(TAG + p));
    assert body[..|body| - CHECKSUM_LEN] == TAG + p;
    assert body[..|TAG|] == TAG;
    assert (TAG + p)[|TAG|..] == p;
  }

  /** A frame is delivered if and only if its length is not above the limit. */
  lemma DeliveredIfFits(p: Bytes)
    requires |p| + MIN_MESSAGE_LEN < TWO_31
    ensures Receive(Frame(p)) == Received([p], [], None) <==> Fits(p)
  {
    if Fits(p) {
      assert Frame(p) + [] == Frame(p);
      AcceptFrame(p, []);
    } else {
      NetworkInverse(|p| + MIN_MESSAGE_LEN);
      assert Frame(p)[..HEADER_LEN] == ToNetwork(|p| + MIN_MESSAGE_LEN);
    }
  }

  /** What is left of the bytes of a cut frame: all, or from the twelfth on all but the length. */
  function Kept(part: Bytes): Bytes {
    if |part| < 12 then part else part[HEADER_LEN..]
  }

  /** The beginning of a frame delivers nothing; from the twelfth byte on it loses its length. */
  lemma ReceivePartial(p: Bytes, n: nat)
    requires Fits(p) && n < |Frame(p)|
    ensures Receive(Frame(p)[..n])
            == Received([], Kept(Frame(p)[..n]), None)
  {
    if n >= 12 {
      var head, body := ToNetwork(|Body(p)|), Body(p);
      NetworkInverse(|body|);
      CutConcat(head, body, n);
      SplitConcat(head, body[..n - HEADER_LEN]);
      Starve(Frame(p)[..n], head, |body|, body[..n - HEADER_LEN]);
    }
  }

  // ---------------------------------------------- frames in pieces

  /** How many leading frames lie wholly within the first n bytes. */
  function WholeFrames(ps: seq<Bytes>, n: nat): (j: nat)
    requires AllFit(ps)
    ensures j <= |ps|
  {
    if ps == [] || n < |Frame(ps[0])| then 0 else 1 + WholeFrames(ps[1..], n - |Frame(ps[0])|)
  }

  /** The first n bytes without the whole frames. */
  function CutPart(ps: seq<Bytes>, n: nat): (r: Bytes)
    requires AllFit(ps) && n <= |FrameAll(ps)|
  {
    if ps == [] then []
    else if n < |Frame(ps[0])| then Frame(ps[0])[..n]
    else CutPart(ps[1..], n - |Frame(ps[0])|)
  }

  lemma FrameAllPrefix(ps: seq<Bytes>, j: nat)
    requires AllFit(ps) && 1 <= j <= |ps|
    ensures FrameAll(ps[..j]) == Frame(ps[0]) + FrameAll(ps[1..][..j - 1])
  {
    assert ps[..j][1..] == ps[1..][..j - 1];
  }

  lemma {:induction false} CutPrefix(ps: seq<Bytes>, n: nat)
    requires AllFit(ps) && n <= |FrameAll(ps)|
    ensures FrameAll(ps)[..n] == FrameAll(ps[..WholeFrames(ps, n)]) + CutPart(ps, n)
    decreases ps
  {
    var j := WholeFrames(ps, n);
    if ps == [] {
    } else if n < |Frame(ps[0])| {
      assert ps[..0] == [];
      CutWithin(Frame(ps[0]), FrameAll(ps[1..]), n);
    } else {
      var f, m := Frame(ps[0]), n - |Frame(ps[0])|;
      CutPrefix(ps[1..], m);
      CutConcat(f, FrameAll(ps[1..]), n);
      FrameAllPrefix(ps, j);
      ConcatAssociative(f, FrameAll(ps[1..][..j - 1]), CutPart(ps[1..], m));
    }
  }

  lemma {:induction false} CutSuffix(ps: seq<Bytes>, n: nat)
    requires AllFit(ps) && n <= |FrameAll(ps)|
    ensures CutPart(ps, n) + FrameAll(ps)[n..] == FrameAll(ps[WholeFrames(ps, n)..])
    decreases ps
  {
    var j := WholeFrames(ps, n);
    if ps == [] {
    } else if n < |Frame(ps[0])| {
      assert ps[0..] == ps;
      CutWithin(Frame(ps[0]), FrameAll(ps[1..]), n);
    } else {
      CutSuffix(ps[1..], n - |Frame(ps[0])|);
      CutConcat(Frame(ps[0]), FrameAll(ps[1..]), n);
      assert ps[1..][j - 1..] == ps[j..];
    }
  }

  lemma {:induction false} CutInside(ps: seq<Bytes>, n: nat)
    requires AllFit(ps) && n <= |FrameAll(ps)|
    ensures var j, part := WholeFrames(ps, n), CutPart(ps, n);
            if j == |ps| then part == []
            else |part| < |Frame(ps[j])| && part == Frame(ps[j])[..|part|]
    decreases ps
  {
    if ps != [] && n >= |Frame(ps[0])| {
      CutInside(ps[1..], n - |Frame(ps[0])|);
    }
  }

  lemma CutWithin(a: Bytes, b: Bytes, n: nat)
    requires n <= |a|
    ensures (a + b)[..n] == a[..n] && a[..n] + (a + b)[n..] == a + b
  {
  }

  /** What one call makes of the first n bytes of a stream of frames: it delivers the whole
      frames and keeps the cut one, without its length if twelve or more bytes are there. */
  lemma ReceiveCut(ps: seq<Bytes>, n: nat)
    requires AllFit(ps) && n <= |FrameAll(ps)|
    ensures Receive(FrameAll(ps)[..n])
            == Received(ps[..WholeFrames(ps, n)], Kept(CutPart(ps, n)), None)
  {
    var j, part := WholeFrames(ps, n), CutPart(ps, n);
    CutPrefix(ps, n);
    CutInside(ps, n);
    ReceiveAll(ps[..j], part);
    if j < |ps| {
      ReceivePartial(ps[j], |part|);
    }
    assert ps[..j] + [] == ps[..j];
  }

  function Concat(chunks: seq<Bytes>): (s: Bytes) {
    if chunks == [] then [] else chunks[0] + Concat(chunks[1..])
  }

  /** A connection fed with chunks, one call each; an error closes it. */
  function Feed(buf: Bytes, chunks: seq<Bytes>): (r: Received)
    decreases chunks
  {
    if chunks == [] then Received([], buf, None)
    else
      var r := Receive(buf + chunks[0]);
      if r.error.Some? then r else Deliver(r.payloads, Feed(r.rest, chunks[1..]))
  }

  /** No chunk ends behind the eleventh byte of a frame that it does not complete; held
      bytes of the first frame are in the buffer already. */
  predicate SafeCuts(ps: seq<Bytes>, held: nat, chunks: seq<Bytes>)
    requires AllFit(ps) && held + |Concat(chunks)| == |FrameAll(ps)|
    decreases chunks
  {
    chunks == []
    || (var n := held + |chunks[0]|;
        var part := CutPart(ps, n);
        CutSuffix(ps, n);
        |part| < 12 && SafeCuts(ps[WholeFrames(ps, n)..], |part|, chunks[1..]))
  }

  /** A buffer that has lost a length begins with the tag, which no one can read as an
      acceptable length: nothing is ever delivered again. */
  lemma {:induction false} LostForever(buf: Bytes, chunks: seq<Bytes>)
    requires |TAG| <= |buf| && buf[..|TAG|] == TAG
    ensures Feed(buf, chunks).payloads == []
    decreases chunks
  {
    if chunks != [] {
      var next := buf + chunks[0];
      assert next[..HEADER_LEN] == TAG;
      assert LengthRefused(FromNetwork(TAG));
      if |next| < MIN_MESSAGE_LEN + HEADER_LEN {
        LostForever(next, chunks[1..]);
      }
    }
  }

  lemma SplitAt(held: Bytes, chunk: Bytes, tail: Bytes, whole: Bytes)
    requires held + (chunk + tail) == whole
    ensures var n := |held| + |chunk|; n <= |whole| && whole[..n] == held + chunk && whole[n..] == tail
  {
    ConcatAssociative(held, chunk, tail);
    SplitConcat(held + chunk, tail);
  }

  /** What is left of a stream after a chunk. */
  lemma StepFits(ps: seq<Bytes>, held: Bytes, chunks: seq<Bytes>)
    requires AllFit(ps) && chunks != [] && held + Concat(chunks) == FrameAll(ps)
    ensures var n := |held| + |chunks[0]|;
            && n <= |FrameAll(ps)| && FrameAll(ps)[..n] == held + chunks[0]
            && CutPart(ps, n) + Concat(chunks[1..]) == FrameAll(ps[WholeFrames(ps, n)..])
  {
    SplitAt(held, chunks[0], Concat(chunks[1..]), FrameAll(ps));
    CutSuffix(ps, |held| + |chunks[0]|);
  }

  lemma FeedFirst(held: Bytes, chunks: seq<Bytes>, s: Bytes, payloads: seq<Bytes>, rest: Bytes)
    requires chunks != [] && s == held + chunks[0] && Receive(s) == Received(payloads, rest, None)
    ensures Feed(held, chunks) == Deliver(payloads, Feed(rest, chunks[1..]))
  {
  }

  /** One call on bytes held from before and a chunk of the stream. */
  lemma FeedStep(ps: seq<Bytes>, held: Bytes, chunks: seq<Bytes>, n: nat)
    requires AllFit(ps) && chunks != [] && n <= |FrameAll(ps)| && FrameAll(ps)[..n] == held + chunks[0]
    ensures Feed(held, chunks) == Deliver(ps[..WholeFrames(ps, n)], Feed(Kept(CutPart(ps, n)), chunks[1..]))
  {
    ReceiveCut(ps, n);
    FeedFirst(held, chunks, FrameAll(ps)[..n], ps[..WholeFrames(ps, n)], Kept(CutPart(ps, n)));
  }

  /** So nothing is delivered after a cut behind the eleventh byte of a frame. */
  lemma LostCut(ps: seq<Bytes>, n: nat, chunks: seq<Bytes>)
    requires AllFit(ps) && n <= |FrameAll(ps)| && |CutPart(ps, n)| >= 12
    ensures WholeFrames(ps, n) < |ps|
    ensures Feed(Kept(CutPart(ps, n)), chunks).payloads == []
  {
    CutInside(ps, n);
    LostPart(ps[WholeFrames(ps, n)], CutPart(ps, n));
    LostForever(Kept(CutPart(ps, n)), chunks);
  }

  /** One unsafe cut, and the stream does not arrive completely. */
  lemma UnsafeCut(ps: seq<Bytes>, held: Bytes, chunks: seq<Bytes>, n: nat)
    requires AllFit(ps) && chunks != [] && n <= |FrameAll(ps)| && FrameAll(ps)[..n] == held + chunks[0]
    requires |CutPart(ps, n)| >= 12
    ensures Feed(held, chunks) != Received(ps, [], None)
  {
    FeedStep(ps, held, chunks, n);
    LostCut(ps, n, chunks[1..]);
    DeliverNothing(ps, WholeFrames(ps, n), Feed(Kept(CutPart(ps, n)), chunks[1..]));
  }

  lemma DeliverNothing(ps: seq<Bytes>, j: nat, r: Received)
    requires j < |ps| && r.payloads == []
    ensures Deliver(ps[..j], r) != Received(ps, [], None)
  {
    assert |Deliver(ps[..j], r).payloads| == j;
  }

  /** A safe cut leaves it to the rest of the stream. */
  lemma SafeCut(ps: seq<Bytes>, held: Bytes, chunks: seq<Bytes>, n: nat)
    requires AllFit(ps) && chunks != [] && n <= |FrameAll(ps)| && FrameAll(ps)[..n] == held + chunks[0]
    requires |CutPart(ps, n)| < 12
    ensures Feed(held, chunks) == Received(ps, [], None)
            <==> Feed(CutPart(ps, n), chunks[1..]) == Received(ps[WholeFrames(ps, n)..], [], None)
  {
    FeedStep(ps, held, chunks, n);
    DeliverRest(ps, WholeFrames(ps, n), Feed(CutPart(ps, n), chunks[1..]));
  }

  lemma SafeStep(ps: seq<Bytes>, held: nat, chunks: seq<Bytes>, part: Bytes, rest: seq<Bytes>)
    requires AllFit(ps) && chunks != [] && held + |Concat(chunks)| == |FrameAll(ps)|
    requires var n := held + |chunks[0]|; part == CutPart(ps, n) && rest == ps[WholeFrames(ps, n)..]
    requires |part| + |Concat(chunks[1..])| == |FrameAll(rest)|
    ensures SafeCuts(ps, held, chunks) <==> |part| < 12 && SafeCuts(rest, |part|, chunks[1..])
  {
  }

  /** A stream of frames delivered in chunks arrives completely and without error if and
      only if the cuts are safe. */
  lemma {:induction false} DeliveredInPieces(ps: seq<Bytes>, held: Bytes, chunks: seq<Bytes>)
    requires AllFit(ps) && |held| < 12 && held + Concat(chunks) == FrameAll(ps)
    ensures Feed(held, chunks) == Received(ps, [], None) <==> SafeCuts(ps, |held|, chunks)
    decreases chunks
  {
    if chunks == [] {
      NothingToFeed(ps, held);
    } else {
      var n := |held| + |chunks[0]|;
      StepFits(ps, held, chunks);
      var part, rest := CutPart(ps, n), ps[WholeFrames(ps, n)..];
      SafeStep(ps, |held|, chunks, part, rest);
      if |part| < 12 {
        SafeCut(ps, held, chunks, n);
        DeliveredInPieces(rest, part, chunks[1..]);
      } else {
        UnsafeCut(ps, held, chunks, n);
      }
    }
  }

  lemma NothingToFeed(ps: seq<Bytes>, held: Bytes)
    requires AllFit(ps) && |held| < 12 && held + Concat([]) == FrameAll(ps)
    ensures Feed(held, []) == Received(ps, [], None) && SafeCuts(ps, |held|, [])
  {
    assert held + [] == held;
    assert ps == [];
  }

  lemma DeliverRest(ps: seq<Bytes>, j: nat, r: Received)
    requires j <= |ps|
    ensures Deliver(ps[..j], r) == Received(ps, [], None) <==> r == Received(ps[j..], [], None)
  {
    assert ps[..j] + ps[j..] == ps;
    if ps[..j] + r.payloads == ps {
      assert r.payloads == ps[j..];
    }
  }

  lemma LostPart(p: Bytes, part: Bytes)
    requires Fits(p) && 12 <= |part| <= |Frame(p)| && part == Frame(p)[..|part|]
    ensures Kept(part)[..|TAG|] == TAG
  {
    var head, tail := ToNetwork(|Body(p)|), p + ToNetwork(Checksum(TAG + p));
    CutConcat(head, Body(p), |part|);
    SplitConcat(head, Body(p)[..|part| - HEADER_LEN]);
    ConcatAssociative(TAG, p, ToNetwork(Checksum(TAG + p)));
    CutConcat(TAG, tail, |part| - HEADER_LEN);
    SplitConcat(TAG, tail[..|part| - HEADER_LEN - |TAG|]);
  }
}
