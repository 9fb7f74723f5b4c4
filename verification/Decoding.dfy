/** The decoder as a plain loop that reads one tag a turn, and the laws that relate it
    to serialization and merging. The optimised loop is proved equal to this one in
    module Parser. */
module Decoding {
  import opened Wire
  import opened Fields
  import opened Message

  /** How a decode ends. CleanEnd is the end of input where a tag was due. Stopped is
      also a success: a zero or malformed tag (tag 0) or an end-group tag. Failed names
      the tag whose field could not be read. */
  datatype Outcome = CleanEnd | Stopped(tag: uint32) | Failed(tag: uint32)

  /** On failure msg is the message before the failing record and used the bytes before it. */
  datatype Decoded = Decoded(outcome: Outcome, msg: Msg, used: nat)

  function Decode(m: Msg, s: Bytes): (r: Decoded)
    ensures r.used <= |s|
    decreases |s|
  {
    match ReadRecord(s)
    case Got(f, n) => After(n, Decode(Apply(m, f), s[n..]))
    case Fail => Decoded(Ending(s), m, EndingUse(s))
  }

  /** The result of a decode that starts n bytes further on. */
  function After(n: nat, r: Decoded): Decoded {
    r.(used := n + r.used)
  }

  /** Why no further record is read from s. */
  function Ending(s: Bytes): Outcome {
    if s == [] then CleanEnd
    else
      match ReadVarint32(s)
      case Fail => Stopped(0)
      case Got(tag, _) => if Ends(tag) then Stopped(tag) else Failed(tag)
  }

  /** A zero or end-group tag is consumed; a malformed one is not. */
  function EndingUse(s: Bytes): (n: nat)
    ensures n <= |s|
  {
    match ReadVarint32(s)
    case Fail => 0
    case Got(tag, n) => if Ends(tag) then n else 0
  }

  // ------------------------------------------------- the records of an input

  /** The records the decoder reads from s, up to wherever it ends. */
  function ReadRecords(s: Bytes): (fs: seq<Field>)
    decreases |s|
  {
    match ReadRecord(s)
    case Got(f, n) => [f] + ReadRecords(s[n..])
    case Fail => []
  }

  /** On every input, however it is written and however it ends, the decoder applies just
      these records in order; where and how it ends does not depend on the message. */
  lemma {:induction false} DecodeAppliesRecords(m: Msg, s: Bytes)
    ensures Decode(m, s).msg == ApplyAll(m, ReadRecords(s))
    ensures Decode(m, s) == Decode(EMPTY, s).(msg := Decode(m, s).msg)
    decreases |s|
  {
    match ReadRecord(s)
    case Got(f, n) =>
      DecodeAppliesRecords(Apply(m, f), s[n..]);
      DecodeAppliesRecords(Apply(EMPTY, f), s[n..]);
      assert ([f] + ReadRecords(s[n..]))[1..] == ReadRecords(s[n..]);
    case Fail =>
  }

  lemma {:induction false} ReadRecordsWellFormed(s: Bytes)
    ensures AllWellFormed(ReadRecords(s))
    decreases |s|
  {
    match ReadRecord(s)
    case Got(f, n) =>
      ReadRecordWellFormed(s);
      ReadRecordsWellFormed(s[n..]);
      assert ([f] + ReadRecords(s[n..]))[1..] == ReadRecords(s[n..]);
    case Fail =>
  }

  /** Written records read back as they are. */
  lemma {:induction false} ReadRecordsInverse(fs: seq<Field>)
    requires AllWellFormed(fs)
    ensures ReadRecords(EncodeFields(fs)) == fs
  {
    if fs == [] {
      assert ReadRecord([]).Fail?;
    } else {
      var after := EncodeFields(fs[1..]);
      ReadRecordInverse(fs[0], after);
      assert (EncodeField(fs[0]) + after)[|EncodeField(fs[0])|..] == after;
      ReadRecordsInverse(fs[1..]);
    }
  }

  /** All of s is one record. */
  predicate OneRecord(s: Bytes) {
    ReadRecord(s).Got? && ReadRecord(s).used == |s|
  }

  lemma DecodeOneRecord(m: Msg, s: Bytes, rest: Bytes)
    requires OneRecord(s)
    ensures Decode(m, s + rest) == After(|s|, Decode(Apply(m, ReadRecord(s).value), rest))
  {
    ReadRecordExtend(s, rest);
    assert (s + rest)[|s|..] == rest;
  }

  // ------------------------------------------------ decoding and merging

  /** Decoding into a message is decoding into an empty one and merging the result. */
  lemma {:induction false} DecodeMerge(a: Msg, b: Msg, s: Bytes)
    ensures var r := Decode(b, s); Decode(Merge(a, b), s) == r.(msg := Merge(a, r.msg))
    decreases |s|
  {
    match ReadRecord(s)
    case Got(f, n) =>
      ApplyMerge(a, b, f);
      DecodeMerge(a, Apply(b, f), s[n..]);
    case Fail =>
  }

  lemma DropWithin(x: Bytes, y: Bytes, n: nat)
    requires n <= |x|
    ensures (x + y)[n..] == x[n..] + y
  {
  }

  /** A cleanly decoded prefix leaves the decoder exactly where it would start afresh. */
  lemma {:induction false} DecodeAppend(m: Msg, x: Bytes, y: Bytes)
    requires Decode(m, x).outcome == CleanEnd
    ensures Decode(m, x + y) == After(|x|, Decode(Decode(m, x).msg, y))
    ensures Decode(m, x).used == |x|
    decreases |x|
  {
    match ReadRecord(x)
    case Got(f, n) =>
      ReadRecordExtend(x, y);
      DropWithin(x, y, n);
      DecodeAppend(Apply(m, f), x[n..], y);
    case Fail => assert x + y == y;
  }

  /** Concatenation is merge: bytes y after cleanly decoded bytes x do to the message
      what merging the message decoded from y does, whatever way y ends. */
  lemma ConcatenationIsMerge(x: Bytes, y: Bytes)
    requires Decode(EMPTY, x).outcome == CleanEnd
    ensures var a, b := Decode(EMPTY, x), Decode(EMPTY, y);
            Decode(EMPTY, x + y) == Decoded(b.outcome, Merge(a.msg, b.msg), |x| + b.used)
  {
    var a := Decode(EMPTY, x).msg;
    DecodeAppend(EMPTY, x, y);
    MergeIdentity(a);
    DecodeMerge(a, EMPTY, y);
  }

  // -------------------------------------------------- decoding and writing

  lemma {:induction false} DecodeRecords(m: Msg, fs: seq<Field>, rest: Bytes)
    requires AllWellFormed(fs)
    ensures Decode(m, EncodeFields(fs) + rest)
            == After(|EncodeFields(fs)|, Decode(ApplyAll(m, fs), rest))
    decreases fs
  {
    if fs == [] {
      assert EncodeFields(fs) + rest == rest;
    } else {
      var s, after := EncodeFields(fs) + rest, EncodeFields(fs[1..]) + rest;
      assert s == EncodeField(fs[0]) + after;
      ReadRecordInverse(fs[0], after);
      assert s[|EncodeField(fs[0])|..] == after;
      DecodeRecords(Apply(m, fs[0]), fs[1..], rest);
    }
  }

  lemma DecodeAllRecords(m: Msg, fs: seq<Field>)
    requires AllWellFormed(fs)
    ensures Decode(m, EncodeFields(fs)) == Decoded(CleanEnd, ApplyAll(m, fs), |EncodeFields(fs)|)
  {
    assert EncodeFields(fs) + [] == EncodeFields(fs);
    DecodeRecords(m, fs, []);
  }

  lemma {:induction false} NormalRecordsWellFormed(fs: seq<Field>)
    requires AllNormalUnknown(fs)
    ensures AllWellFormed(fs)
  {
    if fs != [] {
      assert NormalUnknown(fs[0]);
      NormalRecordsWellFormed(fs[1..]);
    }
  }

  lemma OneWellFormed(f: Field)
    ensures AllWellFormed([f]) <==> WellFormed(f)
  {
    assert [f][1..] == [];
  }

  lemma {:induction false} AllWellFormedAppend(a: seq<Field>, b: seq<Field>)
    requires AllWellFormed(a) && AllWellFormed(b)
    ensures AllWellFormed(a + b)
  {
    if a == [] {
      assert a + b == b;
    } else {
      assert (a + b)[1..] == a[1..] + b;
      AllWellFormedAppend(a[1..], b);
    }
  }

  lemma {:induction false} KnownFromWellFormed(m: Msg, k: nat)
    requires 1 <= k <= 8 && Short(m)
    ensures AllWellFormed(KnownFrom(m, k))
    decreases 8 - k
  {
    if k < 8 {
      KnownFromWellFormed(m, k + 1);
      if Get(m, k).Some? {
        OneWellFormed(Get(m, k).value);
      }
      AllWellFormedAppend(AsSeq(Get(m, k)), KnownFrom(m, k + 1));
    }
  }

  lemma RecordsWellFormed(m: Msg)
    requires Normal(m) && Short(m)
    ensures AllWellFormed(Records(m))
  {
    KnownFromWellFormed(m, 1);
    NormalRecordsWellFormed(m.unknown);
    AllWellFormedAppend(KnownRecords(m), m.unknown);
  }

  /** Whatever is decoded, successfully or not, stays normal. */
  lemma {:induction false} DecodeNormal(m: Msg, s: Bytes)
    requires Normal(m)
    ensures Normal(Decode(m, s).msg)
    ensures Short(m) ==> Short(Decode(m, s).msg)
    decreases |s|
  {
    match ReadRecord(s)
    case Got(f, n) =>
      ReadRecordWellFormed(s);
      ApplyNormal(m, f);
      DecodeNormal(Apply(m, f), s[n..]);
    case Fail =>
  }

  /** Decoding a serialization into any message merges the serialized message into it. */
  lemma DecodeEncode(a: Msg, m: Msg)
    requires Normal(m) && Short(m)
    ensures Decode(a, Encode(m)) == Decoded(CleanEnd, Merge(a, m), |Encode(m)|)
  {
    EncodeRecords(m);
    RecordsWellFormed(m);
    DecodeAllRecords(a, Records(m));
    ApplyRecords(m, a);
  }

  /** So the serializations of two messages, one after the other, decode to their merge. */
  lemma EncodingsMerge(a: Msg, b: Msg)
    requires Normal(a) && Short(a) && Normal(b) && Short(b)
    ensures Decode(EMPTY, Encode(a) + Encode(b)).outcome == CleanEnd
    ensures Decode(EMPTY, Encode(a) + Encode(b)).msg == Merge(a, b)
    ensures Decode(EMPTY, Encode(Merge(a, b))).msg == Merge(a, b)
  {
    MergeIdentity(a);
    DecodeEncode(EMPTY, a);
    DecodeAppend(EMPTY, Encode(a), Encode(b));
    DecodeEncode(a, b);
    MergeNormal(a, b);
    RoundTrip(Merge(a, b));
  }

  /** A string of 2^31 bytes or more never comes back. */
  lemma LongStringsAreLost(m: Msg)
    requires !Short(m)
    ensures Decode(EMPTY, Encode(m)).msg != m
  {
    var r := Decode(EMPTY, Encode(m)).msg;
    assert Short(r) by {
      DecodeNormal(EMPTY, Encode(m));
    }
  }

  lemma NormalComesBack(m: Msg)
    requires Normal(m) && Short(m)
    ensures Decode(EMPTY, Encode(m)) == Decoded(CleanEnd, m, |Encode(m)|)
  {
    DecodeEncode(EMPTY, m);
    MergeIdentity(m);
  }

  /** The round trip, with its exact condition: a message comes back from its
      serialization if and only if it is normal and no present string is 2^31 bytes or
      longer, and then with a clean end. */
  lemma RoundTrip(m: Msg)
    ensures Decode(EMPTY, Encode(m)).msg == m <==> Normal(m) && Short(m)
    ensures Decode(EMPTY, Encode(m)) == Decoded(CleanEnd, m, |Encode(m)|) <==> Normal(m) && Short(m)
  {
    DecodeNormal(EMPTY, Encode(m));
    if Normal(m) && Short(m) {
      NormalComesBack(m);
    }
  }

  /** Normalisation is idempotent: whatever a decode yields, however it ends, is written as
      bytes that decode to the same message, and so re-encode to themselves. */
  lemma NormalisationIdempotent(x: Bytes)
    ensures var m := Decode(EMPTY, x).msg;
            && Decode(EMPTY, Encode(m)) == Decoded(CleanEnd, m, |Encode(m)|)
            && Encode(Decode(EMPTY, Encode(m)).msg) == Encode(m)
  {
    DecodeNormal(EMPTY, x);
    NormalComesBack(Decode(EMPTY, x).msg);
  }

  /** Different normal short messages have different serializations. */
  lemma EncodeInjective(a: Msg, b: Msg)
    requires Normal(a) && Short(a) && Normal(b) && Short(b)
    requires Encode(a) == Encode(b)
    ensures a == b
  {
    RoundTrip(a);
    RoundTrip(b);
  }
}
