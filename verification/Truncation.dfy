/** What every prefix of a serialization decodes to. */
module Truncation {
  import opened Wire
  import opened Fields
  import opened Message
  import opened Decoding
  import opened Laws

  /** How many leading records lie wholly within the first k bytes. */
  function Whole(fs: seq<Field>, k: nat): (j: nat)
    ensures j <= |fs|
  {
    if fs == [] || k < |EncodeField(fs[0])| then 0
    else 1 + Whole(fs[1..], k - |EncodeField(fs[0])|)
  }

  /** The end of record i of a serialization. */
  function Boundary(fs: seq<Field>, i: nat): nat
    requires i <= |fs|
  {
    |EncodeFields(fs[..i])|
  }

  lemma BoundaryStep(fs: seq<Field>, i: nat)
    requires 1 <= i <= |fs|
    ensures Boundary(fs, i) == |EncodeField(fs[0])| + Boundary(fs[1..], i - 1)
  {
    assert fs[..i][1..] == fs[1..][..i - 1];
  }

  lemma {:induction false} WholeAtBoundary(fs: seq<Field>, i: nat)
    requires i <= |fs|
    ensures Whole(fs, Boundary(fs, i)) == i
  {
    if i > 0 {
      BoundaryStep(fs, i);
      WholeAtBoundary(fs[1..], i - 1);
    }
  }

  lemma {:induction false} WholeFits(fs: seq<Field>, k: nat)
    requires k <= |EncodeFields(fs)|
    ensures var j := Whole(fs, k);
            && Boundary(fs, j) <= k
            && (Boundary(fs, j) < k ==> j < |fs| && k < Boundary(fs, j) + |EncodeField(fs[j])|)
  {
    if fs != [] && k >= |EncodeField(fs[0])| {
      BoundaryStep(fs, Whole(fs, k));
      WholeFits(fs[1..], k - |EncodeField(fs[0])|);
    }
  }

  /** How the decoder ends after the first n bytes of a record. */
  function CutEnding(f: Field, n: nat): Outcome {
    if n == 0 then CleanEnd
    else if n < |EncodeVarint(TagOf(f))| then Stopped(0)
    else Failed(TagOf(f))
  }

  /** A record cut short is no record. */
  lemma CutRecord(f: Field, n: nat)
    requires WellFormed(f) && n < |EncodeField(f)|
    ensures ReadRecord(EncodeField(f)[..n]).Fail?
    ensures Ending(EncodeField(f)[..n]) == CutEnding(f, n)
  {
    var s, t := EncodeField(f)[..n], EncodeField(f)[n..];
    assert s + t == EncodeField(f);
    if ReadRecord(s).Got? {
      ReadRecordExtend(s, t);
      assert EncodeField(f) + [] == EncodeField(f);
      ReadRecordInverse(f, []);
      assert false;
    }
    CutTag(f, n);
  }

  lemma CutTag(f: Field, n: nat)
    requires n < |EncodeField(f)|
    ensures ReadVarint32(EncodeField(f)[..n])
            == if n < |EncodeVarint(TagOf(f))| then Fail else Got(TagOf(f), |EncodeVarint(TagOf(f))|)
  {
    var tag, body := EncodeVarint(TagOf(f)), EncodeBody(f);
    if n < |tag| {
      assert (tag + body)[..n] == tag[..n];
      RawVarintCut(TagOf(f), n, MAX_VARINT_BYTES);
    } else {
      assert (tag + body)[..n] == tag + body[..n - |tag|];
      TagInverse(TagOf(f), body[..n - |tag|]);
    }
  }

  /** How the decoder ends after the first k bytes of a run of records. */
  function CutOutcome(fs: seq<Field>, k: nat): Outcome {
    if fs == [] then CleanEnd
    else if k < |EncodeField(fs[0])| then CutEnding(fs[0], k)
    else CutOutcome(fs[1..], k - |EncodeField(fs[0])|)
  }

  /** It ends cleanly at a boundary, with a malformed tag inside a tag, and with a failure
      inside a body. */
  lemma {:induction false} CutOutcomeMeaning(fs: seq<Field>, k: nat)
    requires k <= |EncodeFields(fs)|
    ensures var j := Whole(fs, k); Boundary(fs, j) <= k && (Boundary(fs, j) < k ==> j < |fs|)
    ensures var n := k - Boundary(fs, Whole(fs, k));
            CutOutcome(fs, k) == if n == 0 then CleanEnd else CutEnding(fs[Whole(fs, k)], n)
  {
    WholeFits(fs, k);
    if fs != [] && k >= |EncodeField(fs[0])| {
      BoundaryStep(fs, Whole(fs, k));
      CutOutcomeMeaning(fs[1..], k - |EncodeField(fs[0])|);
    }
  }

  /** A cut after k bytes decodes just the records wholly before the cut. */
  lemma {:induction false} CutRecords(m: Msg, fs: seq<Field>, k: nat)
    requires AllWellFormed(fs) && k <= |EncodeFields(fs)|
    ensures var r := Decode(m, EncodeFields(fs)[..k]);
            r.msg == ApplyAll(m, fs[..Whole(fs, k)]) && r.outcome == CutOutcome(fs, k)
    decreases fs
  {
    var s := EncodeFields(fs)[..k];
    if fs == [] {
      assert s == [];
    } else if k < |EncodeField(fs[0])| {
      assert s == EncodeField(fs[0])[..k];
      CutRecord(fs[0], k);
    } else {
      var n, rest := |EncodeField(fs[0])|, EncodeFields(fs[1..])[..k - |EncodeField(fs[0])|];
      assert s == EncodeField(fs[0]) + rest;
      ReadRecordInverse(fs[0], rest);
      assert s[n..] == rest;
      CutRecords(Apply(m, fs[0]), fs[1..], k - n);
      assert fs[..Whole(fs, k)][1..] == fs[1..][..Whole(fs[1..], k - n)];
    }
  }

  lemma CleanAtBoundaries(fs: seq<Field>, k: nat)
    requires k <= |EncodeFields(fs)|
    ensures CutOutcome(fs, k) == CleanEnd <==> exists i :: 0 <= i <= |fs| && Boundary(fs, i) == k
  {
    CutOutcomeMeaning(fs, k);
    assert Boundary(fs, Whole(fs, k)) == k ==> exists i :: 0 <= i <= |fs| && Boundary(fs, i) == k;
    forall i | 0 <= i <= |fs| && Boundary(fs, i) == k ensures i == Whole(fs, k) {
      WholeAtBoundary(fs, i);
    }
  }

  /** A prefix of a message's serialization ends cleanly exactly when the cut is at a
      record boundary; without unknown records every other cut makes the decoder fail. */
  lemma TruncatedEnd(m: Msg, k: nat)
    requires Normal(m) && Short(m) && k <= |Encode(m)|
    ensures var r := Decode(EMPTY, Encode(m)[..k]);
            && (r.outcome == CleanEnd <==> exists i :: 0 <= i <= |Records(m)| && Boundary(Records(m), i) == k)
            && (m.unknown == [] ==> r.outcome == CleanEnd || r.outcome.Failed?)
  {
    var fs := Records(m);
    EncodeRecords(m);
    RecordsWellFormed(m);
    CutRecords(EMPTY, fs, k);
    CleanAtBoundaries(fs, k);
    if m.unknown == [] {
      CutOutcomeMeaning(fs, k);
      if Whole(fs, k) < |fs| {
        KnownTagIsOneByte(m, Whole(fs, k));
      }
    }
  }

  lemma KnownTagIsOneByte(m: Msg, j: nat)
    requires Normal(m) && m.unknown == [] && j < |Records(m)|
    ensures |EncodeVarint(TagOf(Records(m)[j]))| == 1
  {
    KnownRecordsAscend(m, 1);
    assert Records(m) == KnownRecords(m);
    VarintLength(TagOf(Records(m)[j]));
  }

  /** Leading records of a normal message make a message that is written as just them. */
  lemma PrefixCanonical(m: Msg, i: nat)
    requires Normal(m) && i <= |Records(m)|
    ensures Records(ApplyAll(EMPTY, Records(m)[..i])) == Records(m)[..i]
  {
    var known := KnownRecords(m);
    var n := if i < |known| then i else |known|;
    KnownRecordsAscend(m, 1);
    assert Records(m)[..i] == known[..n] + m.unknown[..i - n];
    AscendingAndStrays(known[..n], m.unknown[..i - n]);
  }

  lemma {:induction false} PrefixWellFormed(fs: seq<Field>, i: nat)
    requires AllWellFormed(fs) && i <= |fs|
    ensures AllWellFormed(fs[..i])
  {
    if i > 0 {
      assert fs[..i][1..] == fs[1..][..i - 1];
      PrefixWellFormed(fs[1..], i - 1);
    }
  }

  /** The message decoded from a boundary cut has just the leading records: it is written
      as exactly the bytes before the cut. */
  lemma TruncatedMessage(m: Msg, i: nat)
    requires Normal(m) && Short(m) && i <= |Records(m)|
    ensures var k := Boundary(Records(m), i);
            && k <= |Encode(m)|
            && var r := Decode(EMPTY, Encode(m)[..k]);
            && r.outcome == CleanEnd
            && Records(r.msg) == Records(m)[..i]
            && Encode(r.msg) == Encode(m)[..k]
  {
    var fs := Records(m);
    var lead := fs[..i];
    EncodeRecords(m);
    assert lead + fs[i..] == fs;
    EncodeFieldsAppend(lead, fs[i..]);
    assert Encode(m)[..Boundary(fs, i)] == EncodeFields(lead);
    RecordsWellFormed(m);
    PrefixWellFormed(fs, i);
    DecodeAllRecords(EMPTY, lead);
    PrefixCanonical(m, i);
    EncodeRecords(ApplyAll(EMPTY, lead));
  }

  // ------------------------------------------------- unknown enum values

  /** A type or error record whose value, cut to 32 bits, is no known enum value. */
  predicate UnknownEnum(f: Field) {
    f.Varint? && (f.number == 1 || f.number == 7) && !IsKnown(f)
  }

  lemma EncodeOne(f: Field)
    ensures EncodeFields([f]) == EncodeField(f)
  {
    assert [f][1..] == [];
    assert EncodeField(f) + [] == EncodeField(f);
  }

  lemma EncodeAddUnknown(m: Msg, f: Field)
    ensures Encode(AddUnknown(m, f)) == Encode(m) + EncodeField(f)
  {
    KnownFromIgnoresUnknown(m, 1, m.unknown + [f]);
    EncodeFieldsAppend(m.unknown, [f]);
    EncodeOne(f);
    ConcatAssociative(EncodeFields(KnownRecords(m)), EncodeFields(m.unknown), EncodeField(f));
  }

  /** What is kept of it. */
  function Kept(f: Field): Field
    requires UnknownEnum(f)
  {
    Varint(f.number, SignExtend(ToInt32(f.varint)))
  }

  lemma UnknownEnumApply(m: Msg, f: Field)
    requires UnknownEnum(f)
    ensures WellFormed(f) && Apply(m, f) == AddUnknown(m, Kept(f))
  {
  }

  lemma KeptIs(f: Field)
    requires UnknownEnum(f)
    ensures var v := Kept(f).varint;
            && Kept(f) == Varint(f.number, v)
            && v % 0x1_0000_0000 == f.varint % 0x1_0000_0000
            && if f.varint % 0x1_0000_0000 >= 0x8000_0000 then v >= 0xFFFF_FFFF_8000_0000 else v < 0x8000_0000
  {
  }

  /** Such a record, with a varint of any width and however long, leaves every field of the
      message alone and is kept, cut to 32 bits and sign-extended, as the last unknown
      record. */
  lemma UnknownEnumKept(m: Msg, s: Bytes, rest: Bytes)
    requires OneRecord(s) && UnknownEnum(ReadRecord(s).value)
    ensures Decode(m, s + rest) == After(|s|, Decode(m.(unknown := m.unknown + [Kept(ReadRecord(s).value)]), rest))
    ensures var f, v := ReadRecord(s).value, Kept(ReadRecord(s).value).varint;
            && v % 0x1_0000_0000 == f.varint % 0x1_0000_0000
            && if f.varint % 0x1_0000_0000 >= 0x8000_0000 then v >= 0xFFFF_FFFF_8000_0000 else v < 0x8000_0000
  {
    KeptIs(ReadRecord(s).value);
    UnknownEnumApply(m, ReadRecord(s).value);
    DecodeOneRecord(m, s, rest);
  }

  /** What was kept is written last and reproduced by every later encode and decode. */
  lemma UnknownEnumSurvives(m: Msg, f: Field)
    requires Normal(m) && Short(m) && UnknownEnum(f)
    ensures var r := AddUnknown(m, Kept(f));
            && Encode(r) == Encode(m) + EncodeField(Kept(f))
            && Decode(EMPTY, Encode(r)) == Decoded(CleanEnd, r, |Encode(r)|)
  {
    var r := AddUnknown(m, Kept(f));
    EncodeAddUnknown(m, Kept(f));
    assert Normal(r) && Short(r) by {
      UnknownEnumApply(m, f);
      ApplyNormal(m, f);
    }
    RoundTrip(r);
  }
}
