/** The abstract message: seven optional fields and the ordered unknown records, what
    one record does to it, how two messages merge, and its serialized form. */
module Message {
  import opened Wire
  import opened Fields

  predicate MessageTypeIsValid(v: int) {
    v == 0 || v == 1 || v == 2 || v == 3
  }

  predicate ErrorCodeIsValid(v: int) {
    v == 0 || v == 1 || v == 2 || v == 3 || v == 4 || v == 5 || v == 6
  }

  /** The four length-delimited fields, in field-number order: service (3), method (4),
      request (5) and response (6). */
  type Strings = s: seq<Option<Bytes>> | |s| == 4 witness [None, None, None, None]

  /** Index of a length-delimited field in that sequence. */
  type Slot = i: nat | i < 4

  datatype Msg = Msg(kind: Option<int32>, id: Option<uint64>, strs: Strings,
                     error: Option<int32>, unknown: seq<Field>)

  const EMPTY := Msg(None, None, [None, None, None, None], None, [])

  function WithString(m: Msg, i: Slot, d: Bytes): (r: Msg) {
    m.(strs := m.strs[i := Some(d)])
  }

  function WithoutString(m: Msg, i: Slot): (r: Msg) {
    m.(strs := m.strs[i := None])
  }

  function AddUnknown(m: Msg, f: Field): Msg {
    m.(unknown := m.unknown + [f])
  }

  // -------------------------------------------------- one record at a time

  /** What the decoder does with a record: a known field takes its value, the last one
      winning; an invalid enum value goes to the unknown set, sign-extended; any other
      number or wire type goes there as it stands. */
  function Apply(m: Msg, f: Field): Msg {
    match f
    case Varint(n, v) =>
      if n == 1 then
        if MessageTypeIsValid(ToInt32(v)) then m.(kind := Some(ToInt32(v)))
        else AddUnknown(m, Varint(1, SignExtend(ToInt32(v))))
      else if n == 7 then
        if ErrorCodeIsValid(ToInt32(v)) then m.(error := Some(ToInt32(v)))
        else AddUnknown(m, Varint(7, SignExtend(ToInt32(v))))
      else AddUnknown(m, f)
    case Fixed64(n, v) => if n == 2 then m.(id := Some(v)) else AddUnknown(m, f)
    case LengthDelimited(n, d) => if 3 <= n <= 6 then WithString(m, n - 3, d) else AddUnknown(m, f)
    case _ => AddUnknown(m, f)
  }

  // ------------------------------------------------- fields by their number

  /** The numbers of the known fields. */
  type Known = n: int | 1 <= n <= 7 witness 1

  /** The record a present field is written as. */
  function Get(m: Msg, n: Known): Option<Field> {
    if n == 1 then if m.kind.Some? then Some(Varint(1, SignExtend(m.kind.value))) else None
    else if n == 2 then if m.id.Some? then Some(Fixed64(2, m.id.value)) else None
    else if n == 7 then if m.error.Some? then Some(Varint(7, SignExtend(m.error.value))) else None
    else if m.strs[n - 3].Some? then Some(LengthDelimited(n, m.strs[n - 3].value)) else None
  }

  /** Whether a record sets a known field. */
  predicate IsKnown(f: Field) {
    match f
    case Varint(n, v) =>
      (n == 1 && MessageTypeIsValid(ToInt32(v))) || (n == 7 && ErrorCodeIsValid(ToInt32(v)))
    case Fixed64(n, _) => n == 2
    case LengthDelimited(n, _) => 3 <= n <= 6
    case _ => false
  }

  /** The record as it is written again: enum values are cut to 32 bits and sign-extended. */
  function Canonical(f: Field): Field {
    match f
    case Varint(n, v) => if n == 1 || n == 7 then Varint(n, SignExtend(ToInt32(v))) else f
    case _ => f
  }

  /** A message is determined by its fields and its unknown records. */
  lemma SameMessage(a: Msg, b: Msg)
    requires forall n: Known :: Get(a, n) == Get(b, n)
    requires a.unknown == b.unknown
    ensures a == b
  {
    assert Get(a, 1) == Get(b, 1) && Get(a, 2) == Get(b, 2) && Get(a, 7) == Get(b, 7);
    assert Get(a, 3) == Get(b, 3) && Get(a, 4) == Get(b, 4);
    assert Get(a, 5) == Get(b, 5) && Get(a, 6) == Get(b, 6);
    assert a.strs == b.strs;
  }

  /** One record sets exactly its own field, or adds exactly one unknown record. */
  lemma ApplyGet(m: Msg, f: Field, n: Known)
    ensures Get(Apply(m, f), n) == if IsKnown(f) && f.number == n then Some(Canonical(f)) else Get(m, n)
    ensures Apply(m, f).unknown == if IsKnown(f) then m.unknown else m.unknown + [Canonical(f)]
  {
  }

  function ApplyAll(m: Msg, fs: seq<Field>): (r: Msg)
    decreases fs
  {
    if fs == [] then m else ApplyAll(Apply(m, fs[0]), fs[1..])
  }

  lemma {:induction false} ApplyAllAppend(m: Msg, a: seq<Field>, b: seq<Field>)
    ensures ApplyAll(m, a + b) == ApplyAll(ApplyAll(m, a), b)
    decreases a
  {
    if a == [] {
      assert a + b == b;
    } else {
      assert (a + b)[1..] == a[1..] + b;
      ApplyAllAppend(Apply(m, a[0]), a[1..], b);
    }
  }

  // --------------------------------------------------------------- merging

  function Later<T>(a: Option<T>, b: Option<T>): Option<T> {
    if b.Some? then b else a
  }

  function MergeStrings(a: Strings, b: Strings): (r: Strings)
    ensures forall i :: 0 <= i < 4 ==> r[i] == Later(a[i], b[i])
  {
    [Later(a[0], b[0]), Later(a[1], b[1]), Later(a[2], b[2]), Later(a[3], b[3])]
  }

  /** One slot of the merge. */
  function MergeSlot(a: Strings, b: Strings, i: Slot): (r: Strings) {
    a[i := Later(a[i], b[i])]
  }

  lemma MergeSlotBySlot(a: Strings, b: Strings)
    ensures MergeSlot(MergeSlot(MergeSlot(MergeSlot(a, b, 0), b, 1), b, 2), b, 3) == MergeStrings(a, b)
  {
  }

  /** Merges b into a: fields present in b win, unknown records are appended. */
  function Merge(a: Msg, b: Msg): Msg {
    Msg(Later(a.kind, b.kind), Later(a.id, b.id), MergeStrings(a.strs, b.strs),
        Later(a.error, b.error), a.unknown + b.unknown)
  }

  lemma MergeIdentity(a: Msg)
    ensures Merge(EMPTY, a) == a
    ensures Merge(a, EMPTY) == a
  {
    assert Merge(EMPTY, a).strs == a.strs;
    assert Merge(a, EMPTY).strs == a.strs;
  }

  lemma MergeAssociative(a: Msg, b: Msg, c: Msg)
    ensures Merge(Merge(a, b), c) == Merge(a, Merge(b, c))
  {
    assert (a.unknown + b.unknown) + c.unknown == a.unknown + (b.unknown + c.unknown);
  }

  lemma MergeGet(a: Msg, b: Msg, n: Known)
    ensures Get(Merge(a, b), n) == Later(Get(a, n), Get(b, n))
  {
  }

  /** Merging commutes with reading one more record. */
  lemma ApplyMerge(a: Msg, b: Msg, f: Field)
    ensures Apply(Merge(a, b), f) == Merge(a, Apply(b, f))
  {
    var l, r := Apply(Merge(a, b), f), Merge(a, Apply(b, f));
    forall n: Known ensures Get(l, n) == Get(r, n) {
      ApplyGet(Merge(a, b), f, n);
      ApplyGet(b, f, n);
      MergeGet(a, b, n);
      MergeGet(a, Apply(b, f), n);
    }
    assert a.unknown + b.unknown + [Canonical(f)] == a.unknown + (b.unknown + [Canonical(f)]);
    SameMessage(l, r);
  }

  // ----------------------------------------------------------- normal form

  /** A record the decoder itself would put, unchanged, into the unknown set. */
  predicate NormalUnknown(f: Field) {
    WellFormed(f) && !IsKnown(f) && Canonical(f) == f
  }

  predicate AllNormalUnknown(fs: seq<Field>) {
    forall i :: 0 <= i < |fs| ==> NormalUnknown(fs[i])
  }

  /** Enum fields hold known values and unknown records could not have been anything else. */
  predicate Normal(m: Msg) {
    (m.kind.Some? ==> MessageTypeIsValid(m.kind.value))
    && (m.error.Some? ==> ErrorCodeIsValid(m.error.value))
    && AllNormalUnknown(m.unknown)
  }

  /** Every present string has a length that fits a signed 32-bit integer. */
  predicate Short(m: Msg) {
    forall i :: 0 <= i < 4 && m.strs[i].Some? ==> |m.strs[i].value| < TWO_31
  }

  /** The meaning of NormalUnknown in terms of the decoder's own step. */
  lemma NormalUnknownMeaning(m: Msg, f: Field)
    requires WellFormed(f)
    ensures NormalUnknown(f) <==> Apply(m, f) == AddUnknown(m, f)
  {
    ApplyGet(m, f, 1);
    assert AddUnknown(m, f).unknown[|m.unknown|] == f;
    assert AddUnknown(m, Canonical(f)).unknown[|m.unknown|] == Canonical(f);
    assert |AddUnknown(m, f).unknown| == |m.unknown| + 1;
  }

  lemma ApplyNormal(m: Msg, f: Field)
    requires Normal(m) && WellFormed(f)
    ensures Normal(Apply(m, f))
    ensures Short(m) ==> Short(Apply(m, f))
  {
    if f.Varint? && (f.number == 1 || f.number == 7) {
      SignExtendInverse(ToInt32(f.varint));
    }
  }

  lemma MergeNormal(a: Msg, b: Msg)
    requires Normal(a) && Normal(b)
    ensures Normal(Merge(a, b))
    ensures Short(a) && Short(b) ==> Short(Merge(a, b))
  {
  }

  // --------------------------------------------------------- serialization

  function AsSeq<T>(o: Option<T>): seq<T> {
    if o.Some? then [o.value] else []
  }

  /** The present known fields from number k on, in ascending order. */
  function KnownFrom(m: Msg, k: nat): seq<Field>
    requires 1 <= k <= 8
    decreases 8 - k, m
  {
    if k == 8 then [] else AsSeq(Get(m, k)) + KnownFrom(m, k + 1)
  }

  function KnownRecords(m: Msg): seq<Field> {
    KnownFrom(m, 1)
  }

  function Records(m: Msg): seq<Field> {
    KnownRecords(m) + m.unknown
  }

  function Encode(m: Msg): (s: Bytes) {
    EncodeFields(KnownRecords(m)) + EncodeFields(m.unknown)
  }

  lemma EncodeRecords(m: Msg)
    ensures Encode(m) == EncodeFields(Records(m))
  {
    EncodeFieldsAppend(KnownRecords(m), m.unknown);
  }

  /** A present field of a normal message is written as a record that sets it. */
  lemma GetKnown(m: Msg, n: Known)
    requires Normal(m) && Get(m, n).Some?
    ensures var f := Get(m, n).value; IsKnown(f) && f.number == n && Canonical(f) == f
  {
    if n == 1 {
      SignExtendInverse(m.kind.value);
    } else if n == 7 {
      SignExtendInverse(m.error.value);
    }
  }

  function ApplyOption(a: Msg, o: Option<Field>): Msg {
    if o.Some? then Apply(a, o.value) else a
  }

  lemma ApplyFieldFirst(m: Msg, k: Known, a: Msg)
    ensures ApplyAll(a, KnownFrom(m, k)) == ApplyAll(ApplyOption(a, Get(m, k)), KnownFrom(m, k + 1))
  {
    if Get(m, k).Some? {
      assert KnownFrom(m, k)[1..] == KnownFrom(m, k + 1);
    } else {
      assert KnownFrom(m, k) == KnownFrom(m, k + 1);
    }
  }

  lemma ApplyField(m: Msg, k: Known, a: Msg, n: Known)
    requires Normal(m)
    ensures var b := ApplyOption(a, Get(m, k));
            b.unknown == a.unknown && Get(b, n) == if n == k then Later(Get(a, n), Get(m, n)) else Get(a, n)
  {
    if Get(m, k).Some? {
      GetKnown(m, k);
      ApplyGet(a, Get(m, k).value, n);
    }
  }

  lemma {:induction false} ApplyKnownFrom(m: Msg, k: nat, a: Msg, n: Known)
    requires 1 <= k <= 8 && Normal(m)
    ensures var r := ApplyAll(a, KnownFrom(m, k));
            && r.unknown == a.unknown
            && Get(r, n) == if n < k then Get(a, n) else Later(Get(a, n), Get(m, n))
    decreases 8 - k
  {
    if k < 8 {
      ApplyFieldFirst(m, k, a);
      ApplyField(m, k, a, n);
      ApplyKnownFrom(m, k + 1, ApplyOption(a, Get(m, k)), n);
    }
  }

  lemma {:induction false} ApplyUnknownRecords(a: Msg, fs: seq<Field>)
    requires AllNormalUnknown(fs)
    ensures ApplyAll(a, fs) == a.(unknown := a.unknown + fs)
    decreases fs
  {
    if fs == [] {
      assert a.unknown + fs == a.unknown;
    } else {
      NormalUnknownMeaning(a, fs[0]);
      ApplyUnknownRecords(AddUnknown(a, fs[0]), fs[1..]);
      assert a.unknown + [fs[0]] + fs[1..] == a.unknown + fs;
    }
  }

  /** Applying a message's own records is merging the message. */
  lemma ApplyRecords(m: Msg, a: Msg)
    requires Normal(m)
    ensures ApplyAll(a, Records(m)) == Merge(a, m)
  {
    ApplyAllAppend(a, KnownRecords(m), m.unknown);
    ApplyKnownFrom(m, 1, a, 1);
    ApplyUnknownRecords(ApplyAll(a, KnownRecords(m)), m.unknown);
    var r := ApplyAll(a, Records(m));
    forall n: Known ensures Get(r, n) == Get(Merge(a, m), n) {
      ApplyKnownFrom(m, 1, a, n);
      MergeGet(a, m, n);
    }
    SameMessage(r, Merge(a, m));
  }
}
