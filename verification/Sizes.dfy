/** The size calculation, written without producing any bytes. */
module Sizes {
  import opened Wire
  import opened Fields
  import opened Message

  /** Size of a field's tag; a group's end tag is as long as its start tag. */
  function TagSize(number: FieldNumber): nat {
    VarintSize64(number * 8)
  }

  /** Size of a length-delimited payload with its prefix. */
  function DataSize(d: Bytes): nat {
    VarintSize64(|d| % TWO_32) + |d|
  }

  function FieldSize(f: Field): nat
    decreases f, 0
  {
    TagSize(f.number)
    + match f
      case Varint(_, v) => VarintSize64(v)
      case Fixed64(_, _) => 8
      case LengthDelimited(_, d) => DataSize(d)
      case Group(n, fs) => FieldsSize(fs) + TagSize(n)
      case Fixed32(_, _) => 4
  }

  function FieldsSize(fs: seq<Field>): nat
    decreases fs
  {
    if fs == [] then 0 else FieldSize(fs[0]) + FieldsSize(fs[1..])
  }

  lemma TagLength(number: FieldNumber, wireType: nat)
    requires wireType < 8
    ensures |EncodeVarint(MakeTag(number, wireType))| == TagSize(number)
  {
    VarintLength(number * 8 + wireType);
  }

  lemma {:induction false} FieldLength(f: Field)
    ensures |EncodeField(f)| == FieldSize(f)
    decreases f, 0
  {
    TagLength(f.number, WireType(f));
    match f
    case Varint(_, v) => VarintLength(v);
    case Fixed64(_, _) =>
    case LengthDelimited(_, d) => VarintLength(|d| % TWO_32);
    case Group(n, fs) =>
      TagLength(n, END_GROUP);
      FieldsLength(fs);
    case Fixed32(_, _) =>
  }

  /** The size of a run of records is the number of bytes it is written as. */
  lemma {:induction false} FieldsLength(fs: seq<Field>)
    ensures |EncodeFields(fs)| == FieldsSize(fs)
    decreases fs
  {
    if fs != [] {
      FieldLength(fs[0]);
      FieldsLength(fs[1..]);
    }
  }

  function OptionSize(o: Option<Field>): nat {
    if o.Some? then FieldSize(o.value) else 0
  }

  lemma {:induction false} KnownSizeStep(m: Msg, k: Known)
    ensures FieldsSize(KnownFrom(m, k)) == OptionSize(Get(m, k)) + FieldsSize(KnownFrom(m, k + 1))
  {
    if Get(m, k).Some? {
      assert KnownFrom(m, k)[1..] == KnownFrom(m, k + 1);
    } else {
      assert KnownFrom(m, k) == KnownFrom(m, k + 1);
    }
  }

  function StringLength(m: Msg, i: Slot): nat {
    if m.strs[i].Some? then |m.strs[i].value| else 0
  }

  /** A valid type or error takes two bytes, an id nine, and a string at most six beside
      its own bytes. */
  function Allowance(m: Msg, k: Known): nat {
    if k == 1 || k == 7 then 2 else if k == 2 then 9 else StringLength(m, k - 3) + 6
  }

  function AllowanceFrom(m: Msg, k: nat): nat
    requires 1 <= k <= 8
    decreases 8 - k
  {
    if k == 8 then 0 else Allowance(m, k) + AllowanceFrom(m, k + 1)
  }

  lemma FieldAllowance(m: Msg, k: Known)
    requires Normal(m)
    ensures OptionSize(Get(m, k)) <= Allowance(m, k)
  {
  }

  lemma {:induction false} KnownAllowance(m: Msg, k: nat)
    requires 1 <= k <= 8 && Normal(m)
    ensures FieldsSize(KnownFrom(m, k)) <= AllowanceFrom(m, k)
    decreases 8 - k
  {
    if k < 8 {
      KnownSizeStep(m, k);
      FieldAllowance(m, k);
      KnownAllowance(m, k + 1);
    }
  }

  lemma AllowanceTotal(m: Msg)
    ensures AllowanceFrom(m, 1)
            == StringLength(m, 0) + StringLength(m, 1) + StringLength(m, 2) + StringLength(m, 3) + 37
  {
    assert AllowanceFrom(m, 6) == Allowance(m, 6) + (Allowance(m, 7) + 0);
    assert AllowanceFrom(m, 4) == Allowance(m, 4) + (Allowance(m, 5) + AllowanceFrom(m, 6));
    assert AllowanceFrom(m, 2) == Allowance(m, 2) + (Allowance(m, 3) + AllowanceFrom(m, 4));
  }

  /** Without unknown records a message takes at most 37 bytes beside its strings. */
  lemma SizeBound(m: Msg)
    requires Normal(m) && m.unknown == []
    ensures |Encode(m)| <= StringLength(m, 0) + StringLength(m, 1) + StringLength(m, 2) + StringLength(m, 3) + 37
  {
    FieldsLength(KnownRecords(m));
    KnownAllowance(m, 1);
    AllowanceTotal(m);
  }
}
