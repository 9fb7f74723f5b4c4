/** Writing straight into a byte array: every writer puts its bytes at a cursor, returns
    the cursor behind them and touches nothing else. */
module ArrayOutput {
  import opened Wire
  import opened Fields

  /** a with s in place of the bytes from at on. */
  function Splice(a: Bytes, at: nat, s: Bytes): (r: Bytes)
    requires at + |s| <= |a|
    ensures |r| == |a|
  {
    a[..at] + s + a[at + |s|..]
  }

  lemma SpliceTwice(a: Bytes, at: nat, s: Bytes, t: Bytes)
    requires at + |s| + |t| <= |a|
    ensures Splice(Splice(a, at, s), at + |s|, t) == Splice(a, at, s + t)
  {
    var b := Splice(a, at, s);
    assert b[..at + |s|] == a[..at] + s;
    assert b[at + |s| + |t|..] == a[at + |s| + |t|..];
  }

  lemma SpliceByte(a: Bytes, at: nat, s: Bytes, b: byte)
    requires at + |s| < |a|
    ensures Splice(a, at, s)[at + |s| := b] == Splice(a, at, s + [b])
  {
  }

  method WriteVarintToArray(n: nat, target: array<byte>, at: nat) returns (next: nat)
    requires at + |EncodeVarint(n)| <= target.Length
    modifies target
    ensures next == at + |EncodeVarint(n)|
    ensures target[..] == Splice(old(target[..]), at, EncodeVarint(n))
  {
    ghost var before, done := target[..], [];
    var value := n;
    next := at;
    while value >= 128
      invariant done + EncodeVarint(value) == EncodeVarint(n)
      invariant next == at + |done|
      invariant target[..] == Splice(before, at, done)
      decreases value
    {
      var b: byte := value % 128 + 128;
      SpliceByte(before, at, done, b);
      ConcatAssociative(done, [b], EncodeVarint(value / 128));
      target[next] := b;
      done := done + [b];
      next := next + 1;
      value := value / 128;
    }
    SpliceByte(before, at, done, value);
    target[next] := value;
    next := next + 1;
  }

  method WriteFixedToArray(n: nat, k: nat, target: array<byte>, at: nat) returns (next: nat)
    requires at + k <= target.Length
    modifies target
    ensures next == at + k
    ensures target[..] == Splice(old(target[..]), at, EncodeFixed(n, k))
  {
    ghost var before, done := target[..], [];
    var value := n;
    for i := 0 to k
      invariant |done| == i && done + EncodeFixed(value, k - i) == EncodeFixed(n, k)
      invariant target[..] == Splice(before, at, done)
    {
      var b: byte := value % 256;
      SpliceByte(before, at, done, b);
      ConcatAssociative(done, [b], EncodeFixed(value / 256, k - i - 1));
      target[at + i] := b;
      done := done + [b];
      value := value / 256;
    }
    next := at + k;
  }

  method WriteRawToArray(d: Bytes, target: array<byte>, at: nat) returns (next: nat)
    requires at + |d| <= target.Length
    modifies target
    ensures next == at + |d|
    ensures target[..] == Splice(old(target[..]), at, d)
  {
    ghost var before := target[..];
    for i := 0 to |d|
      invariant target[..] == Splice(before, at, d[..i])
    {
      SpliceByte(before, at, d[..i], d[i]);
      assert d[..i + 1] == d[..i] + [d[i]];
      target[at + i] := d[i];
    }
    assert d[..|d|] == d;
    next := at + |d|;
  }

  method WriteTagToArray(number: FieldNumber, wireType: nat, target: array<byte>, at: nat) returns (next: nat)
    requires wireType < 8
    requires at + |EncodeVarint(MakeTag(number, wireType))| <= target.Length
    modifies target
    ensures next == at + |EncodeVarint(MakeTag(number, wireType))|
    ensures target[..] == Splice(old(target[..]), at, EncodeVarint(MakeTag(number, wireType)))
  {
    next := WriteVarintToArray(MakeTag(number, wireType), target, at);
  }

  method WriteEnumToArray(number: FieldNumber, value: int32, target: array<byte>, at: nat) returns (next: nat)
    requires at + |EncodeField(Varint(number, SignExtend(value)))| <= target.Length
    modifies target
    ensures next == at + |EncodeField(Varint(number, SignExtend(value)))|
    ensures target[..] == Splice(old(target[..]), at, EncodeField(Varint(number, SignExtend(value))))
  {
    ghost var tag, body := EncodeVarint(MakeTag(number, VARINT)), EncodeVarint(SignExtend(value));
    SpliceTwice(target[..], at, tag, body);
    next := WriteTagToArray(number, VARINT, target, at);
    next := WriteVarintToArray(SignExtend(value), target, next);
  }

  method WriteFixed64ToArray(number: FieldNumber, value: uint64, target: array<byte>, at: nat) returns (next: nat)
    requires at + |EncodeField(Fixed64(number, value))| <= target.Length
    modifies target
    ensures next == at + |EncodeField(Fixed64(number, value))|
    ensures target[..] == Splice(old(target[..]), at, EncodeField(Fixed64(number, value)))
  {
    ghost var tag, body := EncodeVarint(MakeTag(number, FIXED64)), EncodeFixed(value, 8);
    SpliceTwice(target[..], at, tag, body);
    next := WriteTagToArray(number, FIXED64, target, at);
    next := WriteFixedToArray(value, 8, target, next);
  }

  method WriteDataToArray(d: Bytes, target: array<byte>, at: nat) returns (next: nat)
    requires at + |EncodeLengthDelimited(d)| <= target.Length
    modifies target
    ensures next == at + |EncodeLengthDelimited(d)|
    ensures target[..] == Splice(old(target[..]), at, EncodeLengthDelimited(d))
  {
    SpliceTwice(target[..], at, EncodeVarint(|d| % TWO_32), d);
    next := WriteVarintToArray(|d| % TWO_32, target, at);
    next := WriteRawToArray(d, target, next);
  }

  method WriteStringToArray(number: FieldNumber, d: Bytes, target: array<byte>, at: nat) returns (next: nat)
    requires at + |EncodeField(LengthDelimited(number, d))| <= target.Length
    modifies target
    ensures next == at + |EncodeField(LengthDelimited(number, d))|
    ensures target[..] == Splice(old(target[..]), at, EncodeField(LengthDelimited(number, d)))
  {
    ghost var tag, body := EncodeVarint(MakeTag(number, LENGTH_DELIMITED)), EncodeLengthDelimited(d);
    SpliceTwice(target[..], at, tag, body);
    next := WriteTagToArray(number, LENGTH_DELIMITED, target, at);
    next := WriteDataToArray(d, target, next);
  }

  method SerializeUnknownFieldToArray(f: Field, target: array<byte>, at: nat) returns (next: nat)
    requires at + |EncodeField(f)| <= target.Length
    modifies target
    ensures next == at + |EncodeField(f)|
    ensures target[..] == Splice(old(target[..]), at, EncodeField(f))
    decreases f, 1
  {
    ghost var tag, body := EncodeVarint(TagOf(f)), EncodeBody(f);
    SpliceTwice(target[..], at, tag, body);
    next := WriteTagToArray(f.number, WireType(f), target, at);
    next := WriteBodyToArray(f, target, next);
  }

  method WriteBodyToArray(f: Field, target: array<byte>, at: nat) returns (next: nat)
    requires at + |EncodeBody(f)| <= target.Length
    modifies target
    ensures next == at + |EncodeBody(f)|
    ensures target[..] == Splice(old(target[..]), at, EncodeBody(f))
    decreases f, 0
  {
    match f
    case Varint(_, v) => next := WriteVarintToArray(v, target, at);
    case Fixed64(_, v) => next := WriteFixedToArray(v, 8, target, at);
    case LengthDelimited(_, d) => next := WriteDataToArray(d, target, at);
    case Group(n, fs) =>
      SpliceTwice(target[..], at, EncodeFields(fs), EncodeVarint(MakeTag(n, END_GROUP)));
      next := SerializeUnknownFieldsToArray(fs, target, at);
      next := WriteTagToArray(n, END_GROUP, target, next);
    case Fixed32(_, v) => next := WriteFixedToArray(v, 4, target, at);
  }

  method SerializeUnknownFieldsToArray(fs: seq<Field>, target: array<byte>, at: nat) returns (next: nat)
    requires at + |EncodeFields(fs)| <= target.Length
    modifies target
    ensures next == at + |EncodeFields(fs)|
    ensures target[..] == Splice(old(target[..]), at, EncodeFields(fs))
    decreases fs
  {
    next := at;
    if fs == [] {
      assert target[..] == Splice(target[..], at, []);
    } else {
      SpliceTwice(target[..], at, EncodeField(fs[0]), EncodeFields(fs[1..]));
      next := SerializeUnknownFieldToArray(fs[0], target, at);
      next := SerializeUnknownFieldsToArray(fs[1..], target, next);
    }
  }
}
