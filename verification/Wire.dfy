/** Base 128 varints, little-endian integers, length-delimited payloads and tags, as
    byte sequences: what one read of the coded stream accepts and what one write
    produces. A read is a function of the bytes that are left; it says how many of
    them it used. */
module Wire {
  type byte = b: int | 0 <= b < 256
  type Bytes = seq<byte>

  const TWO_31 := 0x8000_0000
  const TWO_32 := 0x1_0000_0000
  const TWO_64 := 0x1_0000_0000_0000_0000

  type uint32 = n: int | 0 <= n < TWO_32
  type uint64 = n: int | 0 <= n < TWO_64
  type int32 = n: int | -TWO_31 <= n < TWO_31

  datatype Option<+T> = None | Some(value: T)

  /** A read either fails or yields a value together with the number of bytes used. */
  datatype Read<+T> = Fail | Got(value: T, used: nat)

  lemma ConcatAssociative(a: Bytes, b: Bytes, c: Bytes)
    ensures (a + b) + c == a + (b + c)
  {
  }

  /** The signed 32-bit reading of the low 32 bits of n. */
  function ToInt32(n: int): (e: int32) {
    var low := n % TWO_32;
    if low < TWO_31 then low else low - TWO_32
  }

  /** The unsigned 64-bit pattern of a signed 32-bit value. */
  function SignExtend(e: int32): (v: uint64) {
    if e < 0 then e + TWO_64 else e
  }

  lemma SignExtendInverse(e: int32)
    ensures ToInt32(SignExtend(e)) == e
  {
  }

  // ---------------------------------------------------------------- varints

  function EncodeVarint(n: nat): (s: Bytes)
    ensures 1 <= |s|
    decreases n
  {
    if n < 128 then [n] else [n % 128 + 128] + EncodeVarint(n / 128)
  }

  /** Reads seven bits a byte, lowest first, from at most limit bytes. */
  function RawVarint(s: Bytes, limit: nat): (r: Read<nat>)
    ensures r.Got? ==> 1 <= r.used <= |s| && r.used <= limit
  {
    if limit == 0 || s == [] then Fail
    else if s[0] < 128 then Got(s[0], 1)
    else
      match RawVarint(s[1..], limit - 1)
      case Fail => Fail
      case Got(v, n) => Got(s[0] - 128 + 128 * v, n + 1)
  }

  const MAX_VARINT_BYTES := 10

  function ReadVarint64(s: Bytes): (r: Read<uint64>)
    ensures r.Got? ==> 1 <= r.used <= |s|
  {
    match RawVarint(s, MAX_VARINT_BYTES)
    case Fail => Fail
    case Got(v, n) => Got(v % TWO_64, n)
  }

  /** The same bytes as a 64-bit read, of which the low 32 bits are kept. */
  function ReadVarint32(s: Bytes): (r: Read<uint32>)
    ensures r.Got? ==> 1 <= r.used <= |s|
  {
    match RawVarint(s, MAX_VARINT_BYTES)
    case Fail => Fail
    case Got(v, n) => Got(v % TWO_32, n)
  }

  function VarintSize64(n: uint64): (k: nat)
    ensures 1 <= k <= MAX_VARINT_BYTES
  {
    if n < 0x80 then 1
    else if n < 0x4000 then 2
    else if n < 0x20_0000 then 3
    else if n < 0x1000_0000 then 4
    else if n < 0x8_0000_0000 then 5
    else if n < 0x400_0000_0000 then 6
    else if n < 0x2_0000_0000_0000 then 7
    else if n < 0x100_0000_0000_0000 then 8
    else if n < 0x8000_0000_0000_0000 then 9
    else 10
  }

  lemma {:induction false} VarintLength(n: uint64)
    ensures |EncodeVarint(n)| == VarintSize64(n)
    decreases n
  {
    if n >= 128 {
      VarintLength(n / 128);
    }
  }

  lemma {:induction false} RawVarintInverse(n: nat, rest: Bytes, limit: nat)
    requires |EncodeVarint(n)| <= limit
    ensures RawVarint(EncodeVarint(n) + rest, limit) == Got(n, |EncodeVarint(n)|)
    decreases n
  {
    var s := EncodeVarint(n) + rest;
    if n >= 128 {
      assert s[1..] == EncodeVarint(n / 128) + rest;
      RawVarintInverse(n / 128, rest, limit - 1);
    }
  }

  lemma VarintInverse(n: uint64, rest: Bytes)
    ensures ReadVarint64(EncodeVarint(n) + rest) == Got(n, |EncodeVarint(n)|)
    ensures ReadVarint32(EncodeVarint(n) + rest) == Got(n % TWO_32, |EncodeVarint(n)|)
  {
    VarintLength(n);
    RawVarintInverse(n, rest, MAX_VARINT_BYTES);
  }

  /** Bytes that follow a complete varint do not change how it reads. */
  lemma {:induction false} RawVarintExtend(s: Bytes, t: Bytes, limit: nat)
    requires RawVarint(s, limit).Got?
    ensures RawVarint(s + t, limit) == RawVarint(s, limit)
  {
    if s[0] >= 128 {
      assert (s + t)[1..] == s[1..] + t;
      RawVarintExtend(s[1..], t, limit - 1);
    }
  }

  /** A varint cut short does not read. */
  lemma {:induction false} RawVarintCut(n: nat, k: nat, limit: nat)
    requires k < |EncodeVarint(n)|
    ensures RawVarint(EncodeVarint(n)[..k], limit).Fail?
    decreases n
  {
    if k > 0 && limit > 0 {
      assert EncodeVarint(n)[..k][1..] == EncodeVarint(n / 128)[..k - 1];
      RawVarintCut(n / 128, k - 1, limit - 1);
    }
  }

  // ------------------------------------------------- little-endian integers

  function Pow256(k: nat): (p: nat)
    ensures 1 <= p
  {
    if k == 0 then 1 else 256 * Pow256(k - 1)
  }

  lemma Pow256Constants()
    ensures Pow256(4) == TWO_32
    ensures Pow256(8) == TWO_64
  {
    assert Pow256(2) == 0x1_0000;
    assert Pow256(4) == TWO_32;
    assert Pow256(6) == 0x1_0000_0000_0000;
  }

  function EncodeFixed(n: nat, k: nat): (s: Bytes)
    ensures |s| == k
  {
    if k == 0 then [] else [n % 256] + EncodeFixed(n / 256, k - 1)
  }

  function FixedValue(s: Bytes): nat {
    if s == [] then 0 else s[0] + 256 * FixedValue(s[1..])
  }

  lemma {:induction false} FixedBound(s: Bytes)
    ensures FixedValue(s) < Pow256(|s|)
  {
    if s != [] {
      FixedBound(s[1..]);
    }
  }

  lemma {:induction false} FixedValueInverse(n: nat, k: nat)
    requires n < Pow256(k)
    ensures FixedValue(EncodeFixed(n, k)) == n
  {
    if k > 0 {
      assert EncodeFixed(n, k)[1..] == EncodeFixed(n / 256, k - 1);
      FixedValueInverse(n / 256, k - 1);
    }
  }

  function ReadFixed64(s: Bytes): (r: Read<uint64>)
    ensures r.Got? <==> 8 <= |s|
    ensures r.Got? ==> r.used == 8
  {
    if |s| < 8 then Fail
    else
      FixedBound(s[..8]);
      Pow256Constants();
      Got(FixedValue(s[..8]), 8)
  }

  function ReadFixed32(s: Bytes): (r: Read<uint32>)
    ensures r.Got? <==> 4 <= |s|
    ensures r.Got? ==> r.used == 4
  {
    if |s| < 4 then Fail
    else
      FixedBound(s[..4]);
      Pow256Constants();
      Got(FixedValue(s[..4]), 4)
  }

  lemma Fixed64Inverse(n: uint64, rest: Bytes)
    ensures ReadFixed64(EncodeFixed(n, 8) + rest) == Got(n, 8)
  {
    assert (EncodeFixed(n, 8) + rest)[..8] == EncodeFixed(n, 8);
    Pow256Constants();
    FixedValueInverse(n, 8);
  }

  lemma Fixed32Inverse(n: uint32, rest: Bytes)
    ensures ReadFixed32(EncodeFixed(n, 4) + rest) == Got(n, 4)
  {
    assert (EncodeFixed(n, 4) + rest)[..4] == EncodeFixed(n, 4);
    Pow256Constants();
    FixedValueInverse(n, 4);
  }

  // ------------------------------------------------------ length-delimited

  /** The prefix holds the length as an unsigned 32-bit value, whatever the length is. */
  function EncodeLengthDelimited(d: Bytes): (s: Bytes) {
    EncodeVarint(|d| % TWO_32) + d
  }

  /** A prefix that is negative as a signed 32-bit length, or that promises more bytes
      than are left, makes the read fail. */
  function ReadLengthDelimited(s: Bytes): (r: Read<Bytes>)
    ensures r.Got? ==> 1 <= r.used <= |s| && |r.value| < TWO_31
  {
    match ReadVarint32(s)
    case Fail => Fail
    case Got(len, n) =>
      if len >= TWO_31 || n + len > |s| then Fail else Got(s[n..n + len], n + len)
  }

  lemma LengthDelimitedInverse(d: Bytes, rest: Bytes)
    requires |d| < TWO_31
    ensures ReadLengthDelimited(EncodeLengthDelimited(d) + rest) == Got(d, |EncodeLengthDelimited(d)|)
  {
    assert EncodeLengthDelimited(d) + rest == EncodeVarint(|d|) + (d + rest);
    VarintInverse(|d|, d + rest);
  }

  lemma LengthDelimitedExtend(s: Bytes, t: Bytes)
    requires ReadLengthDelimited(s).Got?
    ensures ReadLengthDelimited(s + t) == ReadLengthDelimited(s)
  {
    RawVarintExtend(s, t, MAX_VARINT_BYTES);
    var len := ReadVarint32(s);
    assert (s + t)[len.used..len.used + len.value] == s[len.used..len.used + len.value];
  }

  // ------------------------------------------------------------------ tags

  /** Wire types, the low three bits of a tag. */
  const VARINT := 0
  const FIXED64 := 1
  const LENGTH_DELIMITED := 2
  const START_GROUP := 3
  const END_GROUP := 4
  const FIXED32 := 5

  const MAX_NUMBER := 0x2000_0000

  type FieldNumber = n: int | 0 <= n < MAX_NUMBER

  function MakeTag(number: FieldNumber, wireType: nat): (tag: uint32)
    requires wireType < 8
    ensures tag / 8 == number && tag % 8 == wireType
  {
    number * 8 + wireType
  }

  lemma TagInverse(tag: uint32, rest: Bytes)
    ensures ReadVarint32(EncodeVarint(tag) + rest) == Got(tag, |EncodeVarint(tag)|)
    ensures |EncodeVarint(tag)| <= 5
  {
    VarintInverse(tag, rest);
    VarintLength(tag);
  }
}
