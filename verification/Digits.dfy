/** What the numbers on the wire are, said by their digits and in plain numbers, apart from
    the way module Wire reads and writes them. */
module Digits {
  import opened Wire

  // ---------------------------------------------------------------- varints

  function Pow128(k: nat): (p: nat)
    ensures 1 <= p
  {
    if k == 0 then 1 else 128 * Pow128(k - 1)
  }

  /** The seven low bits of every byte, the first byte least significant. */
  function Sum128(s: Bytes): nat {
    if s == [] then 0
    else Sum128(s[..|s| - 1]) + s[|s| - 1] % 128 * Pow128(|s| - 1)
  }

  /** Bytes up to and including the first without the continuation bit. */
  predicate Terminated(s: Bytes) {
    s != [] && s[|s| - 1] < 128 && forall i :: 0 <= i < |s| - 1 ==> s[i] >= 128
  }

  lemma {:induction false} Sum128First(b: byte, s: Bytes)
    ensures Sum128([b] + s) == b % 128 + 128 * Sum128(s)
  {
    if s == [] {
      assert [b] + s == [b];
      assert Sum128([b]) == Sum128([b][..0]) + b % 128 * Pow128(0);
    } else {
      var n := |s|;
      assert ([b] + s)[..n] == [b] + s[..n - 1];
      Sum128First(b, s[..n - 1]);
      Scale(s[n - 1] % 128, Pow128(n - 1));
    }
  }

  lemma Scale(d: nat, p: nat)
    ensures d * (128 * p) == 128 * (d * p)
  {
  }

  /** The value of a varint, padded ones included: k is the number of its bytes. */
  lemma {:induction false} RawVarintValue(s: Bytes, limit: nat, k: nat)
    requires k <= |s| && Terminated(s[..k])
    ensures RawVarint(s, limit) == if k <= limit then Got(Sum128(s[..k]), k) else Fail
    decreases k
  {
    assert s[..k][k - 1] == s[k - 1];
    assert s[..k] == [s[0]] + s[1..][..k - 1];
    Sum128First(s[0], s[1..][..k - 1]);
    if k == 1 {
      assert s[1..][..0] == [];
    } else {
      assert s[..k][0] == s[0];
      forall i | 0 <= i < k - 2 ensures s[1..][i] >= 128 {
        assert s[..k][i + 1] == s[1..][i];
      }
      if limit > 0 {
        RawVarintValue(s[1..], limit - 1, k - 1);
      }
    }
  }

  /** Without a terminating byte there is no varint. */
  lemma {:induction false} RawVarintUnterminated(s: Bytes, limit: nat)
    requires forall i :: 0 <= i < |s| ==> s[i] >= 128
    ensures RawVarint(s, limit).Fail?
  {
    if s != [] && limit > 0 {
      RawVarintUnterminated(s[1..], limit - 1);
    }
  }

  /** What is read in numbers: at most ten bytes, the value cut to 64 or to 32 bits. */
  lemma VarintValue(p: Bytes, rest: Bytes)
    requires Terminated(p)
    ensures ReadVarint64(p + rest)
            == if |p| <= 10 then Got(Sum128(p) % 0x1_0000_0000_0000_0000, |p|) else Fail
    ensures ReadVarint32(p + rest) == if |p| <= 10 then Got(Sum128(p) % 0x1_0000_0000, |p|) else Fail
  {
    assert (p + rest)[..|p|] == p;
    RawVarintValue(p + rest, MAX_VARINT_BYTES, |p|);
  }

  lemma TerminatedMore(b: byte, s: Bytes)
    requires b >= 128 && Terminated(s)
    ensures Terminated([b] + s)
  {
    forall i | 0 <= i < |s| ensures ([b] + s)[i] >= 128 {
      assert i > 0 ==> ([b] + s)[i] == s[i - 1];
    }
  }

  /** A written varint is one with its value. */
  lemma {:induction false} WrittenVarint(n: nat)
    ensures Terminated(EncodeVarint(n)) && Sum128(EncodeVarint(n)) == n
    decreases n
  {
    if n < 128 {
      assert [n] + [] == [n];
      Sum128First(n, []);
    } else {
      WrittenVarint(n / 128);
      OneDigitMore(n, EncodeVarint(n / 128));
    }
  }

  lemma OneDigitMore(n: nat, more: Bytes)
    requires Terminated(more) && Sum128(more) == n / 128
    ensures Terminated([n % 128 + 128] + more) && Sum128([n % 128 + 128] + more) == n
  {
    Sum128First(n % 128 + 128, more);
    TerminatedMore(n % 128 + 128, more);
  }

  /** And the shortest: it has no zero digits at its end. */
  lemma {:induction false} WrittenShortest(n: nat)
    ensures |EncodeVarint(n)| == 1 || EncodeVarint(n)[|EncodeVarint(n)| - 1] != 0
    decreases n
  {
    if n >= 128 {
      var more := EncodeVarint(n / 128);
      WrittenShortest(n / 128);
      LastOf(n % 128 + 128, more);
      if |more| == 1 {
        OneByteVarint(n / 128);
      }
    }
  }

  lemma LastOf(b: byte, s: Bytes)
    requires s != []
    ensures ([b] + s)[|s|] == s[|s| - 1]
  {
  }

  lemma OneByteVarint(n: nat)
    requires |EncodeVarint(n)| == 1
    ensures EncodeVarint(n) == [n]
  {
  }

  // ------------------------------------------------- little-endian integers

  /** The value of little-endian bytes, the last byte most significant. */
  function LittleEndian(s: Bytes): nat {
    if s == [] then 0 else LittleEndian(s[..|s| - 1]) + s[|s| - 1] * Pow256(|s| - 1)
  }

  lemma {:induction false} LittleEndianFirst(b: byte, s: Bytes)
    ensures LittleEndian([b] + s) == b + 256 * LittleEndian(s)
  {
    if s == [] {
      assert [b] + s == [b];
      assert LittleEndian([b]) == LittleEndian([b][..0]) + b * Pow256(0);
    } else {
      var n := |s|;
      assert ([b] + s)[..n] == [b] + s[..n - 1];
      LittleEndianFirst(b, s[..n - 1]);
      assert s[n - 1] * (256 * Pow256(n - 1)) == 256 * (s[n - 1] * Pow256(n - 1));
    }
  }

  lemma {:induction false} FixedValueIs(s: Bytes)
    ensures FixedValue(s) == LittleEndian(s)
  {
    if s != [] {
      FixedValueIs(s[1..]);
      LittleEndianFirst(s[0], s[1..]);
      assert [s[0]] + s[1..] == s;
    }
  }

  /** Byte i of a written integer is its digit i to the base 256. */
  lemma {:induction false} EncodeFixedDigit(n: nat, k: nat, i: nat)
    requires i < k
    ensures EncodeFixed(n, k)[i] == n / Pow256(i) % 256
    decreases k
  {
    if i > 0 {
      EncodeFixedDigit(n / 256, k - 1, i - 1);
      DivTwice(n, Pow256(i - 1));
    }
  }

  lemma DivTwice(n: nat, p: nat)
    requires p > 0
    ensures n / 256 / p == n / (256 * p)
  {
    var q, r := n / 256 / p, n / 256 % p;
    assert n / 256 == p * q + r;
    assert n == 256 * (p * q + r) + n % 256;
    assert 256 * (p * q) == 256 * p * q;
    assert n == 256 * p * q + (256 * r + n % 256);
    QuotientIs(n, 256 * p, q, 256 * r + n % 256);
  }

  lemma Multiples(d: nat, a: int, b: int)
    requires a < b
    ensures d * a + d <= d * b
  {
    assert d * (b - a - 1) >= 0;
    assert d * b == d * a + d + d * (b - a - 1);
  }

  lemma QuotientIs(n: nat, d: nat, q: nat, r: nat)
    requires d > 0 && n == d * q + r && r < d
    ensures n / d == q
  {
    var e := n / d;
    assert n == d * e + n % d;
    if e < q {
      Multiples(d, e, q);
      assert false;
    } else if q < e {
      Multiples(d, q, e);
      assert false;
    }
  }

  /** Eight and four bytes read as the integer they are. */
  lemma FixedRead(p: Bytes, rest: Bytes)
    ensures |p| == 8 ==> ReadFixed64(p + rest) == Got(LittleEndian(p), 8)
    ensures |p| == 4 ==> ReadFixed32(p + rest) == Got(LittleEndian(p), 4)
  {
    assert (p + rest)[..|p|] == p;
    FixedValueIs(p);
    if |p| == 8 {
      assert (p + rest)[..8] == p;
    }
    if |p| == 4 {
      assert (p + rest)[..4] == p;
    }
  }

  // ------------------------------------------------------------- 32-bit values

  /** The one number of that residue in the range of a signed 32-bit integer. */
  lemma ToInt32Is(n: int)
    ensures -0x8000_0000 <= ToInt32(n) < 0x8000_0000
    ensures (ToInt32(n) - n) % 0x1_0000_0000 == 0
  {
  }

  /** Sign extension keeps the low 32 bits and repeats bit 31 above them. */
  lemma SignExtendIs(e: int32)
    ensures SignExtend(e) % 0x1_0000_0000 == e % 0x1_0000_0000
    ensures SignExtend(e) == if e < 0 then 0x1_0000_0000_0000_0000 + e else e
    ensures e >= 0 <==> SignExtend(e) < 0x8000_0000
    ensures e < 0 <==> SignExtend(e) >= 0xFFFF_FFFF_8000_0000
  {
  }

  /** A negative enum value takes ten bytes. */
  lemma NegativeTakesTenBytes(e: int32)
    requires e < 0
    ensures |EncodeVarint(SignExtend(e))| == 10
  {
    VarintLength(SignExtend(e));
  }

  // ------------------------------------------------------ length-delimited

  /** The prefix, padded or not, gives the number of bytes that follow it. */
  lemma LengthDelimitedRead(p: Bytes, d: Bytes, rest: Bytes)
    requires Terminated(p) && |p| <= 10 && Sum128(p) % 0x1_0000_0000 == |d| < 0x8000_0000
    ensures ReadLengthDelimited(p + (d + rest)) == Got(d, |p| + |d|)
  {
    VarintValue(p, d + rest);
    BehindPrefix(p, d, rest);
  }

  lemma BehindPrefix(p: Bytes, d: Bytes, rest: Bytes)
    requires |d| < 0x8000_0000 && ReadVarint32(p + (d + rest)) == Got(|d|, |p|)
    ensures ReadLengthDelimited(p + (d + rest)) == Got(d, |p| + |d|)
  {
    LengthDelimitedAt(p + (d + rest), |p|, |d|);
    Middle(p, d, rest);
  }

  lemma LengthDelimitedAt(s: Bytes, k: nat, len: uint32)
    requires ReadVarint32(s) == Got(len, k) && len < 0x8000_0000 && k + len <= |s|
    ensures ReadLengthDelimited(s) == Got(s[k..k + len], k + len)
  {
  }

  lemma Middle(a: Bytes, b: Bytes, c: Bytes)
    ensures (a + (b + c))[|a|..|a| + |b|] == b
  {
  }

  /** A length of 2^31 or more, or more than the bytes there are, cannot be read. */
  lemma LengthTooLarge(p: Bytes, rest: Bytes)
    requires Terminated(p) && |p| <= 10
    requires var len := Sum128(p) % 0x1_0000_0000; len >= 0x8000_0000 || len > |rest|
    ensures ReadLengthDelimited(p + rest).Fail?
  {
    VarintValue(p, rest);
  }
}
