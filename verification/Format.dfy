/** The decoder and the encoder byte by byte and in plain numbers: what every kind of record
    does to a message, how a decode ends, and where every byte of a serialization is. Tags
    and varints may be padded. */
module Format {
  import opened Wire
  import opened Digits
  import opened Fields
  import opened Message
  import opened Decoding
  import opened Serializer

  /** p is a varint, in any of its forms, whose low 32 bits are tag. */
  predicate TagBytes(p: Bytes, tag: nat) {
    Terminated(p) && |p| <= 10 && Sum128(p) % 0x1_0000_0000 == tag
  }

  // ------------------------------------------------------------------ tags

  /** The tag of each kind of record, and of the end of a group. */
  lemma TagNumbers(f: Field)
    ensures TagOf(f) == 8 * f.number + match f
                                       case Varint(_, _) => 0
                                       case Fixed64(_, _) => 1
                                       case LengthDelimited(_, _) => 2
                                       case Group(_, _) => 3
                                       case Fixed32(_, _) => 5
    ensures f.Group? ==> EncodeBody(f) == EncodeFields(f.fields) + EncodeVarint(8 * f.number + 4)
  {
  }

  /** No record begins with any other tag. */
  lemma NoSuchRecord(s: Bytes, tag: uint32)
    requires tag % 8 == 4 || tag % 8 == 6 || tag % 8 == 7
    ensures ReadField(s, tag).Fail?
  {
  }

  // ----------------------------------------------------- a decode, byte by byte

  lemma TagThen(p: Bytes, tag: uint32, s: Bytes)
    requires TagBytes(p, tag)
    ensures ReadVarint32(p + s) == Got(tag, |p|) && (p + s)[|p|..] == s
  {
    VarintValue(p, s);
  }

  lemma RecordAt(s: Bytes, tag: uint32, n: nat, body: Bytes, f: Field, k: nat)
    requires ReadVarint32(s) == Got(tag, n) && !Ends(tag) && s[n..] == body && ReadField(body, tag) == Got(f, k)
    ensures ReadRecord(s) == Got(f, n + k) && s[n + k..] == body[k..]
  {
    assert s[n + k..] == s[n..][k..];
  }

  /** One record moves the decoder behind itself. */
  lemma TakesAt(m: Msg, s: Bytes, n: nat, body: Bytes, f: Field, k: nat)
    requires ReadRecord(s) == Got(f, n + k) && k <= |body| && s[n + k..] == body[k..]
    ensures Decode(m, s) == After(n + k, Decode(Apply(m, f), body[k..]))
  {
  }

  lemma FailsAt(m: Msg, s: Bytes, tag: uint32, n: nat, body: Bytes)
    requires ReadVarint32(s) == Got(tag, n) && !Ends(tag) && s[n..] == body && ReadField(body, tag).Fail?
    ensures Decode(m, s) == Decoded(Failed(tag), m, 0)
  {
    assert ReadRecord(s).Fail?;
  }

  lemma StopsAt(m: Msg, s: Bytes, tag: uint32, n: nat)
    requires ReadVarint32(s) == Got(tag, n) && Ends(tag)
    ensures Decode(m, s) == Decoded(Stopped(tag), m, n)
  {
    assert ReadRecord(s).Fail?;
  }

  lemma Takes(m: Msg, p: Bytes, tag: uint32, s: Bytes, f: Field, k: nat)
    requires TagBytes(p, tag) && tag != 0 && tag % 8 != 4 && ReadField(s, tag) == Got(f, k)
    ensures Decode(m, p + s) == After(|p| + k, Decode(Apply(m, f), s[k..]))
  {
    TagThen(p, tag, s);
    RecordAt(p + s, tag, |p|, s, f, k);
    TakesAt(m, p + s, |p|, s, f, k);
  }

  lemma Fails(m: Msg, p: Bytes, tag: uint32, s: Bytes)
    requires TagBytes(p, tag) && tag != 0 && tag % 8 != 4 && ReadField(s, tag).Fail?
    ensures Decode(m, p + s) == Decoded(Failed(tag), m, 0)
  {
    TagThen(p, tag, s);
    FailsAt(m, p + s, tag, |p|, s);
  }

  lemma TakesBody(m: Msg, p: Bytes, tag: uint32, b: Bytes, rest: Bytes, f: Field, after: Msg)
    requires TagBytes(p, tag) && tag != 0 && tag % 8 != 4
    requires ReadField(b + rest, tag) == Got(f, |b|) && after == Apply(m, f)
    ensures Decode(m, p + (b + rest)) == After(|p| + |b|, Decode(after, rest))
  {
    assert (b + rest)[|b|..] == rest;
    Takes(m, p, tag, b + rest, f, |b|);
  }

  /** The 64-bit pattern of a 32-bit value, bit 31 repeated. */
  function Extended(e: nat): uint64
    requires e < 0x1_0000_0000
  {
    if e < 0x8000_0000 then e else 0xFFFF_FFFF_0000_0000 + e
  }

  lemma ExtendedIs(v: uint64)
    ensures SignExtend(ToInt32(v)) == Extended(v % 0x1_0000_0000)
    ensures ToInt32(v) == if v % 0x1_0000_0000 < 0x8000_0000 then v % 0x1_0000_0000
                          else v % 0x1_0000_0000 - 0x1_0000_0000
  {
  }

  lemma Low32(w: nat)
    ensures w % 0x1_0000_0000_0000_0000 % 0x1_0000_0000 == w % 0x1_0000_0000
  {
    var high, low := w / 0x1_0000_0000_0000_0000, w % 0x1_0000_0000_0000_0000;
    var q, r := low / 0x1_0000_0000, low % 0x1_0000_0000;
    assert w == 0x1_0000_0000 * (0x1_0000_0000 * high + q) + r;
    QuotientIs(w, 0x1_0000_0000, 0x1_0000_0000 * high + q, r);
  }

  /** A varint value as an enum, and as the record that keeps it. */
  function KindRead(m: Msg, w: nat): Msg {
    var e := w % 0x1_0000_0000;
    if e <= 3 then m.(kind := Some(e)) else m.(unknown := m.unknown + [Varint(1, Extended(e))])
  }

  function ErrorRead(m: Msg, w: nat): Msg {
    var e := w % 0x1_0000_0000;
    if e <= 6 then m.(error := Some(e)) else m.(unknown := m.unknown + [Varint(7, Extended(e))])
  }

  lemma EnumApplied(m: Msg, w: nat)
    ensures var v := w % 0x1_0000_0000_0000_0000;
            Apply(m, Varint(1, v)) == KindRead(m, w) && Apply(m, Varint(7, v)) == ErrorRead(m, w)
  {
    Low32(w);
    ExtendedIs(w % 0x1_0000_0000_0000_0000);
  }

  lemma VarintField(p: Bytes, tag: uint32, rest: Bytes)
    requires tag % 8 == 0 && Terminated(p) && |p| <= 10
    ensures ReadField(p + rest, tag) == Got(Varint(tag / 8, Sum128(p) % 0x1_0000_0000_0000_0000), |p|)
  {
    VarintValue(p, rest);
  }

  /** Tag 8 sets the type to a value from 0 to 3; any other value, of whatever width, is
      kept, cut to 32 bits with bit 31 repeated above, as an unknown record. */
  lemma KindBytes(m: Msg, p: Bytes, v: Bytes, rest: Bytes)
    requires TagBytes(p, 8) && Terminated(v) && |v| <= 10
    ensures Decode(m, p + (v + rest)) == After(|p| + |v|, Decode(KindRead(m, Sum128(v)), rest))
  {
    VarintField(v, 8, rest);
    EnumApplied(m, Sum128(v));
    TakesBody(m, p, 8, v, rest, Varint(1, Sum128(v) % 0x1_0000_0000_0000_0000), KindRead(m, Sum128(v)));
  }

  /** Tag 56 sets the error to a value from 0 to 6, and keeps any other in the same way. */
  lemma ErrorBytes(m: Msg, p: Bytes, v: Bytes, rest: Bytes)
    requires TagBytes(p, 56) && Terminated(v) && |v| <= 10
    ensures Decode(m, p + (v + rest)) == After(|p| + |v|, Decode(ErrorRead(m, Sum128(v)), rest))
  {
    VarintField(v, 56, rest);
    EnumApplied(m, Sum128(v));
    TakesBody(m, p, 56, v, rest, Varint(7, Sum128(v) % 0x1_0000_0000_0000_0000), ErrorRead(m, Sum128(v)));
  }

  lemma OneByteIs(b: byte)
    requires b < 128
    ensures TagBytes([b], b) && Sum128([b]) == b
  {
    Sum128First(b, []);
    assert [b] + [] == [b];
  }

  /** Which one-byte values each enum field takes. */
  lemma EnumBytes(b: byte)
    requires b < 128
    ensures Decode(EMPTY, [8, b]).msg.kind == Some(b) <==> b <= 3
    ensures Decode(EMPTY, [56, b]).msg.error == Some(b) <==> b <= 6
  {
    OneByteIs(8);
    OneByteIs(56);
    OneByteIs(b);
    assert [8] + ([b] + []) == [8, b];
    assert [56] + ([b] + []) == [56, b];
    KindBytes(EMPTY, [8], [b], []);
    ErrorBytes(EMPTY, [56], [b], []);
  }

  /** Tag 17 sets the id to the little-endian value of eight bytes. */
  lemma IdBytes(m: Msg, p: Bytes, d: Bytes, rest: Bytes)
    requires TagBytes(p, 17) && |d| == 8
    ensures LittleEndian(d) < 0x1_0000_0000_0000_0000
    ensures Decode(m, p + (d + rest)) == After(|p| + 8, Decode(m.(id := Some(LittleEndian(d))), rest))
  {
    FixedRead(d, rest);
    var v: uint64 := ReadFixed64(d + rest).value;
    TakesBody(m, p, 17, d, rest, Fixed64(2, v), m.(id := Some(v)));
  }

  lemma DataField(q: Bytes, d: Bytes, tag: uint32, rest: Bytes)
    requires tag % 8 == 2 && TagBytes(q, |d|) && |d| < 0x8000_0000
    ensures ReadField((q + d) + rest, tag) == Got(LengthDelimited(tag / 8, d), |q + d|)
  {
    ConcatAssociative(q, d, rest);
    LengthDelimitedRead(q, d, rest);
  }

  lemma StringTaken(m: Msg, i: Slot, p: Bytes, b: Bytes, d: Bytes, rest: Bytes)
    requires TagBytes(p, 26 + 8 * i) && ReadField(b + rest, 26 + 8 * i) == Got(LengthDelimited(3 + i, d), |b|)
    ensures Decode(m, p + (b + rest)) == After(|p| + |b|, Decode(m.(strs := m.strs[i := Some(d)]), rest))
  {
    TakesBody(m, p, 26 + 8 * i, b, rest, LengthDelimited(3 + i, d), m.(strs := m.strs[i := Some(d)]));
  }

  /** Tags 26, 34, 42 and 50 set service, method, request and response to the bytes behind
      the length. */
  lemma StringBytes(m: Msg, i: Slot, p: Bytes, q: Bytes, d: Bytes, rest: Bytes)
    requires TagBytes(p, 26 + 8 * i) && TagBytes(q, |d|) && |d| < 0x8000_0000
    ensures Decode(m, p + ((q + d) + rest))
            == After(|p| + |q + d|, Decode(m.(strs := m.strs[i := Some(d)]), rest))
  {
    DataField(q, d, 26 + 8 * i, rest);
    StringTaken(m, i, p, q + d, d, rest);
  }

  /** Every other tag of a record leaves the fields alone and keeps the record. */
  predicate OtherTag(tag: uint32) {
    && tag != 0 && tag != 8 && tag != 17 && tag != 26 && tag != 34 && tag != 42 && tag != 50 && tag != 56
    && tag % 8 != 4
  }

  lemma OtherApplied(m: Msg, f: Field)
    requires OtherTag(TagOf(f))
    ensures Apply(m, f) == m.(unknown := m.unknown + [f])
  {
    TagNumbers(f);
  }

  lemma OtherTaken(m: Msg, p: Bytes, tag: uint32, b: Bytes, rest: Bytes, f: Field)
    requires TagBytes(p, tag) && OtherTag(tag) && TagOf(f) == tag && ReadField(b + rest, tag) == Got(f, |b|)
    ensures Decode(m, p + (b + rest)) == After(|p| + |b|, Decode(m.(unknown := m.unknown + [f]), rest))
  {
    OtherApplied(m, f);
    TakesBody(m, p, tag, b, rest, f, m.(unknown := m.unknown + [f]));
  }

  lemma OtherVarint(m: Msg, p: Bytes, tag: uint32, v: Bytes, rest: Bytes)
    requires TagBytes(p, tag) && OtherTag(tag) && tag % 8 == 0 && Terminated(v) && |v| <= 10
    ensures var f := Varint(tag / 8, Sum128(v) % 0x1_0000_0000_0000_0000);
            Decode(m, p + (v + rest)) == After(|p| + |v|, Decode(m.(unknown := m.unknown + [f]), rest))
  {
    var f := Varint(tag / 8, Sum128(v) % 0x1_0000_0000_0000_0000);
    VarintField(v, tag, rest);
    OtherTaken(m, p, tag, v, rest, f);
  }

  lemma OtherFixed64(m: Msg, p: Bytes, tag: uint32, d: Bytes, rest: Bytes)
    requires TagBytes(p, tag) && OtherTag(tag) && tag % 8 == 1 && |d| == 8
    ensures LittleEndian(d) < 0x1_0000_0000_0000_0000
    ensures var f := Fixed64(tag / 8, LittleEndian(d));
            Decode(m, p + (d + rest)) == After(|p| + 8, Decode(m.(unknown := m.unknown + [f]), rest))
  {
    FixedRead(d, rest);
    var v: uint64 := ReadFixed64(d + rest).value;
    OtherTaken(m, p, tag, d, rest, Fixed64(tag / 8, v));
  }

  lemma OtherFixed32(m: Msg, p: Bytes, tag: uint32, d: Bytes, rest: Bytes)
    requires TagBytes(p, tag) && tag % 8 == 5 && |d| == 4
    ensures LittleEndian(d) < 0x1_0000_0000
    ensures var f := Fixed32(tag / 8, LittleEndian(d));
            Decode(m, p + (d + rest)) == After(|p| + 4, Decode(m.(unknown := m.unknown + [f]), rest))
  {
    FixedRead(d, rest);
    var v: uint32 := ReadFixed32(d + rest).value;
    OtherTaken(m, p, tag, d, rest, Fixed32(tag / 8, v));
  }

  lemma OtherData(m: Msg, p: Bytes, tag: uint32, q: Bytes, d: Bytes, rest: Bytes)
    requires TagBytes(p, tag) && OtherTag(tag) && tag % 8 == 2 && TagBytes(q, |d|) && |d| < 0x8000_0000
    ensures var f := LengthDelimited(tag / 8, d);
            Decode(m, p + ((q + d) + rest)) == After(|p| + |q + d|, Decode(m.(unknown := m.unknown + [f]), rest))
  {
    DataField(q, d, tag, rest);
    OtherTaken(m, p, tag, q + d, rest, LengthDelimited(tag / 8, d));
  }

  // ---------------------------------------------------------------- groups

  /** A group is read as a message is, up to an end-group tag, which must carry the group's
      own number; it fails in every other case. */
  lemma {:induction false} GroupIsMessage(m: Msg, s: Bytes, n: FieldNumber)
    ensures ReadGroup(s, n) == if Decode(m, s).outcome == Stopped(8 * n + 4)
                               then Got(ReadRecords(s), Decode(m, s).used) else Fail
    decreases |s|
  {
    match ReadRecord(s)
    case Got(f, k) => GroupIsMessage(Apply(m, f), s[k..], n);
    case Fail =>
  }

  lemma GroupField(e: Msg, s: Bytes, tag: uint32, r: Decoded, f: Field)
    requires tag % 8 == 3 && r == Decode(e, s) && f == Group(tag / 8, ReadRecords(s))
    ensures ReadField(s, tag) == if r.outcome == Stopped(tag + 1) then Got(f, r.used) else Fail
  {
    GroupIsMessage(e, s, tag / 8);
  }

  lemma GroupTaken(m: Msg, p: Bytes, tag: uint32, s: Bytes, f: Field, k: nat)
    requires TagBytes(p, tag) && OtherTag(tag) && TagOf(f) == tag && ReadField(s, tag) == Got(f, k)
    ensures Decode(m, p + s) == After(|p| + k, Decode(m.(unknown := m.unknown + [f]), s[k..]))
  {
    OtherApplied(m, f);
    Takes(m, p, tag, s, f, k);
  }

  lemma GroupStep(m: Msg, p: Bytes, tag: uint32, s: Bytes, ended: bool, f: Field, k: nat)
    requires TagBytes(p, tag) && tag % 8 == 3 && TagOf(f) == tag
    requires ReadField(s, tag) == if ended then Got(f, k) else Fail
    ensures ended ==> k <= |s| && Decode(m, p + s) == After(|p| + k, Decode(m.(unknown := m.unknown + [f]), s[k..]))
    ensures !ended ==> Decode(m, p + s) == Decoded(Failed(tag), m, 0)
  {
    if ended {
      GroupTaken(m, p, tag, s, f, k);
    } else {
      Fails(m, p, tag, s);
    }
  }

  /** So a group keeps the records that its content, decoded into whatever message e, would
      apply, and a group that is not ended, or is ended by another number, makes the decode
      fail. */
  lemma GroupBytes(m: Msg, e: Msg, p: Bytes, tag: uint32, s: Bytes, r: Decoded, f: Field)
    requires TagBytes(p, tag) && tag % 8 == 3 && r == Decode(e, s) && f == Group(tag / 8, ReadRecords(s))
    ensures Decode(m, p + s) == if r.outcome == Stopped(tag + 1)
                                then After(|p| + r.used, Decode(m.(unknown := m.unknown + [f]), s[r.used..]))
                                else Decoded(Failed(tag), m, 0)
  {
    GroupField(e, s, tag, r, f);
    GroupStep(m, p, tag, s, r.outcome == Stopped(tag + 1), f, r.used);
  }

  // ------------------------------------------------------- how a decode ends

  /** Cleanly at the end of the input; at a zero or end-group tag, which is consumed; and as
      a failure at a tag under which nothing can be read. */
  lemma EndBytes(m: Msg, p: Bytes, tag: uint32, s: Bytes)
    requires TagBytes(p, tag)
    ensures Decode(m, []) == Decoded(CleanEnd, m, 0)
    ensures tag == 0 || tag % 8 == 4 ==> Decode(m, p + s) == Decoded(Stopped(tag), m, |p|)
    ensures tag % 8 == 6 || tag % 8 == 7 ==> Decode(m, p + s) == Decoded(Failed(tag), m, 0)
  {
    if tag == 0 || tag % 8 == 4 {
      TagThen(p, tag, s);
      StopsAt(m, p + s, tag, |p|);
    } else if tag % 8 == 6 || tag % 8 == 7 {
      Fails(m, p, tag, s);
    }
  }

  lemma TooShortBytes(m: Msg, p: Bytes, tag: uint32, s: Bytes)
    requires TagBytes(p, tag) && ((tag % 8 == 1 && |s| < 8) || (tag % 8 == 5 && |s| < 4))
    ensures Decode(m, p + s) == Decoded(Failed(tag), m, 0)
  {
    Fails(m, p, tag, s);
  }

  /** Bytes without the end of a varint among the first ten are no tag and no varint, and
      so no length. */
  predicate NoVarint(s: Bytes) {
    forall i :: 0 <= i < |s| && i < 10 ==> s[i] >= 128
  }

  lemma {:induction false} NoVarintFails(s: Bytes, limit: nat)
    requires forall i :: 0 <= i < |s| && i < limit ==> s[i] >= 128
    ensures RawVarint(s, limit).Fail?
  {
    if s != [] && limit > 0 {
      NoVarintFails(s[1..], limit - 1);
    }
  }

  lemma MalformedBytes(m: Msg, p: Bytes, tag: uint32, s: Bytes)
    requires TagBytes(p, tag) && NoVarint(s)
    ensures s != [] ==> Decode(m, s) == Decoded(Stopped(0), m, 0)
    ensures tag != 0 && (tag % 8 == 0 || tag % 8 == 2) ==> Decode(m, p + s) == Decoded(Failed(tag), m, 0)
  {
    NoVarintFails(s, 10);
    if tag != 0 && (tag % 8 == 0 || tag % 8 == 2) {
      Fails(m, p, tag, s);
    }
  }

  /** A length that is negative as a signed number, or reaches beyond the input, is a
      failure. */
  lemma LengthBytes(m: Msg, p: Bytes, tag: uint32, q: Bytes, s: Bytes)
    requires TagBytes(p, tag) && tag % 8 == 2 && Terminated(q) && |q| <= 10
    requires var len := Sum128(q) % 0x1_0000_0000; len >= 0x8000_0000 || len > |s|
    ensures Decode(m, p + (q + s)) == Decoded(Failed(tag), m, 0)
  {
    LengthTooLarge(q, s);
    Fails(m, p, tag, q + s);
  }

  // --------------------------------------------------------------- layout

  function KindLayout(m: Msg): Bytes {
    match m.kind
    case None => []
    case Some(e) => [8] + EncodeVarint(if e < 0 then 0x1_0000_0000_0000_0000 + e else e)
  }

  function IdLayout(m: Msg): Bytes {
    if m.id.None? then [] else [17] + EncodeFixed(m.id.value, 8)
  }

  function StringLayout(m: Msg, i: Slot): Bytes {
    match m.strs[i]
    case None => []
    case Some(d) => [26 + 8 * i] + (EncodeVarint(|d| % 0x1_0000_0000) + d)
  }

  function ErrorLayout(m: Msg): Bytes {
    match m.error
    case None => []
    case Some(e) => [56] + EncodeVarint(if e < 0 then 0x1_0000_0000_0000_0000 + e else e)
  }

  lemma OneByte(n: byte)
    requires n < 128
    ensures EncodeVarint(n) == [n]
  {
  }

  lemma BehindOneByteTag(f: Field)
    requires TagOf(f) < 128
    ensures EncodeOption(Some(f)) == [TagOf(f)] + EncodeBody(f)
  {
    OneByte(TagOf(f));
  }

  lemma KindLaidOut(m: Msg)
    ensures EncodeOption(Get(m, 1)) == KindLayout(m)
  {
    if m.kind.Some? {
      BehindOneByteTag(Varint(1, SignExtend(m.kind.value)));
    }
  }

  lemma IdLaidOut(m: Msg)
    ensures EncodeOption(Get(m, 2)) == IdLayout(m)
  {
    if m.id.Some? {
      BehindOneByteTag(Fixed64(2, m.id.value));
    }
  }

  lemma StringLaidOut(m: Msg, i: Slot)
    ensures EncodeOption(Get(m, i + 3)) == StringLayout(m, i)
  {
    if m.strs[i].Some? {
      BehindOneByteTag(LengthDelimited(i + 3, m.strs[i].value));
    }
  }

  lemma ErrorLaidOut(m: Msg)
    ensures EncodeOption(Get(m, 7)) == ErrorLayout(m)
  {
    if m.error.Some? {
      BehindOneByteTag(Varint(7, SignExtend(m.error.value)));
    }
  }

  function BackLayout(m: Msg): Bytes {
    StringLayout(m, 2) + (StringLayout(m, 3) + (ErrorLayout(m) + EncodeFields(m.unknown)))
  }

  function FrontLayout(m: Msg, back: Bytes): Bytes {
    KindLayout(m) + (IdLayout(m) + (StringLayout(m, 0) + (StringLayout(m, 1) + back)))
  }

  lemma BackLaidOut(m: Msg)
    ensures EncodeFrom(m, 5) == BackLayout(m)
  {
    StringLaidOut(m, 2);
    StringLaidOut(m, 3);
    ErrorLaidOut(m);
    EncodeFromStep(m, 5);
    EncodeFromStep(m, 6);
    EncodeFromStep(m, 7);
    EncodeFromEnd(m);
  }

  /** A serialization byte by byte: the present fields in ascending order, each behind its
      one-byte tag, and the unknown records. */
  lemma Layout(m: Msg)
    ensures Encode(m) == FrontLayout(m, BackLayout(m))
  {
    BackLaidOut(m);
    KindLaidOut(m);
    IdLaidOut(m);
    StringLaidOut(m, 0);
    StringLaidOut(m, 1);
    EncodeFromStep(m, 1);
    EncodeFromStep(m, 2);
    EncodeFromStep(m, 3);
    EncodeFromStep(m, 4);
  }

  /** An unknown record: its tag and what is behind it. */
  lemma RecordLayout(f: Field)
    ensures EncodeField(f) == EncodeVarint(TagOf(f)) + match f
                                                       case Varint(_, v) => EncodeVarint(v)
                                                       case Fixed64(_, v) => EncodeFixed(v, 8)
                                                       case LengthDelimited(_, d) =>
                                                         EncodeVarint(|d| % 0x1_0000_0000) + d
                                                       case Group(n, fs) =>
                                                         EncodeFields(fs) + EncodeVarint(8 * n + 4)
                                                       case Fixed32(_, v) => EncodeFixed(v, 4)
  {
  }
}
