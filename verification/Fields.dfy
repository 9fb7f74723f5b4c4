/** The records of the wire format. A record is read under a tag that has already been
    consumed; groups nest, so reading and writing recurse. This is also the element
    type of a message's unknown-field set. */
module Fields {
  import opened Wire

  datatype Field =
    | Varint(number: FieldNumber, varint: uint64)
    | Fixed64(number: FieldNumber, fixed64: uint64)
    | LengthDelimited(number: FieldNumber, data: Bytes)
    | Group(number: FieldNumber, fields: seq<Field>)
    | Fixed32(number: FieldNumber, fixed32: uint32)

  function WireType(f: Field): (w: nat)
    ensures w < 8
  {
    match f
    case Varint(_, _) => VARINT
    case Fixed64(_, _) => FIXED64
    case LengthDelimited(_, _) => LENGTH_DELIMITED
    case Group(_, _) => START_GROUP
    case Fixed32(_, _) => FIXED32
  }

  function TagOf(f: Field): uint32 {
    MakeTag(f.number, WireType(f))
  }

  /** What reading can yield: the tag is not 0, which a varint numbered 0 would have, and a
      length fits a signed 32-bit integer, at every depth. */
  predicate WellFormed(f: Field) {
    (f.Varint? ==> f.number != 0)
    && match f
       case LengthDelimited(_, d) => |d| < TWO_31
       case Group(_, fs) => AllWellFormed(fs)
       case _ => true
  }

  predicate AllWellFormed(fs: seq<Field>) {
    fs == [] || (WellFormed(fs[0]) && AllWellFormed(fs[1..]))
  }

  // --------------------------------------------------------------- writing

  /** A record without its opening tag. */
  function EncodeBody(f: Field): (s: Bytes)
    decreases f, 0
  {
    match f
    case Varint(_, v) => EncodeVarint(v)
    case Fixed64(_, v) => EncodeFixed(v, 8)
    case LengthDelimited(_, d) => EncodeLengthDelimited(d)
    case Group(n, fs) => EncodeFields(fs) + EncodeVarint(MakeTag(n, END_GROUP))
    case Fixed32(_, v) => EncodeFixed(v, 4)
  }

  function EncodeField(f: Field): (s: Bytes)
    ensures 1 <= |s|
    decreases f, 1
  {
    EncodeVarint(TagOf(f)) + EncodeBody(f)
  }

  function EncodeFields(fs: seq<Field>): (s: Bytes)
    decreases fs
  {
    if fs == [] then [] else EncodeField(fs[0]) + EncodeFields(fs[1..])
  }

  lemma {:induction false} EncodeFieldsAppend(a: seq<Field>, b: seq<Field>)
    ensures EncodeFields(a + b) == EncodeFields(a) + EncodeFields(b)
  {
    if a == [] {
      assert a + b == b;
    } else {
      assert (a + b)[1..] == a[1..] + b;
      EncodeFieldsAppend(a[1..], b);
    }
  }

  // --------------------------------------------------------------- reading

  /** Skips one field under the given tag, keeping what it read. */
  function ReadField(s: Bytes, tag: uint32): (r: Read<Field>)
    ensures r.Got? ==> r.used <= |s|
    decreases |s|, 2
  {
    var number: FieldNumber := tag / 8;
    var wireType := tag % 8;
    if wireType == VARINT then
      match ReadVarint64(s)
      case Fail => Fail
      case Got(v, n) => Got(Varint(number, v), n)
    else if wireType == FIXED64 then
      match ReadFixed64(s)
      case Fail => Fail
      case Got(v, n) => Got(Fixed64(number, v), n)
    else if wireType == LENGTH_DELIMITED then
      match ReadLengthDelimited(s)
      case Fail => Fail
      case Got(d, n) => Got(LengthDelimited(number, d), n)
    else if wireType == START_GROUP then
      match ReadGroup(s, number)
      case Fail => Fail
      case Got(fs, n) => Got(Group(number, fs), n)
    else if wireType == FIXED32 then
      match ReadFixed32(s)
      case Fail => Fail
      case Got(v, n) => Got(Fixed32(number, v), n)
    else Fail
  }

  /** Whether a tag ends a message instead of opening a record. */
  predicate Ends(tag: uint32) {
    tag == 0 || tag % 8 == END_GROUP
  }

  /** A tag and the field under it. There is no record at the end of input, at a zero or
      malformed tag or at an end-group tag. */
  function ReadRecord(s: Bytes): (r: Read<Field>)
    ensures r.Got? ==> 1 <= r.used <= |s|
    decreases |s|, 0
  {
    match ReadVarint32(s)
    case Fail => Fail
    case Got(tag, n) =>
      if Ends(tag) then Fail
      else
        match ReadField(s[n..], tag)
        case Fail => Fail
        case Got(f, k) => Got(f, n + k)
  }

  /** The records of a group up to its end-group tag, which must carry the group's own
      number: end of input, a zero or malformed tag and a foreign end-group tag all
      stop the inner loop without that tag, and the group fails. */
  function ReadGroup(s: Bytes, number: FieldNumber): (r: Read<seq<Field>>)
    ensures r.Got? ==> 1 <= r.used <= |s|
    decreases |s|, 1
  {
    match ReadRecord(s)
    case Got(f, n) => Prepend(f, n, ReadGroup(s[n..], number))
    case Fail =>
      match ReadVarint32(s)
      case Fail => Fail
      case Got(tag, n) => if tag == MakeTag(number, END_GROUP) then Got([], n) else Fail
  }

  /** A record of n bytes in front of the records of a later read. */
  function Prepend(f: Field, n: nat, r: Read<seq<Field>>): (p: Read<seq<Field>>)
    ensures p.Got? <==> r.Got?
    ensures r.Got? ==> p == Got([f] + r.value, n + r.used)
  {
    match r
    case Fail => Fail
    case Got(fs, j) => Got([f] + fs, n + j)
  }

  // -------------------------------------------- what reading yields is well formed

  lemma {:induction false} ReadFieldWellFormed(s: Bytes, tag: uint32)
    requires tag != 0 && ReadField(s, tag).Got?
    ensures WellFormed(ReadField(s, tag).value) && TagOf(ReadField(s, tag).value) == tag
    decreases |s|, 2
  {
    if tag % 8 == START_GROUP {
      ReadGroupWellFormed(s, tag / 8);
    }
  }

  lemma {:induction false} ReadRecordWellFormed(s: Bytes)
    requires ReadRecord(s).Got?
    ensures WellFormed(ReadRecord(s).value)
    decreases |s|, 0
  {
    var tag := ReadVarint32(s);
    ReadFieldWellFormed(s[tag.used..], tag.value);
  }

  lemma {:induction false} ReadGroupWellFormed(s: Bytes, number: FieldNumber)
    requires ReadGroup(s, number).Got?
    ensures AllWellFormed(ReadGroup(s, number).value)
    decreases |s|, 1
  {
    if ReadRecord(s).Got? {
      ReadRecordWellFormed(s);
      ReadGroupWellFormed(s[ReadRecord(s).used..], number);
    }
  }

  // ------------------------ bytes after a complete record do not change how it reads

  lemma {:induction false} ReadFieldExtend(s: Bytes, tag: uint32, t: Bytes)
    requires ReadField(s, tag).Got?
    ensures ReadField(s + t, tag) == ReadField(s, tag)
    decreases |s|, 2
  {
    if tag % 8 == VARINT {
      RawVarintExtend(s, t, MAX_VARINT_BYTES);
    } else if tag % 8 == FIXED64 {
      assert (s + t)[..8] == s[..8];
    } else if tag % 8 == LENGTH_DELIMITED {
      LengthDelimitedExtend(s, t);
    } else if tag % 8 == START_GROUP {
      ReadGroupExtend(s, tag / 8, t);
    } else {
      assert (s + t)[..4] == s[..4];
    }
  }

  lemma {:induction false} ReadRecordExtend(s: Bytes, t: Bytes)
    requires ReadRecord(s).Got?
    ensures ReadRecord(s + t) == ReadRecord(s)
    decreases |s|, 0
  {
    RawVarintExtend(s, t, MAX_VARINT_BYTES);
    var tag := ReadVarint32(s);
    assert (s + t)[tag.used..] == s[tag.used..] + t;
    ReadFieldExtend(s[tag.used..], tag.value, t);
  }

  lemma {:induction false} ReadGroupExtend(s: Bytes, number: FieldNumber, t: Bytes)
    requires ReadGroup(s, number).Got?
    ensures ReadGroup(s + t, number) == ReadGroup(s, number)
    decreases |s|, 1
  {
    if ReadRecord(s).Got? {
      var n := ReadRecord(s).used;
      ReadRecordExtend(s, t);
      assert (s + t)[n..] == s[n..] + t;
      ReadGroupExtend(s[n..], number, t);
    } else {
      RawVarintExtend(s, t, MAX_VARINT_BYTES);
      assert Ends(ReadVarint32(s).value);
    }
  }

  // ------------------------------------- reading undoes writing, whatever follows

  lemma {:induction false} ReadFieldInverse(f: Field, rest: Bytes)
    requires WellFormed(f)
    ensures ReadField(EncodeBody(f) + rest, TagOf(f)) == Got(f, |EncodeBody(f)|)
    decreases f, 0
  {
    match f
    case Varint(_, v) => VarintInverse(v, rest);
    case Fixed64(_, v) => Fixed64Inverse(v, rest);
    case LengthDelimited(_, d) => LengthDelimitedInverse(d, rest);
    case Group(n, fs) =>
      var end := EncodeVarint(MakeTag(n, END_GROUP));
      assert EncodeBody(f) + rest == EncodeFields(fs) + (end + rest);
      ReadGroupInverse(fs, n, rest);
    case Fixed32(_, v) => Fixed32Inverse(v, rest);
  }

  lemma {:induction false} ReadRecordInverse(f: Field, rest: Bytes)
    requires WellFormed(f)
    ensures ReadRecord(EncodeField(f) + rest) == Got(f, |EncodeField(f)|)
    decreases f, 1
  {
    var s, tag := EncodeField(f) + rest, EncodeVarint(TagOf(f));
    assert s == tag + (EncodeBody(f) + rest);
    TagInverse(TagOf(f), EncodeBody(f) + rest);
    assert s[|tag|..] == EncodeBody(f) + rest;
    ReadFieldInverse(f, rest);
  }

  lemma {:induction false} ReadGroupInverse(fs: seq<Field>, number: FieldNumber, rest: Bytes)
    requires AllWellFormed(fs)
    ensures var end := EncodeVarint(MakeTag(number, END_GROUP));
            ReadGroup(EncodeFields(fs) + (end + rest), number) == Got(fs, |EncodeFields(fs)| + |end|)
    decreases fs
  {
    var end := EncodeVarint(MakeTag(number, END_GROUP));
    var s := EncodeFields(fs) + (end + rest);
    if fs == [] {
      assert s == end + rest;
      TagInverse(MakeTag(number, END_GROUP), rest);
    } else {
      var after := EncodeFields(fs[1..]) + (end + rest);
      assert s == EncodeField(fs[0]) + after;
      ReadRecordInverse(fs[0], after);
      assert s[|EncodeField(fs[0])|..] == after;
      ReadGroupInverse(fs[1..], number, rest);
      assert [fs[0]] + fs[1..] == fs;
    }
  }
}
