/** The coded streams and the string object that the message code calls. These belong to
    the serialization library, not to the repository; each operation here is the least the
    message code relies on. */
module Streams {
  import opened Wire
  import opened Fields

  /** A mutable string on the heap. */
  class StdString {
    var data: Bytes

    constructor ()
      ensures data == []
    {
      data := [];
    }
  }

  /** What a failed skip may leave behind: nothing, or one record under the failing tag
      whose contents are not specified. */
  ghost predicate Leftover(before: seq<Field>, tag: uint32, after: seq<Field>) {
    after == before
    || (|after| == |before| + 1 && after[..|before|] == before
        && WellFormed(after[|before|]) && TagOf(after[|before|]) == tag)
  }

  class InputStream {
    const data: Bytes
    var pos: nat
    var lastTag: uint32
    /** Set when the last tag read found the end of the input. */
    var cleanEnd: bool

    ghost predicate Valid()
      reads this
    {
      pos <= |data|
    }

    function Rest(): Bytes
      requires pos <= |data|
      reads this
    {
      data[pos..]
    }

    constructor (data: Bytes)
      ensures Valid() && this.data == data && pos == 0
    {
      this.data := data;
      pos, lastTag, cleanEnd := 0, 0, false;
    }

    /** Yields tag 0 at the end of the input and for a malformed tag; within tells whether
        the tag is from 1 to cutoff. */
    method ReadTagWithCutoff(cutoff: uint32) returns (tag: uint32, within: bool)
      requires Valid()
      modifies this
      ensures Valid()
      ensures within <==> 0 < tag <= cutoff
      ensures lastTag == tag
      ensures cleanEnd <==> old(Rest()) == []
      ensures match ReadVarint32(old(Rest()))
              case Fail => tag == 0 && pos == old(pos)
              case Got(t, n) => tag == t && pos == old(pos) + n
    {
      cleanEnd := Rest() == [];
      match ReadVarint32(Rest()) {
        case Fail =>
          tag := 0;
        case Got(t, n) =>
          tag := t;
          pos := pos + n;
      }
      lastTag := tag;
      within := 0 < tag <= cutoff;
    }

    /** Consumes the next byte if it is the given tag; may also decline to look. */
    method ExpectTag(tag: byte) returns (found: bool)
      requires Valid()
      modifies `pos
      ensures Valid()
      ensures found ==> old(Rest()) != [] && old(Rest())[0] == tag && pos == old(pos) + 1
      ensures !found ==> pos == old(pos)
    {
      var looks: bool := *;
      found := looks && pos < |data| && data[pos] == tag;
      if found {
        pos := pos + 1;
      }
    }

    /** Reports the end of the input; may also decline to look. */
    method ExpectAtEnd() returns (atEnd: bool)
      requires Valid()
      modifies this
      ensures Valid() && pos == old(pos)
      ensures atEnd ==> Rest() == [] && lastTag == 0 && cleanEnd
      ensures !atEnd ==> lastTag == old(lastTag) && cleanEnd == old(cleanEnd)
    {
      var looks: bool := *;
      atEnd := looks && pos == |data|;
      if atEnd {
        lastTag, cleanEnd := 0, true;
      }
    }

    method ReadEnum() returns (ok: bool, value: int32)
      requires Valid()
      modifies `pos
      ensures Valid()
      ensures match ReadVarint32(old(Rest()))
              case Fail => !ok
              case Got(v, n) => ok && value == ToInt32(v) && pos == old(pos) + n
    {
      match ReadVarint32(Rest())
      case Fail =>
        ok, value := false, 0;
      case Got(v, n) =>
        ok, value := true, ToInt32(v);
        pos := pos + n;
    }

    method ReadLittleEndian64() returns (ok: bool, value: uint64)
      requires Valid()
      modifies `pos
      ensures Valid()
      ensures match ReadFixed64(old(Rest()))
              case Fail => !ok
              case Got(v, n) => ok && value == v && pos == old(pos) + n
    {
      match ReadFixed64(Rest())
      case Fail =>
        ok, value := false, 0;
      case Got(v, n) =>
        ok, value := true, v;
        pos := pos + n;
    }

    /** When the read fails the string keeps its contents or is left with part of them. */
    method ReadString(s: StdString) returns (ok: bool)
      requires Valid()
      modifies `pos, s
      ensures Valid()
      ensures match ReadLengthDelimited(old(Rest()))
              case Fail => !ok && (s.data == old(s.data) || |s.data| < TWO_31)
              case Got(d, n) => ok && s.data == d && pos == old(pos) + n
    {
      match ReadLengthDelimited(Rest())
      case Fail =>
        ok := false;
        var part: Bytes := *;
        if |part| < TWO_31 {
          s.data := part;
        }
      case Got(d, n) =>
        ok := true;
        s.data := d;
        pos := pos + n;
    }

    method SkipField(tag: uint32, unknown: seq<Field>) returns (ok: bool, kept: seq<Field>)
      requires Valid()
      modifies `pos
      ensures Valid()
      ensures match ReadField(old(Rest()), tag)
              case Fail => !ok && Leftover(unknown, tag, kept)
              case Got(f, n) => ok && kept == unknown + [f] && pos == old(pos) + n
    {
      match ReadField(Rest(), tag)
      case Fail =>
        ok, kept := false, unknown;
        var part: Field := *;
        if WellFormed(part) && TagOf(part) == tag {
          kept := unknown + [part];
        }
      case Got(f, n) =>
        ok, kept := true, unknown + [f];
        pos := pos + n;
    }
  }

  class OutputStream {
    var written: Bytes

    constructor ()
      ensures written == []
    {
      written := [];
    }

    method WriteTag(number: FieldNumber, wireType: nat)
      requires wireType < 8
      modifies this
      ensures written == old(written) + EncodeVarint(MakeTag(number, wireType))
    {
      written := written + EncodeVarint(MakeTag(number, wireType));
    }

    method WriteEnum(number: FieldNumber, value: int32)
      modifies this
      ensures written == old(written) + EncodeField(Varint(number, SignExtend(value)))
    {
      WriteTag(number, VARINT);
      written := written + EncodeVarint(SignExtend(value));
    }

    method WriteFixed64(number: FieldNumber, value: uint64)
      modifies this
      ensures written == old(written) + EncodeField(Fixed64(number, value))
    {
      WriteTag(number, FIXED64);
      written := written + EncodeFixed(value, 8);
    }

    method WriteString(number: FieldNumber, d: Bytes)
      modifies this
      ensures written == old(written) + EncodeField(LengthDelimited(number, d))
    {
      WriteTag(number, LENGTH_DELIMITED);
      written := written + EncodeVarint(|d| % TWO_32);
      written := written + d;
    }

    method SerializeUnknownField(f: Field)
      modifies this
      ensures written == old(written) + EncodeField(f)
      decreases f, 1
    {
      WriteTag(f.number, WireType(f));
      WriteBody(f);
      ConcatAssociative(old(written), EncodeVarint(TagOf(f)), EncodeBody(f));
    }

    method WriteBody(f: Field)
      modifies this
      ensures written == old(written) + EncodeBody(f)
      decreases f, 0
    {
      match f
      case Varint(_, v) => written := written + EncodeVarint(v);
      case Fixed64(_, v) => written := written + EncodeFixed(v, 8);
      case LengthDelimited(_, d) => written := written + EncodeLengthDelimited(d);
      case Group(n, fs) =>
        SerializeUnknownFields(fs);
        WriteTag(n, END_GROUP);
        ConcatAssociative(old(written), EncodeFields(fs), EncodeVarint(MakeTag(n, END_GROUP)));
      case Fixed32(_, v) => written := written + EncodeFixed(v, 4);
    }

    method SerializeUnknownFields(fs: seq<Field>)
      modifies this
      ensures written == old(written) + EncodeFields(fs)
      decreases fs
    {
      if fs != [] {
        SerializeUnknownField(fs[0]);
        SerializeUnknownFields(fs[1..]);
        ConcatAssociative(old(written), EncodeField(fs[0]), EncodeFields(fs[1..]));
      }
    }
  }
}
