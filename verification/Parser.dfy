/** The optimised decoder: a loop whose field bodies may jump straight into the next
    field's body, or out of the loop, when the stream volunteers that the next bytes
    allow it. It is proved equal to the plain loop of module Decoding for every input and
    every pattern of answers from the stream. */
module Parser {
  import opened Wire
  import opened Fields
  import opened Message
  import opened Decoding
  import opened Streams
  import opened RpcMessages

  /** The tag byte of each known field. */
  function KnownTag(n: Known): (tag: byte)
    ensures tag < 128
  {
    match n
    case 1 => 8
    case 2 => 17
    case 3 => 26
    case 4 => 34
    case 5 => 42
    case 6 => 50
    case 7 => 56
  }

  /** The switch on the field number and the check of the whole tag inside each case; 0
      stands for the shared exit for everything unusual. */
  function Dispatch(tag: uint32): (n: nat)
    ensures n <= 7 && (n > 0 ==> tag == KnownTag(n))
    ensures n == 0 ==> forall k: Known :: tag != KnownTag(k)
  {
    match tag / 8
    case 1 => if tag == 8 then 1 else 0
    case 2 => if tag == 17 then 2 else 0
    case 3 => if tag == 26 then 3 else 0
    case 4 => if tag == 34 then 4 else 0
    case 5 => if tag == 42 then 5 else 0
    case 6 => if tag == 50 then 6 else 0
    case 7 => if tag == 56 then 7 else 0
    case _ => 0
  }

  /** What a failed read under a tag may leave of the message: a string field is present
      with unspecified contents, other known fields are untouched, and the unknown set may
      hold one unfinished record. */
  ghost predicate Wrecked(before: Msg, tag: uint32, after: Msg) {
    var n := Dispatch(tag);
    if n == 0 then after == before.(unknown := after.unknown) && Leftover(before.unknown, tag, after.unknown)
    else if 3 <= n <= 6 then
      exists d: Bytes :: after == WithString(before, n - 3, d) && (before.strs[n - 3] == Some(d) || |d| < TWO_31)
    else after == before
  }

  /** Even then the message is normal. */
  lemma WreckedNormal(before: Msg, tag: uint32, after: Msg)
    requires Normal(before) && !Ends(tag) && Wrecked(before, tag, after)
    ensures Normal(after)
    ensures Short(before) ==> Short(after)
  {
    if Dispatch(tag) == 0 && after.unknown != before.unknown {
      var f := after.unknown[|before.unknown|];
      NotDispatched(f);
      assert after.unknown == before.unknown + [f];
    }
  }

  /** It differs from the message before in nothing but what the failing tag is about: a
      field of type string, the unknown set by at most one record of that tag, or nothing. */
  lemma WreckedOnlyThere(before: Msg, tag: uint32, after: Msg, k: Known)
    requires Wrecked(before, tag, after)
    ensures Get(after, k) == Get(before, k) || (tag == 8 * k + 2 && 3 <= k <= 6 && Get(after, k).Some?)
    ensures after.unknown == before.unknown
            || (tag !in {8, 17, 26, 34, 42, 50, 56} && |after.unknown| == |before.unknown| + 1
                && after.unknown[..|before.unknown|] == before.unknown && TagOf(after.unknown[|before.unknown|]) == tag)
  {
  }

  lemma NotDispatched(f: Field)
    requires Dispatch(TagOf(f)) == 0
    ensures !IsKnown(f) && Canonical(f) == f
  {
    forall k: Known ensures TagOf(f) != KnownTag(k) {
    }
    assert TagOf(f) != KnownTag(1) && TagOf(f) != KnownTag(2) && TagOf(f) != KnownTag(3) && TagOf(f) != KnownTag(4);
    assert TagOf(f) != KnownTag(5) && TagOf(f) != KnownTag(6) && TagOf(f) != KnownTag(7);
  }

  // ------------------------------------------------------- the field bodies

  /** How a field body leaves message and stream. */
  twostate predicate FieldParsed(m: RpcMessage, input: InputStream, tag: uint32, ok: bool)
    requires old(input.Valid())
    reads m, input
  {
    match ReadField(old(input.Rest()), tag)
    case Fail => !ok && Wrecked(old(m.model), tag, m.model)
    case Got(f, k) => ok && m.model == Apply(old(m.model), f) && input.pos == old(input.pos) + k
  }

  /** An enum field reads the low 32 bits of what the plain loop reads. */
  lemma EnumRead(s: Bytes, n: Known)
    requires n == 1 || n == 7
    ensures var r, f := ReadVarint32(s), ReadField(s, KnownTag(n));
            && (f.Got? <==> r.Got?)
            && (r.Got? ==> f.used == r.used && f.value.Varint? && f.value.number == n
                           && ToInt32(f.value.varint) == ToInt32(r.value))
  {
    match RawVarint(s, MAX_VARINT_BYTES)
    case Fail =>
    case Got(v, _) => LowBits(v);
  }

  lemma Remainder(v: nat, q: nat, r: nat)
    requires v == TWO_32 * q + r && r < TWO_32
    ensures v % TWO_32 == r
  {
  }

  lemma LowBits(v: nat)
    ensures ToInt32(v % TWO_64) == ToInt32(v % TWO_32)
  {
    var high, low := v / TWO_64, v % TWO_64;
    var middle, r := low / TWO_32, low % TWO_32;
    assert v == TWO_32 * (TWO_32 * high + middle) + r;
    Remainder(v, TWO_32 * high + middle, r);
  }

  method ParseKind(m: RpcMessage, input: InputStream) returns (ok: bool)
    requires m.Valid() && input.Valid()
    modifies m`hasBits, m`kind, m`unknownFields, m`model, input`pos
    ensures m.Valid() && input.Valid() && FieldParsed(m, input, KnownTag(1), ok)
  {
    EnumRead(input.Rest(), 1);
    var value;
    ok, value := input.ReadEnum();
    if ok {
      if MessageTypeIsValid(value) {
        m.SetKind(value);
      } else {
        m.AddUnknownFields([Varint(1, SignExtend(value))]);
      }
    }
  }

  method ParseId(m: RpcMessage, input: InputStream) returns (ok: bool)
    requires m.Valid() && input.Valid()
    modifies m`hasBits, m`id, m`model, input`pos
    ensures m.Valid() && input.Valid() && FieldParsed(m, input, KnownTag(2), ok)
  {
    var value;
    ok, value := input.ReadLittleEndian64();
    if ok {
      m.SetId(value);
    }
  }

  /** A string field reads a length-delimited record of its own number. */
  lemma StringRead(s: Bytes, i: Slot)
    ensures ReadField(s, KnownTag(i + 3)) == match ReadLengthDelimited(s)
                                             case Fail => Fail
                                             case Got(d, k) => Got(LengthDelimited(i + 3, d), k)
  {
  }

  lemma StringWrecked(before: Msg, i: Slot, d: Bytes)
    requires before.strs[i] == Some(d) || |d| < TWO_31
    ensures Wrecked(before, KnownTag(i + 3), WithString(before, i, d))
  {
  }

  /** Reads straight into a present field's string. */
  method FillString(m: RpcMessage, i: Slot, input: InputStream) returns (ok: bool)
    requires m.Valid() && input.Valid() && m.hasBits[i + 2]
    modifies m`model, m.strs[i], input`pos
    ensures m.Valid() && input.Valid()
    ensures m.model == WithString(old(m.model), i, m.strs[i].data)
    ensures match ReadLengthDelimited(old(input.Rest()))
            case Fail => !ok && (m.strs[i].data == old(m.strs[i].data) || |m.strs[i].data| < TWO_31)
            case Got(d, k) => ok && m.strs[i].data == d && input.pos == old(input.pos) + k
  {
    ok := input.ReadString(m.strs[i]);
    m.Written(i);
  }

  method ReadInto(m: RpcMessage, i: Slot, input: InputStream) returns (ok: bool)
    requires m.Valid() && input.Valid()
    modifies m`hasBits, m`strs, m`model, m.heap, m.strs[i], input`pos
    ensures m.Valid() && input.Valid() && m.heap.ChangedOnlyFor(m)
    ensures m.strs == old(m.strs)[i := m.strs[i]] && (m.strs[i] == old(m.strs[i]) || fresh(m.strs[i]))
    ensures m.model == WithString(old(m.model), i, m.strs[i].data)
    ensures match ReadLengthDelimited(old(input.Rest()))
            case Fail => !ok && (m.strs[i].data == old(m.strs[i].data) || |m.strs[i].data| < TWO_31)
            case Got(d, k) => ok && m.strs[i].data == d && input.pos == old(input.pos) + k
  {
    var lent := m.MutableString(i);
    ok := FillString(m, i, input);
  }

  method ParseString(m: RpcMessage, i: Slot, input: InputStream) returns (ok: bool)
    requires m.Valid() && input.Valid()
    modifies m`hasBits, m`strs, m`model, m.heap, m.strs[i], input`pos
    ensures m.Valid() && input.Valid() && FieldParsed(m, input, KnownTag(i + 3), ok)
    ensures m.heap.ChangedOnlyFor(m)
    ensures m.strs == old(m.strs)[i := m.strs[i]] && (m.strs[i] == old(m.strs[i]) || fresh(m.strs[i]))
  {
    ghost var before := m.model;
    StringRead(input.Rest(), i);
    ok := ReadInto(m, i, input);
    if !ok {
      StringWrecked(before, i, m.strs[i].data);
    }
  }

  method ParseError(m: RpcMessage, input: InputStream) returns (ok: bool)
    requires m.Valid() && input.Valid()
    modifies m`hasBits, m`error, m`unknownFields, m`model, input`pos
    ensures m.Valid() && input.Valid() && FieldParsed(m, input, KnownTag(7), ok)
  {
    EnumRead(input.Rest(), 7);
    var value;
    ok, value := input.ReadEnum();
    if ok {
      if ErrorCodeIsValid(value) {
        m.SetError(value);
      } else {
        m.AddUnknownFields([Varint(7, SignExtend(value))]);
      }
    }
  }

  // ----------------------------------------------------------- the loop

  /** The decoder, begun at position p0 of the input, stands at position p with message m;
      goal is what the plain loop makes of the whole. */
  predicate Reached(goal: Decoded, data: Bytes, p0: nat, m: Msg, p: nat) {
    p0 <= p <= |data| && goal == After(p - p0, Decode(m, data[p..]))
  }

  lemma ReachedEnd(goal: Decoded, data: Bytes, p0: nat, m: Msg, p: nat)
    requires Reached(goal, data, p0, m, p)
    requires ReadVarint32(data[p..]).Fail? || Ends(ReadVarint32(data[p..]).value)
    ensures goal == Decoded(Ending(data[p..]), m, p - p0 + EndingUse(data[p..]))
  {
  }

  lemma ExpectedTag(data: Bytes, p: nat, n: Known)
    requires p < |data| && data[p] == KnownTag(n)
    ensures ReadVarint32(data[p..]) == Got(KnownTag(n), 1)
  {
    assert data[p..][0] == data[p];
  }

  /** The field body with the given number. */
  method ParseField(m: RpcMessage, n: Known, input: InputStream) returns (ok: bool)
    requires m.Valid() && input.Valid()
    modifies m, m.heap, m.strs, input`pos
    ensures m.Valid() && input.Valid() && FieldParsed(m, input, KnownTag(n), ok)
    ensures m.heap.ChangedOnlyFor(m)
    ensures forall i :: 0 <= i < 4 ==> m.strs[i] == old(m.strs[i]) || fresh(m.strs[i])
  {
    if n == 1 {
      ok := ParseKind(m, input);
    } else if n == 2 {
      ok := ParseId(m, input);
    } else if n == 7 {
      ok := ParseError(m, input);
    } else {
      ok := ParseString(m, n - 3, input);
    }
  }

  method SkipUnusual(m: RpcMessage, tag: uint32, input: InputStream) returns (ok: bool)
    requires m.Valid() && input.Valid() && Dispatch(tag) == 0 && !Ends(tag)
    modifies m`unknownFields, m`model, input`pos
    ensures m.Valid() && input.Valid() && FieldParsed(m, input, tag, ok)
  {
    UnusualApply(m.model, input.Rest(), tag);
    ok, m.unknownFields := input.SkipField(tag, m.unknownFields);
    m.model := m.model.(unknown := m.unknownFields);
  }

  /** A record read at the shared exit always goes to the unknown set as it stands. */
  lemma UnusualApply(m: Msg, s: Bytes, tag: uint32)
    requires Dispatch(tag) == 0 && !Ends(tag)
    ensures ReadField(s, tag).Got? ==> Apply(m, ReadField(s, tag).value) == AddUnknown(m, ReadField(s, tag).value)
  {
    if ReadField(s, tag).Got? {
      ReadFieldWellFormed(s, tag);
      NotDispatched(ReadField(s, tag).value);
      NormalUnknownMeaning(m, ReadField(s, tag).value);
    }
  }

  /** The field body that a tag leads to, or the shared exit. */
  method ParseBody(m: RpcMessage, tag: uint32, n: nat, input: InputStream) returns (ok: bool)
    requires m.Valid() && input.Valid() && n == Dispatch(tag) && !Ends(tag)
    modifies m, m.heap, m.strs, input`pos
    ensures m.Valid() && input.Valid() && FieldParsed(m, input, tag, ok)
    ensures m.heap.ChangedOnlyFor(m)
    ensures forall i :: 0 <= i < 4 ==> m.strs[i] == old(m.strs[i]) || fresh(m.strs[i])
  {
    if n == 0 {
      ok := SkipUnusual(m, tag, input);
    } else {
      ok := ParseField(m, n, input);
    }
  }

  /** Where the loop stands between turns: at a tag, or behind the tag byte of the field
      body it is about to jump into. */
  predicate Standing(goal: Decoded, data: Bytes, p0: nat, m: Msg, p: nat, jump: nat) {
    jump <= 7 && p <= |data|
    && if jump == 0 then Reached(goal, data, p0, m, p)
       else p >= 1 && data[p - 1] == KnownTag(jump) && Reached(goal, data, p0, m, p - 1)
  }

  /** What the look behind field n at position p found: ended means the end of the input,
      jump is the field body to go on with or 0, q is the position after the look. */
  predicate LookedBehind(data: Bytes, n: Known, p: nat, ended: bool, jump: nat, q: nat,
                         lastTag: uint32, cleanEnd: bool)
  {
    && (jump > 0 ==> jump == n + 1 <= 7 && q == p + 1 <= |data| && data[q - 1] == KnownTag(jump) && !ended)
    && (jump == 0 ==> q == p)
    && (ended ==> q == |data| && lastTag == 0 && cleanEnd)
  }

  /** The look behind a field body at what follows. */
  method LookBehind(n: Known, input: InputStream) returns (ended: bool, jump: nat)
    requires input.Valid()
    modifies input
    ensures input.Valid()
    ensures LookedBehind(input.data, n, old(input.pos), ended, jump, input.pos, input.lastTag, input.cleanEnd)
  {
    ended, jump := false, 0;
    if n < 7 {
      var found := input.ExpectTag(KnownTag(n + 1));
      if found {
        jump := n + 1;
      }
    } else {
      ended := input.ExpectAtEnd();
    }
  }

  /** Bytes left from the start of the record the loop is about to read. */
  ghost function TagsLeft(input: InputStream, jump: nat): int
    reads input
  {
    |input.data| - input.pos + if jump == 0 then 0 else 1
  }

  /** The decode begun at position p0 ends as goal, the result of the plain loop, says. */
  ghost predicate Finished(goal: Decoded, p0: nat, ok: bool, m: Msg, p: nat, lastTag: uint32, cleanEnd: bool) {
    match goal.outcome
    case Failed(tag) => !ok && Wrecked(goal.msg, tag, m)
    case CleanEnd => ok && m == goal.msg && p == p0 + goal.used && lastTag == 0 && cleanEnd
    case Stopped(tag) => ok && m == goal.msg && p == p0 + goal.used && lastTag == tag && !cleanEnd
  }

  /** A tag is read and dispatched; n is the field body to enter, or 0. */
  method ReadAndDispatch(ghost goal: Decoded, ghost p0: nat, ghost m: Msg, input: InputStream)
    returns (tag: uint32, n: nat)
    requires input.Valid() && Reached(goal, input.data, p0, m, input.pos)
    modifies input
    ensures input.Valid() && n == Dispatch(tag)
    ensures Ends(tag) ==> Finished(goal, p0, true, m, input.pos, input.lastTag, input.cleanEnd)
    ensures !Ends(tag) ==> old(input.pos) < input.pos
                           && ReadVarint32(old(input.Rest())) == Got(tag, input.pos - old(input.pos))
  {
    var within;
    ghost var start := input.pos;
    tag, within := input.ReadTagWithCutoff(127);
    n := if within then Dispatch(tag) else 0;
    if Ends(tag) {
      ReachedEnd(goal, input.data, p0, m, start);
    }
  }

  /** The tag of the record that is being read, from start to the stream's position. */
  predicate InRecord(goal: Decoded, data: Bytes, p0: nat, m: Msg, start: nat, p: nat, tag: uint32) {
    Reached(goal, data, p0, m, start) && TagRead(data, start, p, tag)
  }

  predicate TagRead(data: Bytes, start: nat, p: nat, tag: uint32) {
    && start < p <= |data| && !Ends(tag)
    && ReadVarint32(data[start..]) == Got(tag, p - start)
  }

  lemma RecordFailed(goal: Decoded, data: Bytes, p0: nat, m: Msg, start: nat, p: nat, tag: uint32)
    requires InRecord(goal, data, p0, m, start, p, tag) && ReadField(data[p..], tag).Fail?
    ensures goal == Decoded(Failed(tag), m, start - p0)
  {
    assert data[start..][p - start..] == data[p..];
  }

  lemma ReachedNext(goal: Decoded, data: Bytes, p0: nat, m: Msg, p: nat, f: Field, after: Msg, q: nat)
    requires Reached(goal, data, p0, m, p) && p <= q && ReadRecord(data[p..]) == Got(f, q - p)
    requires after == Apply(m, f)
    ensures Reached(goal, data, p0, after, q)
  {
    assert data[p..][q - p..] == data[q..];
  }

  lemma RecordRead(data: Bytes, start: nat, p: nat, tag: uint32, f: Field, k: nat)
    requires TagRead(data, start, p, tag) && ReadField(data[p..], tag) == Got(f, k)
    ensures ReadRecord(data[start..]) == Got(f, p + k - start)
  {
    assert data[start..][p - start..] == data[p..];
  }

  lemma RecordDone(goal: Decoded, data: Bytes, p0: nat, m: Msg, start: nat, p: nat, tag: uint32,
                   f: Field, k: nat, after: Msg)
    requires InRecord(goal, data, p0, m, start, p, tag) && ReadField(data[p..], tag) == Got(f, k)
    requires after == Apply(m, f)
    ensures Reached(goal, data, p0, after, p + k)
  {
    RecordRead(data, start, p, tag, f, k);
    ReachedNext(goal, data, p0, m, start, f, after, p + k);
  }

  lemma FailureFinishes(goal: Decoded, p0: nat, m: Msg, start: nat, tag: uint32, after: Msg,
                        p: nat, lastTag: uint32, cleanEnd: bool)
    requires p0 <= start && goal == Decoded(Failed(tag), m, start - p0) && Wrecked(m, tag, after)
    ensures Finished(goal, p0, false, after, p, lastTag, cleanEnd)
  {
  }

  lemma EndFinishes(goal: Decoded, data: Bytes, p0: nat, m: Msg)
    requires Reached(goal, data, p0, m, |data|)
    ensures Finished(goal, p0, true, m, |data|, 0, true)
  {
    assert data[|data|..] == [];
  }

  /** A whole body, entered behind its tag: it takes the decoder where the plain loop gets
      by that record, or ends it as the plain loop's failure. */
  method BodyTurn(ghost goal: Decoded, ghost p0: nat, ghost start: nat,
                  m: RpcMessage, tag: uint32, n: nat, input: InputStream)
    returns (ok: bool)
    requires m.Valid() && input.Valid() && n == Dispatch(tag)
    requires InRecord(goal, input.data, p0, m.model, start, input.pos, tag)
    modifies m, m.heap, m.strs, input`pos
    ensures m.Valid() && input.Valid() && m.heap.ChangedOnlyFor(m)
    ensures forall i :: 0 <= i < 4 ==> m.strs[i] == old(m.strs[i]) || fresh(m.strs[i])
    ensures ok ==> old(input.pos) <= input.pos && Reached(goal, input.data, p0, m.model, input.pos)
    ensures !ok ==> Finished(goal, p0, ok, m.model, input.pos, input.lastTag, input.cleanEnd)
  {
    ghost var before, p := m.model, input.pos;
    ghost var field := ReadField(input.Rest(), tag);
    ok := ParseBody(m, tag, n, input);
    if ok {
      RecordDone(goal, input.data, p0, before, start, p, tag, field.value, field.used, m.model);
    } else {
      RecordFailed(goal, input.data, p0, before, start, p, tag);
      FailureFinishes(goal, p0, before, start, tag, m.model, input.pos, input.lastTag, input.cleanEnd);
    }
  }

  lemma AfterLook(goal: Decoded, data: Bytes, p0: nat, n: Known, m: Msg, p: nat,
                  ended: bool, jump: nat, q: nat, lastTag: uint32, cleanEnd: bool)
    requires Reached(goal, data, p0, m, p) && LookedBehind(data, n, p, ended, jump, q, lastTag, cleanEnd)
    ensures !ended ==> Standing(goal, data, p0, m, q, jump)
    ensures ended ==> Finished(goal, p0, true, m, q, lastTag, cleanEnd)
  {
    if ended {
      EndFinishes(goal, data, p0, m);
    }
  }

  /** A field body and the look behind it. */
  method KnownTurn(ghost goal: Decoded, ghost p0: nat, ghost start: nat, m: RpcMessage, n: Known, input: InputStream)
    returns (done: bool, ok: bool, next: nat)
    requires m.Valid() && input.Valid()
    requires InRecord(goal, input.data, p0, m.model, start, input.pos, KnownTag(n))
    modifies m, m.heap, m.strs, input
    ensures m.Valid() && input.Valid() && m.heap.ChangedOnlyFor(m)
    ensures forall i :: 0 <= i < 4 ==> m.strs[i] == old(m.strs[i]) || fresh(m.strs[i])
    ensures !done ==> Standing(goal, input.data, p0, m.model, input.pos, next)
    ensures !done ==> TagsLeft(input, next) <= |input.data| - old(input.pos)
    ensures done ==> Finished(goal, p0, ok, m.model, input.pos, input.lastTag, input.cleanEnd)
  {
    ok := BodyTurn(goal, p0, start, m, KnownTag(n), n, input);
    if ok {
      ghost var p := input.pos;
      done, next := LookBehind(n, input);
      AfterLook(goal, input.data, p0, n, m.model, p, done, next, input.pos, input.lastTag, input.cleanEnd);
    } else {
      done, next := true, 0;
    }
  }

  /** A turn that reads a tag. */
  method TagTurn(ghost goal: Decoded, ghost p0: nat, m: RpcMessage, input: InputStream)
    returns (done: bool, ok: bool, next: nat)
    requires m.Valid() && input.Valid() && Reached(goal, input.data, p0, m.model, input.pos)
    modifies m, m.heap, m.strs, input
    ensures m.Valid() && input.Valid() && m.heap.ChangedOnlyFor(m)
    ensures forall i :: 0 <= i < 4 ==> m.strs[i] == old(m.strs[i]) || fresh(m.strs[i])
    ensures !done ==> Standing(goal, input.data, p0, m.model, input.pos, next)
    ensures !done ==> TagsLeft(input, next) < old(TagsLeft(input, 0))
    ensures done ==> Finished(goal, p0, ok, m.model, input.pos, input.lastTag, input.cleanEnd)
  {
    ghost var start := input.pos;
    var tag, n := ReadAndDispatch(goal, p0, m.model, input);
    if n != 0 {
      done, ok, next := KnownTurn(goal, p0, start, m, n, input);
    } else if Ends(tag) {
      done, ok, next := true, true, 0;
    } else {
      ok := BodyTurn(goal, p0, start, m, tag, 0, input);
      done, next := !ok, 0;
    }
  }

  /** One turn of the loop; jump is the field body to enter without reading a tag, or 0. */
  method Turn(ghost goal: Decoded, ghost p0: nat, m: RpcMessage, input: InputStream, jump: nat)
    returns (done: bool, ok: bool, next: nat)
    requires m.Valid() && input.Valid() && Standing(goal, input.data, p0, m.model, input.pos, jump)
    modifies m, m.heap, m.strs, input
    ensures m.Valid() && input.Valid() && m.heap.ChangedOnlyFor(m)
    ensures forall i :: 0 <= i < 4 ==> m.strs[i] == old(m.strs[i]) || fresh(m.strs[i])
    ensures p0 <= |input.data|
    ensures !done ==> Standing(goal, input.data, p0, m.model, input.pos, next)
    ensures !done ==> TagsLeft(input, next) < old(TagsLeft(input, jump))
    ensures done ==> Finished(goal, p0, ok, m.model, input.pos, input.lastTag, input.cleanEnd)
  {
    if jump == 0 {
      done, ok, next := TagTurn(goal, p0, m, input);
    } else {
      ExpectedTag(input.data, input.pos - 1, jump);
      done, ok, next := KnownTurn(goal, p0, input.pos - 1, m, jump, input);
    }
  }

  method MergePartialFromCodedStream(m: RpcMessage, input: InputStream) returns (ok: bool)
    requires m.Valid() && input.Valid()
    modifies m, m.heap, m.strs, input
    ensures m.Valid() && input.Valid() && m.heap.ChangedOnlyFor(m)
    ensures forall i :: 0 <= i < 4 ==> m.strs[i] == old(m.strs[i]) || fresh(m.strs[i])
    ensures Finished(Decode(old(m.model), old(input.Rest())), old(input.pos), ok,
                     m.model, input.pos, input.lastTag, input.cleanEnd)
  {
    ghost var goal, p0 := Decode(m.model, input.Rest()), input.pos;
    var done, jump: nat := false, 0;
    ok := true;
    while !done
      invariant m.Valid() && input.Valid() && m.heap.ChangedOnlyFor(m)
      invariant forall i :: 0 <= i < 4 ==> m.strs[i] == old(m.strs[i]) || fresh(m.strs[i])
      invariant !done ==> Standing(goal, input.data, p0, m.model, input.pos, jump)
      invariant done ==> Finished(goal, p0, ok, m.model, input.pos, input.lastTag, input.cleanEnd)
      decreases !done, TagsLeft(input, jump)
    {
      done, ok, jump := Turn(goal, p0, m, input, jump);
    }
  }
}
