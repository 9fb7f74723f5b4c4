/** The two encoders and the size calculation, written separately field by field; all
    three agree with Encode. */
module Serializer {
  import opened Wire
  import opened Fields
  import opened Message
  import opened Sizes
  import opened Streams
  import opened ArrayOutput
  import opened RpcMessages

  function EncodeOption(o: Option<Field>): Bytes {
    if o.Some? then EncodeField(o.value) else []
  }

  /** The bytes still to write when the known fields below k are done. */
  function EncodeFrom(m: Msg, k: nat): Bytes
    requires 1 <= k <= 8
  {
    EncodeFields(KnownFrom(m, k)) + EncodeFields(m.unknown)
  }

  lemma EncodeFromStep(m: Msg, k: Known)
    ensures EncodeFrom(m, k) == EncodeOption(Get(m, k)) + EncodeFrom(m, k + 1)
  {
    EncodeFieldsAppend(AsSeq(Get(m, k)), KnownFrom(m, k + 1));
    if Get(m, k).Some? {
      var f := Get(m, k).value;
      assert AsSeq(Get(m, k))[1..] == [];
      assert EncodeFields([f]) == EncodeField(f) + EncodeFields([]);
    }
    ConcatAssociative(EncodeOption(Get(m, k)), EncodeFields(KnownFrom(m, k + 1)), EncodeFields(m.unknown));
  }

  lemma EncodeFromEnd(m: Msg)
    ensures EncodeFrom(m, 8) == EncodeFields(m.unknown)
  {
  }

  // ------------------------------------------------------ stream encoder

  method WriteKnown(m: RpcMessage, k: Known, output: OutputStream)
    requires m.Valid()
    modifies output
    ensures output.written == old(output.written) + EncodeOption(Get(m.model, k))
  {
    if k == 1 {
      if m.hasBits[0] {
        output.WriteEnum(1, m.kind);
      }
    } else if k == 2 {
      if m.hasBits[1] {
        output.WriteFixed64(2, m.id);
      }
    } else if k == 7 {
      if m.hasBits[6] {
        output.WriteEnum(7, m.error);
      }
    } else {
      if m.hasBits[k - 1] {
        output.WriteString(k, m.strs[k - 3].data);
      }
    }
  }

  /** One field of the stream encoder: what is written and what is left add up. */
  method WriteStep(m: RpcMessage, k: Known, output: OutputStream)
    requires m.Valid()
    modifies output
    ensures m.Valid()
    ensures output.written + EncodeFrom(m.model, k + 1) == old(output.written) + EncodeFrom(m.model, k)
  {
    EncodeFromStep(m.model, k);
    ConcatAssociative(output.written, EncodeOption(Get(m.model, k)), EncodeFrom(m.model, k + 1));
    WriteKnown(m, k, output);
  }

  method WriteFront(m: RpcMessage, output: OutputStream)
    requires m.Valid()
    modifies output
    ensures m.Valid()
    ensures output.written + EncodeFrom(m.model, 5) == old(output.written) + Encode(m.model)
  {
    WriteStep(m, 1, output);
    WriteStep(m, 2, output);
    WriteStep(m, 3, output);
    WriteStep(m, 4, output);
  }

  method WriteBack(m: RpcMessage, output: OutputStream)
    requires m.Valid()
    modifies output
    ensures m.Valid()
    ensures output.written + EncodeFrom(m.model, 8) == old(output.written) + EncodeFrom(m.model, 5)
  {
    WriteStep(m, 5, output);
    WriteStep(m, 6, output);
    WriteStep(m, 7, output);
  }

  method SerializeWithCachedSizes(m: RpcMessage, output: OutputStream)
    requires m.Valid()
    modifies output
    ensures output.written == old(output.written) + Encode(m.model)
  {
    WriteFront(m, output);
    WriteBack(m, output);
    EncodeFromEnd(m.model);
    if m.unknownFields != [] {
      output.SerializeUnknownFields(m.unknownFields);
    }
  }

  // ------------------------------------------------------- array encoder

  method WriteKnownToArray(m: RpcMessage, k: Known, target: array<byte>, at: nat) returns (next: nat)
    requires m.Valid() && at + |EncodeOption(Get(m.model, k))| <= target.Length
    modifies target
    ensures next == at + |EncodeOption(Get(m.model, k))|
    ensures target[..] == Splice(old(target[..]), at, EncodeOption(Get(m.model, k)))
  {
    next := at;
    assert target[..] == Splice(target[..], at, []);
    if k == 1 {
      if m.hasBits[0] {
        next := WriteEnumToArray(1, m.kind, target, at);
      }
    } else if k == 2 {
      if m.hasBits[1] {
        next := WriteFixed64ToArray(2, m.id, target, at);
      }
    } else if k == 7 {
      if m.hasBits[6] {
        next := WriteEnumToArray(7, m.error, target, at);
      }
    } else {
      if m.hasBits[k - 1] {
        next := WriteStringToArray(k, m.strs[k - 3].data, target, at);
      }
    }
  }

  /** The array holds before, with written in place from start, and what is left of the
      message m from field k on completes its encoding. */
  predicate Writing(before: Bytes, start: nat, written: Bytes, m: Msg, k: nat, target: Bytes) {
    && 1 <= k <= 8 && start + |Encode(m)| <= |before|
    && written + EncodeFrom(m, k) == Encode(m)
    && target == Splice(before, start, written)
  }

  lemma WritingStep(before: Bytes, start: nat, written: Bytes, m: Msg, k: Known, target: Bytes, bytes: Bytes)
    requires Writing(before, start, written, m, k, target) && bytes == EncodeOption(Get(m, k))
    ensures start + |written| + |bytes| <= |before|
    ensures (written + bytes) + EncodeFrom(m, k + 1) == Encode(m)
    ensures Splice(target, start + |written|, bytes) == Splice(before, start, written + bytes)
  {
    EncodeFromStep(m, k);
    ConcatAssociative(written, bytes, EncodeFrom(m, k + 1));
    assert |written + bytes| + |EncodeFrom(m, k + 1)| == |Encode(m)|;
    SpliceTwice(before, start, written, bytes);
  }

  method WriteStepToArray(ghost before: Bytes, ghost start: nat, ghost written: Bytes,
                          m: RpcMessage, k: Known, target: array<byte>, at: nat)
    returns (next: nat, ghost now: Bytes)
    requires m.Valid() && Writing(before, start, written, m.model, k, target[..]) && at == start + |written|
    modifies target
    ensures m.Valid()
    ensures Writing(before, start, now, m.model, k + 1, target[..]) && next == start + |now|
  {
    ghost var bytes := EncodeOption(Get(m.model, k));
    WritingStep(before, start, written, m.model, k, target[..], bytes);
    now := written + bytes;
    next := WriteKnownToArray(m, k, target, at);
  }

  method WriteFrontToArray(m: RpcMessage, target: array<byte>, at: nat)
    returns (next: nat, ghost done: Bytes)
    requires m.Valid() && at + |Encode(m.model)| <= target.Length
    modifies target
    ensures m.Valid()
    ensures Writing(old(target[..]), at, done, m.model, 5, target[..]) && next == at + |done|
  {
    ghost var before := target[..];
    done, next := [], at;
    assert Splice(before, at, []) == before;
    next, done := WriteStepToArray(before, at, done, m, 1, target, next);
    next, done := WriteStepToArray(before, at, done, m, 2, target, next);
    next, done := WriteStepToArray(before, at, done, m, 3, target, next);
    next, done := WriteStepToArray(before, at, done, m, 4, target, next);
  }

  method WriteBackToArray(ghost before: Bytes, ghost start: nat, ghost written: Bytes,
                          m: RpcMessage, target: array<byte>, at: nat)
    returns (next: nat, ghost done: Bytes)
    requires m.Valid() && Writing(before, start, written, m.model, 5, target[..]) && at == start + |written|
    modifies target
    ensures m.Valid()
    ensures Writing(before, start, done, m.model, 8, target[..]) && next == start + |done|
  {
    next, done := WriteStepToArray(before, start, written, m, 5, target, at);
    next, done := WriteStepToArray(before, start, done, m, 6, target, next);
    next, done := WriteStepToArray(before, start, done, m, 7, target, next);
  }

  /** Writes exactly the bytes of the stream encoder behind the cursor and nothing else;
      the caller has reserved room for them. */
  method SerializeWithCachedSizesToArray(m: RpcMessage, target: array<byte>, at: nat) returns (next: nat)
    requires m.Valid() && at + |Encode(m.model)| <= target.Length
    modifies target
    ensures next == at + |Encode(m.model)|
    ensures target[..] == Splice(old(target[..]), at, Encode(m.model))
  {
    ghost var before, done := target[..], [];
    next, done := WriteFrontToArray(m, target, at);
    next, done := WriteBackToArray(before, at, done, m, target, next);
    EncodeFromEnd(m.model);
    if m.unknownFields == [] {
      assert done + [] == done;
    } else {
      SpliceTwice(before, at, done, EncodeFields(m.unknownFields));
      next := SerializeUnknownFieldsToArray(m.unknownFields, target, next);
    }
  }

  // ----------------------------------------------------------- byte size

  /** Size of an enum value, which is sign-extended when negative. */
  function EnumSize(value: int32): nat {
    if value < 0 then 10 else VarintSize64(value)
  }

  lemma EnumLength(value: int32)
    ensures EnumSize(value) == VarintSize64(SignExtend(value))
  {
  }

  function KnownSize(m: RpcMessage, k: Known): (n: nat)
    requires m.Valid()
    reads m, m.heap, m.heap.empty, m.strs
    ensures n == OptionSize(Get(m.model, k))
  {
    EnumLength(m.kind);
    EnumLength(m.error);
    if k == 1 then if m.hasBits[0] then 1 + EnumSize(m.kind) else 0
    else if k == 2 then if m.hasBits[1] then 1 + 8 else 0
    else if k == 7 then if m.hasBits[6] then 1 + EnumSize(m.error) else 0
    else if m.hasBits[k - 1] then 1 + DataSize(m.strs[k - 3].data) else 0
  }

  lemma AddInt32(a: nat, b: nat)
    ensures ToInt32(ToInt32(a) + b) == ToInt32(a + b)
  {
  }

  /** total_size += n in 32-bit arithmetic. */
  function Plus32(total: int32, n: nat): (next: int32) {
    ToInt32(total + n)
  }

  /** The totals after each of the seven fields, in 32-bit arithmetic and true. */
  function Total32(m: Msg, k: nat): (total: int32)
    requires k <= 7
    decreases k, m
  {
    if k == 0 then 0 else Plus32(Total32(m, k - 1), OptionSize(Get(m, k)))
  }

  function Total(m: Msg, k: nat): (total: nat)
    requires k <= 7
    decreases k, m
  {
    if k == 0 then 0 else Total(m, k - 1) + OptionSize(Get(m, k))
  }

  lemma {:induction false} TotalIsSize(m: Msg, k: nat)
    requires k <= 7
    ensures Total(m, k) + FieldsSize(KnownFrom(m, k + 1)) == FieldsSize(KnownRecords(m))
  {
    if k > 0 {
      TotalIsSize(m, k - 1);
      KnownSizeStep(m, k);
    }
  }

  lemma {:induction false} TotalsAgree(m: Msg, k: nat)
    requires k <= 7
    ensures Total32(m, k) == ToInt32(Total(m, k))
  {
    if k > 0 {
      var before, n := Total(m, k - 1), OptionSize(Get(m, k));
      TotalsAgree(m, k - 1);
      AddInt32(before, n);
      assert Total32(m, k) == ToInt32(ToInt32(before) + n);
    }
  }

  lemma EncodeLength(m: Msg)
    ensures |Encode(m)| == Total(m, 7) + FieldsSize(m.unknown)
  {
    TotalIsSize(m, 7);
    FieldsLength(KnownRecords(m));
    FieldsLength(m.unknown);
  }

  lemma FitsInt32(n: nat)
    ensures n < TWO_31 ==> ToInt32(n) == n
  {
  }

  lemma {:induction false} TotalGrows(m: Msg, k: nat)
    requires k <= 7
    ensures Total(m, k) <= Total(m, 7)
    decreases 7 - k
  {
    if k < 7 {
      TotalGrows(m, k + 1);
    }
  }

  /** No total on the way differs from the true sum when the whole size fits 32 bits. */
  lemma TotalsExact(m: Msg, k: nat)
    requires k <= 7 && |Encode(m)| < TWO_31
    ensures Total32(m, k) == Total(m, k) <= |Encode(m)|
  {
    TotalGrows(m, k);
    EncodeLength(m);
    TotalsAgree(m, k);
    FitsInt32(Total(m, k));
  }

  lemma TotalStep(m: Msg, k: Known)
    ensures Total32(m, k) == Plus32(Total32(m, k - 1), OptionSize(Get(m, k)))
  {
  }

  method KnownSizes(m: RpcMessage) returns (total: int32)
    requires m.Valid()
    ensures total == Total32(m.model, 7)
  {
    total := Plus32(0, KnownSize(m, 1));
    TotalStep(m.model, 2);
    total := Plus32(total, KnownSize(m, 2));
    TotalStep(m.model, 3);
    total := Plus32(total, KnownSize(m, 3));
    TotalStep(m.model, 4);
    total := Plus32(total, KnownSize(m, 4));
    TotalStep(m.model, 5);
    total := Plus32(total, KnownSize(m, 5));
    TotalStep(m.model, 6);
    total := Plus32(total, KnownSize(m, 6));
    TotalStep(m.model, 7);
    total := Plus32(total, KnownSize(m, 7));
  }

  lemma {:induction false} NothingPresent(m: Msg, k: nat)
    requires k <= 7 && forall n :: 1 <= n <= k ==> Get(m, n).None?
    ensures Total32(m, k) == 0
  {
    if k > 0 {
      NothingPresent(m, k - 1);
    }
  }

  /** The guard on the presence word skips the seven fields only when none is present. */
  method GuardedKnownSizes(m: RpcMessage) returns (total: int32)
    requires m.Valid()
    ensures total == Total32(m.model, 7)
  {
    total := 0;
    if AnyBelow(m.hasBits, 8) {
      total := KnownSizes(m);
    } else {
      NothingPresent(m.model, 7);
    }
  }

  /** The size of the unknown records completes the total, even when it is not added
      because there are none. */
  lemma UnknownSize(m: Msg)
    ensures Plus32(Total32(m, 7), FieldsSize(m.unknown)) == ToInt32(|Encode(m)|)
    ensures m.unknown == [] ==> Total32(m, 7) == ToInt32(|Encode(m)|)
    ensures |Encode(m)| < TWO_31 ==> ToInt32(|Encode(m)|) == |Encode(m)|
  {
    TotalsAgree(m, 7);
    EncodeLength(m);
    AddInt32(Total(m, 7), FieldsSize(m.unknown));
    FitsInt32(|Encode(m)|);
  }

  /** The length of the encoding, cut to 32 bits, and so the length itself if it fits. */
  method ByteSize(m: RpcMessage) returns (size: int32)
    requires m.Valid()
    modifies m`cachedSize
    ensures m.Valid() && m.cachedSize == size
    ensures size == ToInt32(|Encode(m.model)|)
    ensures |Encode(m.model)| < TWO_31 ==> size == |Encode(m.model)|
  {
    size := GuardedKnownSizes(m);
    UnknownSize(m.model);
    if m.unknownFields != [] {
      size := Plus32(size, FieldsSize(m.unknownFields));
    }
    m.cachedSize := size;
  }
}
