/** The whole way of a message: one object is serialized by the real encoders, and the bytes
    are parsed into another object by the real decoder. */
module Transmission {
  import opened Wire
  import opened Fields
  import opened Message
  import opened Decoding
  import opened Streams
  import opened ArrayOutput
  import opened RpcMessages
  import opened Parser
  import opened Serializer
  import opened Runs

  /** Clears the message and parses all of data into it; anything but a clean end is a
      failure. */
  method ParseAll(m: RpcMessage, data: Bytes) returns (ok: bool)
    requires m.Valid()
    modifies m, m.heap, m.strs
    ensures m.Valid() && m.heap.ChangedOnlyFor(m)
    ensures forall i :: 0 <= i < 4 ==> m.strs[i] == old(m.strs[i]) || fresh(m.strs[i])
    ensures ok <==> Decode(EMPTY, data).outcome == CleanEnd
    ensures ParsedTo(EMPTY, data, m.model)
  {
    m.Clear();
    var input := new InputStream(data);
    assert data[0..] == data;
    ok := MergePartialFromCodedStream(m, input);
    ok := ok && input.cleanEnd;
  }

  /** What a parse into a normal short message yields is normal and short; so if the plain
      loop yields every m that is, the parse yields m exactly when m is. */
  lemma ParsedIs(start: Msg, m: Msg, s: Bytes, after: Msg)
    requires Normal(start) && Short(start) && ParsedTo(start, s, after)
    requires Normal(m) && Short(m) ==> Decode(start, s) == Decoded(CleanEnd, m, |s|)
    ensures after == m <==> Normal(m) && Short(m)
  {
    ParsedNormal(start, s, after);
  }

  /** Whatever the decoder does with the serialization of m, even when it fails, the result
      is m if and only if m is normal and its strings are short. */
  lemma ArrivesIntact(m: Msg, after: Msg)
    requires ParsedTo(EMPTY, Encode(m), after)
    ensures after == m <==> Normal(m) && Short(m)
    ensures Normal(m) && Short(m) ==> Decode(EMPTY, Encode(m)).outcome == CleanEnd
  {
    RoundTrip(m);
    ParsedIs(EMPTY, m, Encode(m), after);
  }

  lemma SplicedBytes(a: Bytes, at: nat, s: Bytes)
    requires at + |s| <= |a|
    ensures Splice(a, at, s)[at..at + |s|] == s
  {
  }

  /** By way of a stream. */
  method SendByStream(from: RpcMessage, to: RpcMessage) returns (ok: bool)
    requires from.heap == to.heap && from.Valid() && to.Valid()
    modifies to, to.heap, to.strs
    ensures to.Valid() && to.heap.ChangedOnlyFor(to)
    ensures to.model == old(from.model) <==> Normal(old(from.model)) && Short(old(from.model))
    ensures Normal(old(from.model)) && Short(old(from.model)) ==> ok
  {
    ghost var m := from.model;
    var output := new OutputStream();
    SerializeWithCachedSizes(from, output);
    assert output.written == Encode(m);
    ok := ParseAll(to, output.written);
    ArrivesIntact(m, to.model);
  }

  /** What the size calculation announces is what the array encoder fills: a buffer of just
      that size holds the encoding and nothing else. */
  method SerializeToNewArray(m: RpcMessage) returns (buf: array<byte>)
    requires m.Valid() && |Encode(m.model)| < TWO_31
    modifies m`cachedSize
    ensures m.Valid() && m.model == old(m.model) && fresh(buf)
    ensures buf.Length == m.cachedSize && buf[..] == Encode(m.model)
  {
    var size := ByteSize(m);
    buf := new byte[size];
    ghost var before := buf[..];
    var end := SerializeWithCachedSizesToArray(m, buf, 0);
    SplicedBytes(before, 0, Encode(m.model));
    assert buf[..] == buf[..][0..end];
  }

  /** By way of an array, from the cursor on. */
  method SendByArray(from: RpcMessage, to: RpcMessage, target: array<byte>, at: nat) returns (ok: bool, next: nat)
    requires from.heap == to.heap && from.Valid() && to.Valid()
    requires at + |Encode(from.model)| <= target.Length
    modifies target, to, to.heap, to.strs
    ensures to.Valid() && to.heap.ChangedOnlyFor(to)
    ensures next == at + |Encode(old(from.model))|
    ensures target[..] == Splice(old(target[..]), at, Encode(old(from.model)))
    ensures to.model == old(from.model) <==> Normal(old(from.model)) && Short(old(from.model))
    ensures Normal(old(from.model)) && Short(old(from.model)) ==> ok
  {
    ghost var m, before := from.model, target[..];
    next := SerializeWithCachedSizesToArray(from, target, at);
    SplicedBytes(before, at, Encode(m));
    var data := target[at..next];
    assert data == target[..][at..next];
    ok := ParseAll(to, data);
    ArrivesIntact(m, to.model);
  }
}
