/** Runs of operations over any number of messages and the strings their user holds, as
    steps between states. Module Worlds shows that the objects on the heap take just
    these steps. */
module Runs {
  import opened Wire
  import opened Fields
  import opened Message
  import opened Decoding
  import opened Parser

  /** The messages that exist, and the contents of the strings the user holds. */
  datatype State = State(msgs: seq<Msg>, held: seq<Bytes>)

  datatype Op =
    | Create
    | Copy(from: nat)
    | Destroy(i: nat)
    | SetKind(i: nat, kind: int32)
    | ClearKind(i: nat)
    | SetId(i: nat, id: uint64)
    | ClearId(i: nat)
    | SetError(i: nat, error: int32)
    | ClearError(i: nat)
    | SetString(i: nat, slot: Slot, data: Bytes)
    | Mutable(i: nat, slot: Slot)
    | WriteThrough(i: nat, slot: Slot, data: Bytes)
    | ClearString(i: nat, slot: Slot)
    | ReleaseString(i: nat, slot: Slot)
    | SetAllocated(i: nat, slot: Slot, k: nat)
    | SetAllocatedNull(i: nat, slot: Slot)
    | NewString(data: Bytes)
    | WriteString(k: nat, data: Bytes)
    | DeleteString(k: nat)
    | Clear(i: nat)
    | MergeFrom(i: nat, from: nat)
    | CopyFrom(i: nat, from: nat)
    | Swap(i: nat, j: nat)
    | Parse(i: nat, data: Bytes)
    | WriteUnknown(i: nat, fields: seq<Field>)

  /** The enum setters are called with valid values only. */
  predicate ValidEnums(op: Op) {
    (op.SetKind? ==> MessageTypeIsValid(op.kind)) && (op.SetError? ==> ErrorCodeIsValid(op.error))
  }

  /** What the code asks of its caller: objects that exist, valid enum values, and no
      message merged into itself. A pointer lent by mutable_* may be written through while
      its string belongs to a present field (WriteThrough, which names that field) or after
      the string was released to the user (WriteString). */
  predicate Permitted(msgs: nat, held: nat, op: Op) {
    && ValidEnums(op)
    && match op
       case Create => true
       case NewString(_) => true
       case Copy(from) => from < msgs
       case WriteString(k, _) => k < held
       case DeleteString(k) => k < held
       case SetAllocated(i, _, k) => i < msgs && k < held
       case MergeFrom(i, from) => i < msgs && from < msgs && i != from
       case CopyFrom(i, from) => i < msgs && from < msgs
       case Swap(i, j) => i < msgs && j < msgs
       case _ => op.i < msgs
  }

  predicate Allowed(s: State, op: Op) {
    Permitted(|s.msgs|, |s.held|, op) && (op.WriteThrough? ==> s.msgs[op.i].strs[op.slot].Some?)
  }

  function Without<T>(s: seq<T>, k: nat): seq<T>
    requires k < |s|
  {
    s[..k] + s[k + 1..]
  }

  lemma WithoutDistinct<T>(s: seq<T>, k: nat)
    requires k < |s| && forall i, j :: 0 <= i < j < |s| ==> s[i] != s[j]
    ensures forall i, j :: 0 <= i < j < |s| - 1 ==> Without(s, k)[i] != Without(s, k)[j]
    ensures forall x :: x in Without(s, k) <==> x in s && x != s[k]
  {
  }

  /** A parse replaces the message by the decoded one; a failed parse leaves what the
      failing field could leave. */
  ghost predicate ParsedTo(m: Msg, data: Bytes, after: Msg) {
    var r := Decode(m, data);
    if r.outcome.Failed? then Wrecked(r.msg, r.outcome.tag, after) else after == r.msg
  }

  /** Operations that involve one string field of one message and nothing else. */
  predicate OnString(op: Op) {
    op.SetString? || op.Mutable? || op.WriteThrough? || op.ClearString? || op.SetAllocatedNull?
  }

  /** Operations that involve one message and nothing else. */
  predicate Single(op: Op) {
    op.SetKind? || op.ClearKind? || op.SetId? || op.ClearId? || op.SetError? || op.ClearError?
    || OnString(op) || op.Clear? || op.Parse? || op.WriteUnknown?
  }

  function NextString(op: Op, m: Msg): Msg
    requires OnString(op)
  {
    match op
    case SetString(_, slot, d) => WithString(m, slot, d)
    case Mutable(_, slot) => if m.strs[slot].Some? then m else WithString(m, slot, [])
    case WriteThrough(_, slot, d) => WithString(m, slot, d)
    case ClearString(_, slot) => WithoutString(m, slot)
    case SetAllocatedNull(_, slot) => WithoutString(m, slot)
  }

  /** What such an operation may make of its message. */
  ghost predicate NextSingle(op: Op, m: Msg, after: Msg)
    requires Single(op)
  {
    if OnString(op) then after == NextString(op, m)
    else
      match op
      case SetKind(_, v) => after == m.(kind := Some(v))
      case ClearKind(_) => after == m.(kind := None)
      case SetId(_, v) => after == m.(id := Some(v))
      case ClearId(_) => after == m.(id := None)
      case SetError(_, v) => after == m.(error := Some(v))
      case ClearError(_) => after == m.(error := None)
      case Clear(_) => after == EMPTY
      case Parse(_, d) => ParsedTo(m, d, after)
      case WriteUnknown(_, fs) => after == m.(unknown := fs)
  }

  /** Operations that change one message, or none, and leave the others. */
  predicate Targeted(op: Op) {
    Single(op) || op.ReleaseString? || op.SetAllocated? || op.MergeFrom? || op.CopyFrom?
  }

  /** What such an operation may make of its target. */
  ghost predicate NextMsg(s: State, op: Op, m: Msg, after: Msg)
    requires Allowed(s, op) && Targeted(op)
  {
    if Single(op) then NextSingle(op, m, after)
    else
      match op
      case ReleaseString(_, slot) => after == WithoutString(m, slot)
      case SetAllocated(_, slot, k) => after == WithString(m, slot, s.held[k])
      case MergeFrom(_, from) => after == Merge(m, s.msgs[from])
      case CopyFrom(_, from) => after == s.msgs[from]
  }

  /** What becomes of the strings the user holds. Releasing an absent field hands over an
      empty string or none, depending on whether one had been allocated. */
  ghost predicate NextHeld(s: State, op: Op, held: seq<Bytes>)
    requires Allowed(s, op)
  {
    match op
    case ReleaseString(i, slot) =>
      var value := s.msgs[i].strs[slot];
      if value.Some? then held == s.held + [value.value] else held == s.held || held == s.held + [[]]
    case SetAllocated(_, _, k) => held == Without(s.held, k)
    case NewString(d) => held == s.held + [d]
    case WriteString(k, d) => held == s.held[k := d]
    case DeleteString(k) => held == Without(s.held, k)
    case _ => held == s.held
  }

  /** What becomes of the messages under any other operation. */
  predicate NextMsgs(s: State, op: Op, msgs: seq<Msg>)
    requires Allowed(s, op)
  {
    match op
    case Create => msgs == s.msgs + [EMPTY]
    case Copy(from) => msgs == s.msgs + [s.msgs[from]]
    case Destroy(i) => msgs == Without(s.msgs, i)
    case Swap(i, j) => msgs == s.msgs[i := s.msgs[j]][j := s.msgs[i]]
    case _ => msgs == s.msgs
  }

  /** One step. An operation the code does not allow is not taken. */
  ghost predicate Next(s: State, op: Op, t: State) {
    if !Allowed(s, op) then t == s
    else
      && NextHeld(s, op, t.held)
      && if Targeted(op) then
           && |t.msgs| == |s.msgs|
           && NextMsg(s, op, s.msgs[op.i], t.msgs[op.i])
           && t.msgs == s.msgs[op.i := t.msgs[op.i]]
         else NextMsgs(s, op, t.msgs)
  }

  // --------------------------------------------------- normal form is kept

  predicate AllNormal(s: State) {
    forall i :: 0 <= i < |s.msgs| ==> Normal(s.msgs[i])
  }

  predicate AllShort(s: State) {
    (forall i :: 0 <= i < |s.msgs| ==> Short(s.msgs[i])) && (forall k :: 0 <= k < |s.held| ==> |s.held[k]| < TWO_31)
  }

  /** The operation brings in no string of 2^31 bytes or more. */
  predicate ShortOp(op: Op) {
    match op
    case SetString(_, _, d) => |d| < TWO_31
    case WriteThrough(_, _, d) => |d| < TWO_31
    case WriteString(_, d) => |d| < TWO_31
    case NewString(d) => |d| < TWO_31
    case _ => true
  }

  /** The operation brings no record into an unknown set that the decoder would not put
      there. The code does not ask for this: mutable_unknown_fields() hands out the set. */
  predicate NormalOp(op: Op) {
    op.WriteUnknown? ==> AllNormalUnknown(op.fields)
  }

  lemma ParsedNormal(m: Msg, data: Bytes, after: Msg)
    requires Normal(m) && ParsedTo(m, data, after)
    ensures Normal(after)
    ensures Short(m) ==> Short(after)
  {
    DecodeNormal(m, data);
    if Decode(m, data).outcome.Failed? {
      FailedTagNotEnd(m, data);
      WreckedNormal(Decode(m, data).msg, Decode(m, data).outcome.tag, after);
    }
  }

  lemma NextSingleNormal(op: Op, m: Msg, after: Msg)
    requires Single(op) && Normal(m) && NextSingle(op, m, after)
    requires ValidEnums(op) && NormalOp(op)
    ensures Normal(after)
    ensures Short(m) && ShortOp(op) ==> Short(after)
  {
    if op.Parse? {
      ParsedNormal(m, op.data, after);
    }
  }

  lemma NextMsgNormal(s: State, op: Op, m: Msg, after: Msg)
    requires AllNormal(s) && Normal(m) && NormalOp(op)
    requires Allowed(s, op) && Targeted(op) && NextMsg(s, op, m, after)
    ensures Normal(after)
    ensures AllShort(s) && Short(m) && ShortOp(op) ==> Short(after)
  {
    if Single(op) {
      NextSingleNormal(op, m, after);
    } else if op.MergeFrom? {
      MergeNormal(m, s.msgs[op.from]);
    }
  }

  lemma {:induction false} FailedTagNotEnd(m: Msg, s: Bytes)
    requires Decode(m, s).outcome.Failed?
    ensures !Ends(Decode(m, s).outcome.tag)
    decreases |s|
  {
    match ReadRecord(s)
    case Got(f, n) => FailedTagNotEnd(Apply(m, f), s[n..]);
    case Fail =>
  }

  lemma NextMsgsNormal(s: State, op: Op, msgs: seq<Msg>)
    requires AllNormal(s) && Allowed(s, op) && NextMsgs(s, op, msgs)
    ensures forall m :: m in msgs ==> Normal(m)
    ensures AllShort(s) ==> forall m :: m in msgs ==> Short(m)
  {
  }

  lemma NextHeldShort(s: State, op: Op, held: seq<Bytes>)
    requires AllShort(s) && ShortOp(op) && Allowed(s, op) && NextHeld(s, op, held)
    ensures forall k :: 0 <= k < |held| ==> |held[k]| < TWO_31
  {
  }

  lemma NextNormal(s: State, op: Op, t: State)
    requires AllNormal(s) && NormalOp(op) && Next(s, op, t)
    ensures AllNormal(t)
  {
    if Allowed(s, op) {
      if Targeted(op) {
        NextMsgNormal(s, op, s.msgs[op.i], t.msgs[op.i]);
      } else {
        NextMsgsNormal(s, op, t.msgs);
      }
    }
  }

  lemma NextShort(s: State, op: Op, t: State)
    requires AllNormal(s) && AllShort(s) && NormalOp(op) && ShortOp(op) && Next(s, op, t)
    ensures AllShort(t)
  {
    if Allowed(s, op) {
      NextHeldShort(s, op, t.held);
      if Targeted(op) {
        NextMsgNormal(s, op, s.msgs[op.i], t.msgs[op.i]);
      } else {
        NextMsgsNormal(s, op, t.msgs);
      }
    }
  }

  /** Just the operations that NormalOp excludes spoil the normal form. */
  lemma NormalOpExact(s: State, op: Op, t: State)
    requires AllNormal(s) && Allowed(s, op) && Next(s, op, t)
    ensures AllNormal(t) <==> NormalOp(op)
  {
    if NormalOp(op) {
      NextNormal(s, op, t);
    } else {
      assert t.msgs[op.i].unknown == op.fields;
    }
  }

  /** And just those that ShortOp excludes bring in a long string. */
  lemma ShortOpExact(s: State, op: Op, t: State)
    requires AllNormal(s) && AllShort(s) && NormalOp(op) && Allowed(s, op) && Next(s, op, t)
    ensures AllShort(t) <==> ShortOp(op)
  {
    if ShortOp(op) {
      NextShort(s, op, t);
    } else if OnString(op) {
      assert t.msgs[op.i].strs[op.slot] == Some(op.data);
    } else if op.NewString? {
      assert t.held[|s.held|] == op.data;
    } else {
      assert t.held[op.k] == op.data;
    }
  }

  // ------------------------------------------------ which steps are taken

  /** Setting and clearing plain fields takes effect on every existing message, for every
      value that the enum has. */
  lemma PlainOpsTaken(s: State, op: Op, t: State)
    requires Next(s, op, t)
    ensures match op
            case SetKind(i, v) =>
              i < |s.msgs| && 0 <= v <= 3 ==> t == s.(msgs := s.msgs[i := s.msgs[i].(kind := Some(v))])
            case ClearKind(i) => i < |s.msgs| ==> t == s.(msgs := s.msgs[i := s.msgs[i].(kind := None)])
            case SetId(i, v) => i < |s.msgs| ==> t == s.(msgs := s.msgs[i := s.msgs[i].(id := Some(v))])
            case ClearId(i) => i < |s.msgs| ==> t == s.(msgs := s.msgs[i := s.msgs[i].(id := None)])
            case SetError(i, v) =>
              i < |s.msgs| && 0 <= v <= 6 ==> t == s.(msgs := s.msgs[i := s.msgs[i].(error := Some(v))])
            case ClearError(i) => i < |s.msgs| ==> t == s.(msgs := s.msgs[i := s.msgs[i].(error := None)])
            case WriteUnknown(i, fs) => i < |s.msgs| ==> t == s.(msgs := s.msgs[i := s.msgs[i].(unknown := fs)])
            case Clear(i) => i < |s.msgs| ==> t == s.(msgs := s.msgs[i := EMPTY])
            case _ => true
  {
  }

  /** The message with another value in a slot. */
  function WithSlot(m: Msg, slot: Slot, value: Option<Bytes>): Msg {
    m.(strs := m.strs[slot := value])
  }

  /** So do the string accessors, a write through a lent pointer when the field is present,
      and the adoption of every string the user holds. */
  lemma StringOpsTaken(s: State, op: Op, t: State)
    requires Next(s, op, t)
    ensures match op
            case SetString(i, slot, d) =>
              i < |s.msgs| ==> t == s.(msgs := s.msgs[i := WithSlot(s.msgs[i], slot, Some(d))])
            case Mutable(i, slot) =>
              i < |s.msgs| ==>
                t == if s.msgs[i].strs[slot].Some? then s
                     else s.(msgs := s.msgs[i := WithSlot(s.msgs[i], slot, Some([]))])
            case WriteThrough(i, slot, d) =>
              i < |s.msgs| && s.msgs[i].strs[slot].Some? ==>
                t == s.(msgs := s.msgs[i := WithSlot(s.msgs[i], slot, Some(d))])
            case ClearString(i, slot) =>
              i < |s.msgs| ==> t == s.(msgs := s.msgs[i := WithSlot(s.msgs[i], slot, None)])
            case SetAllocatedNull(i, slot) =>
              i < |s.msgs| ==> t == s.(msgs := s.msgs[i := WithSlot(s.msgs[i], slot, None)])
            case SetAllocated(i, slot, k) =>
              i < |s.msgs| && k < |s.held| ==>
                t == State(s.msgs[i := WithSlot(s.msgs[i], slot, Some(s.held[k]))], s.held[..k] + s.held[k + 1..])
            case ReleaseString(i, slot) =>
              i < |s.msgs| ==>
                && t.msgs == s.msgs[i := WithSlot(s.msgs[i], slot, None)]
                && (match s.msgs[i].strs[slot]
                    case Some(d) => t.held == s.held + [d]
                    case None => t.held == s.held || t.held == s.held + [[]])
            case _ => true
  {
  }

  /** And the operations on whole messages and on the user's strings; only a merge of a
      message into itself is not made. */
  lemma WholeOpsTaken(s: State, op: Op, t: State)
    requires Next(s, op, t)
    ensures match op
            case Create => t == s.(msgs := s.msgs + [EMPTY])
            case Copy(from) => from < |s.msgs| ==> t == s.(msgs := s.msgs + [s.msgs[from]])
            case Destroy(i) => i < |s.msgs| ==> t == s.(msgs := s.msgs[..i] + s.msgs[i + 1..])
            case MergeFrom(i, from) =>
              i < |s.msgs| && from < |s.msgs| && i != from ==>
                t == s.(msgs := s.msgs[i := Merge(s.msgs[i], s.msgs[from])])
            case CopyFrom(i, from) =>
              i < |s.msgs| && from < |s.msgs| ==> t == s.(msgs := s.msgs[i := s.msgs[from]])
            case Swap(i, j) =>
              i < |s.msgs| && j < |s.msgs| ==> t == s.(msgs := s.msgs[i := s.msgs[j]][j := s.msgs[i]])
            case Parse(i, d) =>
              i < |s.msgs| && !Decode(s.msgs[i], d).outcome.Failed? ==>
                t == s.(msgs := s.msgs[i := Decode(s.msgs[i], d).msg])
            case NewString(d) => t == s.(held := s.held + [d])
            case WriteString(k, d) => k < |s.held| ==> t == s.(held := s.held[k := d])
            case DeleteString(k) => k < |s.held| ==> t == s.(held := s.held[..k] + s.held[k + 1..])
            case _ => true
  {
  }

  /** Writing the unknown set keeps a message normal if and only if every record written is
      one the decoder itself would put there; the message comes back from its own
      serialization under just this condition. */
  lemma WrittenUnknown(m: Msg, fs: seq<Field>)
    requires Normal(m) && Short(m)
    ensures var n := m.(unknown := fs);
            && (Normal(n) <==> AllNormalUnknown(fs))
            && (Decode(EMPTY, Encode(n)).msg == n <==> AllNormalUnknown(fs))
  {
    RoundTrip(m.(unknown := fs));
  }

  const START := State([], [])

  /** States from the start on, one more than there are operations. */
  ghost predicate IsRun(ops: seq<Op>, states: seq<State>) {
    && |states| == |ops| + 1 && states[0] == START
    && forall i :: 0 <= i < |ops| ==> Next(states[i], ops[i], states[i + 1])
  }

  /** As long as no other than normal records are written into unknown sets, every message
      in every state of a run is normal, and every string is short while the user brings in
      short ones only. */
  lemma {:induction false} RunNormal(ops: seq<Op>, states: seq<State>, n: nat)
    requires IsRun(ops, states) && n <= |ops|
    requires forall i :: 0 <= i < n ==> NormalOp(ops[i])
    ensures AllNormal(states[n])
    ensures (forall i :: 0 <= i < n ==> ShortOp(ops[i])) ==> AllShort(states[n])
  {
    if n > 0 {
      RunNormal(ops, states, n - 1);
      NextNormal(states[n - 1], ops[n - 1], states[n]);
      if forall i :: 0 <= i < n ==> ShortOp(ops[i]) {
        NextShort(states[n - 1], ops[n - 1], states[n]);
      }
    }
  }

  lemma RunRoundTrip(ops: seq<Op>, states: seq<State>, n: nat, i: nat)
    requires IsRun(ops, states) && n <= |ops| && i < |states[n].msgs|
    requires forall j :: 0 <= j < n ==> NormalOp(ops[j])
    ensures var m := states[n].msgs[i]; Decode(EMPTY, Encode(m)).msg == m <==> Short(m)
    ensures (forall j :: 0 <= j < n ==> ShortOp(ops[j])) ==>
              var m := states[n].msgs[i]; Decode(EMPTY, Encode(m)) == Decoded(CleanEnd, m, |Encode(m)|)
  {
    RunNormal(ops, states, n);
    RoundTrip(states[n].msgs[i]);
  }
}
