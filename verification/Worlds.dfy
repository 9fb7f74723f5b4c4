/** All message objects of a program together with the strings its user holds: every run
    of operations on the real objects is a run of module Runs, and keeps every string
    owned by exactly one field, by the user, or freed. */
module Worlds {
  import opened Wire
  import opened Fields
  import opened Message
  import opened Streams
  import opened RpcMessages
  import opened Parser
  import opened Runs

  class World {
    const heap: StringHeap
    var msgs: seq<RpcMessage>
    /** Strings released to the user, or made by the user. */
    var held: seq<StdString>

    /** Every object that belongs to the world. */
    ghost var repr: set<object>
    /** What the objects amount to. */
    ghost var state: State

    /** The messages are different objects, and own every string that any message owns. */
    ghost predicate MsgsValid()
      reads this, repr
    {
      && heap in repr && heap.empty in repr && heap.Valid()
      && (forall i, j :: 0 <= i < j < |msgs| ==> msgs[i] != msgs[j])
      && (forall m :: m in msgs ==> m in repr && m.heap == heap && (forall s :: s in m.strs ==> s in repr))
      && (forall m :: m in msgs ==> m.Valid())
      && (forall s :: s in heap.owner && heap.owner[s].Slotted? ==> heap.owner[s].m in msgs)
      && |state.msgs| == |msgs| && (forall i :: 0 <= i < |msgs| ==> state.msgs[i] == msgs[i].model)
    }

    /** The user holds exactly the strings that are the caller's. */
    ghost predicate HeldValid()
      requires heap in repr
      reads this, repr
    {
      && (forall i, j :: 0 <= i < j < |held| ==> held[i] != held[j])
      && (forall s :: s in held ==> s in repr && s in heap.owner && heap.owner[s] == Caller)
      && (forall s :: s in heap.owner && heap.owner[s].Caller? ==> s in held)
      && |state.held| == |held| && (forall k :: 0 <= k < |held| ==> state.held[k] == held[k].data)
    }

    ghost predicate Valid()
      reads this, repr
    {
      this in repr && MsgsValid() && HeldValid()
    }

    constructor ()
      ensures Valid() && state == START && fresh(repr)
    {
      heap := new StringHeap();
      msgs, held, state := [], [], START;
      new;
      repr := {this, heap, heap.empty};
    }

    /** Two different pointers of messages that are not the shared string never meet: every
        allocated string belongs to one slot of one message, none is freed or the user's. */
    lemma NoSharing(m: RpcMessage, i: Slot, o: RpcMessage, j: Slot)
      requires Valid() && m in msgs && o in msgs && m.strs[i] != heap.empty
      ensures m.strs[i] == o.strs[j] <==> m == o && i == j
      ensures m.strs[i] !in held && heap.owner[m.strs[i]] == Slotted(m, i)
    {
    }

    /** Where any allocated string is: in the slot that owns it, with the user, or freed. So
        this also tells where a pointer lent by MutableString points later. */
    lemma Whereabouts(s: StdString)
      requires Valid() && s in heap.owner
      ensures match heap.owner[s]
              case Slotted(m, i) =>
                && m in msgs && m.strs[i] == s && s !in held
                && forall o, j: Slot :: o in msgs && o.strs[j] == s ==> o == m && j == i
              case Caller => s in held && forall m :: m in msgs ==> s !in m.strs
              case Freed => s !in held && forall m :: m in msgs ==> s !in m.strs
    {
    }

    /** The messages but for ts, and the strings they own. */
    ghost function MsgObjects(ts: set<RpcMessage>): set<object>
      reads this, msgs
    {
      (set o | o in msgs && o !in ts :: o as object)
      + (set o, s | o in msgs && o !in ts && s in o.strs && s != heap.empty :: s as object)
    }

    /** And the strings the user holds. */
    ghost function Others(ts: set<RpcMessage>): set<object>
      reads this, msgs
    {
      MsgObjects(ts) + (set s | s in held :: s as object)
    }

    /** The messages, the strings they own and those the user holds are apart. */
    lemma Disjoint(t: RpcMessage)
      requires Valid() && t in msgs
      ensures Beside(t, Others({t}))
      ensures forall x :: x in MsgObjects({t}) ==> x in repr && x in Others({t})
      ensures forall s :: s in held ==> s in repr && s !in t.strs && s != heap.empty && s in Others({t})
    {
    }

    /** Messages whose objects are untouched and whose strings are still theirs stay valid. */
    twostate lemma OthersStay(ts: set<RpcMessage>)
      requires old(Valid()) && heap.Valid()
      requires forall x :: x in old(MsgObjects(ts)) ==> unchanged(x)
      requires forall o :: o in old(msgs) && o !in ts ==> heap.KeptFor(o)
      ensures forall o :: o in old(msgs) && o !in ts ==> o.Valid() && unchanged(o)
      ensures forall j :: 0 <= j < |old(msgs)| && old(msgs)[j] !in ts ==> old(msgs)[j].model == old(state).msgs[j]
    {
      forall o | o in old(msgs) && o !in ts ensures o.Valid() && unchanged(o) {
        assert o in old(MsgObjects(ts));
        forall i | 0 <= i < 4 && o.strs[i] != heap.empty ensures unchanged(o.strs[i]) {
          assert o.strs[i] in o.strs;
          assert o.strs[i] in old(MsgObjects(ts));
        }
        o.StaysValid();
      }
      forall j | 0 <= j < |old(msgs)| && old(msgs)[j] !in ts ensures old(msgs)[j].model == old(state).msgs[j] {
        assert old(msgs)[j] in old(msgs);
      }
    }

    /** The messages are valid again after an operation on message i alone. */
    twostate lemma MsgSettled(i: nat)
      requires old(Valid()) && i < |msgs| && msgs == old(msgs) && old(repr) <= repr
      requires forall x :: x in old(MsgObjects({msgs[i]})) ==> unchanged(x)
      requires heap.Valid() && heap.KeptForOthers(msgs[i])
      requires msgs[i].Valid() && forall s :: s in msgs[i].strs ==> s in repr
      requires state.msgs == old(state).msgs[i := msgs[i].model]
      ensures MsgsValid()
    {
      OthersStay({msgs[i]});
    }

    /** And after an operation on none. */
    twostate lemma MsgsSame()
      requires old(Valid()) && msgs == old(msgs) && old(repr) <= repr && state.msgs == old(state).msgs
      requires forall x :: x in old(MsgObjects({})) ==> unchanged(x)
      requires heap.Valid() && forall s :: s in heap.owner && heap.owner[s].Slotted? ==>
                 s in old(heap.owner) && heap.owner[s] == old(heap.owner)[s]
      requires forall s :: s in old(heap.owner) && old(heap.owner)[s].Slotted? ==>
                 s in heap.owner && heap.owner[s] == old(heap.owner)[s]
      ensures MsgsValid()
    {
      OthersStay({});
    }

    /** And when there is a new message m. */
    twostate lemma MsgsWith(new m: RpcMessage)
      requires old(Valid()) && fresh(m) && msgs == old(msgs) + [m] && old(repr) <= repr
      requires state.msgs == old(state).msgs + [m.model]
      requires forall x :: x in old(MsgObjects({})) ==> unchanged(x)
      requires heap.Valid() && heap.KeptForOthers(m)
      requires m in repr && m.heap == heap && m.Valid() && forall s :: s in m.strs ==> s in repr
      ensures MsgsValid()
    {
      OthersStay({});
    }

    /** And when message i is gone. */
    twostate lemma MsgsWithout(i: nat)
      requires old(Valid()) && i < |old(msgs)| && msgs == Without(old(msgs), i) && old(repr) <= repr
      requires state.msgs == Without(old(state).msgs, i)
      requires forall x :: x in old(MsgObjects({msgs[i]})) ==> unchanged(x)
      requires heap.Valid() && heap.KeptForOthers(old(msgs[i]))
      requires forall slot: Slot, s :: !heap.Owns(old(msgs[i]), slot, s)
      ensures MsgsValid()
    {
      var t := old(msgs[i]);
      WithoutDistinct(old(msgs), i);
      OthersStay({t});
      forall s | s in heap.owner && heap.owner[s].Slotted? ensures heap.owner[s].m in msgs {
        assert !heap.Owns(t, heap.owner[s].slot, s);
      }
    }

    /** The user holds the same strings. */
    twostate lemma HeldSame()
      requires old(Valid()) && heap in repr && held == old(held) && old(repr) <= repr
      requires forall s :: s in old(heap.owner) && old(heap.owner)[s].Caller? ==>
                 s in heap.owner && heap.owner[s].Caller?
      requires forall s :: s in heap.owner && heap.owner[s].Caller? ==>
                 s in old(heap.owner) && old(heap.owner)[s].Caller?
      requires state.held == old(state).held && forall s :: s in held ==> s.data == old(s.data)
      ensures HeldValid()
    {
    }

    /** The user holds one string more. */
    twostate lemma HeldWith(new p: StdString)
      requires old(Valid()) && heap in repr && old(repr) <= repr
      requires p in repr && p !in old(held) && held == old(held) + [p]
      requires p in heap.owner && heap.owner[p] == Caller
      requires forall s :: s in old(heap.owner) && old(heap.owner)[s].Caller? ==>
                 s in heap.owner && heap.owner[s].Caller?
      requires forall s :: s in heap.owner && heap.owner[s].Caller? && s != p ==>
                 s in old(heap.owner) && old(heap.owner)[s].Caller?
      requires state.held == old(state).held + [p.data] && forall s :: s in old(held) ==> s.data == old(s.data)
      ensures HeldValid()
    {
    }

    /** String k is no longer the user's. */
    twostate lemma HeldWithout(k: nat)
      requires old(Valid()) && heap in repr && old(repr) <= repr && heap.Lasting()
      requires k < |old(held)| && held == Without(old(held), k)
      requires old(held)[k] in heap.owner && !heap.owner[old(held)[k]].Caller?
      requires forall s :: s in heap.owner && s != old(held)[k] ==>
                 s in old(heap.owner)
                 && (heap.owner[s] == old(heap.owner)[s] || (heap.owner[s].Freed? && s !in old(held)))
      requires state.held == Without(old(state).held, k) && forall s :: s in old(held) ==> s.data == old(s.data)
      ensures HeldValid()
    {
      WithoutDistinct(old(held), k);
    }

    /** The objects of t are the world's. */
    twostate lemma StringsKnown(t: RpcMessage)
      requires old(Valid()) && t in old(msgs) && |t.strs| == 4
      requires forall k :: 0 <= k < 4 ==>
                 t.strs[k] == old(t.strs[k]) || fresh(t.strs[k]) || t.strs[k] == heap.empty
      ensures forall s :: s in t.strs ==> s in old(repr) || fresh(s)
    {
      forall s | s in t.strs ensures s in old(repr) || fresh(s) {
        var k :| 0 <= k < 4 && t.strs[k] == s;
        assert old(t.strs[k]) in old(t.strs);
      }
    }

    // ------------------------------------- operations that change one message

    /** others are objects that t has nothing to do with. */
    ghost predicate Beside(t: RpcMessage, others: set<object>)
      reads t
    {
      this !in others && t !in others && t.heap !in others && forall s :: s in t.strs ==> s !in others
    }

    /** Message i alone has changed, and the world knows its strings. */
    twostate predicate Touched(i: nat, others: set<object>)
      requires i < |msgs| && i < |old(msgs)| && i < |old(state).msgs|
      reads this, msgs[i], msgs[i].heap, msgs[i].heap.empty, msgs[i].strs, others
    {
      var t := old(msgs[i]);
      && t == msgs[i] && t.Valid() && t.heap.ChangedOnlyFor(t)
      && repr == old(repr) + (set s | s in t.strs)
      && state == old(state).(msgs := old(state).msgs[i := t.model])
      && |old(t.strs)| == 4
      && (forall k :: 0 <= k < 4 ==>
            t.strs[k] == old(t.strs[k]) || fresh(t.strs[k]) || t.strs[k] == t.heap.empty)
      && (forall x :: x in others ==> unchanged(x))
    }

    /** Then the world is valid again. */
    twostate lemma Settled(i: nat)
      requires old(Valid()) && i < |msgs| && msgs == old(msgs) && held == old(held)
      requires Touched(i, old(Others({msgs[i]})))
      ensures Valid() && fresh(repr - old(repr)) && heap.Lasting()
    {
      StringsKnown(msgs[i]);
      MsgSettled(i);
      forall s | s in held ensures s.data == old(s.data) {
        assert s in old(Others({msgs[i]}));
      }
      HeldSame();
    }

    method ApplyTo(i: nat, op: Op, ghost others: set<object>)
      requires i < |msgs| && i < |state.msgs| && msgs[i].Valid() && Beside(msgs[i], others)
      requires Single(op) && ValidEnums(op) && (op.WriteThrough? ==> msgs[i].hasBits[op.slot + 2])
      modifies `repr, `state, msgs[i], msgs[i].heap, msgs[i].strs
      ensures Touched(i, others) && NextSingle(op, old(msgs[i].model), msgs[i].model)
    {
      var t := msgs[i];
      ApplySingle(t, op);
      repr, state := repr + (set s | s in t.strs), state.(msgs := state.msgs[i := t.model]);
    }

    method Apply(i: nat, op: Op)
      requires Valid() && i < |msgs| && Single(op) && ValidEnums(op)
      requires op.WriteThrough? ==> msgs[i].hasBits[op.slot + 2]
      modifies repr
      ensures Valid() && fresh(repr - old(repr)) && heap.Lasting()
      ensures |state.msgs| == |old(state).msgs| && NextSingle(op, old(state).msgs[i], state.msgs[i])
      ensures state == old(state).(msgs := old(state).msgs[i := state.msgs[i]])
    {
      Disjoint(msgs[i]);
      ApplyTo(i, op, Others({msgs[i]}));
      Settled(i);
    }

    method MergeInto(i: nat, from: RpcMessage, ghost others: set<object>)
      requires i < |msgs| && i < |state.msgs| && msgs[i].Valid() && Beside(msgs[i], others)
      requires from != msgs[i] && from.heap == msgs[i].heap && from.Valid()
      modifies `repr, `state, msgs[i], msgs[i].heap, msgs[i].strs
      ensures Touched(i, others) && msgs[i].model == Merge(old(msgs[i].model), old(from.model))
    {
      var t := msgs[i];
      t.MergeFrom(from);
      repr, state := repr + (set s | s in t.strs), state.(msgs := state.msgs[i := t.model]);
    }

    method MergeFrom(i: nat, from: nat)
      requires Valid() && i < |msgs| && from < |msgs| && i != from
      modifies repr
      ensures Valid() && fresh(repr - old(repr)) && heap.Lasting()
      ensures state == old(state).(msgs := old(state).msgs[i := Merge(old(state).msgs[i], old(state).msgs[from])])
    {
      Disjoint(msgs[i]);
      MergeInto(i, msgs[from], Others({msgs[i]}));
      Settled(i);
    }

    method CopyInto(i: nat, from: RpcMessage, ghost others: set<object>)
      requires i < |msgs| && i < |state.msgs| && msgs[i].Valid() && Beside(msgs[i], others)
      requires from.heap == msgs[i].heap && from.Valid()
      modifies `repr, `state, msgs[i], msgs[i].heap, msgs[i].strs
      ensures Touched(i, others) && msgs[i].model == old(from.model)
    {
      var t := msgs[i];
      t.CopyFrom(from);
      repr, state := repr + (set s | s in t.strs), state.(msgs := state.msgs[i := t.model]);
    }

    method CopyFrom(i: nat, from: nat)
      requires Valid() && i < |msgs| && from < |msgs|
      modifies repr
      ensures Valid() && fresh(repr - old(repr)) && heap.Lasting()
      ensures state == old(state).(msgs := old(state).msgs[i := old(state).msgs[from]])
    {
      Disjoint(msgs[i]);
      CopyInto(i, msgs[from], Others({msgs[i]}));
      Settled(i);
    }

    // ------------------------------- operations that pass strings to and fro

    /** Message i has handed the string of a slot to the user, if it had one. */
    twostate predicate Released(i: nat, slot: Slot, others: set<object>)
      requires i < |msgs| && i < |old(msgs)| && i < |old(state).msgs| && |old(msgs[i].strs)| == 4
      reads this, msgs[i], msgs[i].heap, msgs[i].heap.empty, msgs[i].strs, others
    {
      var t := old(msgs[i]);
      var p := old(t.strs[slot]);
      && t == msgs[i] && t.Valid() && t.heap.KeptForOthers(t)
      && t.strs == old(t.strs)[slot := t.heap.empty] && t.model == WithoutString(old(t.model), slot)
      && t.heap.owner == (if p == t.heap.empty then old(t.heap.owner) else old(t.heap.owner)[p := Caller])
      && held == old(held) + (if p == t.heap.empty then [] else [p])
      && state == State(old(state).msgs[i := t.model],
                        old(state).held + (if p == t.heap.empty then [] else [old(p.data)]))
      && (forall x :: x in others ==> unchanged(x))
    }

    method Release(i: nat, slot: Slot, ghost others: set<object>)
      requires i < |msgs| && i < |state.msgs| && msgs[i].Valid() && Beside(msgs[i], others)
      modifies `held, `state, msgs[i], msgs[i].heap
      ensures msgs == old(msgs) && repr == old(repr) && Released(i, slot, others)
      ensures unchanged(old(msgs[i].strs[slot]))
    {
      var t := msgs[i];
      var p := t.ReleaseString(slot);
      if p != null {
        held := held + [p];
      }
      state := State(state.msgs[i := t.model], state.held + (if p == null then [] else [p.data]));
    }

    twostate lemma AfterRelease(op: Op)
      requires op.ReleaseString? && old(Valid()) && op.i < |msgs| && msgs == old(msgs) && repr == old(repr)
      requires msgs[op.i] in old(msgs)
      requires Released(op.i, op.slot, old(Others({msgs[op.i]})))
      requires unchanged(old(msgs[op.i].strs[op.slot]))
      ensures Valid() && heap.Lasting()
    {
      var t := msgs[op.i];
      var p := old(t.strs[op.slot]);
      assert p in old(t.strs);
      forall s | s in old(held) ensures s.data == old(s.data) {
        assert s in old(Others({msgs[op.i]}));
      }
      if p == heap.empty {
        HeldSame();
      } else {
        HeldWith(p);
      }
      StringsKnown(t);
      MsgSettled(op.i);
    }

    /** Releasing an absent field hands over an empty string or none. */
    method ReleaseString(i: nat, slot: Slot)
      requires Valid() && i < |msgs|
      modifies repr
      ensures Valid() && fresh(repr - old(repr)) && heap.Lasting()
      ensures state.msgs == old(state).msgs[i := WithoutString(old(state).msgs[i], slot)]
      ensures match old(state).msgs[i].strs[slot]
              case Some(d) => state.held == old(state).held + [d]
              case None => state.held == old(state).held || state.held == old(state).held + [[]]
    {
      Disjoint(msgs[i]);
      assert msgs[i].strs[slot] in msgs[i].strs;
      Release(i, slot, Others({msgs[i]}));
      AfterRelease(Op.ReleaseString(i, slot));
    }

    /** Message i has taken over the user's string k for a slot and freed the slot's own. */
    twostate predicate Adopted(i: nat, slot: Slot, k: nat, others: set<object>)
      requires i < |msgs| && i < |old(msgs)| && i < |old(state).msgs| && |old(msgs[i].strs)| == 4
      requires k < |old(held)| && k < |old(state).held|
      reads this, msgs[i], msgs[i].heap, msgs[i].heap.empty, msgs[i].strs, others
    {
      var t, p := old(msgs[i]), old(held)[k];
      && t == msgs[i] && t.Valid() && t.heap.KeptForOthers(t)
      && t.strs == old(t.strs)[slot := p] && t.model == WithString(old(t.model), slot, old(p.data))
      && p in t.heap.owner && t.heap.owner[p] == Slotted(t, slot)
      && (forall s :: s in t.heap.owner && s != p ==>
            s in old(t.heap.owner)
            && (t.heap.owner[s] == old(t.heap.owner)[s] || (t.heap.owner[s].Freed? && s == old(t.strs[slot]))))
      && held == Without(old(held), k)
      && state == State(old(state).msgs[i := t.model], Without(old(state).held, k))
      && (forall x :: x in others ==> unchanged(x))
    }

    method Adopt(i: nat, slot: Slot, k: nat, ghost others: set<object>)
      requires i < |msgs| && i < |state.msgs| && msgs[i].Valid() && Beside(msgs[i], others)
      requires k < |held| && k < |state.held|
      requires held[k] in msgs[i].heap.owner && msgs[i].heap.owner[held[k]] == Caller
      modifies `held, `state, msgs[i], msgs[i].heap
      ensures Adopted(i, slot, k, others)
    {
      msgs[i].SetAllocatedString(slot, held[k]);
      held, state := Without(held, k), State(state.msgs[i := msgs[i].model], Without(state.held, k));
    }

    twostate lemma AfterAdoption(op: Op)
      requires op.SetAllocated? && old(Valid()) && op.i < |msgs| && op.k < |old(held)|
      requires msgs == old(msgs) && repr == old(repr) && msgs[op.i] in old(msgs)
      requires Adopted(op.i, op.slot, op.k, old(Others({msgs[op.i]})))
      ensures Valid() && heap.Lasting()
    {
      var t := msgs[op.i];
      assert old(t.strs[op.slot]) in old(t.strs);
      forall s | s in old(held) ensures s.data == old(s.data) {
        assert s in old(Others({msgs[op.i]}));
      }
      HeldWithout(op.k);
      MsgSettled(op.i);
    }

    method SetAllocated(i: nat, slot: Slot, k: nat)
      requires Valid() && i < |msgs| && k < |held|
      modifies repr
      ensures Valid() && fresh(repr - old(repr)) && heap.Lasting()
      ensures state == State(old(state).msgs[i := WithString(old(state).msgs[i], slot, old(state).held[k])],
                             Without(old(state).held, k))
    {
      Disjoint(msgs[i]);
      Adopt(i, slot, k, Others({msgs[i]}));
      AfterAdoption(Op.SetAllocated(i, slot, k));
    }

    // ---------------------------------------------- objects come and go

    /** Nothing of the messages is the user's, and nothing of either is the world's own. */
    lemma AllDisjoint()
      requires Valid()
      ensures forall x :: x in MsgObjects({}) ==> x in repr && x !in held && x != heap && x != heap.empty && x != this
      ensures forall s :: s in held ==> s in repr && s != heap.empty
    {
    }

    method Create()
      requires Valid()
      modifies repr
      ensures Valid() && fresh(repr - old(repr)) && heap.Lasting()
      ensures state == old(state).(msgs := old(state).msgs + [EMPTY])
    {
      AllDisjoint();
      var m := new RpcMessage(heap);
      msgs, repr, state := msgs + [m], repr + {m}, state.(msgs := state.msgs + [EMPTY]);
      MsgsWith(m);
      HeldSame();
    }

    method AddCopy(from: RpcMessage, ghost others: set<object>) returns (m: RpcMessage)
      requires from.Valid() && from.heap == heap
      requires this !in others && heap !in others && heap.empty !in others
      modifies this, heap, heap.empty
      ensures fresh(m) && m.Valid() && m.heap == heap && heap.ChangedOnlyFor(m)
      ensures m.model == from.model == old(from.model)
      ensures msgs == old(msgs) + [m] && held == old(held)
      ensures repr == old(repr) + {m} + (set s | s in m.strs)
      ensures state == old(state).(msgs := old(state).msgs + [m.model])
      ensures forall s :: s in m.strs ==> s == heap.empty || fresh(s)
      ensures forall x :: x in others ==> unchanged(x)
    {
      m := new RpcMessage.Copy(from);
      msgs, repr, state := msgs + [m], repr + {m} + (set s | s in m.strs), state.(msgs := state.msgs + [m.model]);
    }

    method Copy(from: nat)
      requires Valid() && from < |msgs|
      modifies repr
      ensures Valid() && fresh(repr - old(repr)) && heap.Lasting()
      ensures state == old(state).(msgs := old(state).msgs + [old(state).msgs[from]])
    {
      AllDisjoint();
      var m := AddCopy(msgs[from], Others({}));
      MsgsWith(m);
      forall s | s in held ensures s.data == old(s.data) {
        assert s in old(Others({}));
      }
      HeldSame();
    }

    /** Message i is gone, with its strings. */
    method Destroy(i: nat)
      requires Valid() && i < |msgs|
      modifies repr
      ensures Valid() && fresh(repr - old(repr)) && heap.Lasting()
      ensures state == old(state).(msgs := Without(old(state).msgs, i))
    {
      Disjoint(msgs[i]);
      msgs[i].Destroy();
      msgs, state := Without(msgs, i), state.(msgs := Without(state.msgs, i));
      MsgsWithout(i);
      HeldSame();
    }

    /** Messages i and j have exchanged contents and strings. */
    twostate predicate Exchanged(i: nat, j: nat, others: set<object>)
      requires i < |msgs| && j < |msgs| && i < |old(msgs)| && j < |old(msgs)|
      requires i < |old(state).msgs| && j < |old(state).msgs|
      reads this, msgs[i], msgs[i].heap, msgs[i].heap.empty, msgs[i].strs, msgs[j], msgs[j].heap, msgs[j].heap.empty,
            msgs[j].strs, others
    {
      var a, b := old(msgs[i]), old(msgs[j]);
      && a == msgs[i] && b == msgs[j] && a.Valid() && b.Valid()
      && a.heap.SwappedOwners(a, b)
      && a.strs == old(b.strs) && b.strs == old(a.strs) && a.model == old(b.model) && b.model == old(a.model)
      && state == old(state).(msgs := old(state).msgs[i := old(state).msgs[j]][j := old(state).msgs[i]])
      && (forall x :: x in others ==> unchanged(x))
    }

    method Exchange(i: nat, j: nat, ghost others: set<object>)
      requires i < |msgs| && j < |msgs| && i < |state.msgs| && j < |state.msgs|
      requires msgs[i].Valid() && msgs[j].Valid() && msgs[i].heap == msgs[j].heap
      requires this !in others && msgs[i].heap !in others && msgs[i] !in others && msgs[j] !in others
      modifies `state, msgs[i], msgs[j], msgs[i].heap
      ensures Exchanged(i, j, others)
    {
      msgs[i].Swap(msgs[j]);
      state := state.(msgs := state.msgs[i := state.msgs[j]][j := state.msgs[i]]);
    }

    lemma DisjointPair(i: nat, j: nat)
      requires Valid() && i < |msgs| && j < |msgs|
      ensures var others := Others({msgs[i], msgs[j]});
              this !in others && heap !in others && msgs[i] !in others && msgs[j] !in others
    {
    }

    /** Messages that take no part keep their strings. */
    twostate lemma OthersKeep(op: Op)
      requires op.Swap? && old(Valid()) && op.i < |msgs| && op.j < |msgs| && msgs == old(msgs)
      requires heap.SwappedOwners(msgs[op.i], msgs[op.j])
      ensures forall o :: o in msgs && o != msgs[op.i] && o != msgs[op.j] ==> heap.KeptFor(o)
      ensures forall s :: s in heap.owner && heap.owner[s].Slotted? ==> heap.owner[s].m in msgs
    {
    }

    twostate lemma MsgsSwapped(op: Op)
      requires op.Swap? && old(Valid()) && op.i < |msgs| && op.j < |msgs| && msgs == old(msgs) && repr == old(repr)
      requires Exchanged(op.i, op.j, old(Others({msgs[op.i], msgs[op.j]})))
      ensures MsgsValid()
    {
      var a, b := msgs[op.i], msgs[op.j];
      OthersKeep(op);
      OthersStay({a, b});
      forall m | m in msgs ensures m.Valid() && forall s :: s in m.strs ==> s in repr {
        if m == a {
          assert forall s :: s in m.strs ==> s in old(b.strs);
        } else if m == b {
          assert forall s :: s in m.strs ==> s in old(a.strs);
        }
      }
    }

    twostate lemma AfterSwap(op: Op)
      requires op.Swap? && old(Valid()) && op.i < |msgs| && op.j < |msgs|
      requires msgs == old(msgs) && held == old(held) && repr == old(repr)
      requires Exchanged(op.i, op.j, old(Others({msgs[op.i], msgs[op.j]})))
      ensures Valid() && heap.Lasting()
    {
      MsgsSwapped(op);
      forall s | s in old(held) ensures s.data == old(s.data) {
        assert s in old(Others({msgs[op.i], msgs[op.j]}));
      }
      HeldSame();
    }

    method Swap(i: nat, j: nat)
      requires Valid() && i < |msgs| && j < |msgs|
      modifies repr
      ensures Valid() && fresh(repr - old(repr)) && heap.Lasting()
      ensures state == old(state).(msgs := old(state).msgs[i := old(state).msgs[j]][j := old(state).msgs[i]])
    {
      DisjointPair(i, j);
      Exchange(i, j, Others({msgs[i], msgs[j]}));
      AfterSwap(Op.Swap(i, j));
    }

    method WriteString(k: nat, d: Bytes)
      requires Valid() && k < |held|
      modifies repr
      ensures Valid() && fresh(repr - old(repr)) && heap.Lasting()
      ensures state == old(state).(held := old(state).held[k := d])
    {
      AllDisjoint();
      held[k].data := d;
      state := state.(held := state.held[k := d]);
      MsgsSame();
    }

    method DeleteString(k: nat)
      requires Valid() && k < |held|
      modifies repr
      ensures Valid() && fresh(repr - old(repr)) && heap.Lasting()
      ensures state == old(state).(held := Without(old(state).held, k))
    {
      AllDisjoint();
      heap.Transfer(held[k], Freed);
      held, state := Without(held, k), state.(held := Without(state.held, k));
      MsgsSame();
      HeldWithout(k);
    }

    method NewString(d: Bytes)
      requires Valid()
      modifies repr
      ensures Valid() && fresh(repr - old(repr)) && heap.Lasting()
      ensures state == old(state).(held := old(state).held + [d])
    {
      AllDisjoint();
      var s := heap.NewForCaller(d);
      held, repr, state := held + [s], repr + {s}, state.(held := state.held + [d]);
      MsgsSame();
      HeldWith(s);
    }

    // -------------------------------------------------------------- runs

    lemma Presence(i: nat, slot: Slot)
      requires Valid() && i < |msgs|
      ensures msgs[i].hasBits[slot + 2] <==> state.msgs[i].strs[slot].Some?
    {
      assert msgs[i] in msgs;
    }

    /** One operation, on the real objects, is one step of the abstract state. What the
        code does not allow is not called. */
    method Step(op: Op)
      requires Valid()
      modifies repr
      ensures Valid() && fresh(repr - old(repr)) && heap.Lasting()
      ensures Next(old(state), op, state)
    {
      if Permitted(|msgs|, |held|, op) {
        if Single(op) {
          StepSingle(op);
        } else if Targeted(op) {
          StepPair(op);
        } else {
          StepObjects(op);
        }
      }
    }

    method StepSingle(op: Op)
      requires Valid() && Permitted(|msgs|, |held|, op) && Single(op)
      modifies repr
      ensures Valid() && fresh(repr - old(repr)) && heap.Lasting()
      ensures Next(old(state), op, state)
    {
      if op.WriteThrough? {
        Presence(op.i, op.slot);
      }
      if op.WriteThrough? ==> msgs[op.i].hasBits[op.slot + 2] {
        Apply(op.i, op);
        assert Allowed(old(state), op) && Targeted(op);
        assert NextHeld(old(state), op, state.held);
        assert NextMsg(old(state), op, old(state).msgs[op.i], state.msgs[op.i]);
      } else {
        assert !Allowed(old(state), op);
      }
    }

    method StepPair(op: Op)
      requires Valid() && Permitted(|msgs|, |held|, op) && Targeted(op) && !Single(op)
      modifies repr
      ensures Valid() && fresh(repr - old(repr)) && heap.Lasting()
      ensures Next(old(state), op, state)
    {
      match op
      case MergeFrom(i, from) => MergeFrom(i, from);
      case CopyFrom(i, from) => CopyFrom(i, from);
      case ReleaseString(i, slot) => ReleaseString(i, slot);
      case SetAllocated(i, slot, k) => SetAllocated(i, slot, k);
    }

    method StepObjects(op: Op)
      requires Valid() && Permitted(|msgs|, |held|, op) && !Targeted(op)
      modifies repr
      ensures Valid() && fresh(repr - old(repr)) && heap.Lasting()
      ensures Next(old(state), op, state)
    {
      match op
      case Create => Create();
      case Copy(from) => Copy(from);
      case Destroy(i) => Destroy(i);
      case Swap(i, j) => Swap(i, j);
      case NewString(d) => NewString(d);
      case WriteString(k, d) => WriteString(k, d);
      case DeleteString(k) => DeleteString(k);
    }

    /** Any sequence of operations on a new world is a run of the abstract states. At its
        end, and so after each of its operations, every string ever allocated is one slot's,
        the user's or freed, none is forgotten, and what was freed is still freed. */
    method Run(ops: seq<Op>) returns (ghost states: seq<State>)
      requires Valid() && state == START
      modifies repr
      ensures Valid() && fresh(repr - old(repr)) && heap.Lasting()
      ensures IsRun(ops, states) && states[|ops|] == state
    {
      states := [START];
      for n := 0 to |ops|
        invariant Valid() && fresh(repr - old(repr)) && heap.Lasting()
        invariant |states| == n + 1 && states[0] == START && states[n] == state
        invariant forall i :: 0 <= i < n ==> Next(states[i], ops[i], states[i + 1])
      {
        Step(ops[n]);
        states := states + [state];
      }
    }
  }

  method ApplySingle(t: RpcMessage, op: Op)
    requires t.Valid() && Single(op) && ValidEnums(op) && (op.WriteThrough? ==> t.hasBits[op.slot + 2])
    modifies t, t.heap, t.strs
    ensures t.Valid() && t.heap.ChangedOnlyFor(t)
    ensures forall i :: 0 <= i < 4 ==> t.strs[i] == old(t.strs[i]) || fresh(t.strs[i]) || t.strs[i] == t.heap.empty
    ensures NextSingle(op, old(t.model), t.model)
  {
    if OnString(op) {
      ApplyToString(t, op);
    } else {
      ApplyToOther(t, op);
    }
  }

  method ApplyToString(t: RpcMessage, op: Op)
    requires t.Valid() && OnString(op) && (op.WriteThrough? ==> t.hasBits[op.slot + 2])
    modifies t, t.heap, t.strs
    ensures t.Valid() && t.heap.ChangedOnlyFor(t)
    ensures forall i :: 0 <= i < 4 ==> t.strs[i] == old(t.strs[i]) || fresh(t.strs[i]) || t.strs[i] == t.heap.empty
    ensures t.model == NextString(op, old(t.model))
  {
    match op
    case SetString(_, slot, d) => t.SetString(slot, d);
    case Mutable(_, slot) => var lent := t.MutableString(slot);
    case WriteThrough(_, slot, d) => t.WriteLent(slot, d);
    case ClearString(_, slot) => t.ClearString(slot);
    case SetAllocatedNull(_, slot) => t.SetAllocatedString(slot, null);
  }

  method ApplyToOther(t: RpcMessage, op: Op)
    requires t.Valid() && Single(op) && !OnString(op) && ValidEnums(op)
    modifies t, t.heap, t.strs
    ensures t.Valid() && t.heap.ChangedOnlyFor(t)
    ensures forall i :: 0 <= i < 4 ==> t.strs[i] == old(t.strs[i]) || fresh(t.strs[i]) || t.strs[i] == t.heap.empty
    ensures NextSingle(op, old(t.model), t.model)
  {
    match op
    case SetKind(_, v) => t.SetKind(v);
    case ClearKind(_) => t.ClearKind();
    case SetId(_, v) => t.SetId(v);
    case ClearId(_) => t.ClearId();
    case SetError(_, v) => t.SetError(v);
    case ClearError(_) => t.ClearError();
    case Clear(_) => t.Clear();
    case Parse(_, d) => ParseInto(t, d);
    case WriteUnknown(_, fs) => t.WriteUnknownFields(fs);
  }

  method ParseInto(t: RpcMessage, d: Bytes)
    requires t.Valid()
    modifies t, t.heap, t.strs
    ensures t.Valid() && t.heap.ChangedOnlyFor(t)
    ensures forall i :: 0 <= i < 4 ==> t.strs[i] == old(t.strs[i]) || fresh(t.strs[i])
    ensures ParsedTo(old(t.model), d, t.model)
  {
    var input := new InputStream(d);
    assert d[0..] == d;
    var ok := MergePartialFromCodedStream(t, input);
  }
}
