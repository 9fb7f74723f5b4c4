/** The message object: a presence word, plain fields and four string pointers, each of
    which is the one shared empty string or an allocation that this field owns. Every
    operation is stated by what it does to the abstract message. */
module RpcMessages {
  import opened Wire
  import opened Fields
  import opened Message
  import opened Streams

  /** The 32-bit presence word as its bits, lowest first: bit 0 is type, bit 1 id, bits 2
      to 5 the length-delimited fields in order, bit 6 error. */
  type Word = w: seq<bool> | |w| == 32 witness seq(32, _ => false)

  const NO_BITS: Word := seq(32, _ => false)

  /** Whether w & (2^n - 1) is not zero. */
  predicate AnyBelow(w: Word, n: nat)
    requires n <= 32
  {
    exists i :: 0 <= i < n && w[i]
  }

  /** Who is responsible for a string that new has returned. */
  datatype Owner = Slotted(m: RpcMessage, slot: Slot) | Caller | Freed

  /** Allocation of strings. The ghost state records the owner of every string ever
      allocated: one field of one message, the caller, or nobody because it was freed. */
  class StringHeap {
    /** The shared string every unset field points to. */
    const empty: StdString
    ghost var owner: map<StdString, Owner>

    /** The shared string is empty and was never anybody's. */
    ghost predicate Valid()
      reads this, empty
    {
      empty.data == [] && empty !in owner
    }

    ghost predicate Owns(m: RpcMessage, i: Slot, s: StdString)
      reads this
    {
      s in owner && owner[s] == Slotted(m, i)
    }

    constructor ()
      ensures Valid() && owner == map[] && fresh(empty)
    {
      empty := new StdString();
      owner := map[];
    }

    /** Strings of other messages and freed strings stay as they were, no string is
        forgotten, and other messages have got no new ones. */
    twostate predicate KeptForOthers(new m: RpcMessage)
      reads this
    {
      && (forall s :: s in old(owner) ==> s in owner)
      && (forall s :: s in old(owner) && old(owner)[s].Slotted? && old(owner)[s].m != m ==> owner[s] == old(owner)[s])
      && (forall s :: s in old(owner) && old(owner)[s].Freed? ==> owner[s].Freed?)
      && (forall s :: s in owner && owner[s].Slotted? && owner[s].m != m ==>
            s in old(owner) && owner[s] == old(owner)[s])
    }

    /** m has the same strings as before. */
    twostate predicate KeptFor(m: RpcMessage)
      reads this
    {
      && (forall s :: s in old(owner) && old(owner)[s].Slotted? && old(owner)[s].m == m ==>
            s in owner && owner[s] == old(owner)[s])
      && (forall s :: s in owner && owner[s].Slotted? && owner[s].m == m ==>
            s in old(owner) && owner[s] == old(owner)[s])
    }

    /** Moreover the caller holds the same strings as before. */
    twostate predicate ChangedOnlyFor(new m: RpcMessage)
      reads this
    {
      && KeptForOthers(m)
      && (forall s :: s in old(owner) && old(owner)[s].Caller? ==> owner[s].Caller?)
      && (forall s :: s in owner && owner[s].Caller? ==> s in old(owner) && old(owner)[s].Caller?)
    }

    /** No string is forgotten, and a freed one stays freed. */
    twostate predicate Lasting()
      reads this
    {
      forall s :: s in old(owner) ==> s in owner && (old(owner)[s].Freed? ==> owner[s].Freed?)
    }

    method New(m: RpcMessage, i: Slot) returns (s: StdString)
      requires Valid()
      modifies this
      ensures Valid() && fresh(s) && s.data == []
      ensures s !in old(owner) && owner == old(owner)[s := Slotted(m, i)]
    {
      s := new StdString();
      owner := owner[s := Slotted(m, i)];
    }

    /** Every string is where it was or was freed. */
    twostate predicate OnlyFreed()
      reads this
    {
      owner.Keys == old(owner).Keys && forall s :: s in owner ==> owner[s] == old(owner)[s] || owner[s] == Freed
    }

    /** The strings of a and b have changed sides. */
    twostate predicate SwappedOwners(a: RpcMessage, b: RpcMessage)
      reads this
    {
      owner.Keys == old(owner).Keys && forall s :: s in owner ==> owner[s] == Swapped(old(owner)[s], a, b)
    }

    ghost method SwapOwners(a: RpcMessage, b: RpcMessage)
      requires Valid()
      modifies this
      ensures Valid() && SwappedOwners(a, b)
    {
      owner := map s | s in owner :: Swapped(owner[s], a, b);
    }

    /** A string the user makes. */
    method NewForCaller(d: Bytes) returns (s: StdString)
      requires Valid()
      modifies this
      ensures Valid() && fresh(s) && s.data == d
      ensures s !in old(owner) && owner == old(owner)[s := Caller]
    {
      s := new StdString();
      s.data := d;
      owner := owner[s := Caller];
    }

    /** delete, release to the caller, and adoption from the caller. */
    ghost method Transfer(s: StdString, to: Owner)
      requires Valid() && s in owner && owner[s] != Freed
      requires to.Slotted? ==> owner[s] == Caller
      modifies this
      ensures Valid() && owner == old(owner)[s := to]
    {
      owner := owner[s := to];
    }
  }

  /** The owner of a string after messages a and b have exchanged their strings. */
  ghost function Swapped(o: Owner, a: RpcMessage, b: RpcMessage): Owner {
    if o.Slotted? && o.m == a then Slotted(b, o.slot)
    else if o.Slotted? && o.m == b then Slotted(a, o.slot)
    else o
  }

  class RpcMessage {
    const heap: StringHeap
    var hasBits: Word
    var cachedSize: int32
    var id: uint64
    var strs: seq<StdString>
    var kind: int32
    var error: int32
    var unknownFields: seq<Field>

    /** The abstract message this object stands for. */
    ghost var model: Msg

    /** Each pointer is the shared empty string, which only an absent field may use, or a
        string owned by its very slot; and every string a slot owns is the one it points to. */
    ghost predicate PointersValid()
      reads this, heap
    {
      && |strs| == 4
      && (forall i :: 0 <= i < 4 ==>
            if strs[i] == heap.empty then !hasBits[i + 2] else heap.Owns(this, i, strs[i]))
      && (forall s :: s in heap.owner && heap.owner[s].Slotted? && heap.owner[s].m == this ==>
            strs[heap.owner[s].slot] == s)
    }

    /** A present field's string is the model's, and an absent field's string is empty. */
    ghost predicate ContentsValid()
      requires |strs| == 4
      reads this, strs
    {
      forall i :: 0 <= i < 4 ==>
        if hasBits[i + 2] then model.strs[i] == Some(strs[i].data)
        else model.strs[i] == None && strs[i].data == []
    }

    /** The plain fields agree with the model and hold valid values, and an absent field
        holds its default. */
    ghost predicate PlainValid()
      reads this
    {
      && (if hasBits[0] then model.kind == Some(kind) else model.kind == None && kind == 0)
      && (if hasBits[1] then model.id == Some(id) else model.id == None && id == 0)
      && (if hasBits[6] then model.error == Some(error) else model.error == None && error == 0)
      && MessageTypeIsValid(kind) && ErrorCodeIsValid(error)
      && model.unknown == unknownFields
    }

    ghost predicate Valid()
      reads this, heap, heap.empty, strs
    {
      heap.Valid() && PlainValid() && PointersValid() && ContentsValid()
    }

    /** All of Valid but for the strings of absent fields, which need not be empty. */
    ghost predicate Intact()
      reads this, heap, heap.empty, strs
    {
      && heap.Valid() && PlainValid() && PointersValid()
      && forall i :: 0 <= i < 4 ==> model.strs[i] == if hasBits[i + 2] then Some(strs[i].data) else None
    }

    /** Every absent field's string is empty. */
    ghost predicate AbsentEmpty()
      requires |strs| == 4
      reads this, strs
    {
      forall i :: 0 <= i < 4 ==> hasBits[i + 2] || strs[i].data == []
    }

    lemma ValidIsIntact()
      ensures Valid() <==> Intact() && AbsentEmpty()
    {
      if Intact() && AbsentEmpty() {
        forall i | 0 <= i < 4
          ensures if hasBits[i + 2] then model.strs[i] == Some(strs[i].data)
                  else model.strs[i] == None && strs[i].data == []
        {
          assert hasBits[i + 2] || strs[i].data == [];
        }
      }
    }

    constructor (heap: StringHeap)
      requires heap.Valid()
      ensures this.heap == heap && Valid() && model == EMPTY
      ensures strs == [heap.empty, heap.empty, heap.empty, heap.empty]
    {
      this.heap := heap;
      cachedSize, kind, id, error := 0, 0, 0, 0;
      strs := [heap.empty, heap.empty, heap.empty, heap.empty];
      hasBits := NO_BITS;
      unknownFields := [];
      model := EMPTY;
    }

    // ------------------------------------------------------------- reading

    /** What a caller sees of the plain fields: presence, and the value or the default. */
    function HasKind(): (b: bool)
      requires Valid()
      reads this, heap, heap.empty, strs
      ensures b <==> model.kind.Some?
    {
      hasBits[0]
    }

    function GetKind(): (v: int32)
      requires Valid()
      reads this, heap, heap.empty, strs
      ensures v == if model.kind.Some? then model.kind.value else 0
    {
      kind
    }

    function HasId(): (b: bool)
      requires Valid()
      reads this, heap, heap.empty, strs
      ensures b <==> model.id.Some?
    {
      hasBits[1]
    }

    function GetId(): (v: uint64)
      requires Valid()
      reads this, heap, heap.empty, strs
      ensures v == if model.id.Some? then model.id.value else 0
    {
      id
    }

    function HasError(): (b: bool)
      requires Valid()
      reads this, heap, heap.empty, strs
      ensures b <==> model.error.Some?
    {
      hasBits[6]
    }

    function GetError(): (v: int32)
      requires Valid()
      reads this, heap, heap.empty, strs
      ensures v == if model.error.Some? then model.error.value else 0
    {
      error
    }

    /** And of the string fields. */
    function HasString(i: Slot): (b: bool)
      requires Valid()
      reads this, heap, heap.empty, strs
      ensures b <==> model.strs[i].Some?
    {
      hasBits[i + 2]
    }

    function GetString(i: Slot): (d: Bytes)
      requires Valid()
      reads this, heap, heap.empty, strs
      ensures d == if model.strs[i].Some? then model.strs[i].value else []
    {
      strs[i].data
    }

    // --------------------------------------------------- type, id and error

    method SetKind(value: int32)
      requires Valid() && MessageTypeIsValid(value)
      modifies `hasBits, `kind, `model
      ensures Valid() && model == old(model).(kind := Some(value))
    {
      hasBits := hasBits[0 := true];
      kind := value;
      model := model.(kind := Some(value));
    }

    method ClearKind()
      requires Valid()
      modifies `hasBits, `kind, `model
      ensures Valid() && model == old(model).(kind := None)
    {
      kind := 0;
      hasBits := hasBits[0 := false];
      model := model.(kind := None);
    }

    method SetId(value: uint64)
      requires Valid()
      modifies `hasBits, `id, `model
      ensures Valid() && model == old(model).(id := Some(value))
    {
      hasBits := hasBits[1 := true];
      id := value;
      model := model.(id := Some(value));
    }

    method ClearId()
      requires Valid()
      modifies `hasBits, `id, `model
      ensures Valid() && model == old(model).(id := None)
    {
      id := 0;
      hasBits := hasBits[1 := false];
      model := model.(id := None);
    }

    method SetError(value: int32)
      requires Valid() && ErrorCodeIsValid(value)
      modifies `hasBits, `error, `model
      ensures Valid() && model == old(model).(error := Some(value))
    {
      hasBits := hasBits[6 := true];
      error := value;
      model := model.(error := Some(value));
    }

    method ClearError()
      requires Valid()
      modifies `hasBits, `error, `model
      ensures Valid() && model == old(model).(error := None)
    {
      error := 0;
      hasBits := hasBits[6 := false];
      model := model.(error := None);
    }

    /** Merges into the unknown-field set, which appends. */
    method AddUnknownFields(fs: seq<Field>)
      requires Valid()
      modifies `unknownFields, `model
      ensures Valid() && model == old(model).(unknown := old(model).unknown + fs)
    {
      unknownFields := unknownFields + fs;
      model := model.(unknown := unknownFields);
    }

    /** Whatever is written through the pointer to the unknown-field set. */
    method WriteUnknownFields(fs: seq<Field>)
      requires Valid()
      modifies `unknownFields, `model
      ensures Valid() && model == old(model).(unknown := fs)
    {
      unknownFields := fs;
      model := model.(unknown := fs);
    }

    // ------------------------------------------- service, method, request, response

    /** The allocation every writing accessor starts with; the message does not change. */
    method EnsureOwned(i: Slot)
      requires Valid()
      modifies this`strs, heap
      ensures Valid() && heap.ChangedOnlyFor(this)
      ensures strs[i] != heap.empty && (strs[i] == old(strs[i]) || fresh(strs[i]))
      ensures strs == old(strs)[i := strs[i]] && strs[i].data == old(strs[i].data)
    {
      if strs[i] == heap.empty {
        var s := heap.New(this, i);
        strs := strs[i := s];
      }
    }

    /** The field becomes present, and its string may be written through the result. */
    method MutableString(i: Slot) returns (p: StdString)
      requires Valid()
      modifies `hasBits, `strs, `model, heap
      ensures Valid() && heap.ChangedOnlyFor(this)
      ensures p != heap.empty && (p == old(strs[i]) || fresh(p))
      ensures strs == old(strs)[i := p] && p.data == old(strs[i].data)
      ensures model == WithString(old(model), i, p.data) && hasBits[i + 2]
    {
      EnsureOwned(i);
      hasBits := hasBits[i + 2 := true];
      p := strs[i];
      model := WithString(model, i, p.data);
    }

    ghost predicate ContentsValidExcept(i: Slot)
      requires |strs| == 4
      reads this, strs
    {
      forall j :: 0 <= j < 4 && j != i ==>
        if hasBits[j + 2] then model.strs[j] == Some(strs[j].data)
        else model.strs[j] == None && strs[j].data == []
    }

    /** After a present field's string was written through its pointer. */
    ghost method Written(i: Slot)
      requires heap.Valid() && PlainValid() && PointersValid()
      requires hasBits[i + 2] && ContentsValidExcept(i)
      modifies `model
      ensures Valid() && model == WithString(old(model), i, strs[i].data)
    {
      model := WithString(model, i, strs[i].data);
    }

    method SetString(i: Slot, value: Bytes)
      requires Valid()
      modifies `hasBits, `strs, `model, heap, strs[i]
      ensures Valid() && heap.ChangedOnlyFor(this)
      ensures strs[i] == old(strs[i]) || fresh(strs[i])
      ensures strs == old(strs)[i := strs[i]]
      ensures model == WithString(old(model), i, value)
    {
      var p := MutableString(i);
      p.data := value;
      Written(i);
    }

    method ClearString(i: Slot)
      requires Valid()
      modifies this, strs[i]
      ensures Valid() && strs == old(strs)
      ensures model == WithoutString(old(model), i)
    {
      if strs[i] != heap.empty {
        strs[i].data := [];
      }
      hasBits := hasBits[i + 2 := false];
      model := WithoutString(model, i);
    }

    /** The caller takes over the string, if there is one; the field becomes absent. */
    method ReleaseString(i: Slot) returns (p: StdString?)
      requires Valid()
      modifies this, heap
      ensures Valid() && heap.KeptForOthers(this)
      ensures strs == old(strs)[i := heap.empty]
      ensures model == WithoutString(old(model), i)
      ensures p == if old(strs[i]) == heap.empty then null else old(strs[i])
      ensures heap.owner == if p == null then old(heap.owner) else old(heap.owner)[p := Caller]
    {
      hasBits := hasBits[i + 2 := false];
      model := WithoutString(model, i);
      if strs[i] == heap.empty {
        p := null;
      } else {
        p := strs[i];
        heap.Transfer(p, Caller);
        strs := strs[i := heap.empty];
      }
    }

    /** Frees the string of a slot, if there is one, and points it at the shared one. */
    method FreeString(i: Slot)
      requires Valid()
      modifies this, heap
      ensures Valid() && heap.ChangedOnlyFor(this)
      ensures strs == old(strs)[i := heap.empty]
      ensures model == WithoutString(old(model), i)
      ensures heap.OnlyFreed()
      ensures forall s :: s in heap.owner && s != old(strs[i]) ==> heap.owner[s] == old(heap.owner)[s]
      ensures old(strs[i]) != heap.empty ==> heap.owner[old(strs[i])] == Freed
    {
      if strs[i] != heap.empty {
        heap.Transfer(strs[i], Freed);
      }
      hasBits := hasBits[i + 2 := false];
      model := WithoutString(model, i);
      strs := strs[i := heap.empty];
    }

    /** The field takes over p, which must be the caller's. */
    method AdoptString(i: Slot, p: StdString)
      requires Valid() && strs[i] == heap.empty
      requires p in heap.owner && heap.owner[p] == Caller
      modifies this, heap
      ensures Valid() && heap.KeptForOthers(this)
      ensures strs == old(strs)[i := p]
      ensures model == WithString(old(model), i, p.data)
      ensures heap.owner == old(heap.owner)[p := Slotted(this, i)]
    {
      hasBits := hasBits[i + 2 := true];
      strs := strs[i := p];
      heap.Transfer(p, Slotted(this, i));
      model := WithString(model, i, p.data);
    }

    /** The old string is freed and the field takes over p; a null p makes the field absent. */
    method SetAllocatedString(i: Slot, p: StdString?)
      requires Valid() && (p != null ==> p in heap.owner && heap.owner[p] == Caller)
      modifies this, heap
      ensures Valid() && heap.KeptForOthers(this)
      ensures strs == old(strs)[i := if p == null then heap.empty else p]
      ensures model == if p == null then WithoutString(old(model), i) else WithString(old(model), i, p.data)
      ensures old(strs[i]) != heap.empty ==> heap.owner[old(strs[i])] == Freed
      ensures forall s :: s in heap.owner && s != p && s != old(strs[i]) ==>
                s in old(heap.owner) && heap.owner[s] == old(heap.owner)[s]
      ensures if p == null then heap.ChangedOnlyFor(this) else heap.owner[p] == Slotted(this, i)
    {
      FreeString(i);
      if p != null {
        AdoptString(i, p);
      }
    }

    // ----------------------------------------------------- whole messages

    /** A message that does not change stays valid while its strings stay its own. */
    twostate lemma StaysValid()
      requires old(Valid()) && heap.Valid() && unchanged(this)
      requires forall i :: 0 <= i < 4 && strs[i] != heap.empty ==> unchanged(strs[i])
      requires heap.KeptFor(this)
      ensures Valid()
    {
    }

    /** In particular while only another message changes. */
    twostate lemma Undisturbed(o: RpcMessage)
      requires o != this && o.heap == heap && old(o.Valid()) && heap.Valid()
      requires heap.KeptForOthers(this) && unchanged(o)
      requires forall i :: 0 <= i < 4 && o.strs[i] != heap.empty ==> unchanged(o.strs[i])
      ensures o.Valid()
    {
    }

    /** Strings of different messages are different objects. */
    lemma Apart(o: RpcMessage, i: Slot, j: Slot)
      requires o != this && o.heap == heap && Valid() && o.Valid()
      requires strs[i] != heap.empty
      ensures strs[i] != o.strs[j]
    {
    }

    /** A write through a pointer that MutableString lent. It is the field's own string that
        is written, and the message stays valid exactly when the field is still present or
        nothing is written. */
    method WriteLent(i: Slot, d: Bytes)
      requires Valid() && strs[i] != heap.empty
      modifies `model, strs[i]
      ensures Intact() && strs[i].data == d
      ensures model == if hasBits[i + 2] then WithString(old(model), i, d) else old(model)
      ensures Valid() <==> hasBits[i + 2] || d == []
    {
      strs[i].data := d;
      if hasBits[i + 2] {
        model := WithString(model, i, d);
      }
    }

    /** Empties a present field's string in place and skips an absent field's. */
    method ClearContents(i: Slot)
      requires heap.Valid() && PointersValid()
      modifies strs[i]
      ensures heap.Valid() && strs[i].data == if hasBits[i + 2] then [] else old(strs[i].data)
      ensures forall j :: 0 <= j < 4 && j != i ==> strs[j].data == old(strs[j].data)
    {
      if hasBits[i + 2] {
        if strs[i] != heap.empty {
          strs[i].data := [];
        }
      }
    }

    method ClearContentsPair(i: Slot)
      requires i < 3 && heap.Valid() && PointersValid()
      modifies strs[i], strs[i + 1]
      ensures heap.Valid()
      ensures forall j :: i <= j <= i + 1 ==> strs[j].data == if hasBits[j + 2] then [] else old(strs[j].data)
      ensures forall j :: 0 <= j < 4 && j != i && j != i + 1 ==> strs[j].data == old(strs[j].data)
    {
      ClearContents(i);
      ClearContents(i + 1);
    }

    method ClearStrings()
      requires heap.Valid() && PointersValid()
      modifies strs
      ensures heap.Valid()
      ensures forall i :: 0 <= i < 4 ==> strs[i].data == if hasBits[i + 2] then [] else old(strs[i].data)
    {
      ClearContentsPair(0);
      ClearContentsPair(2);
    }

    /** The part of Clear that is guarded by the presence word. */
    method ClearFields()
      requires Intact()
      modifies `kind, `error, `id, strs
      ensures heap.Valid() && kind == 0 && id == 0 && error == 0
      ensures forall i :: 0 <= i < 4 ==> strs[i].data == if hasBits[i + 2] then [] else old(strs[i].data)
    {
      if AnyBelow(hasBits, 7) {
        ClearStrings();
        kind, error := 0, 0;
        id := 0;
      } else {
        assert forall i: nat :: i < 7 ==> !hasBits[i];
      }
    }

    /** Makes every field absent and keeps the allocated strings for reuse. The observable
        default state is restored exactly when every absent field's string was empty. */
    method Clear()
      requires Intact()
      modifies this, strs
      ensures Intact() && strs == old(strs) && model == EMPTY
      ensures kind == 0 && id == 0 && error == 0 && hasBits == NO_BITS && unknownFields == []
      ensures forall i :: 0 <= i < 4 ==> strs[i].data == if old(hasBits[i + 2]) then [] else old(strs[i].data)
      ensures Valid() <==> old(AbsentEmpty())
    {
      ClearFields();
      hasBits := NO_BITS;
      unknownFields := [];
      model := EMPTY;
      ValidIsIntact();
    }

    method MergeString(i: Slot, from: RpcMessage)
      requires from != this && from.heap == heap && Valid() && from.Valid()
      modifies `hasBits, `strs, `model, heap, strs[i]
      ensures Valid() && from.Valid() && unchanged(from) && heap.ChangedOnlyFor(this)
      ensures strs[i] == old(strs[i]) || fresh(strs[i])
      ensures strs == old(strs)[i := strs[i]]
      ensures model == old(model).(strs := MergeSlot(old(model).strs, from.model.strs, i))
    {
      if from.hasBits[i + 2] {
        var value := from.strs[i].data;
        forall j: Slot | strs[i] != heap.empty ensures strs[i] != from.strs[j] {
          Apart(from, i, j);
        }
        SetString(i, value);
        Undisturbed(from);
      }
    }

    method MergeStringPair(i: Slot, from: RpcMessage)
      requires i < 3 && from != this && from.heap == heap && Valid() && from.Valid()
      modifies `hasBits, `strs, `model, heap, strs[i], strs[i + 1]
      ensures Valid() && from.Valid() && unchanged(from) && heap.ChangedOnlyFor(this)
      ensures strs[i] == old(strs[i]) || fresh(strs[i])
      ensures strs[i + 1] == old(strs[i + 1]) || fresh(strs[i + 1])
      ensures strs == old(strs)[i := strs[i]][i + 1 := strs[i + 1]]
      ensures model == old(model).(strs := MergeSlot(MergeSlot(old(model).strs, from.model.strs, i),
                                                     from.model.strs, i + 1))
    {
      MergeString(i, from);
      MergeString(i + 1, from);
    }

    method MergeAllStrings(from: RpcMessage)
      requires from != this && from.heap == heap && Valid() && from.Valid()
      modifies `hasBits, `strs, `model, heap, strs
      ensures Valid() && from.Valid() && unchanged(from) && heap.ChangedOnlyFor(this)
      ensures forall i :: 0 <= i < 4 ==> strs[i] == old(strs[i]) || fresh(strs[i])
      ensures model == old(model).(strs := MergeStrings(old(model).strs, from.model.strs))
    {
      MergeSlotBySlot(model.strs, from.model.strs);
      MergeStringPair(0, from);
      MergeStringPair(2, from);
      forall i | 0 <= i < 4 ensures strs[i] == old(strs[i]) || fresh(strs[i]) {
        assert i == 0 || i == 1 || i == 2 || i == 3;
      }
    }

    method MergeKindAndId(from: RpcMessage)
      requires from != this && Valid() && from.PlainValid()
      modifies `hasBits, `kind, `id, `model
      ensures Valid()
      ensures model == old(model).(kind := Later(old(model).kind, from.model.kind),
                                   id := Later(old(model).id, from.model.id))
    {
      if from.hasBits[0] {
        SetKind(from.kind);
      }
      if from.hasBits[1] {
        SetId(from.id);
      }
    }

    method MergeError(from: RpcMessage)
      requires from != this && Valid() && from.PlainValid()
      modifies `hasBits, `error, `model
      ensures Valid()
      ensures model == old(model).(error := Later(old(model).error, from.model.error))
    {
      if from.hasBits[6] {
        SetError(from.error);
      }
    }

    method MergeFields(from: RpcMessage)
      requires from != this && from.heap == heap && Valid() && from.Valid()
      modifies this, heap, strs
      ensures Valid() && from.Valid() && unchanged(from) && heap.ChangedOnlyFor(this)
      ensures forall i :: 0 <= i < 4 ==> strs[i] == old(strs[i]) || fresh(strs[i])
      ensures model == Merge(old(model), from.model).(unknown := old(model).unknown)
    {
      MergeKindAndId(from);
      MergeAllStrings(from);
      MergeError(from);
    }

    lemma NothingToMerge(from: RpcMessage)
      requires Valid() && from.Valid() && !AnyBelow(from.hasBits, 8)
      ensures Merge(model, from.model).(unknown := model.unknown) == model
    {
      assert forall i: nat :: i < 8 ==> !from.hasBits[i];
      assert MergeStrings(model.strs, from.model.strs) == model.strs;
    }

    /** The guard on the presence word skips the fields only when none is present. */
    method MergeGuarded(from: RpcMessage)
      requires from != this && from.heap == heap && Valid() && from.Valid()
      modifies this, heap, strs
      ensures Valid() && from.Valid() && unchanged(from) && heap.ChangedOnlyFor(this)
      ensures forall i :: 0 <= i < 4 ==> strs[i] == old(strs[i]) || fresh(strs[i])
      ensures model == Merge(old(model), from.model).(unknown := old(model).unknown)
    {
      if AnyBelow(from.hasBits, 8) {
        MergeFields(from);
      } else {
        NothingToMerge(from);
      }
    }

    /** Merging a message into itself makes the code abort, so from is another message. */
    method MergeFrom(from: RpcMessage)
      requires from != this && from.heap == heap && Valid() && from.Valid()
      modifies this, heap, strs
      ensures Valid() && from.Valid() && unchanged(from) && heap.ChangedOnlyFor(this)
      ensures forall i :: 0 <= i < 4 ==> strs[i] == old(strs[i]) || fresh(strs[i])
      ensures model == Merge(old(model), from.model)
    {
      MergeGuarded(from);
      AddUnknownFields(from.unknownFields);
    }

    /** The copy constructor: a new message with the same contents and no string in common. */
    constructor Copy(from: RpcMessage)
      requires from.Valid()
      modifies from.heap, from.heap.empty
      ensures heap == from.heap && Valid() && from.Valid() && unchanged(from)
      ensures model == from.model && heap.ChangedOnlyFor(this)
      ensures forall i :: 0 <= i < 4 ==> strs[i] == heap.empty || fresh(strs[i])
    {
      heap := from.heap;
      cachedSize, kind, id, error := 0, 0, 0, 0;
      strs := [from.heap.empty, from.heap.empty, from.heap.empty, from.heap.empty];
      hasBits := NO_BITS;
      unknownFields := [];
      model := EMPTY;
      new;
      MergeFrom(from);
      MergeIdentity(from.model);
    }

    /** Copying from itself does nothing. */
    method CopyFrom(from: RpcMessage)
      requires from.heap == heap && Valid() && from.Valid()
      modifies this, heap, strs
      ensures Valid() && from.Valid() && model == from.model == old(from.model)
      ensures from != this ==> unchanged(from)
      ensures heap.ChangedOnlyFor(this)
      ensures forall i :: 0 <= i < 4 ==> strs[i] == old(strs[i]) || fresh(strs[i])
    {
      if from != this {
        forall i: Slot, j: Slot | strs[i] != heap.empty ensures strs[i] != from.strs[j] {
          Apart(from, i, j);
        }
        Clear();
        Undisturbed(from);
        MergeFrom(from);
        MergeIdentity(from.model);
      }
    }

    method FreeStringPair(i: Slot)
      requires i < 3 && Valid()
      modifies this, heap
      ensures Valid() && heap.ChangedOnlyFor(this) && heap.OnlyFreed()
      ensures strs == old(strs)[i := heap.empty][i + 1 := heap.empty]
    {
      FreeString(i);
      FreeString(i + 1);
    }

    lemma OwnsNothing()
      requires Valid() && forall i :: 0 <= i < 4 ==> strs[i] == heap.empty
      ensures forall i: Slot, s :: !heap.Owns(this, i, s)
    {
    }

    /** The destructor: every string the message owned is freed and nothing else changes. */
    method Destroy()
      requires Valid()
      modifies this, heap
      ensures heap.Valid() && heap.ChangedOnlyFor(this) && heap.OnlyFreed()
      ensures forall i: Slot, s :: !heap.Owns(this, i, s)
    {
      FreeStringPair(0);
      FreeStringPair(2);
      OwnsNothing();
    }

    /** The field exchange; the strings still have their old owners. */
    method SwapFields(other: RpcMessage)
      requires other != this && other.heap == heap && Valid() && other.Valid()
      modifies this, other
      ensures model == old(other.model) && other.model == old(model)
      ensures strs == old(other.strs) && other.strs == old(strs)
      ensures hasBits == old(other.hasBits) && other.hasBits == old(hasBits)
      ensures cachedSize == old(other.cachedSize) && other.cachedSize == old(cachedSize)
      ensures kind == old(other.kind) && other.kind == old(kind)
      ensures id == old(other.id) && other.id == old(id)
      ensures error == old(other.error) && other.error == old(error)
      ensures unknownFields == old(other.unknownFields) && other.unknownFields == old(unknownFields)
    {
      kind, other.kind := other.kind, kind;
      id, other.id := other.id, id;
      strs, other.strs := other.strs, strs;
      error, other.error := other.error, error;
      hasBits, other.hasBits := other.hasBits, hasBits;
      unknownFields, other.unknownFields := other.unknownFields, unknownFields;
      cachedSize, other.cachedSize := other.cachedSize, cachedSize;
      model, other.model := other.model, model;
    }

    /** A message that has taken over the fields and the strings of other. */
    twostate lemma TookOver(other: RpcMessage)
      requires old(other.Valid()) && heap == other.heap && heap.Valid() && other != this
      requires model == old(other.model) && strs == old(other.strs) && hasBits == old(other.hasBits)
      requires kind == old(other.kind) && id == old(other.id) && error == old(other.error)
      requires unknownFields == old(other.unknownFields)
      requires heap.SwappedOwners(this, other)
      requires forall i :: 0 <= i < 4 ==> unchanged(strs[i])
      ensures Valid()
    {
    }

    /** Exchanges all fields with another message; no string is copied. */
    method Swap(other: RpcMessage)
      requires other.heap == heap && Valid() && other.Valid()
      modifies this, other, heap
      ensures Valid() && other.Valid()
      ensures model == old(other.model) && other.model == old(model)
      ensures strs == old(other.strs) && other.strs == old(strs)
      ensures cachedSize == old(other.cachedSize) && other.cachedSize == old(cachedSize)
      ensures heap.SwappedOwners(this, other)
    {
      if other != this {
        SwapFields(other);
        heap.SwapOwners(this, other);
        TookOver(other);
        other.TookOver(this);
      }
    }
  }

  /** What goes wrong behind a lent pointer: written after its field was cleared, the string
      keeps what was written even through Clear, which takes it to be empty already. The
      message then looks like a new one but for that absent field's value. */
  method StaleAfterClear(heap: StringHeap, i: Slot, d: Bytes) returns (m: RpcMessage)
    requires heap.Valid() && d != []
    modifies heap, heap.empty
    ensures fresh(m) && m.heap == heap && m.Intact() && !m.Valid()
    ensures m.model == EMPTY && m.hasBits == NO_BITS && m.strs[i].data == d
  {
    m := new RpcMessage(heap);
    var lent := m.MutableString(i);
    m.ClearString(i);
    assert m.strs[i] == lent;
    m.WriteLent(i, d);
    m.Clear();
  }
}
