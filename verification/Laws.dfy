/** What a decode amounts to as a whole: which record decides each field, when the order
    of records does not matter, what a truncated serialization decodes to, and what
    becomes of enum values nobody knows. */
module Laws {
  import opened Wire
  import opened Fields
  import opened Message
  import opened Decoding

  // ------------------------------------------------------- last one wins

  /** The last record that sets field n, as it is written again. */
  function LastSetting(fs: seq<Field>, n: Known): Option<Field> {
    if fs == [] then None
    else
      var later := LastSetting(fs[1..], n);
      if later.Some? then later
      else if IsKnown(fs[0]) && fs[0].number == n then Some(Canonical(fs[0]))
      else None
  }

  /** The records that set no field, in order. */
  function Strays(fs: seq<Field>): seq<Field> {
    if fs == [] then []
    else if IsKnown(fs[0]) then Strays(fs[1..])
    else [Canonical(fs[0])] + Strays(fs[1..])
  }

  /** A run of records sets each field to its last setting and keeps a field that no
      record sets. */
  lemma {:induction false} EffectOnField(m: Msg, fs: seq<Field>, n: Known)
    ensures Get(ApplyAll(m, fs), n) == Later(Get(m, n), LastSetting(fs, n))
    decreases fs
  {
    if fs != [] {
      EffectOnField(Apply(m, fs[0]), fs[1..], n);
      ApplyGet(m, fs[0], n);
    }
  }

  /** It appends the records that set no field to the unknown set, in order. */
  lemma {:induction false} EffectOnUnknown(m: Msg, fs: seq<Field>)
    ensures ApplyAll(m, fs).unknown == m.unknown + Strays(fs)
    decreases fs
  {
    if fs == [] {
      assert m.unknown + [] == m.unknown;
    } else {
      ApplyGet(m, fs[0], 1);
      EffectOnUnknown(Apply(m, fs[0]), fs[1..]);
      assert (m.unknown + [Canonical(fs[0])]) + Strays(fs[1..]) == m.unknown + ([Canonical(fs[0])] + Strays(fs[1..]));
    }
  }

  /** Last one wins: after decoding any bytes each field holds what the last record that
      sets it says, or what it held before. */
  lemma LastOneWins(m: Msg, s: Bytes, n: Known)
    ensures Get(Decode(m, s).msg, n) == Later(Get(m, n), LastSetting(ReadRecords(s), n))
  {
    DecodeAppliesRecords(m, s);
    EffectOnField(m, ReadRecords(s), n);
  }

  /** And the unknown set has grown by the records that set no field, in order. */
  lemma StraysAreKept(m: Msg, s: Bytes)
    ensures Decode(m, s).msg.unknown == m.unknown + Strays(ReadRecords(s))
  {
    DecodeAppliesRecords(m, s);
    EffectOnUnknown(m, ReadRecords(s));
  }

  /** Agreement on the last setting of every field and on the stray records. */
  predicate SameSettings(fs: seq<Field>, gs: seq<Field>) {
    (forall n: Known :: LastSetting(fs, n) == LastSetting(gs, n)) && Strays(fs) == Strays(gs)
  }

  lemma SameSettingsSameEffect(m: Msg, fs: seq<Field>, gs: seq<Field>)
    requires SameSettings(fs, gs)
    ensures ApplyAll(m, fs) == ApplyAll(m, gs)
  {
    forall n: Known ensures Get(ApplyAll(m, fs), n) == Get(ApplyAll(m, gs), n) {
      EffectOnField(m, fs, n);
      EffectOnField(m, gs, n);
    }
    EffectOnUnknown(m, fs);
    EffectOnUnknown(m, gs);
    SameMessage(ApplyAll(m, fs), ApplyAll(m, gs));
  }

  lemma EffectOnEmpty(fs: seq<Field>, n: Known)
    ensures Get(ApplyAll(EMPTY, fs), n) == LastSetting(fs, n)
    ensures ApplyAll(EMPTY, fs).unknown == Strays(fs)
  {
    EffectOnField(EMPTY, fs, n);
    EffectOnUnknown(EMPTY, fs);
    assert Get(EMPTY, n) == None;
    assert EMPTY.unknown + Strays(fs) == Strays(fs);
  }

  /** Two inputs build the same message if and only if their records agree on the last
      setting of every field and on the stray records; then they do the same to every
      message. */
  lemma SameEffect(m: Msg, x: Bytes, y: Bytes)
    ensures Decode(EMPTY, x).msg == Decode(EMPTY, y).msg <==> SameSettings(ReadRecords(x), ReadRecords(y))
    ensures SameSettings(ReadRecords(x), ReadRecords(y)) ==> Decode(m, x).msg == Decode(m, y).msg
  {
    var fs, gs := ReadRecords(x), ReadRecords(y);
    DecodeAppliesRecords(EMPTY, x);
    DecodeAppliesRecords(EMPTY, y);
    DecodeAppliesRecords(m, x);
    DecodeAppliesRecords(m, y);
    if SameSettings(fs, gs) {
      SameSettingsSameEffect(m, fs, gs);
      SameSettingsSameEffect(EMPTY, fs, gs);
    } else if ApplyAll(EMPTY, fs) == ApplyAll(EMPTY, gs) {
      forall n: Known ensures LastSetting(fs, n) == LastSetting(gs, n) {
        EffectOnEmpty(fs, n);
        EffectOnEmpty(gs, n);
      }
      EffectOnEmpty(fs, 1);
      EffectOnEmpty(gs, 1);
      assert false;
    }
  }

  // ---------------------------------------------------- order independence

  /** Two records do not interfere when at most one of them is stray and they do not set
      the same field. */
  predicate Independent(f: Field, g: Field) {
    (IsKnown(f) || IsKnown(g)) && !(IsKnown(f) && IsKnown(g) && f.number == g.number)
  }

  /** Adjacent records of an input, however they are written, can be exchanged without any
      effect on the decode if and only if they are independent or are written again as the
      same record. The message may be anything, so it may come from the records before. */
  lemma SwapAdjacent(r: Bytes, s: Bytes)
    requires OneRecord(r) && OneRecord(s)
    ensures var f, g := ReadRecord(r).value, ReadRecord(s).value;
            (forall m: Msg, rest: Bytes :: Decode(m, r + (s + rest)) == Decode(m, s + (r + rest)))
            <==> Independent(f, g) || Canonical(f) == Canonical(g)
  {
    var f, g := ReadRecord(r).value, ReadRecord(s).value;
    if Independent(f, g) || Canonical(f) == Canonical(g) {
      forall m: Msg, rest: Bytes ensures Decode(m, r + (s + rest)) == Decode(m, s + (r + rest)) {
        DecodeTwo(m, r, s, rest);
        DecodeTwo(m, s, r, rest);
        SwapAdjacentIn(m, f, g);
      }
    } else {
      DecodeTwo(EMPTY, r, s, []);
      DecodeTwo(EMPTY, s, r, []);
      SwapAdjacentIn(EMPTY, f, g);
      assert Decode(EMPTY, r + (s + [])).msg != Decode(EMPTY, s + (r + [])).msg;
    }
  }

  lemma DecodeTwo(m: Msg, r: Bytes, s: Bytes, rest: Bytes)
    requires OneRecord(r) && OneRecord(s)
    ensures Decode(m, r + (s + rest))
            == After(|r| + |s|, Decode(Apply(Apply(m, ReadRecord(r).value), ReadRecord(s).value), rest))
  {
    DecodeOneRecord(m, r, s + rest);
    DecodeOneRecord(Apply(m, ReadRecord(r).value), s, rest);
  }

  lemma SwapAdjacentIn(m: Msg, f: Field, g: Field)
    ensures Apply(Apply(m, f), g) == Apply(Apply(m, g), f)
            <==> Independent(f, g) || Canonical(f) == Canonical(g)
  {
    var l, r := Apply(Apply(m, f), g), Apply(Apply(m, g), f);
    var k := if IsKnown(f) then f.number else 1;
    forall n: Known
      ensures Get(l, n) == if IsKnown(g) && g.number == n then Some(Canonical(g))
                           else if IsKnown(f) && f.number == n then Some(Canonical(f)) else Get(m, n)
      ensures Get(r, n) == if IsKnown(f) && f.number == n then Some(Canonical(f))
                           else if IsKnown(g) && g.number == n then Some(Canonical(g)) else Get(m, n)
    {
      ApplyGet(m, f, n);
      ApplyGet(m, g, n);
      ApplyGet(Apply(m, f), g, n);
      ApplyGet(Apply(m, g), f, n);
    }
    ApplyGet(m, f, k);
    ApplyGet(m, g, k);
    ApplyGet(Apply(m, f), g, k);
    ApplyGet(Apply(m, g), f, k);
    if Independent(f, g) || Canonical(f) == Canonical(g) {
      SameMessage(l, r);
    } else {
      assert Get(l, k) == Get(r, k) ==> !IsKnown(f);
      assert !IsKnown(f) ==> l.unknown[|m.unknown|] == Canonical(f) && r.unknown[|m.unknown|] == Canonical(g);
    }
  }

  /** Each field number occurs at most once. */
  predicate Distinct(fs: seq<Field>) {
    forall i, j :: 0 <= i < j < |fs| ==> fs[i].number != fs[j].number
  }

  predicate AllKnown(fs: seq<Field>) {
    forall i :: 0 <= i < |fs| ==> IsKnown(fs[i])
  }

  predicate Ascending(fs: seq<Field>) {
    forall i, j :: 0 <= i < j < |fs| ==> fs[i].number < fs[j].number
  }

  lemma {:induction false} LastSettingMember(fs: seq<Field>, n: Known)
    ensures LastSetting(fs, n).Some? ==>
              exists f: Field :: f in fs && IsKnown(f) && f.number == n && LastSetting(fs, n).value == Canonical(f)
    ensures LastSetting(fs, n).None? ==> forall f: Field :: f in fs ==> !(IsKnown(f) && f.number == n)
  {
    if fs != [] {
      LastSettingMember(fs[1..], n);
      assert fs == [fs[0]] + fs[1..];
    }
  }

  lemma {:induction false} KnownHaveNoStrays(fs: seq<Field>)
    requires AllKnown(fs)
    ensures Strays(fs) == []
  {
    if fs != [] {
      KnownHaveNoStrays(fs[1..]);
    }
  }

  lemma SameMembersLastSetting(fs: seq<Field>, gs: seq<Field>, n: Known)
    requires (forall f: Field :: f in fs <==> f in gs) && Distinct(fs)
    ensures LastSetting(fs, n) == LastSetting(gs, n)
  {
    LastSettingMember(fs, n);
    LastSettingMember(gs, n);
  }

  lemma SameMembersSameSettings(fs: seq<Field>, gs: seq<Field>)
    requires (forall f: Field :: f in fs <==> f in gs) && Distinct(fs) && AllKnown(fs)
    ensures SameSettings(fs, gs)
  {
    forall i | 0 <= i < |gs| ensures IsKnown(gs[i]) {
      assert gs[i] in fs;
    }
    forall n: Known {
      SameMembersLastSetting(fs, gs, n);
    }
    KnownHaveNoStrays(fs);
    KnownHaveNoStrays(gs);
  }

  /** Byte strings one after the other. */
  function Join(xs: seq<Bytes>): Bytes {
    if xs == [] then [] else xs[0] + Join(xs[1..])
  }

  predicate AllOneRecord(xs: seq<Bytes>) {
    forall i :: 0 <= i < |xs| ==> OneRecord(xs[i])
  }

  function RecordsOf(xs: seq<Bytes>): (fs: seq<Field>)
    requires AllOneRecord(xs)
    ensures |fs| == |xs| && forall i :: 0 <= i < |xs| ==> fs[i] == ReadRecord(xs[i]).value
  {
    seq(|xs|, i requires 0 <= i < |xs| => ReadRecord(xs[i]).value)
  }

  lemma {:induction false} DecodeJoin(m: Msg, xs: seq<Bytes>, rest: Bytes)
    requires AllOneRecord(xs)
    ensures Decode(m, Join(xs) + rest) == After(|Join(xs)|, Decode(ApplyAll(m, RecordsOf(xs)), rest))
    decreases xs
  {
    if xs == [] {
      assert Join(xs) + rest == rest;
    } else {
      assert Join(xs) + rest == xs[0] + (Join(xs[1..]) + rest);
      DecodeOneRecord(m, xs[0], Join(xs[1..]) + rest);
      DecodeJoin(Apply(m, ReadRecord(xs[0]).value), xs[1..], rest);
      assert RecordsOf(xs)[1..] == RecordsOf(xs[1..]);
    }
  }

  lemma {:induction false} JoinAppend(xs: seq<Bytes>, ys: seq<Bytes>)
    ensures |Join(xs + ys)| == |Join(xs)| + |Join(ys)|
  {
    if xs == [] {
      assert xs + ys == ys;
    } else {
      assert (xs + ys)[1..] == xs[1..] + ys;
      JoinAppend(xs[1..], ys);
    }
  }

  lemma MultisetWithout(xs: seq<Bytes>, j: nat)
    requires j < |xs|
    ensures multiset(xs[..j] + xs[j + 1..]) == multiset(xs) - multiset{xs[j]}
  {
    assert xs == xs[..j] + [xs[j]] + xs[j + 1..];
  }

  lemma {:induction false} JoinLength(xs: seq<Bytes>, ys: seq<Bytes>)
    requires multiset(xs) == multiset(ys)
    ensures |Join(xs)| == |Join(ys)|
  {
    if xs == [] {
      assert |ys| == |multiset(ys)| == 0;
    } else {
      assert xs[0] in multiset(ys);
      var j :| 0 <= j < |ys| && ys[j] == xs[0];
      var left, right := ys[..j], ys[j + 1..];
      assert ys == left + ([ys[j]] + right);
      MultisetWithout(xs, 0);
      MultisetWithout(ys, j);
      assert xs[..0] + xs[1..] == xs[1..];
      JoinLength(xs[1..], left + right);
      JoinAppend(left, right);
      JoinAppend(left, [ys[j]] + right);
      assert ([ys[j]] + right)[1..] == right;
    }
  }

  lemma SameMembers(xs: seq<Bytes>, ys: seq<Bytes>)
    requires multiset(xs) == multiset(ys) && AllOneRecord(xs)
    ensures AllOneRecord(ys) && forall f: Field :: f in RecordsOf(ys) ==> f in RecordsOf(xs)
  {
    forall j | 0 <= j < |ys| ensures exists i :: 0 <= i < |xs| && xs[i] == ys[j] {
      assert ys[j] in multiset(ys);
      assert ys[j] in xs;
    }
    if AllOneRecord(ys) {
      forall f: Field | f in RecordsOf(ys) ensures f in RecordsOf(xs) {
        var j :| 0 <= j < |ys| && RecordsOf(ys)[j] == f;
        var i :| 0 <= i < |xs| && xs[i] == ys[j];
        assert RecordsOf(xs)[i] == f;
      }
    }
  }

  /** Order independence: known records with distinct field numbers, however they are
      written, have the same effect on a decode in every order. */
  lemma PermutationsAgree(m: Msg, xs: seq<Bytes>, ys: seq<Bytes>, rest: Bytes)
    requires multiset(xs) == multiset(ys) && AllOneRecord(xs)
    requires Distinct(RecordsOf(xs)) && AllKnown(RecordsOf(xs))
    ensures Decode(m, Join(xs) + rest) == Decode(m, Join(ys) + rest)
  {
    SameMembers(xs, ys);
    SameMembers(ys, xs);
    SameMembersSameSettings(RecordsOf(xs), RecordsOf(ys));
    SameSettingsSameEffect(m, RecordsOf(xs), RecordsOf(ys));
    DecodeJoin(m, xs, rest);
    DecodeJoin(m, ys, rest);
    JoinLength(xs, ys);
  }

  lemma HeadSetting(fs: seq<Field>)
    requires fs != [] && Ascending(fs) && AllKnown(fs) && Canonical(fs[0]) == fs[0]
    ensures LastSetting(fs, fs[0].number) == Some(fs[0])
  {
    LastSettingMember(fs[1..], fs[0].number);
  }

  lemma TailSetting(fs: seq<Field>, n: Known)
    requires fs != [] && fs[0].number != n
    ensures LastSetting(fs, n) == LastSetting(fs[1..], n)
  {
  }

  lemma NoSetting(fs: seq<Field>, n: Known)
    requires forall i :: 0 <= i < |fs| ==> fs[i].number != n
    ensures LastSetting(fs, n) == None
  {
    LastSettingMember(fs, n);
  }

  /** fs are the shortest forms of the fields of m from number k on, ascending. */
  predicate Lists(m: Msg, k: nat, fs: seq<Field>) {
    && Ascending(fs) && AllKnown(fs)
    && (forall i :: 0 <= i < |fs| ==> k <= fs[i].number <= 7 && Canonical(fs[i]) == fs[i])
    && (forall n: Known :: k <= n ==> Get(m, n) == LastSetting(fs, n))
  }

  lemma ListsPresent(m: Msg, k: Known, fs: seq<Field>)
    requires Lists(m, k, fs) && fs != [] && fs[0].number == k
    ensures Get(m, k) == Some(fs[0]) && Lists(m, k + 1, fs[1..])
  {
    HeadSetting(fs);
    forall n: Known | k < n ensures Get(m, n) == LastSetting(fs[1..], n) {
      TailSetting(fs, n);
    }
  }

  lemma ListsAbsent(m: Msg, k: Known, fs: seq<Field>)
    requires Lists(m, k, fs) && (fs == [] || fs[0].number != k)
    ensures Get(m, k) == None && Lists(m, k + 1, fs)
  {
    NoSetting(fs, k);
  }

  lemma WrittenPresent(m: Msg, k: Known, fs: seq<Field>)
    requires fs != [] && Get(m, k) == Some(fs[0]) && KnownFrom(m, k + 1) == fs[1..]
    ensures KnownFrom(m, k) == fs
  {
    assert fs == [fs[0]] + fs[1..];
  }

  lemma WrittenAbsent(m: Msg, k: Known)
    requires Get(m, k) == None
    ensures KnownFrom(m, k) == KnownFrom(m, k + 1)
  {
  }

  /** Known records in ascending order are written again as they are. */
  lemma {:induction false} AscendingIsCanonical(m: Msg, k: nat, fs: seq<Field>)
    requires 1 <= k <= 8 && Lists(m, k, fs)
    ensures KnownFrom(m, k) == fs
    decreases 8 - k
  {
    if k < 8 {
      if fs != [] && fs[0].number == k {
        ListsPresent(m, k, fs);
        AscendingIsCanonical(m, k + 1, fs[1..]);
        WrittenPresent(m, k, fs);
      } else {
        ListsAbsent(m, k, fs);
        AscendingIsCanonical(m, k + 1, fs);
        WrittenAbsent(m, k);
      }
    }
  }

  lemma {:induction false} KnownFromIgnoresUnknown(m: Msg, k: nat, us: seq<Field>)
    requires 1 <= k <= 8
    ensures KnownFrom(m.(unknown := us), k) == KnownFrom(m, k)
    decreases 8 - k
  {
    if k < 8 {
      KnownFromIgnoresUnknown(m, k + 1, us);
      assert Get(m.(unknown := us), k) == Get(m, k);
    }
  }

  lemma AscendingAlone(fs: seq<Field>)
    requires Ascending(fs) && AllKnown(fs) && forall i :: 0 <= i < |fs| ==> Canonical(fs[i]) == fs[i]
    ensures var m := ApplyAll(EMPTY, fs); KnownRecords(m) == fs && m.unknown == []
  {
    KnownHaveNoStrays(fs);
    forall n: Known ensures Get(ApplyAll(EMPTY, fs), n) == LastSetting(fs, n) {
      EffectOnEmpty(fs, n);
    }
    EffectOnEmpty(fs, 1);
    AscendingIsCanonical(ApplyAll(EMPTY, fs), 1, fs);
  }

  lemma StraysAfter(m: Msg, fs: seq<Field>, us: seq<Field>)
    requires KnownRecords(m) == fs && m.unknown == [] && AllNormalUnknown(us)
    ensures Records(ApplyAll(m, us)) == fs + us
  {
    ApplyUnknownRecords(m, us);
    assert m.unknown + us == us;
    KnownFromIgnoresUnknown(m, 1, us);
  }

  /** Ascending known records and then normal unknown ones are written again as they are. */
  lemma AscendingAndStrays(fs: seq<Field>, us: seq<Field>)
    requires Ascending(fs) && AllKnown(fs) && AllNormalUnknown(us)
    requires forall i :: 0 <= i < |fs| ==> Canonical(fs[i]) == fs[i]
    ensures Records(ApplyAll(EMPTY, fs + us)) == fs + us
  {
    AscendingAlone(fs);
    ApplyAllAppend(EMPTY, fs, us);
    StraysAfter(ApplyAll(EMPTY, fs), fs, us);
  }

  lemma CanonicalAgain(f: Field)
    ensures Canonical(Canonical(f)) == Canonical(f) && Canonical(f).number == f.number
    ensures IsKnown(Canonical(f)) == IsKnown(f)
  {
    if f.Varint? {
      SignExtendInverse(ToInt32(f.varint));
    }
  }

  function Canonicals(fs: seq<Field>): (cs: seq<Field>)
    ensures |cs| == |fs| && forall i :: 0 <= i < |fs| ==> cs[i] == Canonical(fs[i])
  {
    seq(|fs|, i requires 0 <= i < |fs| => Canonical(fs[i]))
  }

  lemma {:induction false} CanonicalsSetAlike(fs: seq<Field>, n: Known)
    ensures LastSetting(Canonicals(fs), n) == LastSetting(fs, n)
  {
    if fs != [] {
      CanonicalAgain(fs[0]);
      assert Canonicals(fs)[1..] == Canonicals(fs[1..]);
      CanonicalsSetAlike(fs[1..], n);
    }
  }

  /** Field order on the wire: an input whose records all set fields, each its own, in any
      order and however written, builds a message that is written as these records in
      their shortest form and in ascending field order. */
  lemma AnyOrderOneEncoding(x: Bytes, sorted: seq<Field>)
    requires AllKnown(ReadRecords(x)) && Ascending(sorted)
    requires multiset(Canonicals(ReadRecords(x))) == multiset(sorted)
    ensures Encode(Decode(EMPTY, x).msg) == EncodeFields(sorted)
  {
    var fs := ReadRecords(x);
    forall f: Field ensures f in sorted <==> f in Canonicals(fs) {
      assert f in multiset(sorted) <==> f in multiset(Canonicals(fs));
    }
    forall i | 0 <= i < |sorted| ensures IsKnown(sorted[i]) && Canonical(sorted[i]) == sorted[i] {
      assert sorted[i] in Canonicals(fs);
      var j :| 0 <= j < |fs| && Canonical(fs[j]) == sorted[i];
      CanonicalAgain(fs[j]);
    }
    SettledBySorted(fs, sorted);
    DecodeAppliesRecords(EMPTY, x);
    SameSettingsSameEffect(EMPTY, fs, sorted);
    AscendingAndStrays(sorted, []);
    assert sorted + [] == sorted;
    EncodeRecords(ApplyAll(EMPTY, sorted));
  }

  lemma SettledBySorted(fs: seq<Field>, sorted: seq<Field>)
    requires AllKnown(fs) && AllKnown(sorted) && Ascending(sorted)
    requires forall f: Field :: f in sorted <==> f in Canonicals(fs)
    ensures SameSettings(fs, sorted)
  {
    forall n: Known ensures LastSetting(fs, n) == LastSetting(sorted, n) {
      SameMembersLastSetting(sorted, Canonicals(fs), n);
      CanonicalsSetAlike(fs, n);
    }
    KnownHaveNoStrays(fs);
    KnownHaveNoStrays(sorted);
  }

  // ----------------------------------------- serializations in a row, written as one

  /** The known records of a normal message: known, canonical, ascending. */
  lemma {:induction false} KnownRecordsAscend(m: Msg, k: nat)
    requires 1 <= k <= 8 && Normal(m)
    ensures FieldsFrom(KnownFrom(m, k), k)
    decreases 8 - k
  {
    if k < 8 {
      KnownRecordsAscend(m, k + 1);
      AscendStep(m, k, KnownFrom(m, k + 1));
    }
  }

  /** Records of fields from number k on, ascending, in their shortest form. */
  predicate FieldsFrom(fs: seq<Field>, k: nat) {
    && Ascending(fs) && AllKnown(fs)
    && forall i :: 0 <= i < |fs| ==> k <= fs[i].number <= 7 && Canonical(fs[i]) == fs[i]
  }

  lemma AscendStep(m: Msg, k: Known, rest: seq<Field>)
    requires Normal(m) && rest == KnownFrom(m, k + 1) && FieldsFrom(rest, k + 1)
    ensures FieldsFrom(KnownFrom(m, k), k)
  {
    if Get(m, k).Some? {
      GetKnown(m, k);
      OneAhead(k, Get(m, k).value, rest);
      assert KnownFrom(m, k) == [Get(m, k).value] + rest;
    } else {
      WrittenAbsent(m, k);
    }
  }

  lemma OneAhead(k: Known, f: Field, rest: seq<Field>)
    requires f.number == k && IsKnown(f) && Canonical(f) == f && FieldsFrom(rest, k + 1)
    ensures FieldsFrom([f] + rest, k)
  {
  }

  /** Every record of b may stand behind those of a: fields in ascending order, and no
      field behind an unknown record. */
  predicate InOrder(a: Msg, b: Msg) {
    && (forall i: Known, j: Known :: Get(a, i).Some? && Get(b, j).Some? ==> i < j)
    && (a.unknown == [] || forall j: Known :: Get(b, j).None?)
  }

  lemma {:induction false} KnownFromHolds(m: Msg, k: nat, n: Known)
    requires 1 <= k <= n && Get(m, n).Some?
    ensures Get(m, n).value in KnownFrom(m, k)
    decreases n - k
  {
    if k < n {
      KnownFromHolds(m, k + 1, n);
    }
  }

  lemma {:induction false} KnownFromOnly(m: Msg, k: nat, f: Field)
    requires 1 <= k <= 8 && Normal(m) && f in KnownFrom(m, k)
    ensures k <= f.number <= 7 && Get(m, f.number) == Some(f)
    decreases 8 - k
  {
    if k < 8 {
      if Get(m, k).Some? {
        GetKnown(m, k);
      }
      if f in KnownFrom(m, k + 1) {
        KnownFromOnly(m, k + 1, f);
      }
    }
  }

  lemma Regroup(k: seq<Field>, u: seq<Field>, l: seq<Field>, v: seq<Field>)
    requires u == [] || l == []
    ensures (k + u) + (l + v) == (k + l) + (u + v)
  {
  }

  lemma AppendAscending(fs: seq<Field>, gs: seq<Field>)
    requires Ascending(fs) && Ascending(gs)
    requires forall i, j :: 0 <= i < |fs| && 0 <= j < |gs| ==> fs[i].number < gs[j].number
    ensures Ascending(fs + gs)
  {
  }

  lemma InOrderAcross(a: Msg, b: Msg, f: Field, g: Field)
    requires Normal(a) && Normal(b) && InOrder(a, b)
    requires f in KnownRecords(a) && g in KnownRecords(b)
    ensures f.number < g.number
  {
    KnownFromOnly(a, 1, f);
    KnownFromOnly(b, 1, g);
  }

  lemma InOrderUnknown(a: Msg, b: Msg)
    requires Normal(a) && Normal(b) && InOrder(a, b)
    ensures a.unknown == [] || KnownRecords(b) == []
  {
    if KnownRecords(b) != [] {
      KnownFromOnly(b, 1, KnownRecords(b)[0]);
    }
  }

  lemma InOrderAscends(a: Msg, b: Msg, fs: seq<Field>, gs: seq<Field>)
    requires Normal(a) && Normal(b) && InOrder(a, b) && fs == KnownRecords(a) && gs == KnownRecords(b)
    ensures Ascending(fs + gs) && AllKnown(fs + gs)
    ensures forall i :: 0 <= i < |fs + gs| ==> Canonical((fs + gs)[i]) == (fs + gs)[i]
  {
    KnownRecordsAscend(a, 1);
    KnownRecordsAscend(b, 1);
    forall i, j | 0 <= i < |fs| && 0 <= j < |gs| ensures fs[i].number < gs[j].number {
      InOrderAcross(a, b, fs[i], gs[j]);
    }
    AppendAscending(fs, gs);
  }

  lemma InOrderJoins(a: Msg, b: Msg)
    requires Normal(a) && Normal(b) && InOrder(a, b)
    ensures Records(Merge(a, b)) == Records(a) + Records(b)
  {
    InOrderAscends(a, b, KnownRecords(a), KnownRecords(b));
    InOrderUnknown(a, b);
    Regroup(KnownRecords(a), a.unknown, KnownRecords(b), b.unknown);
    AscendingAndStrays(KnownRecords(a) + KnownRecords(b), a.unknown + b.unknown);
    MergedByRecords(a, b);
  }

  lemma MergedByRecords(a: Msg, b: Msg)
    requires Normal(a) && Normal(b)
    ensures ApplyAll(EMPTY, Records(a) + Records(b)) == Merge(a, b)
  {
    ApplyAllAppend(EMPTY, Records(a), Records(b));
    ApplyRecords(a, EMPTY);
    MergeIdentity(a);
    ApplyRecords(b, a);
  }

  lemma KnownComeFirst(m: Msg, q: nat)
    requires Normal(m) && q < |Records(m)|
    ensures IsKnown(Records(m)[q]) <==> q < |KnownRecords(m)|
  {
    KnownRecordsAscend(m, 1);
    if |KnownRecords(m)| <= q {
      assert NormalUnknown(m.unknown[q - |KnownRecords(m)|]);
    }
  }

  /** In the records of a message a field's record stands behind smaller fields only. */
  lemma BehindFields(m: Msg, p: nat, q: nat)
    requires Normal(m) && p < q < |Records(m)| && IsKnown(Records(m)[q])
    ensures IsKnown(Records(m)[p]) && Records(m)[p].number < Records(m)[q].number
  {
    KnownComeFirst(m, q);
    KnownRecordsAscend(m, 1);
  }

  /** The place of a field's record among the records. */
  lemma PlaceOf(m: Msg, n: Known) returns (p: nat)
    requires Normal(m) && Get(m, n).Some?
    ensures p < |KnownRecords(m)| && IsKnown(Records(m)[p]) && Records(m)[p].number == n
  {
    KnownFromHolds(m, 1, n);
    GetKnown(m, n);
    p :| 0 <= p < |KnownRecords(m)| && KnownRecords(m)[p] == Get(m, n).value;
  }

  lemma JoinedInOrder(a: Msg, b: Msg)
    requires Normal(a) && Normal(b) && Records(Merge(a, b)) == Records(a) + Records(b)
    ensures InOrder(a, b)
  {
    MergeNormal(a, b);
    forall j: Known | Get(b, j).Some?
      ensures a.unknown == [] && forall i: Known :: Get(a, i).Some? ==> i < j
    {
      var q := PlaceOf(b, j);
      if a.unknown != [] {
        KnownComeFirst(a, |KnownRecords(a)|);
        BehindFields(Merge(a, b), |KnownRecords(a)|, |Records(a)| + q);
        assert false;
      }
      forall i: Known | Get(a, i).Some? ensures i < j {
        var p := PlaceOf(a, i);
        BehindFields(Merge(a, b), p, |Records(a)| + q);
      }
    }
  }

  /** Two serializations in a row are the serialization of the merge if and only if every
      record of the second may stand behind those of the first. */
  lemma EncodingsJoin(a: Msg, b: Msg)
    requires Normal(a) && Short(a) && Normal(b) && Short(b)
    ensures Encode(a) + Encode(b) == Encode(Merge(a, b)) <==> InOrder(a, b)
  {
    var fs, gs := Records(a) + Records(b), Records(Merge(a, b));
    MergeNormal(a, b);
    EncodeRecords(a);
    EncodeRecords(b);
    EncodeRecords(Merge(a, b));
    EncodeFieldsAppend(Records(a), Records(b));
    RecordsWellFormed(a);
    RecordsWellFormed(b);
    RecordsWellFormed(Merge(a, b));
    AllWellFormedAppend(Records(a), Records(b));
    ReadRecordsInverse(fs);
    ReadRecordsInverse(gs);
    assert EncodeFields(fs) == EncodeFields(gs) <==> fs == gs;
    if InOrder(a, b) {
      InOrderJoins(a, b);
    } else if fs == gs {
      JoinedInOrder(a, b);
    }
  }
}
