/** An accepted add operation, applied to a stored template. */
module TftAdding {
  import opened PacketFilters
  import opened TftRules
  import opened TftIndices
  import opened TftStores
  import opened TftChecks
  import opened TftUpdates

  /** The slots after each new filter took the first free one. */
  ghost function Placed(slots: seq<PacketFilter>, fs: seq<PacketFilter>): (r: seq<PacketFilter>)
    ensures |r| == |slots|
  {
    if fs == [] then slots
    else
      var r := Placed(slots, fs[..|fs| - 1]);
      var i := FirstFreeFrom(r, 0);
      if i == |r| then r else r[i := fs[|fs| - 1]]
  }

  lemma FilledLiveSet(slots: seq<PacketFilter>, i: nat, f: PacketFilter)
    requires i < |slots| && !Live(slots[i]) && Live(f)
    ensures LiveSet(slots[i := f]) == LiveSet(slots) + {f}
  {
    var s := slots[i := f];
    assert s[i] == f;
    assert forall j :: 0 <= j < |slots| && Live(slots[j]) ==> s[j] == slots[j];
  }

  lemma AppendedLiveSet(fs: seq<PacketFilter>, gs: seq<PacketFilter>)
    ensures LiveSet(fs + gs) == LiveSet(fs) + LiveSet(gs)
  {
    var all := fs + gs;
    assert forall i :: 0 <= i < |fs| ==> all[i] == fs[i];
    assert forall i :: 0 <= i < |gs| ==> all[|fs| + i] == gs[i];
  }

  /** Which identifiers and precedences are in use depends on the filters alone. */
  lemma SameFiltersHave(a: seq<PacketFilter>, b: seq<PacketFilter>, v: int)
    requires LiveSet(a) == LiveSet(b)
    ensures HasId(a, v) <==> HasId(b, v)
    ensures HasPrec(a, v) <==> HasPrec(b, v)
  {
    assert forall i :: 0 <= i < |a| && Live(a[i]) ==> a[i] in LiveSet(b);
    assert forall i :: 0 <= i < |b| && Live(b[i]) ==> b[i] in LiveSet(a);
  }

  lemma SomeSlotFree(slots: seq<PacketFilter>)
    requires LiveCount(slots) < |slots|
    ensures FirstFreeFrom(slots, 0) < |slots|
  {
  }

  lemma FilledGood(slots: seq<PacketFilter>, i: nat, f: PacketFilter)
    requires GoodSlots(slots) && i < |slots| && !Live(slots[i]) && Live(f)
    requires !HasId(slots, f.identifier) && !HasPrec(slots, f.precedence)
    ensures GoodSlots(slots[i := f])
  {
  }

  /** Placing distinct new filters keeps the slots good and adds exactly those filters. */
  lemma {:induction false} PlacedGood(slots: seq<PacketFilter>, fs: seq<PacketFilter>)
    requires GoodSlots(slots) && AllLive(fs) && Distinct(slots + fs)
    ensures GoodSlots(Placed(slots, fs))
    ensures LiveSet(Placed(slots, fs)) == LiveSet(slots + fs)
    ensures LiveCount(Placed(slots, fs)) == LiveCount(slots) + |fs| <= MAX_FILTERS
  {
    CountBound(slots, fs);
    if fs == [] {
      assert slots + fs == slots;
    } else {
      var last := |fs| - 1;
      var init, f := fs[..last], fs[last];
      InitDistinct(slots, fs);
      PlacedGood(slots, init);
      var r := Placed(slots, init);
      SomeSlotFree(r);
      var i := FirstFreeFrom(r, 0);
      LastIsNew(slots, fs);
      SameFiltersHave(r, slots + init, f.identifier);
      SameFiltersHave(r, slots + init, f.precedence);
      FilledGood(r, i, f);
      FilledLiveSet(r, i, f);
      UpdatedCount(r, i, f);
      assert slots + fs == slots + init + [f];
      AppendedLiveSet(slots + init, [f]);
      assert LiveSet([f]) == {f} by {
        assert [f][0] == f;
      }
    }
  }

  lemma CountBound(slots: seq<PacketFilter>, fs: seq<PacketFilter>)
    requires AllLive(fs) && Distinct(slots + fs)
    ensures LiveCount(slots) + |fs| <= MAX_FILTERS
  {
    Pigeonhole(slots + fs);
    AppendedCount(slots, fs);
    AllLiveCount(fs);
  }

  lemma InitDistinct(slots: seq<PacketFilter>, fs: seq<PacketFilter>)
    requires fs != [] && AllLive(fs) && Distinct(slots + fs)
    ensures AllLive(fs[..|fs| - 1]) && Distinct(slots + fs[..|fs| - 1])
  {
    var some, all := slots + fs[..|fs| - 1], slots + fs;
    assert forall i :: 0 <= i < |some| ==> some[i] == all[i];
  }

  lemma LastIsNew(slots: seq<PacketFilter>, fs: seq<PacketFilter>)
    requires fs != [] && AllLive(fs) && Distinct(slots + fs)
    ensures !HasId(slots + fs[..|fs| - 1], fs[|fs| - 1].identifier)
    ensures !HasPrec(slots + fs[..|fs| - 1], fs[|fs| - 1].precedence)
  {
    var some, all := slots + fs[..|fs| - 1], slots + fs;
    assert all[|some|] == fs[|fs| - 1];
    assert forall i :: 0 <= i < |some| ==> some[i] == all[i];
  }

  lemma AddOnePlaces(s: Store, f: PacketFilter, bits: Bitmap)
    requires GoodSlots(s.slots) && LiveCount(s.slots) < MAX_FILTERS
    requires s == Rebuilt(s.slots).(bits := s.bits)
    requires Live(f) && !HasPrec(s.slots, f.precedence)
    ensures var i := FirstFreeFrom(s.slots, 0);
      i < |s.slots| && AddOne(s, f, bits) == Done(Rebuilt(s.slots[i := f]).(bits := s.bits + bits))
  {
    SomeSlotFree(s.slots);
    var i := FirstFreeFrom(s.slots, 0);
    EnteredTableFor(s.slots, i, f);
    UpdatedCount(s.slots, i, f);
  }

  lemma {:induction false} AddAllPlaces(st: Store, fs: seq<PacketFilter>, bits: Bitmap)
    requires WellFormed(st) && AllLive(fs) && Distinct(st.slots + fs)
    ensures AddAll(st, fs, bits) ==
      Done(Rebuilt(Placed(st.slots, fs)).(bits := if fs == [] then st.bits else st.bits + bits))
  {
    WellFormedIsRebuilt(st);
    if fs != [] {
      var last := |fs| - 1;
      var init, f := fs[..last], fs[last];
      InitDistinct(st.slots, fs);
      AddAllPlaces(st, init, bits);
      PlacedGood(st.slots, init);
      CountBound(st.slots, fs);
      LastIsNew(st.slots, fs);
      SameFiltersHave(Placed(st.slots, init), st.slots + init, f.precedence);
      var s := AddAll(st, init, bits).st;
      AddOnePlaces(s, f, bits);
    }
  }

  ghost predicate AcceptedAdd(st: Store, m: Message) {
    m.opcode == OPCODE_ADD && |st.table| == TABLE_SIZE && VerifyCause(m, Some(st)) == Success
  }

  /** An accepted add never runs out of slots, never aborts, and adds exactly the new filters. */
  lemma AddApplies(st: Store, m: Message)
    requires WellFormed(st) && AcceptedAdd(st, m)
    ensures Finalize(st, m, IdBits(m.filters)) == Done(Rebuilt(Placed(st.slots, m.filters)))
    ensures WellFormed(Rebuilt(Placed(st.slots, m.filters)))
    ensures LiveSet(Placed(st.slots, m.filters)) == LiveSet(st.slots) + LiveSet(m.filters)
    ensures LiveCount(Placed(st.slots, m.filters)) == LiveCount(st.slots) + |m.filters| <= MAX_FILTERS
  {
    hide TableFor, GoodSlots, Distinct, AllLive;
    var fs, after := m.filters, Placed(st.slots, m.filters);
    CauseOnFilters(m, st);
    AddAccepted(st.slots, st.count, fs);
    WellFormedIsRebuilt(st);
    PlacedGood(st.slots, fs);
    AppendedLiveSet(st.slots, fs);
    AddAllPlaces(st, fs, IdBits(fs));
    forall k: nat ensures k in st.bits + IdBits(fs) <==> HasId(after, k - 1) {
      AppendedHas(st.slots, fs, k - 1);
      SameFiltersHave(after, st.slots + fs, k - 1);
      IdBitsAgree(fs, IdBits(fs));
      IdBitsAgree(st.slots, st.bits);
    }
    IdBitsAgree(after, st.bits + IdBits(fs));
    WellFormedIsRebuilt(Rebuilt(after));
  }
}
