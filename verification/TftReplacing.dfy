/** An accepted replace operation, applied to a stored template. */
module TftReplacing {
  import opened Octets
  import opened PacketFilters
  import opened TftRules
  import opened TftIndices
  import opened TftStores
  import opened TftChecks
  import opened TftUpdates

  /** The precedence table without the filters that the message replaces. */
  ghost function KeptTable(slots: seq<PacketFilter>, fs: seq<PacketFilter>): (table: seq<octet>)
    ensures |table| == TABLE_SIZE
  {
    seq(TABLE_SIZE, p requires 0 <= p < TABLE_SIZE =>
      if HasPrec(slots, p) && !HasId(fs, WithPrec(slots, p).identifier)
      then (WithPrec(slots, p).identifier + 1) as octet else 0)
  }

  lemma ReplacedMore(slots: seq<PacketFilter>, fs: seq<PacketFilter>, w: nat)
    requires fs != [] && AllLive(fs) && DistinctIds(fs) && DistinctIds(slots)
    requires w < |slots| && Live(slots[w]) && slots[w].identifier == fs[|fs| - 1].identifier
    ensures Replaced(slots, fs) == Replaced(slots, fs[..|fs| - 1])[w := fs[|fs| - 1]]
    ensures Replaced(slots, fs[..|fs| - 1])[w] == slots[w]
  {
  }

  lemma KeptTableMore(slots: seq<PacketFilter>, fs: seq<PacketFilter>, w: nat)
    requires fs != [] && AllLive(fs) && Distinct(slots)
    requires w < |slots| && Live(slots[w]) && slots[w].identifier == fs[|fs| - 1].identifier
    ensures KeptTable(slots, fs) == KeptTable(slots, fs[..|fs| - 1])[slots[w].precedence := 0]
  {
  }

  lemma NothingReplaced(slots: seq<PacketFilter>)
    ensures Replaced(slots, []) == slots && KeptTable(slots, []) == TableFor(slots)
  {
  }

  lemma ReplaceInit(slots: seq<PacketFilter>, fs: seq<PacketFilter>)
    requires fs != [] && AllLive(fs) && DistinctIds(fs) && AllKnown(slots, fs)
    ensures var init := fs[..|fs| - 1];
      AllLive(init) && DistinctIds(init) && AllKnown(slots, init) && (HasId(init, 0) ==> HasId(fs, 0))
    ensures HasId(slots, fs[|fs| - 1].identifier)
  {
  }

  lemma ReplaceOneReplaces(st: Store, slots: seq<PacketFilter>, fs: seq<PacketFilter>)
    requires GoodSlots(slots) && fs != [] && AllLive(fs) && DistinctIds(fs)
    requires HasId(slots, fs[|fs| - 1].identifier) && (fs[|fs| - 1].identifier == 0 ==> GapFree(slots, []))
    requires st.slots == Replaced(slots, fs[..|fs| - 1]) && st.table == KeptTable(slots, fs[..|fs| - 1])
    ensures ReplaceOne(st, fs[|fs| - 1]) == Done(st.(slots := Replaced(slots, fs), table := KeptTable(slots, fs)))
  {
    hide GapFree, TableFor, KeptTable;
    var f := fs[|fs| - 1];
    var w := WithId(slots, f.identifier);
    FindsTheFilter(slots, f.identifier);
    ReplacedKeepsIds(slots, fs[..|fs| - 1]);
    assert FindIdFrom(st.slots, f.identifier, 0) == w;
    ReplacedMore(slots, fs, w);
    KeptTableMore(slots, fs, w);
  }

  lemma {:induction false} ReplaceAllReplaces(st: Store, fs: seq<PacketFilter>)
    requires GoodSlots(st.slots) && st == Rebuilt(st.slots)
    requires AllLive(fs) && DistinctIds(fs) && AllKnown(st.slots, fs)
    requires HasId(fs, 0) ==> GapFree(st.slots, [])
    ensures ReplaceAll(st, fs) == Done(st.(slots := Replaced(st.slots, fs), table := KeptTable(st.slots, fs)))
  {
    hide GoodSlots, KeptTable, TableFor, AllKnown, GapFree, ReplaceOne, AllLive, DistinctIds;
    if fs == [] {
      NothingReplaced(st.slots);
    } else {
      var last := |fs| - 1;
      ReplaceInit(st.slots, fs);
      ReplaceAllReplaces(st, fs[..last]);
      if fs[last].identifier == 0 {
        LastNamesZero(fs);
      }
      ReplaceOneReplaces(ReplaceAll(st, fs[..last]).st, st.slots, fs);
    }
  }

  lemma LastNamesZero(fs: seq<PacketFilter>)
    requires fs != [] && AllLive(fs) && fs[|fs| - 1].identifier == 0
    ensures HasId(fs, 0)
  {
  }

  lemma {:induction false} EnterAllEnters(st: Store, fs: seq<PacketFilter>)
    requires |st.table| == TABLE_SIZE && AllLive(fs) && DistinctPrecs(fs)
    requires forall i :: 0 <= i < |fs| ==> st.table[fs[i].precedence] == 0
    ensures EnterAll(st, fs).Done?
    ensures forall i :: 0 <= i < |fs| ==> EnterAll(st, fs).st.table[fs[i].precedence] == fs[i].identifier + 1
    ensures forall p :: 0 <= p < TABLE_SIZE && !HasPrec(fs, p) ==> EnterAll(st, fs).st.table[p] == st.table[p]
  {
    hide EnterAll, AllLive, DistinctPrecs, HasPrec;
    EnterNothing(st);
    if fs != [] {
      var last := |fs| - 1;
      var init, f := fs[..last], fs[last];
      DistinctInit(fs);
      EnterAllEnters(st, init);
      EnterStep(st, fs);
      forall p | 0 <= p < TABLE_SIZE && !HasPrec(fs, p) ensures !HasPrec(init, p) && p != f.precedence {
        InitHasPrec(fs, p);
      }
    }
  }

  lemma EnterNothing(st: Store)
    requires |st.table| == TABLE_SIZE
    ensures EnterAll(st, []) == Done(st)
  {
  }

  lemma EnterStep(st: Store, fs: seq<PacketFilter>)
    requires |st.table| == TABLE_SIZE && fs != [] && EnterAll(st, fs[..|fs| - 1]).Done?
    ensures var s, f := EnterAll(st, fs[..|fs| - 1]).st, fs[|fs| - 1];
      EnterAll(st, fs) ==
        if s.table[f.precedence] != 0 then Aborted else Done(s.(table := s.table[f.precedence := f.identifier + 1]))
  {
  }

  lemma DistinctInit(fs: seq<PacketFilter>)
    requires fs != [] && AllLive(fs) && DistinctPrecs(fs)
    ensures var init, f := fs[..|fs| - 1], fs[|fs| - 1];
      && AllLive(init) && Live(f) && DistinctPrecs(init) && !HasPrec(init, f.precedence)
      && forall i :: 0 <= i < |init| ==> init[i] == fs[i] && init[i].precedence != f.precedence
  {
    var last := |fs| - 1;
    assert forall i :: 0 <= i < last ==> fs[..last][i] == fs[i];
  }

  ghost predicate AcceptedReplace(st: Store, m: Message) {
    m.opcode == OPCODE_REPLACE && |st.table| == TABLE_SIZE && VerifyCause(m, Some(st)) == Success
  }

  /** What acceptance of a replace operation provides. */
  lemma ReplaceFacts(st: Store, m: Message)
    requires WellFormed(st) && AcceptedReplace(st, m)
    ensures AllLive(m.filters) && Distinct(m.filters) && AllKnown(st.slots, m.filters)
    ensures !TakesKeptPrecedence(st.slots, m.filters)
    ensures GoodSlots(Replaced(st.slots, m.filters))
  {
    CauseOnFilters(m, st);
    ReplaceAccepted(st.slots, m.filters);
    NewPrecsDistinct(st.slots, m.filters);
    NoneTakesKept(st.slots, m.filters);
    ReplacedKeepsIds(st.slots, m.filters);
  }

  lemma NewTableAgrees(slots: seq<PacketFilter>, fs: seq<PacketFilter>, table: seq<octet>)
    requires Distinct(slots) && AllLive(fs) && Distinct(fs) && AllKnown(slots, fs)
    requires !TakesKeptPrecedence(slots, fs)
    requires |table| == TABLE_SIZE
    requires forall i :: 0 <= i < |fs| ==> table[fs[i].precedence] == fs[i].identifier + 1
    requires forall p :: 0 <= p < TABLE_SIZE && !HasPrec(fs, p) ==> table[p] == KeptTable(slots, fs)[p]
    ensures TableAgrees(Replaced(slots, fs), table)
  {
    var r := Replaced(slots, fs);
    forall a | 0 <= a < |r| && Live(r[a]) ensures table[r[a].precedence] == BitOf(r[a]) {
      if !HasId(fs, slots[a].identifier) {
        assert !HasPrec(fs, slots[a].precedence);
        assert HasPrec(slots, slots[a].precedence);
      }
    }
    forall p | 0 <= p < TABLE_SIZE && table[p] != 0 ensures HasPrec(r, p) {
      if HasPrec(fs, p) {
        var i :| 0 <= i < |fs| && Live(fs[i]) && fs[i].precedence == p;
        var a := PlaceOf(slots, fs, i);
      } else {
        var f := WithPrec(slots, p);
        var a :| 0 <= a < |slots| && slots[a] == f;
        assert r[a] == slots[a];
      }
    }
  }

  lemma NewPrecsFree(slots: seq<PacketFilter>, fs: seq<PacketFilter>)
    requires AllLive(fs) && !TakesKeptPrecedence(slots, fs)
    ensures forall i :: 0 <= i < |fs| ==> KeptTable(slots, fs)[fs[i].precedence] == 0
  {
  }

  lemma {:induction false} SameLiveCount(a: seq<PacketFilter>, b: seq<PacketFilter>)
    requires |a| == |b| && forall i :: 0 <= i < |a| ==> (Live(a[i]) <==> Live(b[i]))
    ensures LiveCount(a) == LiveCount(b)
  {
    if a != [] {
      SameLiveCount(a[..|a| - 1], b[..|b| - 1]);
    }
  }

  lemma ReplacedStore(st: Store, fs: seq<PacketFilter>)
    requires WellFormed(st) && AllLive(fs)
    ensures Rebuilt(Replaced(st.slots, fs)) ==
      st.(slots := Replaced(st.slots, fs), table := TableFor(Replaced(st.slots, fs)))
  {
    ReplacedKeepsIds(st.slots, fs);
    SameLiveCount(st.slots, Replaced(st.slots, fs));
    forall v ensures HasId(Replaced(st.slots, fs), v) <==> HasId(st.slots, v) {
    }
    IdBitsAgree(Replaced(st.slots, fs), st.bits);
  }

  lemma ReplaceApplies(st: Store, m: Message, bits: Bitmap)
    requires WellFormed(st) && AcceptedReplace(st, m)
    requires HasId(m.filters, 0) ==> GapFree(st.slots, [])
    ensures Finalize(st, m, bits) == Done(Rebuilt(Replaced(st.slots, m.filters)))
    ensures WellFormed(Rebuilt(Replaced(st.slots, m.filters)))
  {
    var fs, r := m.filters, Replaced(st.slots, m.filters);
    ReplaceFacts(st, m);
    WellFormedIsRebuilt(st);
    ReplaceAllReplaces(st, fs);
    NewPrecsFree(st.slots, fs);
    var s := ReplaceAll(st, fs).st;
    EnterAllEnters(s, fs);
    NewTableAgrees(st.slots, fs, EnterAll(s, fs).st.table);
    TableForAgrees(r, EnterAll(s, fs).st.table);
    ReplacedStore(st, fs);
    WellFormedIsRebuilt(Rebuilt(r));
  }

  /** Replacing never moves an identifier, and whatever slot the look-up meets ends up in use. */
  lemma {:induction false} ReplaceAllKeepsIds(st: Store, fs: seq<PacketFilter>)
    requires |st.table| == TABLE_SIZE && AllLive(fs) && ReplaceAll(st, fs).Done?
    ensures var s := ReplaceAll(st, fs).st.slots;
      && (forall j :: 0 <= j < |s| ==> s[j].identifier == st.slots[j].identifier)
      && (forall j :: 0 <= j < |s| && Live(st.slots[j]) ==> Live(s[j]))
      && (forall i :: 0 <= i < |fs| ==>
            FindIdFrom(st.slots, fs[i].identifier, 0) < |s| && Live(s[FindIdFrom(st.slots, fs[i].identifier, 0)]))
  {
    if fs != [] {
      var last := |fs| - 1;
      var init, f := fs[..last], fs[last];
      assert forall i :: 0 <= i < last ==> init[i] == fs[i];
      ReplaceAllKeepsIds(st, init);
      var s := ReplaceAll(st, init).st.slots;
      assert FindIdFrom(s, f.identifier, 0) == FindIdFrom(st.slots, f.identifier, 0);
    }
  }

  lemma ReplaceMisses(st: Store, m: Message, bits: Bitmap)
    requires WellFormed(st) && AcceptedReplace(st, m)
    requires HasId(m.filters, 0) && !GapFree(st.slots, [])
    ensures Finalize(st, m, bits).Done? ==> !WellFormed(Finalize(st, m, bits).st)
  {
    ReplaceFacts(st, m);
    var i := WithId(m.filters, 0);
    if ReplaceAll(st, m.filters).Done? {
      assert HasId(st.slots, m.filters[i].identifier);
      FindsAGap(st.slots);
      ReplaceAllKeepsIds(st, m.filters);
      var z, w := FindIdFrom(st.slots, 0, 0), WithId(st.slots, 0);
      var s := ReplaceAll(st, m.filters).st.slots;
      assert Live(s[z]) && Live(s[w]) && s[z].identifier == s[w].identifier;
    }
  }

  /**
   * An accepted replace is applied as section 10.5.6.12 intends exactly when it leaves filter 0
   * alone or no free slot comes before filter 0. Otherwise it aborts or breaks the template.
   */
  lemma ReplaceAppliesExactly(st: Store, m: Message, bits: Bitmap)
    requires WellFormed(st) && AcceptedReplace(st, m)
    ensures (Finalize(st, m, bits) == Done(Rebuilt(Replaced(st.slots, m.filters)))) <==>
      (HasId(m.filters, 0) ==> GapFree(st.slots, []))
    ensures (Finalize(st, m, bits).Done? && WellFormed(Finalize(st, m, bits).st)) <==>
      (HasId(m.filters, 0) ==> GapFree(st.slots, []))
  {
    if HasId(m.filters, 0) && !GapFree(st.slots, []) {
      ReplaceMisses(st, m, bits);
      ReplaceFacts(st, m);
      WellFormedIsRebuilt(Rebuilt(Replaced(st.slots, m.filters)));
    } else {
      ReplaceApplies(st, m, bits);
    }
  }

  // ---------------------------------------------------------------------------
  // How a replacement that misses filter 0 ends

  /** The first pass clears entry p: it belongs to a replaced filter, or a free slot was taken for filter 0. */
  ghost predicate Vacated(slots: seq<PacketFilter>, fs: seq<PacketFilter>, p: int) {
    || (p == 0 && HasId(fs, 0))
    || (HasPrec(slots, p) && WithPrec(slots, p).identifier != 0 && HasId(fs, WithPrec(slots, p).identifier))
  }

  ghost function VacatedTable(slots: seq<PacketFilter>, fs: seq<PacketFilter>): (table: seq<octet>)
    ensures |table| == TABLE_SIZE
  {
    seq(TABLE_SIZE, p requires 0 <= p < TABLE_SIZE => if Vacated(slots, fs, p) then 0 else TableFor(slots)[p])
  }

  /** The entry cleared for the last filter of the message. */
  lemma VacatedMore(slots: seq<PacketFilter>, fs: seq<PacketFilter>, p: octet)
    requires fs != [] && AllLive(fs) && Distinct(slots)
    requires var f := fs[|fs| - 1];
      HasId(slots, f.identifier) && p == if f.identifier == 0 then 0 else slots[WithId(slots, f.identifier)].precedence
    ensures VacatedTable(slots, fs) == VacatedTable(slots, fs[..|fs| - 1])[p := 0]
  {
    hide Distinct, TableFor;
    var f := fs[|fs| - 1];
    forall q | 0 <= q < TABLE_SIZE
      ensures Vacated(slots, fs, q) <==> Vacated(slots, fs[..|fs| - 1], q) || q == p
    {
      InitHasId(fs, 0);
      if HasPrec(slots, q) {
        InitHasId(fs, WithPrec(slots, q).identifier);
        OneHolder(slots, q, f.identifier);
      }
    }
  }

  lemma OneHolder(slots: seq<PacketFilter>, p: int, id: int)
    requires Distinct(slots) && HasPrec(slots, p) && HasId(slots, id)
    ensures WithPrec(slots, p).identifier == id <==> slots[WithId(slots, id)].precedence == p
  {
    var i :| 0 <= i < |slots| && slots[i] == WithPrec(slots, p);
    var j := WithId(slots, id);
    assert i == j || i < j || j < i;
  }

  lemma {:induction false} ReplaceAllVacates(st: Store, fs: seq<PacketFilter>)
    requires GoodSlots(st.slots) && st.table == TableFor(st.slots)
    requires AllLive(fs) && DistinctIds(fs) && AllKnown(st.slots, fs)
    requires HasId(st.slots, 0) && !GapFree(st.slots, [])
    ensures var o := ReplaceAll(st, fs);
      && o.Done? && o.st.table == VacatedTable(st.slots, fs)
      && (forall j :: 0 <= j < |st.slots| ==> o.st.slots[j].identifier == st.slots[j].identifier)
      && (forall j :: 0 <= j < |st.slots| && !HasId(fs, st.slots[j].identifier) ==> o.st.slots[j] == st.slots[j])
  {
    hide GoodSlots, TableFor, VacatedTable, GapFree;
    if fs == [] {
      NothingVacated(st.slots);
    } else {
      var last := |fs| - 1;
      var init, f := fs[..last], fs[last];
      KnownInit(st.slots, fs);
      ReplaceAllVacates(st, init);
      var s := ReplaceAll(st, init).st;
      var i := FoundSlot(st.slots, f.identifier);
      assert FindIdFrom(s.slots, f.identifier, 0) == i;
      assert s.slots[i] == st.slots[i];
      GoodDistinct(st.slots);
      VacatedMore(st.slots, fs, st.slots[i].precedence);
      forall v { InitHasId(fs, v); }
    }
  }

  lemma GoodDistinct(slots: seq<PacketFilter>)
    requires GoodSlots(slots)
    ensures Distinct(slots)
  {
  }

  lemma NothingVacated(slots: seq<PacketFilter>)
    ensures VacatedTable(slots, []) == TableFor(slots)
  {
  }

  lemma KnownInit(slots: seq<PacketFilter>, fs: seq<PacketFilter>)
    requires fs != [] && AllLive(fs) && DistinctIds(fs) && AllKnown(slots, fs)
    ensures var init, f := fs[..|fs| - 1], fs[|fs| - 1];
      && AllLive(init) && DistinctIds(init) && AllKnown(slots, init)
      && HasId(slots, f.identifier) && !HasId(init, f.identifier)
  {
  }

  /** The slot that the look-up meets: the filter's own, but a free one for filter 0 behind a gap. */
  lemma FoundSlot(slots: seq<PacketFilter>, id: bits4) returns (i: nat)
    requires GoodSlots(slots) && HasId(slots, id) && HasId(slots, 0) && !GapFree(slots, [])
    ensures i < |slots| && i == FindIdFrom(slots, id, 0) && slots[i].identifier == id
    ensures slots[i].precedence == if id == 0 then 0 else slots[WithId(slots, id)].precedence
  {
    i := FindIdFrom(slots, id, 0);
    if id == 0 {
      FindsAGap(slots);
    } else {
      FindsTheFilter(slots, id);
    }
  }

  /** The second pass fails exactly when a new precedence is not free. */
  lemma {:induction false} EnterAllAborts(st: Store, fs: seq<PacketFilter>)
    requires |st.table| == TABLE_SIZE && AllLive(fs) && DistinctPrecs(fs)
    ensures EnterAll(st, fs).Aborted? <==> exists i :: 0 <= i < |fs| && st.table[fs[i].precedence] != 0
  {
    hide AllLive, DistinctPrecs, HasPrec;
    if fs != [] {
      DistinctInit(fs);
      EnterAllAborts(st, fs[..|fs| - 1]);
      if EnterAll(st, fs[..|fs| - 1]).Done? {
        EnterAllEnters(st, fs[..|fs| - 1]);
      }
    }
  }

  /**
   * A new filter takes the precedence of filter 0, which the message names but the look-up misses.
   * Precedence 0 is out: its entry is cleared along with the free slot.
   */
  ghost predicate Collides(slots: seq<PacketFilter>, fs: seq<PacketFilter>) {
    && HasId(fs, 0) && HasId(slots, 0) && !GapFree(slots, [])
    && slots[WithId(slots, 0)].precedence != 0 && HasPrec(fs, slots[WithId(slots, 0)].precedence)
  }

  lemma VacatedTaken(slots: seq<PacketFilter>, fs: seq<PacketFilter>)
    requires Distinct(slots) && AllLive(fs) && !TakesKeptPrecedence(slots, fs)
    requires HasId(fs, 0) && HasId(slots, 0) && !GapFree(slots, [])
    ensures (exists i :: 0 <= i < |fs| && VacatedTable(slots, fs)[fs[i].precedence] != 0) <==> Collides(slots, fs)
  {
    hide GapFree, Distinct;
    var zero := slots[WithId(slots, 0)];
    forall i | 0 <= i < |fs|
      ensures VacatedTable(slots, fs)[fs[i].precedence] != 0 <==> fs[i].precedence == zero.precedence != 0
    {
      var p := fs[i].precedence;
      if HasPrec(slots, p) {
        OneHolder(slots, p, 0);
        var j :| 0 <= j < |slots| && slots[j] == WithPrec(slots, p);
        assert HasId(fs, slots[j].identifier);
      } else {
        assert zero.precedence != p;
      }
    }
  }

  /** An accepted replace ends in a failed assertion exactly when it collides. */
  lemma ReplaceAbortsExactly(st: Store, m: Message, bits: Bitmap)
    requires WellFormed(st) && AcceptedReplace(st, m)
    ensures Finalize(st, m, bits).Aborted? <==> Collides(st.slots, m.filters)
  {
    hide Distinct, AllLive, GoodSlots, GapFree, VacatedTable, TableFor, AllKnown, DistinctIds, DistinctPrecs,
      TakesKeptPrecedence, ReplaceAll, EnterAll, VerifyCause, Indexed;
    ReplaceFacts(st, m);
    WellFormedIsRebuilt(st);
    DistinctParts(m.filters);
    if HasId(m.filters, 0) && !GapFree(st.slots, []) {
      KnownZero(st.slots, m.filters);
      ReplaceAllVacates(st, m.filters);
      EnterAllAborts(ReplaceAll(st, m.filters).st, m.filters);
      GoodDistinct(st.slots);
      VacatedTaken(st.slots, m.filters);
    } else {
      ReplaceApplies(st, m, bits);
    }
  }

  lemma DistinctParts(fs: seq<PacketFilter>)
    requires Distinct(fs)
    ensures DistinctIds(fs) && DistinctPrecs(fs)
  {
  }

  lemma KnownZero(slots: seq<PacketFilter>, fs: seq<PacketFilter>)
    requires AllKnown(slots, fs) && HasId(fs, 0)
    ensures HasId(slots, 0)
  {
    var i := WithId(fs, 0);
    assert HasId(slots, fs[i].identifier);
  }

  /** Replacing drops the named filters and brings in the new ones, and nothing else. */
  lemma ReplacedFilters(slots: seq<PacketFilter>, fs: seq<PacketFilter>)
    requires AllLive(fs) && DistinctIds(fs) && AllKnown(slots, fs)
    ensures LiveSet(Replaced(slots, fs)) == (set f | f in LiveSet(slots) && !HasId(fs, f.identifier)) + LiveSet(fs)
  {
  }
}
