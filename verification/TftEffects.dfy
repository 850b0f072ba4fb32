/**
 * What received octets make of a stored template, by the number in the upper three bits of the first
 * of them (section 10.5.6.12 of 3GPP TS 24.008).
 */
module TftEffects {
  import opened Octets
  import opened PacketFilters
  import opened TftRules
  import opened TftIndices
  import opened TftStores
  import opened TftChecks
  import opened TftCauses
  import opened TftUpdates
  import opened TftAdding
  import opened TftReplacing
  import opened TftDeleting
  import opened TftRuns
  import opened Tlv
  import opened FilterCodec
  import opened FilterWire
  import opened TftCodec
  import opened TftSessions
  import opened TftWire

  /** Octets that the gateway sends and that are taken in. */
  ghost predicate Arrives(s: seq<octet>) {
    Readable(s) && TakenIn(LoadTft(s, |s|, ClearedFields()))
  }

  function Arrived(s: seq<octet>): Message {
    MessageFrom(s, |s|)
  }

  lemma ArrivedCountable(s: seq<octet>)
    requires Arrives(s)
    ensures Countable(Arrived(s))
  {
    hide LoadTft, FieldsLeft;
  }

  lemma ArrivesSteps(b: Bearer, s: seq<octet>)
    requires TftRuns.Sized(b) && Arrives(s)
    ensures OctetsStep(b, s) == if Ended(b) then b else Step(b, Arrived(s))
  {
    hide LoadTft, TakenIn, MessageFrom, Step;
  }

  // ---------------------------------------------------------------------------
  // Accepted operations

  /** 1 creates: the filters received are the slots, in order. */
  lemma CreateReceived(s: seq<octet>) returns (st: Store)
    requires Arrives(s) && s[0] / 32 == 1 && Answers(Arrived(s), None, Success)
    ensures OctetsStep(Idle, s) == Holding(st) && WellFormed(st)
    ensures var fs := Arrived(s).filters;
      |fs| == s[0] % 16 && forall k :: 0 <= k < 16 ==> st.slots[k] == if k < |fs| then fs[k] else ZERO_FILTER
  {
    hide LoadTft, TakenIn, MessageFrom, Step, Padded, Rebuilt, WellFormed, VerifyCause, Answers;
    MessageRead(s, |s|);
    ArrivesSteps(Idle, s);
    CauseExactly(Arrived(s), None, Success);
    ArrivedCountable(s);
    CreateSteps(Arrived(s));
    PaddedAt(Arrived(s).filters);
    st := Rebuilt(Padded(Arrived(s).filters));
    RebuiltSlots(Padded(Arrived(s).filters));
  }

  lemma CreateSteps(m: Message)
    requires m.opcode == 1 && Countable(m) && VerifyCause(m, None) == Success
    ensures Step(Idle, m) == Holding(Rebuilt(Padded(m.filters))) && WellFormed(Rebuilt(Padded(m.filters)))
  {
    hide VerifyCause, Padded, Rebuilt, WellFormed;
    CreateSound(Idle, m);
  }

  /** 3 adds: nothing stored moves, and exactly the filters received come in. */
  lemma AddReceived(st: Store, s: seq<octet>) returns (st': Store)
    requires Sound(Holding(st)) && Arrives(s) && s[0] / 32 == 3 && Answers(Arrived(s), Some(st), Success)
    ensures OctetsStep(Holding(st), s) == Holding(st') && WellFormed(st')
    ensures LiveSet(st'.slots) == LiveSet(st.slots) + LiveSet(Arrived(s).filters)
    ensures LiveCount(st'.slots) == LiveCount(st.slots) + s[0] % 16
    ensures forall k :: 0 <= k < 16 && st.slots[k].length != 0 ==> st'.slots[k] == st.slots[k]
  {
    hide LoadTft, TakenIn, MessageFrom, Step, Placed, Rebuilt, VerifyCause, Answers;
    hide LiveSet, LiveCount, Indexed, Distinct;
    SizedOriginal(Holding(st));
    MessageRead(s, |s|);
    ArrivesSteps(Holding(st), s);
    CauseExactly(Arrived(s), Some(st), Success);
    AddSteps(st, Arrived(s));
    PlacedKeeps(st.slots, Arrived(s).filters);
    st' := Rebuilt(Placed(st.slots, Arrived(s).filters));
    RebuiltSlots(Placed(st.slots, Arrived(s).filters));
  }

  lemma AddSteps(st: Store, m: Message)
    requires WellFormed(st) && m.opcode == 3 && VerifyCause(m, Some(st)) == Success
    ensures Step(Holding(st), m) == Holding(Rebuilt(Placed(st.slots, m.filters)))
    ensures WellFormed(Rebuilt(Placed(st.slots, m.filters)))
    ensures LiveSet(Placed(st.slots, m.filters)) == LiveSet(st.slots) + LiveSet(m.filters)
    ensures LiveCount(Placed(st.slots, m.filters)) == LiveCount(st.slots) + |m.filters|
    ensures AllLive(m.filters)
  {
    hide VerifyCause, Placed, Rebuilt, Finalize, Distinct, LiveSet, LiveCount;
    AddApplies(st, m);
    CauseOnFilters(m, st);
    AddAccepted(st.slots, st.count, m.filters);
  }

  lemma {:induction false} PlacedKeeps(slots: seq<PacketFilter>, fs: seq<PacketFilter>)
    ensures forall k :: 0 <= k < |slots| && slots[k].length != 0 && AllLive(fs) ==> Placed(slots, fs)[k] == slots[k]
  {
    if fs != [] && AllLive(fs) {
      assert AllLive(fs[..|fs| - 1]);
      PlacedKeeps(slots, fs[..|fs| - 1]);
    }
  }

  /** Every stored filter that one received names gives way to it, where it is; the rest stay. */
  ghost predicate GivesWay(slots: seq<PacketFilter>, fs: seq<PacketFilter>, after: seq<PacketFilter>) {
    && |after| == |slots|
    && forall k :: 0 <= k < |slots| ==>
         if slots[k].length != 0 && exists f :: f in fs && f.identifier == slots[k].identifier then
           after[k] in fs && after[k].identifier == slots[k].identifier
         else after[k] == slots[k]
  }

  /** 4 replaces, exactly when no free slot comes before filter 0 or no filter 0 is received. */
  lemma ReplaceReceived(st: Store, s: seq<octet>) returns (st': Store)
    requires Sound(Holding(st)) && Arrives(s) && s[0] / 32 == 4 && Answers(Arrived(s), Some(st), Success)
    ensures WellFormed(st') && GivesWay(st.slots, Arrived(s).filters, st'.slots)
    ensures OctetsStep(Holding(st), s) == Holding(st') <==>
      ((exists f :: f in Arrived(s).filters && f.identifier == 0) ==> GapFree(st.slots, []))
  {
    hide LoadTft, TakenIn, MessageFrom, Step, Replaced, Rebuilt, VerifyCause, Answers;
    hide Indexed, Distinct, GapFree, HasId;
    SizedOriginal(Holding(st));
    MessageRead(s, |s|);
    ArrivesSteps(Holding(st), s);
    CauseExactly(Arrived(s), Some(st), Success);
    ArrivedCountable(s);
    ReplaceSteps(st, Arrived(s));
    st' := Rebuilt(Replaced(st.slots, Arrived(s).filters));
    RebuiltSlots(Replaced(st.slots, Arrived(s).filters));
  }

  lemma ReplaceSteps(st: Store, m: Message)
    requires Sound(Holding(st)) && Countable(m) && m.opcode == 4 && VerifyCause(m, Some(st)) == Success
    ensures WellFormed(Rebuilt(Replaced(st.slots, m.filters)))
    ensures GivesWay(st.slots, m.filters, Replaced(st.slots, m.filters))
    ensures Step(Holding(st), m) == Holding(Rebuilt(Replaced(st.slots, m.filters))) <==>
      ((exists f :: f in m.filters && f.identifier == 0) ==> GapFree(st.slots, []))
  {
    hide VerifyCause, Replaced, Rebuilt, Indexed, Distinct, GapFree, Step, LiveCount;
    SizedOriginal(Holding(st));
    IntendedStepSound(Holding(st), m);
    StepExact(Holding(st), m);
    ReplaceFacts(st, m);
    assert HasId(m.filters, 0) <==> exists f :: f in m.filters && f.identifier == 0 by {
      NamedZero(m.filters);
    }
    ReplacedGivesWay(st.slots, m.filters);
  }

  lemma NamedZero(fs: seq<PacketFilter>)
    requires AllLive(fs)
    ensures HasId(fs, 0) <==> exists f :: f in fs && f.identifier == 0
  {
    if f :| f in fs && f.identifier == 0 {
      var i :| 0 <= i < |fs| && fs[i] == f;
      assert Live(fs[i]);
    }
  }

  lemma ReplacedGivesWay(slots: seq<PacketFilter>, fs: seq<PacketFilter>)
    requires AllLive(fs)
    ensures GivesWay(slots, fs, Replaced(slots, fs))
  {
    forall k | 0 <= k < |slots| && exists f :: f in fs && f.identifier == slots[k].identifier
      ensures HasId(fs, slots[k].identifier)
    {
      var f :| f in fs && f.identifier == slots[k].identifier;
      var i :| 0 <= i < |fs| && fs[i] == f;
      assert Live(fs[i]);
    }
  }

  /** 5 deletes the identifiers that follow, exactly when filter 0 is met in its turn. */
  lemma DeleteReceived(st: Store, s: seq<octet>) returns (st': Store)
    requires Sound(Holding(st)) && Arrives(s) && s[0] / 32 == 5 && Answers(Arrived(s), Some(st), Success)
    ensures s[0] % 16 < |s| && WellFormed(st')
    ensures forall k :: 0 <= k < 16 ==>
      st'.slots[k] == if st.slots[k].length != 0 && st.slots[k].identifier in s[1..1 + s[0] % 16] then ZERO_FILTER
                      else st.slots[k]
    ensures OctetsStep(Holding(st), s) == Holding(st') <==> ZeroReachable(st.slots, s[1..1 + s[0] % 16])
  {
    hide LoadTft, TakenIn, MessageFrom, Step, Cleared, Rebuilt, VerifyCause, Answers, Indexed, Distinct, ZeroReachable;
    SizedOriginal(Holding(st));
    MessageRead(s, |s|);
    ArrivesSteps(Holding(st), s);
    CauseExactly(Arrived(s), Some(st), Success);
    ArrivedCountable(s);
    DeleteSteps(st, Arrived(s));
    st' := Rebuilt(Cleared(st.slots, Arrived(s).deletions));
    RebuiltSlots(Cleared(st.slots, Arrived(s).deletions));
  }

  lemma DeleteSteps(st: Store, m: Message)
    requires Sound(Holding(st)) && Countable(m) && m.opcode == 5 && VerifyCause(m, Some(st)) == Success
    ensures WellFormed(Rebuilt(Cleared(st.slots, m.deletions)))
    ensures Step(Holding(st), m) == Holding(Rebuilt(Cleared(st.slots, m.deletions))) <==>
      ZeroReachable(st.slots, m.deletions)
  {
    hide VerifyCause, Cleared, Rebuilt, Indexed, Distinct, ZeroReachable, Step, LiveCount;
    SizedOriginal(Holding(st));
    IntendedStepSound(Holding(st), m);
    StepExact(Holding(st), m);
    UndefinedExactly(m, Some(st));
  }

  /** Every other operation, and every one that is refused for a reason, leaves the bearer as it was. */
  lemma OthersIgnored(b: Bearer, s: seq<octet>)
    requires Sound(b) && Arrives(s)
    requires s[0] / 32 !in {1, 3, 4, 5} || Answers(Arrived(s), Original(b), SemanticErrorInTft)
      || Answers(Arrived(s), Original(b), SyntacticalErrorInTft)
      || Answers(Arrived(s), Original(b), SyntacticalErrorInFilter)
      || Answers(Arrived(s), Original(b), RejectedByGw)
    ensures OctetsStep(b, s) == b
  {
    hide LoadTft, TakenIn, MessageFrom, VerifyCause, Answers, WellFormed;
    var m, o := Arrived(s), Original(b);
    SizedOriginal(b);
    MessageRead(s, |s|);
    ArrivesSteps(b, s);
    CauseExactly(m, o, SemanticErrorInTft);
    CauseExactly(m, o, SyntacticalErrorInTft);
    CauseExactly(m, o, SyntacticalErrorInFilter);
    CauseExactly(m, o, RejectedByGw);
    UndefinedExactly(m, o);
  }

  lemma SizedOriginal(b: Bearer)
    requires Sound(b)
    ensures TftRuns.Sized(b) && (Original(b).Some? ==> |Original(b).value.table| == 256)
  {
  }

  // ---------------------------------------------------------------------------
  // One entry, on any template, sound or not

  /** Slot i is the first that the look-up by identifier meets, in use or not. */
  ghost predicate MetFirst(slots: seq<PacketFilter>, id: int, i: nat) {
    i < |slots| && slots[i].identifier == id && forall j :: 0 <= j < i ==> slots[j].identifier != id
  }

  lemma AppliesAdd(st: Store, f: PacketFilter, i: nat, bits: Bitmap)
    requires |st.table| == 256 && i <= |st.slots| && forall j :: 0 <= j < i ==> st.slots[j].length != 0
    requires i < |st.slots| ==> st.slots[i].length == 0
    ensures Finalize(st, Message(3, [f], []), bits) ==
      if i == |st.slots| then Refused(st, SemanticErrorInTft)
      else if st.table[f.precedence] != 0 then Outcome.Aborted
      else
        Done(Store(st.slots[i := f], (st.count + 1) % 16, st.bits + bits,
                   st.table[f.precedence := f.identifier + 1]))
  {
    assert [f][..0] == [] && FirstFreeFrom(st.slots, 0) == i;
    assert AddAll(st, [f], bits) == AddOne(st, f, bits);
  }

  lemma AppliesReplace(st: Store, f: PacketFilter, i: nat, bits: Bitmap)
    requires |st.table| == 256 && MetFirst(st.slots, f.identifier, i)
    ensures var freed := st.table[st.slots[i].precedence := 0];
      Finalize(st, Message(4, [f], []), bits) ==
        if freed[f.precedence] != 0 then Outcome.Aborted
        else Done(Store(st.slots[i := f], st.count, st.bits, freed[f.precedence := f.identifier + 1]))
  {
    assert [f][..0] == [] && FindIdFrom(st.slots, f.identifier, 0) == i;
    assert ReplaceAll(st, [f]) == ReplaceOne(st, f);
    var o := ReplaceOne(st, f);
    assert EnterAll(o.st, [f][..0]) == Done(o.st);
  }

  lemma AppliesDelete(st: Store, id: octet, i: nat, bits: Bitmap)
    requires |st.table| == 256 && MetFirst(st.slots, id, i)
    ensures Finalize(st, Message(5, [], [id]), bits) ==
      Done(Store(st.slots[i := ZERO_FILTER], (st.count + 15) % 16, st.bits - bits,
                 st.table[st.slots[i].precedence := 0]))
  {
    assert [id][..0] == [] && FindIdFrom(st.slots, id, 0) == i;
    assert DeleteAll(st, [id]) == DeleteOne(st, id);
  }

  /** A look-up that meets no slot fails an assertion. */
  lemma AppliesNone(st: Store, f: PacketFilter, id: octet, bits: Bitmap)
    requires |st.table| == 256
    ensures (forall j :: 0 <= j < |st.slots| ==> st.slots[j].identifier != f.identifier) ==>
      Finalize(st, Message(4, [f], []), bits).Aborted?
    ensures (forall j :: 0 <= j < |st.slots| ==> st.slots[j].identifier != id) ==>
      Finalize(st, Message(5, [], [id]), bits).Aborted?
  {
    assert [f][..0] == [] && [id][..0] == [];
    assert ReplaceAll(st, [f][..0]) == Done(st) && DeleteAll(st, [id][..0]) == Done(st);
  }

  /** Where a free slot comes before filter 0, that slot is met instead. */
  lemma FreeMetFirst(st: Store) returns (i: nat)
    requires WellFormed(st) && !GapFree(st.slots, [])
    ensures MetFirst(st.slots, 0, i) && st.slots[i] == ZERO_FILTER
  {
    hide Indexed, Distinct, LiveCount;
    var w := WithId(st.slots, 0);
    i :| 0 <= i < w && st.slots[i].length == 0;
    assert st.slots[i].identifier == 0;
    i := FindIdFrom(st.slots, 0, 0);
    assert Distinct(st.slots);
    SameIdentifier(st.slots, i, w);
  }

  lemma SameIdentifier(slots: seq<PacketFilter>, i: nat, w: nat)
    requires Distinct(slots) && i < w < |slots| && slots[w].length != 0 && slots[i].identifier == slots[w].identifier
    ensures slots[i].length == 0
  {
  }

  /** Then deleting filter 0 leaves it where it is, and only the counter and the indices lose it. */
  lemma DeleteMissesZero(st: Store)
    requires WellFormed(st) && !GapFree(st.slots, [])
    ensures Finalize(st, Message(5, [], [0]), {1}) ==
      Done(Store(st.slots, (st.count + 15) % 16, st.bits - {1}, st.table[0 := 0]))
  {
    hide Indexed, Distinct, LiveCount, GapFree, Finalize;
    TableSized(st);
    var i := FreeMetFirst(st);
    AppliesDelete(st, 0, i, {1});
    assert st.slots[i := ZERO_FILTER] == st.slots;
  }

  /** And replacing it makes it twofold, or fails an assertion where the new precedence is taken. */
  lemma ReplaceMissesZero(st: Store, f: PacketFilter, bits: Bitmap) returns (i: nat)
    requires WellFormed(st) && !GapFree(st.slots, []) && f.identifier == 0
    ensures i < |st.slots| && st.slots[i] == ZERO_FILTER && HasId(st.slots, 0)
    ensures Finalize(st, Message(4, [f], []), bits) ==
      if f.precedence != 0 && st.table[f.precedence] != 0 then Outcome.Aborted
      else Done(Store(st.slots[i := f], st.count, st.bits, st.table[0 := 0][f.precedence := 1]))
  {
    hide Indexed, Distinct, LiveCount, Finalize;
    TableSized(st);
    i := FreeMetFirst(st);
    AppliesReplace(st, f, i, bits);
  }

  lemma TableSized(st: Store)
    requires WellFormed(st)
    ensures |st.table| == 256
  {
  }

  // ---------------------------------------------------------------------------
  // One filter, from its octets to the template

  lemma PortArrives(operation: bits3, direction: bits2, identifier: bits4, precedence: octet, port: u16)
    requires operation in {1, 3, 4}
    ensures var s := [operation * 32 + 1] + PortOctets(direction, identifier, precedence, port);
      Arrives(s) && Arrived(s) == Message(operation, [PortFilter(direction, identifier, precedence, port)], [])
  {
    hide LoadFilter, FilterLeft, PortFilter, PortOctets;
    var f := PortFilter(direction, identifier, precedence, port);
    var o := PortOctets(direction, identifier, precedence, port);
    var s := [operation * 32 + 1] + o;
    PortLength(direction, identifier, precedence, port);
    PortRead(direction, identifier, precedence, port, [], 6);
    assert s[1..] == o == o + [];
    FirstOctet(operation);
    assert LoadFilter(s[1..], 6, ZERO_FILTER) == Ok(f, 6);
    DecodedIsLeft(s[1..], 6, ZERO_FILTER);
    var cleared, d := ClearedFields(), FieldsLeft(s, 7, ClearedFields());
    assert LoadFilters(s, 7, 1, cleared.filters, 0, 1) == Ok(cleared.filters[0 := f], 7);
    assert d.filters == cleared.filters[0 := f];
    assert d.filters[..1] == [f];
  }

  lemma FirstOctet(operation: bits3)
    ensures (operation * 32 + 1) / 32 == operation && (operation * 32 + 1) % 16 == 1
  {
  }

  lemma PortLength(direction: bits2, identifier: bits4, precedence: octet, port: u16)
    ensures |PortOctets(direction, identifier, precedence, port)| == 6
  {
  }

  ghost predicate InUse(st: Store, identifier: bits4, precedence: octet) {
    exists k :: Keeps(st, k) && (st.slots[k].identifier == identifier || st.slots[k].precedence == precedence)
  }

  /** Octets 0x61 and a filter on a local port: the filter is added, or refused where it clashes. */
  lemma AddPort(st: Store, direction: bits2, identifier: bits4, precedence: octet, port: u16) returns (st': Store)
    requires Sound(Holding(st))
    ensures WellFormed(st')
    ensures OctetsStep(Holding(st), [0x61] + PortOctets(direction, identifier, precedence, port)) == Holding(st')
    ensures if InUse(st, identifier, precedence) then st' == st
      else LiveSet(st'.slots) == LiveSet(st.slots) + {PortFilter(direction, identifier, precedence, port)}
  {
    hide MessageFrom, OctetsStep, Answers, LiveSet, WellFormed, Arrives, InUse, PortOctets;
    var s := [0x61] + PortOctets(direction, identifier, precedence, port);
    PortArrives(3, direction, identifier, precedence, port);
    SizedOriginal(Holding(st));
    PortAnswered(st, PortFilter(direction, identifier, precedence, port));
    if InUse(st, identifier, precedence) {
      OthersIgnored(Holding(st), s);
      st' := st;
    } else {
      st' := AddReceived(st, s);
      OneLive(PortFilter(direction, identifier, precedence, port));
    }
  }

  lemma OneLive(f: PacketFilter)
    requires f.length != 0
    ensures LiveSet([f]) == {f}
  {
    assert [f][0] == f;
  }

  lemma PortAnswered(st: Store, f: PacketFilter)
    requires WellFormed(st) && f.length != 0 && |st.table| == 256
    ensures Answers(Message(3, [f], []), Some(st),
      if InUse(st, f.identifier, f.precedence) then SyntacticalErrorInFilter else Success)
  {
    hide WellFormed, Keeps, Clashes;
    ClashesWith(st, [f], 0);
    assert Addable(st, [f], 0) <==> !InUse(st, f.identifier, f.precedence);
  }
}
