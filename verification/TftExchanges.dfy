/** What faulty octets leave behind, and what a stored template sends. */
module TftExchanges {
  import opened Octets
  import opened PacketFilters
  import opened TftRules
  import opened TftIndices
  import opened TftStores
  import opened TftChecks
  import opened TftUpdates
  import opened TftRuns
  import opened Tlv
  import opened FilterCodec
  import opened TftCodec
  import opened TftSessions

  // ---------------------------------------------------------------------------
  // Decoding errors that are not noticed

  /** A filter that counts as one exactly when it has a component. */
  predicate Consistent(f: PacketFilter) {
    Live(f) <==> f.contents.flags != {}
  }

  /** The declared length is not zero, and the first component has an unknown type. */
  predicate OpensUnknown(s: seq<octet>, remaining: int) {
    remaining != 0 && |s| > 3 && s[2] > 0 && KindOf(s[3]) == KINDS
  }

  /** The filter that the decoder leaves counts without a component exactly when its first type is unknown. */
  lemma LeftConsistent(s: seq<octet>, remaining: int, prior: PacketFilter)
    requires LoadFilter(s, remaining, prior) != Overrun && Consistent(prior)
    ensures Consistent(FilterLeft(s, remaining, prior)) <==> !OpensUnknown(s, remaining)
  {
    hide Parse, PartsRead, LoadParts, KindOf;
    if remaining != 0 {
      var c, parts := prior.contents.(flags := {}), PartsRead(s[3..], s[2] as int);
      FirstRead(s[3..], s[2] as int);
      LoadedFlags(c, parts);
      if parts != [] {
        assert parts[0].kind in LoadParts(c, parts).flags;
      }
    }
  }

  /** Nothing is read exactly when there is nothing to read, or nothing that is known. */
  lemma FirstRead(t: seq<octet>, left: int)
    requires Parse(t, left) != Overrun
    ensures PartsRead(t, left) == [] <==> left <= 0 || (t != [] && KindOf(t[0]) == KINDS)
  {
  }

  /** Decoding filters i to n - 1 stops at one whose first component has an unknown type. */
  predicate StopsBare(s: seq<octet>, len: int, at: nat, fs: seq<PacketFilter>, i: nat, n: nat)
    requires n <= |fs|
    decreases n - i
  {
    if i >= n || at > |s| then false
    else
      match LoadFilter(s[at..], len - at, fs[i])
      case Ok(f, size) => StopsBare(s, len, at + size, fs[i := f], i + 1, n)
      case _ => OpensUnknown(s[at..], len - at)
  }

  ghost predicate SomeInconsistent(fs: seq<PacketFilter>, i: nat, n: nat)
    requires n <= |fs|
  {
    exists j :: i <= j < n && !Consistent(fs[j])
  }

  lemma InconsistentFirst(fs: seq<PacketFilter>, i: nat, n: nat)
    requires i < n <= |fs|
    ensures SomeInconsistent(fs, i, n) <==> !Consistent(fs[i]) || SomeInconsistent(fs, i + 1, n)
  {
    hide Consistent;
  }

  lemma NoneInconsistent(fs: seq<PacketFilter>, i: nat, n: nat)
    requires n <= |fs| && forall j :: i <= j < n ==> Consistent(fs[j])
    ensures !SomeInconsistent(fs, i, n)
  {
    hide Consistent;
  }

  lemma {:induction false} FiltersLeftConsistent(
      s: seq<octet>, len: int, at: nat, fs: seq<PacketFilter>, i: nat, n: nat)
    requires n <= |fs| && LoadFilters(s, len, at, fs, i, n) != Overrun
    requires forall j :: 0 <= j < |fs| ==> Consistent(fs[j])
    ensures SomeInconsistent(FiltersLeft(s, len, at, fs, i, n), i, n) <==> StopsBare(s, len, at, fs, i, n)
    decreases n - i
  {
    hide LoadFilter, FilterLeft, Consistent, OpensUnknown, SomeInconsistent;
    var left := FiltersLeft(s, len, at, fs, i, n);
    if i >= n {
      NoneInconsistent(left, i, n);
    } else {
      LeftConsistent(s[at..], len - at, fs[i]);
      InconsistentFirst(left, i, n);
      var r := LoadFilter(s[at..], len - at, fs[i]);
      if r.Ok? {
        DecodedIsLeft(s[at..], len - at, fs[i]);
        NotBare(s[at..], len - at, fs[i]);
        FiltersLeftConsistent(s, len, at + r.size, fs[i := r.value], i + 1, n);
        assert left[i] == r.value;
      } else {
        NoneInconsistent(left, i + 1, n);
      }
    }
  }

  lemma NotBare(s: seq<octet>, remaining: int, prior: PacketFilter)
    requires LoadFilter(s, remaining, prior).Ok?
    ensures !OpensUnknown(s, remaining)
  {
    hide KindOf;
  }

  /** Whether octets of a whole template are such. */
  predicate ArrivesBare(s: seq<octet>, len: int) {
    s != [] && CarriesFilters(s[0] / 32) && StopsBare(s, len, 1, ClearedFields().filters, 0, s[0] % 16)
  }

  /**
   * A message taken from octets has a filter that counts without a component, or one that does not
   * count and has some, exactly when decoding stops at a filter whose first component type is unknown.
   */
  lemma BareExactly(s: seq<octet>, len: int)
    requires LoadTft(s, len, ClearedFields()) != Overrun
    ensures (exists f :: f in MessageFrom(s, len).filters && !Consistent(f)) <==> ArrivesBare(s, len)
  {
    hide LoadFilters, FiltersLeft, StopsBare, Consistent, ClearedFields, SomeInconsistent;
    var cleared, d := ClearedFields(), FieldsLeft(s, len, ClearedFields());
    ZeroConsistent();
    InPrefix(d.filters, d.count);
    if CarriesFilters(s[0] / 32) {
      FiltersLeftConsistent(s, len, 1, cleared.filters, 0, d.count);
    } else {
      NoneInconsistent(d.filters, 0, d.count);
    }
  }

  lemma InPrefix(fs: seq<PacketFilter>, n: nat)
    requires n <= |fs|
    ensures (exists f :: f in fs[..n] && !Consistent(f)) <==> SomeInconsistent(fs, 0, n)
  {
    hide Consistent;
    if j :| 0 <= j < n && !Consistent(fs[j]) {
      assert fs[j] in fs[..n];
    }
  }

  lemma ZeroConsistent()
    ensures Consistent(ZERO_FILTER)
  {
  }

  /** A create of one filter whose only component has an unknown type. */
  const BARE_CREATE: seq<octet> := [0x21, 0x11, 0x0A, 0x01, 0xFF]

  /** They are taken in despite the error, and the template kept holds a filter without a component. */
  lemma BareAccepted() returns (st: Store)
    ensures LoadTft(BARE_CREATE, 5, ClearedFields()) == Error(TLV_UNEXPECTED_IEI)
    ensures TakenIn(LoadTft(BARE_CREATE, 5, ClearedFields())) && ArrivesBare(BARE_CREATE, 5)
    ensures OctetsRun([BARE_CREATE]) == Holding(st) && Sound(Holding(st))
    ensures Live(st.slots[0]) && st.slots[0].contents.flags == {}
  {
    var s, m := BARE_CREATE, MessageFrom(BARE_CREATE, 5);
    BareDecoded();
    BareMessage();
    assert m.filters == [BareFilter()];
    assert AllLive(m.filters) && Distinct(m.filters);
    hide LoadTft, MessageFrom, Rebuilt, Run, WellFormed, Padded, AllLive, Distinct, ArrivesBare;
    CreateStep(m);
    st := Rebuilt(Padded(m.filters));
    assert MessagesFrom([s]) == [m];
    OctetsRunMessages([s]);
    RebuiltSlots(Padded(m.filters));
    PaddedAt(m.filters);
  }

  function BareFilter(): PacketFilter {
    PacketFilter(1, 1, 0x0A, 1, ZERO_CONTENTS)
  }

  lemma BareDecoded()
    ensures LoadFilter(BARE_CREATE[1..], 4, ZERO_FILTER) == Error(TLV_UNEXPECTED_IEI)
    ensures FilterLeft(BARE_CREATE[1..], 4, ZERO_FILTER) == BareFilter()
    ensures OpensUnknown(BARE_CREATE[1..], 4)
  {
    var s := BARE_CREATE[1..];
    assert s[3..] == [0xFF];
    assert KindOf(0xFF) == KINDS;
  }

  lemma BareMessage()
    ensures LoadTft(BARE_CREATE, 5, ClearedFields()) == Error(TLV_UNEXPECTED_IEI)
    ensures MessageFrom(BARE_CREATE, 5) == Message(OPCODE_CREATE, [BareFilter()], [])
    ensures ArrivesBare(BARE_CREATE, 5) && TakenIn(LoadTft(BARE_CREATE, 5, ClearedFields()))
  {
    hide LoadFilter, FilterLeft, OpensUnknown;
    BareDecoded();
    var cleared, d := ClearedFields(), FieldsLeft(BARE_CREATE, 5, ClearedFields());
    assert d.filters == cleared.filters[0 := BareFilter()];
    assert d.filters[..1] == [BareFilter()];
  }

  // ---------------------------------------------------------------------------
  // What a stored template sends: the slots below its counter

  ghost predicate BelowCounter(st: Store) {
    forall i :: 0 <= i < |st.slots| && Live(st.slots[i]) ==> i < st.count
  }

  /** Every filter at or above the counter is lost. */
  lemma SentExactly(st: Store)
    requires WellFormed(st)
    ensures LiveSet(st.slots[..st.count]) == LiveSet(st.slots) <==> BelowCounter(st)
    ensures forall i :: st.count as int <= i < |st.slots| && Live(st.slots[i]) ==>
      st.slots[i] !in LiveSet(st.slots[..st.count])
  {
    hide Indexed, LiveCount;
    var sent := st.slots[..st.count];
    assert forall i :: 0 <= i < |sent| ==> sent[i] == st.slots[i];
    assert forall i :: 0 <= i < |st.slots| && Live(st.slots[i]) ==> st.slots[i] in LiveSet(st.slots);
  }

  lemma {:induction false} AllCounted(fs: seq<PacketFilter>)
    ensures LiveCount(fs) == |fs| <==> AllLive(fs)
  {
    if fs != [] {
      AllCounted(fs[..|fs| - 1]);
    }
  }

  lemma {:induction false} NoneCounted(fs: seq<PacketFilter>)
    ensures LiveCount(fs) == 0 <==> forall i :: 0 <= i < |fs| ==> !Live(fs[i])
  {
    if fs != [] {
      NoneCounted(fs[..|fs| - 1]);
    }
  }

  /** No filter lies above the counter exactly when there is none that does not count below it. */
  lemma PackedExactly(st: Store)
    requires WellFormed(st) && LiveCount(st.slots) >= 1
    ensures BelowCounter(st) <==> st.count > 0 && AllLive(st.slots[..st.count])
  {
    hide Indexed, Distinct, LiveCount, AllLive, BelowCounter;
    var sent, kept := st.slots[..st.count], st.slots[st.count..];
    assert sent + kept == st.slots;
    AppendedCount(sent, kept);
    AllCounted(sent);
    NoneCounted(kept);
    NoneAbove(st);
  }

  lemma NoneAbove(st: Store)
    requires |st.slots| == MAX_FILTERS
    ensures var kept := st.slots[st.count..];
      BelowCounter(st) <==> forall i :: 0 <= i < |kept| ==> !Live(kept[i])
  {
    hide Live;
    var kept := st.slots[st.count..];
    forall i | st.count as int <= i < |st.slots| ensures kept[i - st.count] == st.slots[i] {
    }
  }

  /** The create that a stored template sends. */
  function SentMessage(st: Store): Message
    requires |st.slots| == MAX_FILTERS
  {
    Message(OPCODE_CREATE, st.slots[..st.count], [])
  }

  /** The record that holds a stored template, as it is given to the encoder. */
  function StoredFields(st: Store, ebit: bit): (d: Fields)
    requires |st.slots| == MAX_FILTERS
    ensures |d.filters| == |d.deletions| == MAX_FILTERS
  {
    Fields(OPCODE_CREATE, ebit, st.count, st.slots, ClearedFields().deletions)
  }

  /** What its octets become in a cleared record, filter by filter. */
  lemma StoredArrives(st: Store, ebit: bit, rest: seq<octet>) returns (m: Message)
    requires |st.slots| == MAX_FILTERS && (TftSlack(StoredFields(st, ebit)) == 1 ==> rest != [])
    ensures var octets := TftOctets(StoredFields(st, ebit)); m == MessageFrom(octets + rest, |octets|)
    ensures m.opcode == OPCODE_CREATE && m.deletions == [] && |m.filters| == st.count
    ensures forall i :: 0 <= i < st.count ==> Received(m.filters[i], st.slots[i], ZERO_FILTER)
  {
    hide TftOctets, TftSlack, LoadTft, FieldsLeft, Received;
    var d, cleared := StoredFields(st, ebit), ClearedFields();
    var octets := TftOctets(d);
    TftRoundTrip(d, rest, |octets|, cleared);
    LoadedIsLeft(octets + rest, |octets|, cleared);
    m := MessageFrom(octets + rest, |octets|);
    forall i | 0 <= i < st.count ensures Received(m.filters[i], st.slots[i], ZERO_FILTER) {
      assert d.filters[..d.count][i] == st.slots[i];
    }
  }

  /** Its octets carry the create exactly when every filter below the counter is restorable. */
  lemma StoredTravels(st: Store, ebit: bit, rest: seq<octet>)
    requires |st.slots| == MAX_FILTERS && (TftSlack(StoredFields(st, ebit)) == 1 ==> rest != [])
    ensures var octets := TftOctets(StoredFields(st, ebit));
      MessageFrom(octets + rest, |octets|) == SentMessage(st) <==>
        forall i :: 0 <= i < st.count ==> Restorable(st.slots[i], ZERO_FILTER)
  {
    hide TftOctets, TftSlack, MessageFrom, Restorable, Received;
    var m := StoredArrives(st, ebit, rest);
    var sent := st.slots[..st.count];
    forall i | 0 <= i < st.count ensures m.filters[i] == sent[i] <==> Restorable(st.slots[i], ZERO_FILTER) {
      ReceivedExactly(m.filters[i], st.slots[i], ZERO_FILTER);
    }
    assert m.filters == sent <==> forall i :: 0 <= i < st.count ==> m.filters[i] == sent[i];
  }

  /**
   * When its filters are restorable, the receiver gets those very filters exactly when they all lie
   * below the counter.
   */
  lemma StoredReceived(st: Store, ebit: bit, rest: seq<octet>)
    requires WellFormed(st) && (TftSlack(StoredFields(st, ebit)) == 1 ==> rest != [])
    requires forall i :: 0 <= i < |st.slots| && Live(st.slots[i]) ==> Restorable(st.slots[i], ZERO_FILTER)
    ensures var octets := TftOctets(StoredFields(st, ebit));
      LiveSet(MessageFrom(octets + rest, |octets|).filters) == LiveSet(st.slots) <==> BelowCounter(st)
  {
    hide TftOctets, TftSlack, MessageFrom, Restorable, Indexed, Distinct, LiveSet, LiveCount, BelowCounter;
    ZeroRestorable();
    StoredTravels(st, ebit, rest);
    SentExactly(st);
  }

  lemma ZeroRestorable()
    ensures Restorable(ZERO_FILTER, ZERO_FILTER)
  {
    hide TotalSize;
    NoFlags(0);
    SameAsItself(ZERO_CONTENTS);
  }

  /** A filter that was sent counts exactly when it has a known component. */
  lemma ArrivesLive(g: PacketFilter, f: PacketFilter, prior: PacketFilter)
    requires Received(g, f, prior)
    ensures Live(g) <==> FlagsFrom(f.contents.flags, 0) != {}
  {
    hide SameField, FlagsFrom;
    SizeTells(f.contents.flags, 0);
  }

  lemma {:induction false} SizeTells(flags: set<nat>, k: nat)
    requires k <= KINDS
    ensures TotalSize(flags, k) == 0 <==> FlagsFrom(flags, k) == {}
    decreases KINDS - k
  {
    if k < KINDS {
      SizeTells(flags, k + 1);
      assert FlagsFrom(flags, k) == FlagsFrom(flags, k + 1) + if k in flags then {k} else {};
    }
  }

  /**
   * A receiver without a template accepts what a stored one sends exactly when no filter lies above
   * the counter and every filter has a known component.
   */
  lemma StoredAccepted(st: Store, ebit: bit, rest: seq<octet>)
    requires WellFormed(st) && LiveCount(st.slots) >= 1
    requires TftSlack(StoredFields(st, ebit)) == 1 ==> rest != []
    ensures var octets := TftOctets(StoredFields(st, ebit));
      VerifyCause(MessageFrom(octets + rest, |octets|), None) == Success <==>
        (BelowCounter(st) && forall f :: f in LiveSet(st.slots) ==> FlagsFrom(f.contents.flags, 0) != {})
  {
    hide TftOctets, TftSlack, MessageFrom, Indexed, LiveCount, BelowCounter, StoredFields;
    var m := StoredArrives(st, ebit, rest);
    CreateAccepted(m.filters);
    PackedExactly(st);
    SentExactly(st);
    hide Received, AllLive, LiveSet;
    ArrivesAllLive(st, m.filters);
  }

  lemma ArrivesAllLive(st: Store, gs: seq<PacketFilter>)
    requires WellFormed(st) && |gs| == st.count
    requires forall i :: 0 <= i < |gs| ==> Received(gs[i], st.slots[i], ZERO_FILTER)
    ensures AllLive(gs) <==>
      (AllLive(st.slots[..st.count]) &&
       forall f :: f in LiveSet(st.slots[..st.count]) ==> FlagsFrom(f.contents.flags, 0) != {})
    ensures AllLive(gs) ==> Distinct(gs)
  {
    hide Indexed, LiveCount, FlagsFrom, SameField, TotalSize;
    var sent := st.slots[..st.count];
    forall i | 0 <= i < |gs| ensures Live(gs[i]) <==> FlagsFrom(sent[i].contents.flags, 0) != {} {
      ArrivesLive(gs[i], st.slots[i], ZERO_FILTER);
    }
    assert FlagsFrom({}, 0) == {} by {
      SizeTells({}, 0);
      NoFlags(0);
    }
    forall i | 0 <= i < |gs| && Live(gs[i]) ensures Live(sent[i]) {
      assert sent[i] == st.slots[i];
    }
    assert forall i :: 0 <= i < |sent| && Live(sent[i]) ==> sent[i] in LiveSet(sent);
  }
}
