/**
 * Applying an accepted operation to a stored template. A stored template is sixteen slots, of
 * which any may be free; filters are looked up by identifier, in free slots too.
 */
module TftUpdates {
  import opened Octets
  import opened PacketFilters
  import opened TftRules
  import opened TftIndices
  import opened TftStores

  /** Refused leaves what was done so far; Aborted is a failed assertion that ends the process. */
  datatype Outcome = Done(st: Store) | Refused(st: Store, cause: EsmCause) | Aborted

  function FirstFreeFrom(slots: seq<PacketFilter>, i: nat): (r: nat)
    requires i <= |slots|
    ensures i <= r <= |slots| && (r < |slots| ==> !Live(slots[r]))
    ensures forall j :: i <= j < r ==> Live(slots[j])
    decreases |slots| - i
  {
    if i == |slots| || !Live(slots[i]) then i else FirstFreeFrom(slots, i + 1)
  }

  /** The first slot with the given identifier, free or not. */
  function FindIdFrom(slots: seq<PacketFilter>, id: int, i: nat): (r: nat)
    requires i <= |slots|
    ensures i <= r <= |slots| && (r < |slots| ==> slots[r].identifier == id)
    ensures forall j :: i <= j < r ==> slots[j].identifier != id
    decreases |slots| - i
  {
    if i == |slots| || slots[i].identifier == id then i else FindIdFrom(slots, id, i + 1)
  }

  function AddOne(st: Store, f: PacketFilter, bits: Bitmap): (o: Outcome)
    requires |st.table| == TABLE_SIZE
    ensures !o.Aborted? ==> |o.st.table| == TABLE_SIZE
    ensures o.Refused? ==> o.cause == SemanticErrorInTft
  {
    var i := FirstFreeFrom(st.slots, 0);
    if i == |st.slots| then Refused(st, SemanticErrorInTft)
    else if st.table[f.precedence] != 0 then Aborted
    else Done(Store(st.slots[i := f], (st.count + 1) % 16, st.bits + bits, st.table[f.precedence := f.identifier + 1]))
  }

  function AddAll(st: Store, fs: seq<PacketFilter>, bits: Bitmap): (o: Outcome)
    requires |st.table| == TABLE_SIZE
    ensures !o.Aborted? ==> |o.st.table| == TABLE_SIZE
    ensures o.Refused? ==> o.cause == SemanticErrorInTft
  {
    if fs == [] then Done(st)
    else
      match AddAll(st, fs[..|fs| - 1], bits)
      case Done(s) => AddOne(s, fs[|fs| - 1], bits)
      case o => o
  }

  function ReplaceOne(st: Store, f: PacketFilter): Outcome
    requires |st.table| == TABLE_SIZE
  {
    var i := FindIdFrom(st.slots, f.identifier, 0);
    if i == |st.slots| then Aborted
    else Done(st.(slots := st.slots[i := f], table := st.table[st.slots[i].precedence := 0]))
  }

  function ReplaceAll(st: Store, fs: seq<PacketFilter>): (o: Outcome)
    requires |st.table| == TABLE_SIZE
    ensures !o.Refused?
    ensures o.Done? ==> |o.st.table| == TABLE_SIZE && |o.st.slots| == |st.slots|
    ensures o.Done? ==> o.st.count == st.count && o.st.bits == st.bits
  {
    if fs == [] then Done(st)
    else
      var o := ReplaceAll(st, fs[..|fs| - 1]);
      if o.Done? then ReplaceOne(o.st, fs[|fs| - 1]) else o
  }

  /** The second pass: enter the new precedences, which must all be free by then. */
  function EnterAll(st: Store, fs: seq<PacketFilter>): (o: Outcome)
    requires |st.table| == TABLE_SIZE
    ensures !o.Refused?
    ensures o.Done? ==> |o.st.table| == TABLE_SIZE && o.st == st.(table := o.st.table)
  {
    if fs == [] then Done(st)
    else
      var f, o := fs[|fs| - 1], EnterAll(st, fs[..|fs| - 1]);
      if o.Aborted? || o.st.table[f.precedence] != 0 then Aborted
      else Done(o.st.(table := o.st.table[f.precedence := f.identifier + 1]))
  }

  function DeleteOne(st: Store, id: octet): Outcome
    requires |st.table| == TABLE_SIZE
  {
    var i := FindIdFrom(st.slots, id, 0);
    if i == |st.slots| then Aborted
    else Done(Store(st.slots[i := ZERO_FILTER], (st.count + 15) % 16, st.bits, st.table[st.slots[i].precedence := 0]))
  }

  function DeleteAll(st: Store, ids: seq<octet>): (o: Outcome)
    requires |st.table| == TABLE_SIZE
    ensures !o.Refused?
    ensures o.Done? ==> |o.st.table| == TABLE_SIZE && |o.st.slots| == |st.slots| && o.st.bits == st.bits
  {
    if ids == [] then Done(st)
    else
      var o := DeleteAll(st, ids[..|ids| - 1]);
      if o.Done? then DeleteOne(o.st, ids[|ids| - 1]) else o
  }

  /** `bits` is the bitmap that verification left in the received template. */
  function Finalize(st: Store, m: Message, bits: Bitmap): (o: Outcome)
    requires |st.table| == TABLE_SIZE
    ensures !o.Aborted? ==> |o.st.table| == TABLE_SIZE
    ensures o.Refused? ==> o.cause == SemanticErrorInTft && m.opcode !in {OPCODE_REPLACE, OPCODE_DELETE}
  {
    if m.opcode == OPCODE_ADD then AddAll(st, m.filters, bits)
    else if m.opcode == OPCODE_DELETE then
      var o := DeleteAll(st, m.deletions);
      if o.Done? then Done(o.st.(bits := o.st.bits - bits)) else o
    else if m.opcode == OPCODE_REPLACE then
      var o := ReplaceAll(st, m.filters);
      if o.Done? then EnterAll(o.st, m.filters) else o
    else Refused(st, SemanticErrorInTft)
  }

  // ---------------------------------------------------------------------------
  // A fold that stops early has its final outcome then.

  lemma {:induction false} AddAllStops(st: Store, fs: seq<PacketFilter>, bits: Bitmap, n: nat)
    requires |st.table| == TABLE_SIZE && n <= |fs| && !AddAll(st, fs[..n], bits).Done?
    ensures AddAll(st, fs, bits) == AddAll(st, fs[..n], bits)
  {
    if n < |fs| {
      assert fs[..|fs| - 1][..n] == fs[..n];
      AddAllStops(st, fs[..|fs| - 1], bits, n);
    } else {
      assert fs[..n] == fs;
    }
  }

  lemma {:induction false} ReplaceAllStops(st: Store, fs: seq<PacketFilter>, n: nat)
    requires |st.table| == TABLE_SIZE && n <= |fs| && !ReplaceAll(st, fs[..n]).Done?
    ensures ReplaceAll(st, fs) == ReplaceAll(st, fs[..n])
  {
    if n < |fs| {
      assert fs[..|fs| - 1][..n] == fs[..n];
      ReplaceAllStops(st, fs[..|fs| - 1], n);
    } else {
      assert fs[..n] == fs;
    }
  }

  lemma {:induction false} EnterAllStops(st: Store, fs: seq<PacketFilter>, n: nat)
    requires |st.table| == TABLE_SIZE && n <= |fs| && !EnterAll(st, fs[..n]).Done?
    ensures EnterAll(st, fs) == EnterAll(st, fs[..n])
  {
    if n < |fs| {
      assert fs[..|fs| - 1][..n] == fs[..n];
      EnterAllStops(st, fs[..|fs| - 1], n);
    } else {
      assert fs[..n] == fs;
    }
  }

  lemma {:induction false} DeleteAllStops(st: Store, ids: seq<octet>, n: nat)
    requires |st.table| == TABLE_SIZE && n <= |ids| && !DeleteAll(st, ids[..n]).Done?
    ensures DeleteAll(st, ids) == DeleteAll(st, ids[..n])
  {
    if n < |ids| {
      assert ids[..|ids| - 1][..n] == ids[..n];
      DeleteAllStops(st, ids[..|ids| - 1], n);
    } else {
      assert ids[..n] == ids;
    }
  }

  // ---------------------------------------------------------------------------
  // Stored templates are determined by their slots.

  ghost function TableFor(slots: seq<PacketFilter>): (table: seq<octet>)
    ensures |table| == TABLE_SIZE
  {
    seq(TABLE_SIZE, p requires 0 <= p < TABLE_SIZE =>
      if HasPrec(slots, p) then (WithPrec(slots, p).identifier + 1) as octet else 0)
  }

  ghost function WithPrec(slots: seq<PacketFilter>, p: int): (f: PacketFilter)
    requires HasPrec(slots, p)
    ensures Live(f) && f.precedence == p && exists i :: 0 <= i < |slots| && slots[i] == f
  {
    var i :| 0 <= i < |slots| && Live(slots[i]) && slots[i].precedence == p; slots[i]
  }

  /** The stored template with the given slots, its counter and indices worked out anew. */
  ghost function Rebuilt(slots: seq<PacketFilter>): Store {
    Store(slots, LiveCount(slots) % 16, IdBits(slots), TableFor(slots))
  }

  ghost predicate GoodSlots(slots: seq<PacketFilter>) {
    && |slots| == MAX_FILTERS
    && Distinct(slots)
    && forall i :: 0 <= i < |slots| && !Live(slots[i]) ==> slots[i] == ZERO_FILTER
  }

  lemma IdBitsAgree(slots: seq<PacketFilter>, bits: Bitmap)
    ensures BitsAgree(slots, bits) <==> bits == IdBits(slots)
  {
    forall k: nat {
      InIdBits(slots, k);
    }
  }

  lemma TableForAgrees(slots: seq<PacketFilter>, table: seq<octet>)
    requires DistinctPrecs(slots)
    ensures TableAgrees(slots, table) <==> table == TableFor(slots)
  {
  }

  lemma WellFormedIsRebuilt(st: Store)
    ensures WellFormed(st) <==> GoodSlots(st.slots) && st == Rebuilt(st.slots)
  {
    IdBitsAgree(st.slots, st.bits);
    if GoodSlots(st.slots) {
      TableForAgrees(st.slots, st.table);
    }
  }

  // ---------------------------------------------------------------------------
  // The look-up by identifier reads free slots too, and their identifier reads 0.

  /** Every slot before the one of filter 0, if there is one, is in use and outlives `gone`. */
  ghost predicate GapFree(slots: seq<PacketFilter>, gone: seq<octet>) {
    HasId(slots, 0) ==>
      forall j :: 0 <= j < WithId(slots, 0) ==> Live(slots[j]) && slots[j].identifier !in gone
  }

  lemma FindsTheFilter(slots: seq<PacketFilter>, id: int)
    requires GoodSlots(slots) && HasId(slots, id) && (id == 0 ==> GapFree(slots, []))
    ensures FindIdFrom(slots, id, 0) == WithId(slots, id)
  {
  }

  lemma FindsAGap(slots: seq<PacketFilter>)
    requires GoodSlots(slots) && HasId(slots, 0) && !GapFree(slots, [])
    ensures FindIdFrom(slots, 0, 0) < WithId(slots, 0) && !Live(slots[FindIdFrom(slots, 0, 0)])
  {
  }

  // ---------------------------------------------------------------------------
  // Filling and emptying one slot

  lemma FilledHas(slots: seq<PacketFilter>, i: nat, f: PacketFilter, v: int)
    requires i < |slots| && !Live(slots[i]) && Live(f)
    ensures HasId(slots[i := f], v) <==> HasId(slots, v) || v == f.identifier
    ensures HasPrec(slots[i := f], v) <==> HasPrec(slots, v) || v == f.precedence
  {
    var s := slots[i := f];
    assert s[i] == f;
    assert forall j :: 0 <= j < |slots| && Live(slots[j]) ==> s[j] == slots[j];
  }

  lemma EnteredTable(slots: seq<PacketFilter>, table: seq<octet>, i: nat, f: PacketFilter)
    requires i < |slots| && !Live(slots[i]) && Live(f) && TableAgrees(slots, table) && !HasPrec(slots, f.precedence)
    ensures table[f.precedence] == 0
    ensures TableAgrees(slots[i := f], table[f.precedence := f.identifier + 1])
  {
    var table' := table[f.precedence := f.identifier + 1];
    forall p | 0 <= p < TABLE_SIZE && table'[p] != 0 ensures HasPrec(slots[i := f], p) {
      FilledHas(slots, i, f, p);
    }
  }

  lemma EnteredTableFor(slots: seq<PacketFilter>, i: nat, f: PacketFilter)
    requires i < |slots| && DistinctPrecs(slots) && !Live(slots[i]) && Live(f) && !HasPrec(slots, f.precedence)
    ensures TableFor(slots)[f.precedence] == 0
    ensures TableFor(slots[i := f]) == TableFor(slots)[f.precedence := f.identifier + 1]
  {
    assert DistinctPrecs(slots[i := f]);
    TableForAgrees(slots, TableFor(slots));
    EnteredTable(slots, TableFor(slots), i, f);
    TableForAgrees(slots[i := f], TableFor(slots)[f.precedence := f.identifier + 1]);
  }

  /** Emptying a slot is the inverse of filling it. */
  lemma EmptiedSlot(slots: seq<PacketFilter>, w: nat)
    requires GoodSlots(slots) && w < |slots| && Live(slots[w])
    ensures TableFor(slots[w := ZERO_FILTER]) == TableFor(slots)[slots[w].precedence := 0]
    ensures LiveCount(slots[w := ZERO_FILTER]) % 16 == (LiveCount(slots) % 16 + 15) % 16
  {
    var emptied, f := slots[w := ZERO_FILTER], slots[w];
    assert !HasPrec(emptied, f.precedence);
    EnteredTableFor(emptied, w, f);
    assert emptied[w := f] == slots;
    UpdatedCount(slots, w, ZERO_FILTER);
  }
}
