/**
 * The cause that verification answers with, read off the indices of the stored template as the
 * program does, and its agreement with the rules on filter lists where those indices agree with
 * the filters.
 */
module TftChecks {
  import opened Octets
  import opened PacketFilters
  import opened TftRules
  import opened TftIndices
  import opened TftStores

  ghost function AddCauseBy(st: Store, fs: seq<PacketFilter>, i: nat): (cause: EsmCause)
    requires i <= |fs| && |st.table| == TABLE_SIZE
    ensures cause != Undefined
    decreases |fs| - i
  {
    if i == |fs| then Success
    else if !Live(fs[i]) then SyntacticalErrorInTft
    else if st.count == MAX_FILTERS then SemanticErrorInTft
    else if BitOf(fs[i]) in st.bits || HasId(fs[..i], fs[i].identifier)
         || st.table[fs[i].precedence] != 0 || HasPrec(fs[..i], fs[i].precedence) then SyntacticalErrorInFilter
    else AddCauseBy(st, fs, i + 1)
  }

  ghost function ReplaceCauseBy(st: Store, fs: seq<PacketFilter>, i: nat): (cause: EsmCause)
    requires i <= |fs| && |st.table| == TABLE_SIZE
    ensures cause != Undefined
    decreases |fs| - i
  {
    if i == |fs| then (if TakesKeptEntry(st.table, fs) then SyntacticalErrorInTft else Success)
    else if !Live(fs[i]) || HasId(fs[..i], fs[i].identifier) || BitOf(fs[i]) !in st.bits then SyntacticalErrorInTft
    else if HasPrec(fs[..i], fs[i].precedence) then SyntacticalErrorInFilter
    else ReplaceCauseBy(st, fs, i + 1)
  }

  /** A new filter takes the table entry of another identifier that the message does not name. */
  ghost predicate TakesKeptEntry(table: seq<octet>, fs: seq<PacketFilter>)
    requires |table| == TABLE_SIZE
  {
    exists i :: 0 <= i < |fs| && EntryKept(table[fs[i].precedence], fs, i)
  }

  ghost predicate EntryKept(entry: octet, fs: seq<PacketFilter>, i: nat)
    requires i < |fs|
  {
    entry != 0 && entry != BitOf(fs[i]) && !HasId(fs, entry - 1)
  }

  ghost function DeleteFaultBy(bits: Bitmap, ids: seq<octet>): (cause: EsmCause)
    ensures cause != Undefined
  {
    if ids == [] then Success
    else
      var last := |ids| - 1;
      if ids[last] in ids[..last] then RejectedByGw
      else if UpOne(ids[last]) !in bits then SyntacticalErrorInTft
      else DeleteFaultBy(bits, ids[..last])
  }

  ghost predicate RenderedEmpty(st: Store, ids: seq<octet>) {
    st.bits - st.bits * DeletedBits(ids) == {} || !KeepsDirected(st.slots, st.count, ids)
  }

  ghost function DeleteCauseBy(st: Store, ids: seq<octet>): EsmCause {
    if !ShiftsDefined(ids) then Undefined
    else if RenderedEmpty(st, ids) then SemanticErrorInTft
    else DeleteFaultBy(st.bits, ids)
  }

  ghost function VerifyCause(m: Message, original: Option<Store>): EsmCause
    requires original.Some? ==> |original.value.table| == TABLE_SIZE
  {
    if m.opcode == OPCODE_CREATE then
      if m.filters == [] then SyntacticalErrorInTft
      else if original.Some? then SemanticErrorInTft
      else CreateCause(m.filters, 0)
    else if m.opcode == OPCODE_ADD then
      if m.filters == [] then SyntacticalErrorInTft
      else if original.None? then SemanticErrorInTft
      else AddCauseBy(original.value, m.filters, 0)
    else if m.opcode == OPCODE_REPLACE then
      if m.filters == [] then SyntacticalErrorInTft
      else if original.None? then SemanticErrorInTft
      else ReplaceCauseBy(original.value, m.filters, 0)
    else if m.opcode == OPCODE_DELETE then
      if m.deletions == [] || original.None? then SemanticErrorInTft
      else DeleteCauseBy(original.value, m.deletions)
    else if m.opcode == OPCODE_NO_OPERATION then
      if m.filters != [] then SyntacticalErrorInTft else Success
    else RejectedByGw
  }

  /** Verification is undefined exactly when identifiers to delete from a template exceed the shift. */
  lemma UndefinedExactly(m: Message, original: Option<Store>)
    requires original.Some? ==> |original.value.table| == TABLE_SIZE
    ensures VerifyCause(m, original) == Undefined <==>
      m.opcode == OPCODE_DELETE && original.Some? && !ShiftsDefined(m.deletions)
  {
  }

  // ---------------------------------------------------------------------------
  // With indices that agree, the program follows the rules on filter lists.

  lemma {:induction false} AddCauseAgrees(st: Store, fs: seq<PacketFilter>, i: nat)
    requires i <= |fs| && Indexed(st.slots, st.bits, st.table)
    ensures AddCauseBy(st, fs, i) == AddCause(st.slots, st.count, fs, i)
    decreases |fs| - i
  {
    if i < |fs| {
      AppendedHas(st.slots, fs[..i], fs[i].identifier);
      AppendedHas(st.slots, fs[..i], fs[i].precedence);
      TableReads(st.slots, st.bits, st.table, fs[i].precedence);
      AddCauseAgrees(st, fs, i + 1);
    }
  }

  lemma {:induction false} ReplaceCauseAgrees(st: Store, fs: seq<PacketFilter>, i: nat)
    requires i <= |fs| && AllLive(fs[..i])
    requires Distinct(st.slots) && Indexed(st.slots, st.bits, st.table)
    ensures ReplaceCauseBy(st, fs, i) == ReplaceCause(st.slots, fs, i)
    decreases |fs| - i
  {
    if i == |fs| {
      assert fs[..i] == fs;
      KeptEntries(st, fs);
    } else if Live(fs[i]) {
      assert fs[..i + 1] == fs[..i] + [fs[i]];
      ReplaceCauseAgrees(st, fs, i + 1);
    }
  }

  lemma KeptEntries(st: Store, fs: seq<PacketFilter>)
    requires AllLive(fs) && Distinct(st.slots) && Indexed(st.slots, st.bits, st.table)
    ensures TakesKeptEntry(st.table, fs) <==> TakesKeptPrecedence(st.slots, fs)
  {
    hide Distinct;
    forall i | 0 <= i < |fs| && EntryKept(st.table[fs[i].precedence], fs, i) ensures TakesKeptPrecedence(st.slots, fs) {
      TableReads(st.slots, st.bits, st.table, fs[i].precedence);
    }
    if TakesKeptPrecedence(st.slots, fs) {
      var i, j :| 0 <= i < |fs| && 0 <= j < |st.slots| && Live(st.slots[j]) && Live(fs[i])
        && st.slots[j].precedence == fs[i].precedence
        && st.slots[j].identifier != fs[i].identifier && !HasId(fs, st.slots[j].identifier);
      assert EntryKept(st.table[fs[i].precedence], fs, i);
    }
  }

  lemma {:induction false} DeleteFaultAgrees(st: Store, ids: seq<octet>)
    requires Indexed(st.slots, st.bits, st.table)
    ensures DeleteFaultBy(st.bits, ids) == DeleteFault(st.slots, ids)
  {
    if ids != [] {
      assert HasId(st.slots, ids[|ids| - 1]) <==> HasId(st.slots, ids[|ids| - 1] as int + 1 - 1);
      DeleteFaultAgrees(st, ids[..|ids| - 1]);
    }
  }

  lemma DeleteCauseAgrees(st: Store, ids: seq<octet>)
    requires Indexed(st.slots, st.bits, st.table)
    ensures DeleteCauseBy(st, ids) == if ShiftsDefined(ids) then DeleteCause(st.slots, st.count, ids) else Undefined
  {
    BitsRemaining(st.slots, st.bits, st.table, ids);
    DeleteFaultAgrees(st, ids);
  }

  /** The cause for a well-formed template, on its filters alone. */
  lemma CauseOnFilters(m: Message, st: Store)
    requires WellFormed(st)
    ensures m.opcode == OPCODE_ADD && m.filters != [] ==>
      VerifyCause(m, Some(st)) == AddCause(st.slots, st.count, m.filters, 0)
    ensures m.opcode == OPCODE_REPLACE && m.filters != [] ==>
      VerifyCause(m, Some(st)) == ReplaceCause(st.slots, m.filters, 0)
    ensures m.opcode == OPCODE_DELETE && m.deletions != [] && ShiftsDefined(m.deletions) ==>
      VerifyCause(m, Some(st)) == DeleteCause(st.slots, st.count, m.deletions)
  {
    hide Distinct, Indexed, AddCause, ReplaceCause, DeleteCause, AddCauseBy, ReplaceCauseBy, DeleteCauseBy;
    AddCauseAgrees(st, m.filters, 0);
    ReplaceCauseAgrees(st, m.filters, 0);
    DeleteCauseAgrees(st, m.deletions);
  }

  // ---------------------------------------------------------------------------
  // Which deletions are accepted

  ghost predicate AllDirected(slots: seq<PacketFilter>) {
    forall i :: 0 <= i < |slots| && Live(slots[i]) ==> slots[i].direction != 0
  }

  /** The message names distinct filters of the template and leaves one. */
  ghost predicate ValidDelete(st: Store, m: Message) {
    && m.opcode == OPCODE_DELETE && m.deletions != []
    && NoRepeats(m.deletions) && AllPresent(st.slots, m.deletions) && !AllDeleted(st.slots, m.deletions)
  }

  lemma PresentShiftsDefined(slots: seq<PacketFilter>, ids: seq<octet>)
    requires AllPresent(slots, ids)
    ensures ShiftsDefined(ids)
  {
  }

  /** Delete on a stored template: the exact condition. */
  lemma DeleteAcceptedExactly(st: Store, m: Message)
    requires WellFormed(st) && m.opcode == OPCODE_DELETE
    ensures VerifyCause(m, Some(st)) == Success <==>
      (ValidDelete(st, m) && exists i ::
         0 <= i < st.count && Live(st.slots[i])
           && st.slots[i].direction != 0 && st.slots[i].identifier - 1 !in m.deletions)
  {
    hide Indexed, Distinct, DeleteCause, DeleteCauseBy, ShiftsDefined;
    DeleteCauseAgrees(st, m.deletions);
    DeleteAccepted(st.slots, st.count, m.deletions);
    if AllPresent(st.slots, m.deletions) {
      PresentShiftsDefined(st.slots, m.deletions);
    }
    assert KeepsDirected(st.slots, st.count, m.deletions) <==>
      exists i :: 0 <= i < st.count && Live(st.slots[i])
        && st.slots[i].direction != 0 && st.slots[i].identifier - 1 !in m.deletions;
  }

  /**
   * With a direction on every filter, a valid delete is refused exactly when no filter in the slots
   * below the counter passes the off-by-one test, as happens once deletions have left gaps there.
   */
  lemma DeleteAcceptedWhenDirected(st: Store, m: Message)
    requires WellFormed(st) && AllDirected(st.slots) && m.opcode == OPCODE_DELETE
    ensures VerifyCause(m, Some(st)) == Success <==>
      (ValidDelete(st, m) && exists i ::
         0 <= i < st.count && Live(st.slots[i]) && st.slots[i].identifier - 1 !in m.deletions)
  {
    hide Indexed, Distinct, ValidDelete, VerifyCause;
    DeleteAcceptedExactly(st, m);
  }

  /**
   * When moreover the filters lie below the counter, every valid delete is accepted: the filter
   * with the least identifier always passes the off-by-one test.
   */
  lemma DeleteAcceptedWithoutGaps(st: Store, m: Message)
    requires WellFormed(st) && AllDirected(st.slots) && m.opcode == OPCODE_DELETE
    requires forall i :: 0 <= i < |st.slots| && Live(st.slots[i]) ==> i < st.count
    ensures VerifyCause(m, Some(st)) == Success <==> ValidDelete(st, m)
  {
    DeleteAcceptedWhenDirected(st, m);
    if ValidDelete(st, m) {
      var i :| 0 <= i < |st.slots| && Live(st.slots[i]) && st.slots[i].identifier !in m.deletions;
      var least := LeastId(st.slots, i);
      assert st.slots[least].identifier - 1 !in m.deletions;
    }
  }

  /** A template of sixteen filters, whose four-bit counter reads 0, loses none of them. */
  lemma FullTftKeepsAll(st: Store, m: Message)
    requires WellFormed(st) && LiveCount(st.slots) == MAX_FILTERS && m.opcode == OPCODE_DELETE
    ensures VerifyCause(m, Some(st)) == if ShiftsDefined(m.deletions) then SemanticErrorInTft else Undefined
  {
    assert st.count == 0;
    assert !KeepsDirected(st.slots, 0, m.deletions);
  }
}
