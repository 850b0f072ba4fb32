/** The traffic flow template record and the verification of a received one against a stored one. */
module TrafficFlowTemplates {
  import opened Octets
  import opened PacketFilters
  import opened TftRules
  import opened TftIndices
  import opened TftStores
  import opened TftChecks
  import opened TftUpdates
  import opened TftAdding
  import opened TftRuns

  /** How applying an operation ends: a failed assertion ends the process. */
  datatype Ending = Finished | Failed(cause: EsmCause) | Aborted

  ghost predicate EndsAs(o: Outcome, ending: Ending, st: Store) {
    match o
    case Done(s) => ending == Finished && st == s
    case Refused(s, cause) => ending == Failed(cause) && st == s
    case Aborted => ending == Ending.Aborted
  }

  class Tft {
    var opcode: bits3
    var ebit: bit
    var count: bits4
    const filters: array<PacketFilter>
    const deletions: array<octet>
    var bitmap: Bitmap
    const precedenceSet: array<octet>

    ghost predicate Valid() {
      && filters.Length == deletions.Length == MAX_FILTERS
      && precedenceSet.Length == TABLE_SIZE
      && precedenceSet != deletions
    }

    /** A record from calloc: everything is zero. */
    constructor ()
      ensures Valid() && Fresh()
      ensures Stored() == Store(seq(MAX_FILTERS, _ => ZERO_FILTER), 0, {}, seq(TABLE_SIZE, _ => 0))
      ensures opcode == 0 && ebit == 0 && count == 0 && deletions[..] == seq(MAX_FILTERS, _ => 0)
      ensures fresh(filters) && fresh(deletions) && fresh(precedenceSet)
    {
      opcode, ebit, count, bitmap := 0, 0, 0, {};
      filters := new PacketFilter[MAX_FILTERS](_ => ZERO_FILTER);
      deletions := new octet[MAX_FILTERS](_ => 0);
      precedenceSet := new octet[TABLE_SIZE](_ => 0);
    }

    ghost function Received(): Message
      requires Valid()
      reads this, filters, deletions
    {
      MessageWith(opcode, filters[..count], deletions[..count])
    }

    ghost function Stored(): Store
      requires Valid()
      reads this, filters, precedenceSet
    {
      Store(filters[..], count, bitmap, precedenceSet[..])
    }

    /** As cleared: both indices empty. */
    ghost predicate Fresh()
      requires Valid()
      reads this, precedenceSet
    {
      bitmap == {} && forall p :: 0 <= p < TABLE_SIZE ==> precedenceSet[p] == 0
    }

    /** Enter one more filter into both indices. */
    method Mark(ghost fs: seq<PacketFilter>, f: PacketFilter)
      requires Valid() && Indexed(fs, bitmap, precedenceSet[..]) && Live(f) && !HasPrec(fs, f.precedence)
      modifies this`bitmap, precedenceSet
      ensures Indexed(fs + [f], bitmap, precedenceSet[..])
      ensures bitmap == old(bitmap) + {f.identifier + 1}
      ensures precedenceSet[..] == old(precedenceSet[..])[f.precedence := f.identifier + 1]
    {
      AppendedIndexed(fs, f, bitmap, precedenceSet[..]);
      bitmap := bitmap + {f.identifier + 1};
      precedenceSet[f.precedence] := f.identifier + 1;
    }

    method VerifyCreate() returns (cause: EsmCause)
      requires Valid() && Fresh()
      modifies this`bitmap, precedenceSet
      ensures cause == CreateCause(filters[..count], 0)
      ensures cause == Success ==> Indexed(filters[..count], bitmap, precedenceSet[..])
    {
      ghost var fs := filters[..count];
      EmptyIndexed(precedenceSet[..]);
      assert fs[..0] == [];
      for i := 0 to count
        invariant Indexed(fs[..i], bitmap, precedenceSet[..])
        invariant CreateCause(fs, i) == CreateCause(fs, 0)
      {
        var f := filters[i];
        if f.length == 0 {
          return SyntacticalErrorInTft;
        }
        if f.identifier + 1 in bitmap {
          return SyntacticalErrorInFilter;
        }
        TableReads(fs[..i], bitmap, precedenceSet[..], f.precedence);
        if precedenceSet[f.precedence] != 0 {
          return SyntacticalErrorInFilter;
        }
        Mark(fs[..i], f);
        assert fs[..i + 1] == fs[..i] + [f];
      }
      assert fs[..count] == fs;
      cause := Success;
    }

    method VerifyAdd(original: Tft) returns (cause: EsmCause)
      requires Valid() && Fresh() && original.Valid() && original != this
      requires original.precedenceSet != precedenceSet
      modifies this`bitmap, precedenceSet
      ensures cause == AddCauseBy(original.Stored(), filters[..count], 0)
      ensures cause == Success ==> Indexed(filters[..count], bitmap, precedenceSet[..])
    {
      ghost var fs, st := filters[..count], original.Stored();
      EmptyIndexed(precedenceSet[..]);
      assert fs[..0] == [];
      for i := 0 to count
        invariant Indexed(fs[..i], bitmap, precedenceSet[..])
        invariant AddCauseBy(st, fs, i) == AddCauseBy(st, fs, 0)
      {
        var f := filters[i];
        if f.length == 0 {
          return SyntacticalErrorInTft;
        }
        if original.count == MAX_FILTERS {
          return SemanticErrorInTft;
        }
        if f.identifier + 1 in original.bitmap + bitmap {
          return SyntacticalErrorInFilter;
        }
        TableReads(fs[..i], bitmap, precedenceSet[..], f.precedence);
        if original.precedenceSet[f.precedence] != 0 || precedenceSet[f.precedence] != 0 {
          return SyntacticalErrorInFilter;
        }
        Mark(fs[..i], f);
        assert fs[..i + 1] == fs[..i] + [f];
      }
      assert fs[..count] == fs;
      cause := Success;
    }

    method VerifyReplace(original: Tft) returns (cause: EsmCause)
      requires Valid() && Fresh() && original.Valid() && original != this
      requires original.precedenceSet != precedenceSet
      modifies this`bitmap, precedenceSet
      ensures cause == ReplaceCauseBy(original.Stored(), filters[..count], 0)
      ensures cause == Success ==> Indexed(filters[..count], bitmap, precedenceSet[..])
    {
      hide Indexed, HasId, HasPrec, TakesKeptEntry;
      ghost var fs, st := filters[..count], original.Stored();
      EmptyIndexed(precedenceSet[..]);
      assert fs[..0] == [];
      for i := 0 to count
        invariant Indexed(fs[..i], bitmap, precedenceSet[..])
        invariant ReplaceCauseBy(st, fs, i) == ReplaceCauseBy(st, fs, 0)
      {
        var f := filters[i];
        if f.length == 0 {
          return SyntacticalErrorInTft;
        }
        BitReads(fs[..i], bitmap, precedenceSet[..], f.identifier);
        if f.identifier + 1 in bitmap {
          return SyntacticalErrorInTft;
        }
        if f.identifier + 1 !in original.bitmap {
          return SyntacticalErrorInTft;
        }
        TableReads(fs[..i], bitmap, precedenceSet[..], f.precedence);
        if precedenceSet[f.precedence] != 0 {
          return SyntacticalErrorInFilter;
        }
        Mark(fs[..i], f);
        assert fs[..i + 1] == fs[..i] + [f];
      }
      assert fs[..count] == fs;
      var moves := PrecedencesMove(original);
      cause := if moves then Success else SyntacticalErrorInTft;
    }

    /** No new filter takes the table entry of an identifier that the message leaves as it is. */
    method PrecedencesMove(original: Tft) returns (moves: bool)
      requires Valid() && original.Valid()
      requires Indexed(filters[..count], bitmap, precedenceSet[..])
      ensures moves <==> !TakesKeptEntry(original.precedenceSet[..], filters[..count])
    {
      ghost var fs, table := filters[..count], original.precedenceSet[..];
      for i := 0 to count
        invariant forall a :: 0 <= a < i ==> !EntryKept(table[fs[a].precedence], fs, a)
      {
        var f := filters[i];
        var holder := original.precedenceSet[f.precedence];
        if holder != 0 && holder != f.identifier + 1 {
          assert HasId(fs, holder - 1) <==> holder in bitmap;
          if holder !in bitmap {
            assert EntryKept(table[fs[i].precedence], fs, i);
            return false;
          }
        }
      }
      moves := true;
    }

    /** Whether deleting the filters marked in this template's bitmap leaves the original without any. */
    method RendersEmpty(original: Tft) returns (empty: bool)
      requires Valid() && original.Valid() && bitmap == DeletedBits(deletions[..count])
      ensures empty <==> RenderedEmpty(original.Stored(), deletions[..count])
    {
      ghost var os, ids := original.filters[..], deletions[..count];
      var removed := original.bitmap * bitmap;
      var remaining := original.bitmap - removed;
      if remaining == {} {
        return true;
      }
      for i := 0 to original.count
        invariant forall j :: 0 <= j < i ==> os[j].direction == 0 || os[j].identifier - 1 in ids
      {
        var f := original.filters[i];
        if f.direction != 0 {
          DeletedHas(ids, f.identifier - 1);
          if f.identifier !in bitmap {
            return false;
          }
        }
      }
      empty := true;
    }

    method VerifyDelete(original: Tft) returns (cause: EsmCause)
      requires Valid() && Fresh() && original.Valid() && original != this
      modifies this`bitmap
      ensures cause == DeleteCauseBy(original.Stored(), deletions[..count])
      ensures cause == Success ==> bitmap == DeletedBits(deletions[..count])
    {
      ghost var st, ids := original.Stored(), deletions[..count];
      cause := Success;
      for i := 0 to count
        invariant bitmap == DeletedBits(ids[..i]) && ShiftsDefined(ids[..i])
        invariant cause == DeleteFaultBy(st.bits, ids[..i])
      {
        var id := deletions[i];
        assert ids[..i + 1][..i] == ids[..i] && ids[..i + 1] == ids[..i] + [id];
        if id >= MAX_SHIFT - 1 {
          return Undefined;
        }
        DeletedHas(ids[..i], id);
        if id + 1 !in original.bitmap {
          cause := SyntacticalErrorInTft;
        }
        if id + 1 in bitmap {
          cause := RejectedByGw;
        }
        bitmap := bitmap + {id + 1};
        DeletedMore(ids[..i], id);
      }
      assert ids[..count] == ids;
      var empty := RendersEmpty(original);
      if empty {
        cause := SemanticErrorInTft;
      }
    }

    /** The first slot whose length reads zero, or MAX_FILTERS. */
    method FindFree() returns (i: nat)
      requires Valid()
      ensures i == FirstFreeFrom(filters[..], 0)
    {
      i := 0;
      while i < MAX_FILTERS && filters[i].length != 0
        invariant i <= MAX_FILTERS && forall j :: 0 <= j < i ==> Live(filters[j])
      {
        i := i + 1;
      }
    }

    /** The first slot with the given identifier, in use or not, or MAX_FILTERS. */
    method FindIdentifier(id: octet) returns (i: nat)
      requires Valid()
      ensures i == FindIdFrom(filters[..], id, 0)
    {
      i := 0;
      while i < MAX_FILTERS && filters[i].identifier != id
        invariant i <= MAX_FILTERS && forall j :: 0 <= j < i ==> filters[j].identifier != id
      {
        i := i + 1;
      }
    }

    ghost predicate Apart(tft: Tft) {
      && Valid() && tft.Valid() && tft != this
      && tft.filters != filters && tft.precedenceSet != precedenceSet && tft.deletions != precedenceSet
    }

    /** Put one filter into the first free slot. */
    method AddFilter(f: PacketFilter, bits: Bitmap) returns (ending: Ending)
      requires Valid()
      modifies this`count, this`bitmap, filters, precedenceSet
      ensures EndsAs(AddOne(old(Stored()), f, bits), ending, Stored())
    {
      var slot := FindFree();
      if slot == MAX_FILTERS {
        return Failed(SemanticErrorInTft);
      }
      filters[slot] := f;
      count := (count + 1) % 16;
      bitmap := bitmap + bits;
      if precedenceSet[f.precedence] != 0 {
        return Ending.Aborted;
      }
      precedenceSet[f.precedence] := f.identifier + 1;
      ending := Finished;
    }

    method FinalizeAdd(tft: Tft) returns (ending: Ending)
      requires Apart(tft)
      modifies this`count, this`bitmap, filters, precedenceSet
      ensures EndsAs(AddAll(old(Stored()), tft.filters[..tft.count], tft.bitmap), ending, Stored())
    {
      hide AddOne;
      ghost var st, fs := Stored(), tft.filters[..tft.count];
      assert fs[..0] == [];
      for i := 0 to tft.count
        invariant tft.filters[..tft.count] == fs
        invariant AddAll(st, fs[..i], tft.bitmap) == Done(Stored())
      {
        assert fs[..i + 1][..i] == fs[..i];
        ending := AddFilter(tft.filters[i], tft.bitmap);
        if ending != Finished {
          AddAllStops(st, fs, tft.bitmap, i + 1);
          return;
        }
      }
      assert fs[..tft.count] == fs;
      ending := Finished;
    }

    /** Free the slot that the look-up by identifier meets. */
    method DeleteFilter(id: octet) returns (ending: Ending)
      requires Valid()
      modifies this`count, filters, precedenceSet
      ensures EndsAs(DeleteOne(old(Stored()), id), ending, Stored())
    {
      var slot := FindIdentifier(id);
      if slot == MAX_FILTERS {
        return Ending.Aborted;
      }
      precedenceSet[filters[slot].precedence] := 0;
      filters[slot] := ZERO_FILTER;
      count := (count + 15) % 16;
      ending := Finished;
    }

    method FinalizeDelete(tft: Tft) returns (ending: Ending)
      requires Apart(tft)
      modifies this`count, this`bitmap, filters, precedenceSet
      ensures EndsAs(Finalize(old(Stored()), Message(OPCODE_DELETE, [], tft.deletions[..tft.count]), tft.bitmap),
                     ending, Stored())
    {
      hide DeleteOne;
      ghost var st, ids := Stored(), tft.deletions[..tft.count];
      assert ids[..0] == [];
      for i := 0 to tft.count
        invariant tft.deletions[..tft.count] == ids
        invariant DeleteAll(st, ids[..i]) == Done(Stored())
      {
        assert ids[..i + 1][..i] == ids[..i];
        ending := DeleteFilter(tft.deletions[i]);
        if ending != Finished {
          DeleteAllStops(st, ids, i + 1);
          return;
        }
      }
      assert ids[..tft.count] == ids;
      bitmap := bitmap - tft.bitmap;
      ending := Finished;
    }

    /** Write a filter over the slot that the look-up by its identifier meets. */
    method ReplaceFilter(f: PacketFilter) returns (ending: Ending)
      requires Valid()
      modifies filters, precedenceSet
      ensures EndsAs(ReplaceOne(old(Stored()), f), ending, Stored())
    {
      var slot := FindIdentifier(f.identifier);
      if slot == MAX_FILTERS {
        return Ending.Aborted;
      }
      precedenceSet[filters[slot].precedence] := 0;
      filters[slot] := f;
      ending := Finished;
    }

    method FinalizeReplace(tft: Tft) returns (ending: Ending)
      requires Apart(tft)
      modifies filters, precedenceSet
      ensures EndsAs(Finalize(old(Stored()), Message(OPCODE_REPLACE, tft.filters[..tft.count], []), tft.bitmap),
                     ending, Stored())
    {
      hide ReplaceOne;
      ghost var st, fs := Stored(), tft.filters[..tft.count];
      assert fs[..0] == [];
      for i := 0 to tft.count
        invariant tft.filters[..tft.count] == fs
        invariant ReplaceAll(st, fs[..i]) == Done(Stored())
      {
        assert fs[..i + 1][..i] == fs[..i];
        ending := ReplaceFilter(tft.filters[i]);
        if ending != Finished {
          ReplaceAllStops(st, fs, i + 1);
          return;
        }
      }
      assert fs[..tft.count] == fs;
      ending := EnterPrecedences(tft);
    }

    method EnterPrecedences(tft: Tft) returns (ending: Ending)
      requires Apart(tft)
      modifies precedenceSet
      ensures EndsAs(EnterAll(old(Stored()), tft.filters[..tft.count]), ending, Stored())
    {
      ghost var st, fs := Stored(), tft.filters[..tft.count];
      assert fs[..0] == [];
      for i := 0 to tft.count
        invariant EnterAll(st, fs[..i]) == Done(Stored())
      {
        assert fs[..i + 1][..i] == fs[..i];
        var f := tft.filters[i];
        if precedenceSet[f.precedence] != 0 {
          EnterAllStops(st, fs, i + 1);
          return Ending.Aborted;
        }
        precedenceSet[f.precedence] := f.identifier + 1;
      }
      assert fs[..tft.count] == fs;
      ending := Finished;
    }

    /** Apply a verified operation to this stored template. */
    method FinalizeTft(tft: Tft) returns (ending: Ending)
      requires Apart(tft)
      modifies this`count, this`bitmap, filters, precedenceSet
      ensures EndsAs(Finalize(old(Stored()), old(tft.Received()), old(tft.bitmap)), ending, Stored())
    {
      if tft.opcode == OPCODE_ADD {
        ending := FinalizeAdd(tft);
      } else if tft.opcode == OPCODE_DELETE {
        ending := FinalizeDelete(tft);
      } else if tft.opcode == OPCODE_REPLACE {
        ending := FinalizeReplace(tft);
      } else {
        ending := Failed(SemanticErrorInTft);
      }
    }
  }

  /** The verification of a received template, which may be missing, against the stored one, if any. */
  method Verify(tft: Tft?, original: Tft?) returns (cause: EsmCause)
    requires tft != null ==> tft.Valid() && tft.Fresh()
    requires original != null ==> original.Valid()
    requires tft != null && original != null ==> tft != original && tft.precedenceSet != original.precedenceSet
    modifies if tft == null then {} else {tft, tft.precedenceSet}
    ensures tft == null ==> cause == SemanticErrorInTft
    ensures tft != null ==>
      && tft.opcode == old(tft.opcode) && tft.ebit == old(tft.ebit) && tft.count == old(tft.count)
      && tft.Received() == old(tft.Received())
      && tft.filters[..] == old(tft.filters[..])
      && cause == VerifyCause(old(tft.Received()), if original == null then None else Some(old(original.Stored())))
      && (cause == Success && tft.opcode in {OPCODE_CREATE, OPCODE_ADD, OPCODE_REPLACE} ==>
            Indexed(tft.Received().filters, tft.bitmap, tft.precedenceSet[..]))
      && (cause == Success && tft.opcode == OPCODE_DELETE ==> tft.bitmap == DeletedBits(tft.Received().deletions))
      && (cause == Success && tft.opcode == OPCODE_NO_OPERATION ==> tft.Fresh())
  {
    if tft == null {
      return SemanticErrorInTft;
    }
    if tft.opcode == OPCODE_CREATE {
      if tft.count == 0 {
        return SyntacticalErrorInTft;
      }
      if original != null {
        return SemanticErrorInTft;
      }
      cause := tft.VerifyCreate();
    } else if tft.opcode == OPCODE_ADD {
      if tft.count == 0 {
        return SyntacticalErrorInTft;
      }
      if original == null {
        return SemanticErrorInTft;
      }
      cause := tft.VerifyAdd(original);
    } else if tft.opcode == OPCODE_REPLACE {
      if tft.count == 0 {
        return SyntacticalErrorInTft;
      }
      if original == null {
        return SemanticErrorInTft;
      }
      cause := tft.VerifyReplace(original);
    } else if tft.opcode == OPCODE_DELETE {
      if tft.count == 0 {
        return SemanticErrorInTft;
      }
      if original == null {
        return SemanticErrorInTft;
      }
      cause := tft.VerifyDelete(original);
    } else if tft.opcode == OPCODE_NO_OPERATION {
      if tft.count != 0 {
        return SyntacticalErrorInTft;
      }
      return Success;
    } else {
      cause := RejectedByGw;
    }
  }

  /**
   * An operation for a bearer without a template: a created template becomes the bearer's own. Its
   * places after the last filter are free if they were so in the record received.
   */
  method ReceiveFirst(tft: Tft) returns (kept: Tft?, cause: EsmCause)
    requires tft.Valid() && tft.Fresh()
    modifies tft, tft.precedenceSet
    ensures cause == VerifyCause(old(tft.Received()), None)
    ensures kept == if cause == Success && old(tft.opcode) == OPCODE_CREATE then tft else null
    ensures tft.opcode == old(tft.opcode) && tft.ebit == old(tft.ebit) && tft.count == old(tft.count)
    ensures tft.Received() == old(tft.Received()) && tft.filters[..] == old(tft.filters[..])
    ensures kept != null ==> Indexed(tft.Received().filters, tft.bitmap, tft.precedenceSet[..])
    ensures (forall i :: tft.count <= i < MAX_FILTERS ==> tft.filters[i] == ZERO_FILTER) ==>
      Step(Idle, old(tft.Received())) == if kept == null then Idle else Holding(tft.Stored())
  {
    ghost var m := tft.Received();
    kept := null;
    cause := Verify(tft, null);
    if cause == Success && tft.opcode == OPCODE_CREATE {
      kept := tft;
      CreateAccepted(m.filters);
      CreatedIndices(m.filters, tft.bitmap, tft.precedenceSet[..]);
      if forall i :: tft.count <= i < MAX_FILTERS ==> tft.filters[i] == ZERO_FILTER {
        assert tft.filters[..] == Padded(m.filters);
      }
    }
  }

  /** A refused operation fails with the cause of verification; an accepted one ends as applying it does. */
  ghost predicate AnsweredAs(m: Message, st: Store, ending: Ending, after: Store)
    requires |st.table| == TABLE_SIZE
  {
    var cause := VerifyCause(m, Some(st));
    if cause != Success then ending == Failed(cause) && after == st
    else EndsAs(Finalize(st, m, MessageBits(m)), ending, after)
  }

  /** An operation for a bearer with a template: verified and, if accepted, applied to it. */
  method ReceiveNext(tft: Tft, original: Tft) returns (ending: Ending)
    requires tft.Valid() && tft.Fresh() && original.Apart(tft)
    modifies tft, tft.precedenceSet, original, original.filters, original.precedenceSet
    ensures Step(Holding(old(original.Stored())), old(tft.Received())) ==
      if ending == Ending.Aborted then Bearer.Aborted
      else if ending == Failed(Undefined) then Unknown
      else Holding(original.Stored())
    ensures AnsweredAs(old(tft.Received()), old(original.Stored()), ending, original.Stored())
  {
    ghost var m, st := tft.Received(), original.Stored();
    var cause := Verify(tft, original);
    assert original.Stored() == st;
    if cause != Success {
      ending := Failed(cause);
    } else {
      VerifiedBits(m, st, tft.bitmap);
      ending := original.FinalizeTft(tft);
    }
  }

  lemma VerifiedBits(m: Message, st: Store, bits: Bitmap)
    requires m.opcode in {OPCODE_ADD, OPCODE_REPLACE} ==> BitsAgree(m.filters, bits)
    requires m.opcode == OPCODE_DELETE ==> bits == DeletedBits(m.deletions)
    requires |st.table| == TABLE_SIZE
    ensures Finalize(st, m, bits) == Finalize(st, m, MessageBits(m))
  {
    IdBitsAgree(m.filters, bits);
  }

  /** The indices that verifying a create operation built are those of the template it becomes. */
  lemma CreatedIndices(fs: seq<PacketFilter>, bits: Bitmap, table: seq<octet>)
    requires Indexed(fs, bits, table) && AllLive(fs) && Distinct(fs) && |fs| < 16
    ensures Rebuilt(Padded(fs)) == Store(Padded(fs), |fs|, bits, table)
  {
    var slots := Padded(fs);
    PaddedGood(fs);
    forall v ensures HasId(slots, v) <==> HasId(fs, v)
      ensures HasPrec(slots, v) <==> HasPrec(fs, v)
    {
      SameFiltersHave(slots, fs, v);
    }
    IdBitsAgree(slots, bits);
    TableForAgrees(slots, table);
  }
}
