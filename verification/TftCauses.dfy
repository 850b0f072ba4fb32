/**
 * The answers of verification, one cause for every message and every stored template: what decides is
 * the least offending filter, or the last offending identifier to delete.
 */
module TftCauses {
  import opened Octets
  import opened PacketFilters
  import opened TftRules
  import opened TftIndices
  import opened TftStores
  import opened TftChecks

  // ---------------------------------------------------------------------------
  // What can be wrong with one entry of a message

  ghost predicate RepeatsId(fs: seq<PacketFilter>, i: nat)
    requires i < |fs|
  {
    exists j :: 0 <= j < i && fs[j].identifier == fs[i].identifier
  }

  ghost predicate RepeatsPrecedence(fs: seq<PacketFilter>, i: nat)
    requires i < |fs|
  {
    exists j :: 0 <= j < i && fs[j].precedence == fs[i].precedence
  }

  ghost predicate RepeatsDeletion(ids: seq<octet>, i: nat)
    requires i < |ids|
  {
    exists j :: 0 <= j < i && ids[j] == ids[i]
  }

  /** Two filters of a message, or one of the message and one stored, share what they may not. */
  ghost predicate Clashes(st: Store, fs: seq<PacketFilter>, i: nat)
    requires i < |fs| && |st.table| == 256
  {
    || RepeatsId(fs, i) || RepeatsPrecedence(fs, i)
    || fs[i].identifier + 1 in st.bits || st.table[fs[i].precedence] != 0
  }

  /** A replacement of length 0, of a filter replaced twice, or of one that is not stored. */
  ghost predicate Misnamed(st: Store, fs: seq<PacketFilter>, i: nat)
    requires i < |fs|
  {
    fs[i].length == 0 || RepeatsId(fs, i) || fs[i].identifier + 1 !in st.bits
  }

  /** A replacement takes the precedence of a stored filter that is not replaced. */
  ghost predicate Displaces(st: Store, fs: seq<PacketFilter>, i: nat)
    requires i < |fs| && |st.table| == 256
  {
    var holder := st.table[fs[i].precedence];
    && holder != 0 && holder != fs[i].identifier + 1
    && forall j :: 0 <= j < |fs| ==> fs[j].identifier + 1 != holder
  }

  /** The deletion leaves nothing, or nothing that the off-by-one test below the counter finds. */
  ghost predicate LeavesNone(st: Store, ids: seq<octet>) {
    || (forall k :: k in st.bits ==> k - 1 in ids)
    || (forall i :: 0 <= i < st.count && i < |st.slots| ==>
          st.slots[i].direction == 0 || st.slots[i].identifier - 1 in ids)
  }

  // ---------------------------------------------------------------------------
  // Entries with nothing wrong

  ghost predicate Creatable(fs: seq<PacketFilter>, i: nat)
    requires i < |fs|
  {
    fs[i].length != 0 && !RepeatsId(fs, i) && !RepeatsPrecedence(fs, i)
  }

  ghost predicate Addable(st: Store, fs: seq<PacketFilter>, i: nat)
    requires i < |fs| && |st.table| == 256
  {
    fs[i].length != 0 && !Clashes(st, fs, i)
  }

  ghost predicate Replaceable(st: Store, fs: seq<PacketFilter>, i: nat)
    requires i < |fs|
  {
    !Misnamed(st, fs, i) && !RepeatsPrecedence(fs, i)
  }

  ghost predicate Deletable(st: Store, ids: seq<octet>, i: nat)
    requires i < |ids|
  {
    ids[i] as nat + 1 in st.bits && !RepeatsDeletion(ids, i)
  }

  // ---------------------------------------------------------------------------
  // The answer

  ghost predicate AnswersCreate(fs: seq<PacketFilter>, cause: EsmCause) {
    if forall i :: 0 <= i < |fs| ==> Creatable(fs, i) then cause == Success
    else
      exists i :: 0 <= i < |fs| && !Creatable(fs, i) && (forall j :: 0 <= j < i ==> Creatable(fs, j))
        && cause == if fs[i].length == 0 then SyntacticalErrorInTft else SyntacticalErrorInFilter
  }

  ghost predicate AnswersAdd(st: Store, fs: seq<PacketFilter>, cause: EsmCause)
    requires |st.table| == 256
  {
    if forall i :: 0 <= i < |fs| ==> Addable(st, fs, i) then cause == Success
    else
      exists i :: 0 <= i < |fs| && !Addable(st, fs, i) && (forall j :: 0 <= j < i ==> Addable(st, fs, j))
        && cause == if fs[i].length == 0 then SyntacticalErrorInTft else SyntacticalErrorInFilter
  }

  ghost predicate AnswersReplace(st: Store, fs: seq<PacketFilter>, cause: EsmCause)
    requires |st.table| == 256
  {
    if forall i :: 0 <= i < |fs| ==> Replaceable(st, fs, i) then
      cause == if exists i :: 0 <= i < |fs| && Displaces(st, fs, i) then SyntacticalErrorInTft else Success
    else
      exists i :: 0 <= i < |fs| && !Replaceable(st, fs, i) && (forall j :: 0 <= j < i ==> Replaceable(st, fs, j))
        && cause == if Misnamed(st, fs, i) then SyntacticalErrorInTft else SyntacticalErrorInFilter
  }

  ghost predicate AnswersDelete(st: Store, ids: seq<octet>, cause: EsmCause) {
    if exists i :: 0 <= i < |ids| && ids[i] >= 30 then cause == Undefined
    else if LeavesNone(st, ids) then cause == SemanticErrorInTft
    else if forall i :: 0 <= i < |ids| ==> Deletable(st, ids, i) then cause == Success
    else
      exists i :: 0 <= i < |ids| && !Deletable(st, ids, i) && (forall j :: i < j < |ids| ==> Deletable(st, ids, j))
        && cause == if RepeatsDeletion(ids, i) then RejectedByGw else SyntacticalErrorInTft
  }

  /** The answer to a message, by the number of its operation. */
  ghost predicate Answers(m: Message, original: Option<Store>, cause: EsmCause)
    requires original.Some? ==> |original.value.table| == 256
  {
    match m.opcode
    case 1 =>
      if m.filters == [] then cause == SyntacticalErrorInTft
      else if original.Some? then cause == SemanticErrorInTft
      else AnswersCreate(m.filters, cause)
    case 3 =>
      if m.filters == [] then cause == SyntacticalErrorInTft
      else if original.None? then cause == SemanticErrorInTft
      else AnswersAdd(original.value, m.filters, cause)
    case 4 =>
      if m.filters == [] then cause == SyntacticalErrorInTft
      else if original.None? then cause == SemanticErrorInTft
      else AnswersReplace(original.value, m.filters, cause)
    case 5 =>
      if m.deletions == [] || original.None? then cause == SemanticErrorInTft
      else AnswersDelete(original.value, m.deletions, cause)
    case 6 => cause == if m.filters == [] then Success else SyntacticalErrorInTft
    case _ => cause == RejectedByGw
  }

  // ---------------------------------------------------------------------------
  // It is the one that verification gives

  lemma RepeatsHas(fs: seq<PacketFilter>, i: nat)
    requires i < |fs| && AllLive(fs[..i])
    ensures RepeatsId(fs, i) <==> HasId(fs[..i], fs[i].identifier)
    ensures RepeatsPrecedence(fs, i) <==> HasPrec(fs[..i], fs[i].precedence)
  {
    assert forall j :: 0 <= j < i ==> Live(fs[..i][j]);
    assert forall j :: 0 <= j < i ==> fs[..i][j] == fs[j];
  }

  lemma {:induction false} CreateAnswered(fs: seq<PacketFilter>, i: nat)
    requires i <= |fs| && AllLive(fs[..i]) && forall j :: 0 <= j < i ==> Creatable(fs, j)
    ensures AnswersCreate(fs, CreateCause(fs, i))
    decreases |fs| - i
  {
    hide RepeatsId, RepeatsPrecedence, HasId, HasPrec, AllLive;
    if i < |fs| {
      RepeatsHas(fs, i);
      if Creatable(fs, i) {
        OneMoreLive(fs, i);
        CreateAnswered(fs, i + 1);
      }
    }
  }

  lemma OneMoreLive(fs: seq<PacketFilter>, i: nat)
    requires i < |fs| && AllLive(fs[..i]) && fs[i].length != 0
    ensures AllLive(fs[..i + 1])
  {
    assert fs[..i + 1] == fs[..i] + [fs[i]];
  }

  lemma {:induction false} AddAnswered(st: Store, fs: seq<PacketFilter>, i: nat)
    requires i <= |fs| && AllLive(fs[..i]) && |st.table| == 256 && forall j :: 0 <= j < i ==> Addable(st, fs, j)
    ensures AnswersAdd(st, fs, AddCauseBy(st, fs, i))
    decreases |fs| - i
  {
    hide RepeatsId, RepeatsPrecedence, HasId, HasPrec, AllLive;
    if i < |fs| {
      RepeatsHas(fs, i);
      if Addable(st, fs, i) {
        OneMoreLive(fs, i);
        AddAnswered(st, fs, i + 1);
      }
    }
  }

  lemma {:induction false} ReplaceAnswered(st: Store, fs: seq<PacketFilter>, i: nat)
    requires i <= |fs| && AllLive(fs[..i]) && |st.table| == 256 && forall j :: 0 <= j < i ==> Replaceable(st, fs, j)
    ensures AnswersReplace(st, fs, ReplaceCauseBy(st, fs, i))
    decreases |fs| - i
  {
    hide RepeatsId, RepeatsPrecedence, HasId, HasPrec, AllLive, Displaces, TakesKeptEntry;
    if i == |fs| {
      assert fs[..i] == fs;
      DisplacesKept(st, fs);
    } else {
      RepeatsHas(fs, i);
      if Replaceable(st, fs, i) {
        OneMoreLive(fs, i);
        ReplaceAnswered(st, fs, i + 1);
      }
    }
  }

  lemma DisplacesKept(st: Store, fs: seq<PacketFilter>)
    requires AllLive(fs) && |st.table| == 256
    ensures TakesKeptEntry(st.table, fs) <==> exists i :: 0 <= i < |fs| && Displaces(st, fs, i)
  {
    forall i | 0 <= i < |fs| ensures Displaces(st, fs, i) <==> EntryKept(st.table[fs[i].precedence], fs, i) {
      var holder := st.table[fs[i].precedence];
      assert HasId(fs, holder as int - 1) <==> exists j :: 0 <= j < |fs| && fs[j].identifier + 1 == holder as int;
    }
  }

  lemma {:induction false} DeleteAnswered(st: Store, ids: seq<octet>, n: nat)
    requires n <= |ids| && (forall i :: 0 <= i < |ids| ==> ids[i] < 30) && !LeavesNone(st, ids)
    requires forall j :: n <= j < |ids| ==> Deletable(st, ids, j)
    ensures AnswersDelete(st, ids, DeleteFaultBy(st.bits, ids[..n]))
  {
    hide LeavesNone, RepeatsDeletion;
    if n > 0 {
      var last := n - 1;
      assert ids[..n][..last] == ids[..last];
      RepeatsIn(ids, last);
      if Deletable(st, ids, last) {
        DeleteAnswered(st, ids, last);
      }
    }
  }

  lemma RepeatsIn(ids: seq<octet>, i: nat)
    requires i < |ids|
    ensures RepeatsDeletion(ids, i) <==> ids[i] in ids[..i]
  {
  }

  lemma EmptyRendered(st: Store, ids: seq<octet>)
    ensures RenderedEmpty(st, ids) <==> LeavesNone(st, ids)
  {
    forall k: nat ensures k in st.bits - st.bits * DeletedBits(ids) <==> k in st.bits && k - 1 !in ids {
      DeletedHas(ids, k - 1);
    }
    assert st.bits - st.bits * DeletedBits(ids) == {} <==> forall k :: k in st.bits ==> k - 1 in ids;
  }

  /** The answer is the cause of verification, and no other is. */
  lemma CauseExactly(m: Message, original: Option<Store>, cause: EsmCause)
    requires original.Some? ==> |original.value.table| == 256
    ensures Answers(m, original, cause) <==> VerifyCause(m, original) == cause
  {
    CauseAnswers(m, original);
    if Answers(m, original, cause) {
      OneAnswer(m, original, cause, VerifyCause(m, original));
    }
  }

  lemma CauseAnswers(m: Message, original: Option<Store>)
    requires original.Some? ==> |original.value.table| == 256
    ensures Answers(m, original, VerifyCause(m, original))
  {
    hide AnswersCreate, AnswersAdd, AnswersReplace, CreateCause, AddCauseBy, ReplaceCauseBy;
    var fs, ids := m.filters, m.deletions;
    assert fs[..0] == [];
    CreateAnswered(fs, 0);
    if original.Some? {
      AddAnswered(original.value, fs, 0);
      ReplaceAnswered(original.value, fs, 0);
      DeletionAnswered(original.value, ids);
    }
  }

  lemma DeletionAnswered(st: Store, ids: seq<octet>)
    ensures AnswersDelete(st, ids, DeleteCauseBy(st, ids))
  {
    hide LeavesNone, RenderedEmpty, DeleteFaultBy;
    EmptyRendered(st, ids);
    assert ids[..|ids|] == ids;
    if ShiftsDefined(ids) && !LeavesNone(st, ids) {
      DeleteAnswered(st, ids, |ids|);
    }
  }

  lemma OneAnswer(m: Message, original: Option<Store>, a: EsmCause, b: EsmCause)
    requires original.Some? ==> |original.value.table| == 256
    requires Answers(m, original, a) && Answers(m, original, b)
    ensures a == b
  {
    hide AnswersCreate, AnswersAdd, AnswersReplace, AnswersDelete;
    forall a, b ensures AnswersCreate(m.filters, a) && AnswersCreate(m.filters, b) ==> a == b {
      OneCreate(m.filters, a, b);
    }
    if original.Some? {
      var st := original.value;
      forall a, b
        ensures AnswersAdd(st, m.filters, a) && AnswersAdd(st, m.filters, b) ==> a == b
        ensures AnswersReplace(st, m.filters, a) && AnswersReplace(st, m.filters, b) ==> a == b
        ensures AnswersDelete(st, m.deletions, a) && AnswersDelete(st, m.deletions, b) ==> a == b
      {
        OneUpdate(st, m.filters, a, b);
        OneDelete(st, m.deletions, a, b);
      }
    }
  }

  lemma OneCreate(fs: seq<PacketFilter>, a: EsmCause, b: EsmCause)
    ensures AnswersCreate(fs, a) && AnswersCreate(fs, b) ==> a == b
  {
    hide Creatable;
  }

  lemma OneUpdate(st: Store, fs: seq<PacketFilter>, a: EsmCause, b: EsmCause)
    requires |st.table| == 256
    ensures AnswersAdd(st, fs, a) && AnswersAdd(st, fs, b) ==> a == b
    ensures AnswersReplace(st, fs, a) && AnswersReplace(st, fs, b) ==> a == b
  {
    hide Addable, Replaceable, Misnamed, Displaces;
  }

  lemma OneDelete(st: Store, ids: seq<octet>, a: EsmCause, b: EsmCause)
    ensures AnswersDelete(st, ids, a) && AnswersDelete(st, ids, b) ==> a == b
  {
    hide Deletable, RepeatsDeletion, LeavesNone;
  }

  // ---------------------------------------------------------------------------
  // On a well-formed template, the same in terms of its filters

  ghost predicate Keeps(st: Store, k: int) {
    0 <= k < |st.slots| && st.slots[k].length != 0
  }

  lemma KeptIndices(st: Store, p: octet)
    requires WellFormed(st)
    ensures p as nat + 1 in st.bits <==> exists k :: Keeps(st, k) && st.slots[k].identifier == p
    ensures st.table[p] == 0 <==> forall k :: Keeps(st, k) ==> st.slots[k].precedence != p
    ensures forall k :: Keeps(st, k) && st.slots[k].precedence == p ==> st.table[p] == st.slots[k].identifier + 1
  {
    BitReads(st.slots, st.bits, st.table, p);
    TableReads(st.slots, st.bits, st.table, p);
    assert HasId(st.slots, p) <==> exists k :: Keeps(st, k) && st.slots[k].identifier == p by {
      assert forall k :: 0 <= k < |st.slots| && Live(st.slots[k]) ==> Keeps(st, k);
    }
    assert HasPrec(st.slots, p) <==> exists k :: Keeps(st, k) && st.slots[k].precedence == p by {
      assert forall k :: 0 <= k < |st.slots| && Live(st.slots[k]) ==> Keeps(st, k);
    }
  }

  /** What a filter to add clashes with. */
  lemma ClashesWith(st: Store, fs: seq<PacketFilter>, i: nat)
    requires WellFormed(st) && i < |fs|
    ensures Clashes(st, fs, i) <==>
      || RepeatsId(fs, i) || RepeatsPrecedence(fs, i)
      || (exists k :: Keeps(st, k) && st.slots[k].identifier == fs[i].identifier)
      || (exists k :: Keeps(st, k) && st.slots[k].precedence == fs[i].precedence)
  {
    hide Indexed, Distinct, RepeatsId, RepeatsPrecedence;
    KeptIndices(st, fs[i].identifier);
    KeptIndices(st, fs[i].precedence);
  }

  /** Which replacements name no stored filter, and which displace one that stays. */
  lemma MisnamesWhich(st: Store, fs: seq<PacketFilter>, i: nat)
    requires WellFormed(st) && i < |fs|
    ensures Misnamed(st, fs, i) <==>
      || fs[i].length == 0 || RepeatsId(fs, i)
      || (forall k :: Keeps(st, k) ==> st.slots[k].identifier != fs[i].identifier)
    ensures Displaces(st, fs, i) <==>
      exists k :: Keeps(st, k) && st.slots[k].precedence == fs[i].precedence
        && st.slots[k].identifier != fs[i].identifier
        && forall j :: 0 <= j < |fs| ==> fs[j].identifier != st.slots[k].identifier
  {
    hide Indexed, Distinct, RepeatsId;
    KeptIndices(st, fs[i].identifier);
    KeptIndices(st, fs[i].precedence);
  }

  /** When a deletion leaves none. */
  lemma LeavesWhich(st: Store, ids: seq<octet>)
    requires WellFormed(st)
    ensures LeavesNone(st, ids) <==>
      || (forall k :: Keeps(st, k) ==> st.slots[k].identifier in ids)
      || (forall i :: 0 <= i < st.count ==> st.slots[i].direction == 0 || st.slots[i].identifier - 1 in ids)
  {
    hide Distinct, HasId, TableAgrees, LiveCount;
    forall b: nat ensures b in st.bits <==> HasId(st.slots, b - 1) {
    }
    AllBitsDeleted(st.slots, st.bits, ids);
    assert forall k :: 0 <= k < |st.slots| && Live(st.slots[k]) <==> Keeps(st, k);
  }

  lemma AllBitsDeleted(slots: seq<PacketFilter>, bits: Bitmap, ids: seq<octet>)
    requires forall b: nat :: b in bits <==> HasId(slots, b - 1)
    ensures (forall b :: b in bits ==> b - 1 in ids) <==>
      forall k :: 0 <= k < |slots| && Live(slots[k]) ==> slots[k].identifier in ids
  {
    forall k | 0 <= k < |slots| && Live(slots[k]) ensures slots[k].identifier + 1 in bits {
      assert HasId(slots, slots[k].identifier + 1 - 1);
    }
  }
}
