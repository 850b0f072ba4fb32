/**
 * The checks on traffic flow template operations, stated on filter lists alone: which cause
 * each operation is answered with, and exactly when it is accepted. Lists may have free
 * slots, which hold no filter.
 */
module TftRules {
  import opened Octets
  import opened PacketFilters

  /** Undefined stands for a shift beyond the width of an int, of which anything may come. */
  datatype EsmCause =
    | Undefined
    | Success
    | SemanticErrorInTft
    | SyntacticalErrorInTft
    | SyntacticalErrorInFilter
    | RejectedByGw

  const MAX_FILTERS: nat := 16

  ghost predicate HasId(fs: seq<PacketFilter>, id: int) {
    exists i :: 0 <= i < |fs| && Live(fs[i]) && fs[i].identifier == id
  }

  ghost predicate HasPrec(fs: seq<PacketFilter>, p: int) {
    exists i :: 0 <= i < |fs| && Live(fs[i]) && fs[i].precedence == p
  }

  ghost predicate AllLive(fs: seq<PacketFilter>) {
    forall i :: 0 <= i < |fs| ==> Live(fs[i])
  }

  /** Filters of one list have pairwise distinct identifiers. */
  ghost predicate DistinctIds(fs: seq<PacketFilter>) {
    forall i, j :: 0 <= i < j < |fs| && Live(fs[i]) && Live(fs[j]) ==> fs[i].identifier != fs[j].identifier
  }

  ghost predicate DistinctPrecs(fs: seq<PacketFilter>) {
    forall i, j :: 0 <= i < j < |fs| && Live(fs[i]) && Live(fs[j]) ==> fs[i].precedence != fs[j].precedence
  }

  ghost predicate Distinct(fs: seq<PacketFilter>) {
    DistinctIds(fs) && DistinctPrecs(fs)
  }

  // ---------------------------------------------------------------------------
  // The first offending filter decides the cause.

  ghost function CreateCause(fs: seq<PacketFilter>, i: nat): (cause: EsmCause)
    requires i <= |fs|
    ensures cause != Undefined
    decreases |fs| - i
  {
    if i == |fs| then Success
    else if !Live(fs[i]) then SyntacticalErrorInTft
    else if HasId(fs[..i], fs[i].identifier) || HasPrec(fs[..i], fs[i].precedence) then SyntacticalErrorInFilter
    else CreateCause(fs, i + 1)
  }

  ghost function AddCause(orig: seq<PacketFilter>, origCount: nat, fs: seq<PacketFilter>, i: nat): EsmCause
    requires i <= |fs|
    decreases |fs| - i
  {
    if i == |fs| then Success
    else if !Live(fs[i]) then SyntacticalErrorInTft
    else if origCount == MAX_FILTERS then SemanticErrorInTft
    else if HasId(orig + fs[..i], fs[i].identifier) || HasPrec(orig + fs[..i], fs[i].precedence) then
      SyntacticalErrorInFilter
    else AddCause(orig, origCount, fs, i + 1)
  }

  ghost function ReplaceCause(orig: seq<PacketFilter>, fs: seq<PacketFilter>, i: nat): EsmCause
    requires i <= |fs|
    decreases |fs| - i
  {
    if i == |fs| then (if TakesKeptPrecedence(orig, fs) then SyntacticalErrorInTft else Success)
    else if !Live(fs[i]) || HasId(fs[..i], fs[i].identifier) || !HasId(orig, fs[i].identifier) then
      SyntacticalErrorInTft
    else if HasPrec(fs[..i], fs[i].precedence) then SyntacticalErrorInFilter
    else ReplaceCause(orig, fs, i + 1)
  }

  /** A new filter takes the precedence of another filter that the message does not replace. */
  ghost predicate TakesKeptPrecedence(orig: seq<PacketFilter>, fs: seq<PacketFilter>) {
    exists i, j :: 0 <= i < |fs| && 0 <= j < |orig| && Live(orig[j]) && Live(fs[i])
      && orig[j].precedence == fs[i].precedence
      && orig[j].identifier != fs[i].identifier && !HasId(fs, orig[j].identifier)
  }

  /** The last offending identifier decides; naming one twice outweighs naming a missing one. */
  ghost function DeleteFault(orig: seq<PacketFilter>, ids: seq<octet>): EsmCause {
    if ids == [] then Success
    else
      var last := |ids| - 1;
      if ids[last] in ids[..last] then RejectedByGw
      else if !HasId(orig, ids[last]) then SyntacticalErrorInTft
      else DeleteFault(orig, ids[..last])
  }

  ghost predicate AllDeleted(orig: seq<PacketFilter>, ids: seq<octet>) {
    forall i :: 0 <= i < |orig| && Live(orig[i]) ==> orig[i].identifier in ids
  }

  /**
   * A slot below the counter has a direction, and the message does not delete the identifier
   * one below its own: the test looks at bit `identifier` of a bitmap that keeps identifier n
   * at bit n + 1.
   */
  ghost predicate KeepsDirected(orig: seq<PacketFilter>, origCount: nat, ids: seq<octet>) {
    exists i :: 0 <= i < origCount && i < |orig| && orig[i].direction != 0 && orig[i].identifier - 1 !in ids
  }

  ghost function DeleteCause(orig: seq<PacketFilter>, origCount: nat, ids: seq<octet>): EsmCause {
    if AllDeleted(orig, ids) || !KeepsDirected(orig, origCount, ids) then SemanticErrorInTft
    else DeleteFault(orig, ids)
  }

  // ---------------------------------------------------------------------------
  // Exactly when each operation is accepted.

  /** Create: accepted exactly when every filter has a length and no two share an identifier or precedence. */
  lemma {:induction false} CreateAccepted(fs: seq<PacketFilter>)
    ensures CreateCause(fs, 0) == Success <==> AllLive(fs) && Distinct(fs)
  {
    CreateAcceptedFrom(fs, 0);
  }

  lemma {:induction false} CreateAcceptedFrom(fs: seq<PacketFilter>, i: nat)
    requires i <= |fs| && AllLive(fs[..i]) && Distinct(fs[..i])
    ensures CreateCause(fs, i) == Success <==> AllLive(fs) && Distinct(fs)
    decreases |fs| - i
  {
    if i == |fs| {
      assert fs[..i] == fs;
    } else {
      assert fs[..i + 1][..i] == fs[..i];
      if Live(fs[i]) && !HasId(fs[..i], fs[i].identifier) && !HasPrec(fs[..i], fs[i].precedence) {
        assert forall j :: 0 <= j < i ==> fs[..i][j] == fs[j];
        CreateAcceptedFrom(fs, i + 1);
      }
    }
  }

  /**
   * Add: accepted exactly when the old filters followed by the new ones are all distinct.
   * A counter of four bits never reads MAX_FILTERS, so the test on it decides nothing.
   */
  lemma {:induction false} AddAccepted(orig: seq<PacketFilter>, origCount: nat, fs: seq<PacketFilter>)
    requires Distinct(orig) && origCount != MAX_FILTERS
    ensures AddCause(orig, origCount, fs, 0) == Success <==> AllLive(fs) && Distinct(orig + fs)
  {
    assert orig + fs[..0] == orig;
    AddAcceptedFrom(orig, origCount, fs, 0);
  }

  lemma {:induction false} AddAcceptedFrom(orig: seq<PacketFilter>, origCount: nat, fs: seq<PacketFilter>, i: nat)
    requires i <= |fs| && AllLive(fs[..i]) && Distinct(orig + fs[..i]) && origCount != MAX_FILTERS
    ensures AddCause(orig, origCount, fs, i) == Success <==> AllLive(fs) && Distinct(orig + fs)
    decreases |fs| - i
  {
    var now := orig + fs[..i];
    var all := orig + fs;
    if i == |fs| {
      assert fs[..i] == fs;
    } else {
      assert all[|now|] == fs[i];
      assert forall j :: 0 <= j < |now| ==> now[j] == all[j];
      if Live(fs[i]) && !HasId(now, fs[i].identifier) && !HasPrec(now, fs[i].precedence) {
        assert orig + fs[..i + 1] == now + [fs[i]];
        AddAcceptedFrom(orig, origCount, fs, i + 1);
      }
    }
  }

  /** The slot of `fs` with the given identifier. */
  ghost function WithId(fs: seq<PacketFilter>, id: int): (i: nat)
    requires HasId(fs, id)
    ensures i < |fs| && Live(fs[i]) && fs[i].identifier == id
  {
    var i :| 0 <= i < |fs| && Live(fs[i]) && fs[i].identifier == id; i
  }

  /** All the replacements done at once: a filter whose identifier the message names gives way. */
  ghost function Replaced(orig: seq<PacketFilter>, fs: seq<PacketFilter>): (r: seq<PacketFilter>)
    ensures |r| == |orig|
    ensures forall i :: 0 <= i < |orig| ==>
      r[i] == if Live(orig[i]) && HasId(fs, orig[i].identifier) then fs[WithId(fs, orig[i].identifier)] else orig[i]
  {
    seq(|orig|, i requires 0 <= i < |orig| =>
      if Live(orig[i]) && HasId(fs, orig[i].identifier) then fs[WithId(fs, orig[i].identifier)] else orig[i])
  }

  ghost predicate AllKnown(orig: seq<PacketFilter>, fs: seq<PacketFilter>) {
    forall i :: 0 <= i < |fs| ==> HasId(orig, fs[i].identifier)
  }

  /**
   * Replace: accepted exactly when the list after replacing every named filter at once has
   * distinct precedences. Looking at one displaced filter at a time is enough, for any chain
   * or swap of precedences.
   */
  lemma {:induction false} ReplaceAccepted(orig: seq<PacketFilter>, fs: seq<PacketFilter>)
    requires Distinct(orig)
    ensures ReplaceCause(orig, fs, 0) == Success <==>
      AllLive(fs) && DistinctIds(fs) && AllKnown(orig, fs) && DistinctPrecs(Replaced(orig, fs))
  {
    ReplaceFirstPass(orig, fs, 0);
    if AllLive(fs) && DistinctIds(fs) && AllKnown(orig, fs) {
      if DistinctPrecs(Replaced(orig, fs)) {
        NewPrecsDistinct(orig, fs);
        NoneTakesKept(orig, fs);
      } else if DistinctPrecs(fs) && !TakesKeptPrecedence(orig, fs) {
        OneLayerSuffices(orig, fs);
      }
    }
  }

  lemma {:induction false} ReplaceFirstPass(orig: seq<PacketFilter>, fs: seq<PacketFilter>, i: nat)
    requires i <= |fs| && AllLive(fs[..i]) && Distinct(fs[..i]) && AllKnown(orig, fs[..i])
    ensures ReplaceCause(orig, fs, i) == Success <==>
      AllLive(fs) && Distinct(fs) && AllKnown(orig, fs) && !TakesKeptPrecedence(orig, fs)
    decreases |fs| - i
  {
    if i == |fs| {
      assert fs[..i] == fs;
    } else {
      assert forall j :: 0 <= j < i ==> fs[..i][j] == fs[j];
      if Live(fs[i]) && !HasId(fs[..i], fs[i].identifier) && HasId(orig, fs[i].identifier)
         && !HasPrec(fs[..i], fs[i].precedence) {
        assert fs[..i + 1] == fs[..i] + [fs[i]];
        ReplaceFirstPass(orig, fs, i + 1);
      }
    }
  }

  /** Every new filter has a place in the replaced list. */
  lemma PlaceOf(orig: seq<PacketFilter>, fs: seq<PacketFilter>, i: nat) returns (a: nat)
    requires AllLive(fs) && DistinctIds(fs) && AllKnown(orig, fs) && i < |fs|
    ensures a < |orig| && Live(orig[a]) && orig[a].identifier == fs[i].identifier && Replaced(orig, fs)[a] == fs[i]
  {
    a := WithId(orig, fs[i].identifier);
    assert HasId(fs, orig[a].identifier);
    assert WithId(fs, orig[a].identifier) == i;
  }

  lemma NewPrecsDistinct(orig: seq<PacketFilter>, fs: seq<PacketFilter>)
    requires AllLive(fs) && DistinctIds(fs) && AllKnown(orig, fs) && DistinctPrecs(Replaced(orig, fs))
    ensures DistinctPrecs(fs)
  {
    forall i, j | 0 <= i < j < |fs| ensures fs[i].precedence != fs[j].precedence {
      var a := PlaceOf(orig, fs, i);
      var b := PlaceOf(orig, fs, j);
      assert a < b || b < a;
    }
  }

  lemma NoneTakesKept(orig: seq<PacketFilter>, fs: seq<PacketFilter>)
    requires AllLive(fs) && DistinctIds(fs) && AllKnown(orig, fs) && DistinctPrecs(Replaced(orig, fs))
    ensures !TakesKeptPrecedence(orig, fs)
  {
  }

  /** Soundness of looking one layer deep. */
  lemma OneLayerSuffices(orig: seq<PacketFilter>, fs: seq<PacketFilter>)
    requires Distinct(orig) && AllLive(fs) && Distinct(fs) && AllKnown(orig, fs)
    requires !TakesKeptPrecedence(orig, fs)
    ensures DistinctPrecs(Replaced(orig, fs))
  {
  }

  /** Replacing keeps every identifier where it was, and frees or fills no slot. */
  lemma ReplacedKeepsIds(orig: seq<PacketFilter>, fs: seq<PacketFilter>)
    ensures forall i :: 0 <= i < |orig| ==>
      (Live(Replaced(orig, fs)[i]) <==> Live(orig[i])) && Replaced(orig, fs)[i].identifier == orig[i].identifier
  {
  }

  ghost predicate NoRepeats(ids: seq<octet>) {
    forall i, j :: 0 <= i < j < |ids| ==> ids[i] != ids[j]
  }

  ghost predicate AllPresent(orig: seq<PacketFilter>, ids: seq<octet>) {
    forall i :: 0 <= i < |ids| ==> HasId(orig, ids[i])
  }

  lemma {:induction false} DeleteFaultless(orig: seq<PacketFilter>, ids: seq<octet>)
    ensures DeleteFault(orig, ids) == Success <==> NoRepeats(ids) && AllPresent(orig, ids)
  {
    if ids != [] {
      var last := |ids| - 1;
      DeleteFaultless(orig, ids[..last]);
      assert forall i :: 0 <= i < last ==> ids[..last][i] == ids[i];
      assert ids == ids[..last] + [ids[last]];
    }
  }

  /** Delete: the exact condition, and what acceptance guarantees. */
  lemma DeleteAccepted(orig: seq<PacketFilter>, origCount: nat, ids: seq<octet>)
    ensures DeleteCause(orig, origCount, ids) == Success <==>
      NoRepeats(ids) && AllPresent(orig, ids) && !AllDeleted(orig, ids) && KeepsDirected(orig, origCount, ids)
  {
    DeleteFaultless(orig, ids);
  }

  lemma {:induction false} LeastId(orig: seq<PacketFilter>, i: nat) returns (m: nat)
    requires i < |orig| && Live(orig[i])
    ensures m < |orig| && Live(orig[m])
    ensures forall j :: 0 <= j < |orig| && Live(orig[j]) ==> orig[m].identifier <= orig[j].identifier
    decreases orig[i].identifier
  {
    if j :| 0 <= j < |orig| && Live(orig[j]) && orig[j].identifier < orig[i].identifier {
      m := LeastId(orig, j);
    } else {
      m := i;
    }
  }
}
