/** An accepted delete operation, applied to a stored template. */
module TftDeleting {
  import opened Octets
  import opened PacketFilters
  import opened TftRules
  import opened TftIndices
  import opened TftStores
  import opened TftChecks
  import opened TftUpdates

  ghost function Cleared(slots: seq<PacketFilter>, ids: seq<octet>): (r: seq<PacketFilter>)
    ensures |r| == |slots|
    ensures forall i :: 0 <= i < |slots| ==>
      r[i] == if Live(slots[i]) && slots[i].identifier in ids then ZERO_FILTER else slots[i]
  {
    seq(|slots|, i requires 0 <= i < |slots| =>
      if Live(slots[i]) && slots[i].identifier in ids then ZERO_FILTER else slots[i])
  }

  /** When its turn comes, filter 0 has only slots in use before it. */
  ghost predicate ZeroReachable(slots: seq<PacketFilter>, ids: seq<octet>) {
    forall k :: 0 <= k < |ids| && ids[k] == 0 ==> GapFree(slots, ids[..k])
  }

  lemma ClearedGood(slots: seq<PacketFilter>, ids: seq<octet>)
    requires GoodSlots(slots)
    ensures GoodSlots(Cleared(slots, ids))
  {
  }

  lemma ClearedMore(slots: seq<PacketFilter>, ids: seq<octet>, id: octet, w: nat)
    requires GoodSlots(slots) && w < |slots| && Live(slots[w]) && slots[w].identifier == id && id !in ids
    ensures Cleared(slots, ids)[w] == slots[w]
    ensures Cleared(slots, ids + [id]) == Cleared(slots, ids)[w := ZERO_FILTER]
  {
  }

  lemma FindsForDeletion(slots: seq<PacketFilter>, gone: seq<octet>, id: octet)
    requires GoodSlots(slots) && HasId(slots, id) && id !in gone && (id == 0 ==> GapFree(slots, gone))
    ensures FindIdFrom(Cleared(slots, gone), id, 0) == WithId(slots, id)
  {
  }

  /** The conditions carry over to the operation without its last identifier. */
  lemma InitConditions(slots: seq<PacketFilter>, ids: seq<octet>)
    requires ids != [] && NoRepeats(ids) && AllPresent(slots, ids) && ZeroReachable(slots, ids)
    ensures var init, id := ids[..|ids| - 1], ids[|ids| - 1];
      && NoRepeats(init) && AllPresent(slots, init) && ZeroReachable(slots, init)
      && id !in init && HasId(slots, id) && (id == 0 ==> GapFree(slots, init))
  {
  }

  lemma DeleteOneClears(s: Store, slots: seq<PacketFilter>, gone: seq<octet>, id: octet)
    requires GoodSlots(slots) && s == Rebuilt(Cleared(slots, gone)).(bits := s.bits)
    requires HasId(slots, id) && id !in gone && (id == 0 ==> GapFree(slots, gone))
    ensures DeleteOne(s, id) == Done(Rebuilt(Cleared(slots, gone + [id])).(bits := s.bits))
  {
    var w := WithId(slots, id);
    ClearedGood(slots, gone);
    FindsForDeletion(slots, gone, id);
    ClearedMore(slots, gone, id, w);
    EmptiedSlot(Cleared(slots, gone), w);
  }

  lemma {:induction false} DeleteAllClears(st: Store, ids: seq<octet>)
    requires GoodSlots(st.slots) && st == Rebuilt(st.slots)
    requires NoRepeats(ids) && AllPresent(st.slots, ids) && ZeroReachable(st.slots, ids)
    ensures DeleteAll(st, ids) == Done(Rebuilt(Cleared(st.slots, ids)).(bits := st.bits))
  {
    if ids == [] {
      assert Cleared(st.slots, ids) == st.slots;
    } else {
      var init, id := ids[..|ids| - 1], ids[|ids| - 1];
      InitConditions(st.slots, ids);
      DeleteAllClears(st, init);
      var s := Rebuilt(Cleared(st.slots, init)).(bits := st.bits);
      assert DeleteAll(st, ids) == DeleteOne(s, id);
      DeleteOneClears(s, st.slots, init, id);
      assert ids == init + [id];
    }
  }

  ghost predicate AcceptedDelete(st: Store, m: Message) {
    m.opcode == OPCODE_DELETE && |st.table| == TABLE_SIZE && VerifyCause(m, Some(st)) == Success
  }

  lemma ClearedHasId(slots: seq<PacketFilter>, ids: seq<octet>, v: int)
    ensures HasId(Cleared(slots, ids), v) <==> HasId(slots, v) && v !in ids
  {
  }

  lemma ClearedBits(st: Store, ids: seq<octet>)
    requires WellFormed(st)
    ensures st.bits - DeletedBits(ids) == IdBits(Cleared(st.slots, ids))
  {
    var c := Cleared(st.slots, ids);
    forall k: nat ensures k in st.bits - DeletedBits(ids) <==> HasId(c, k - 1) {
      DeletedHas(ids, k - 1);
      ClearedHasId(st.slots, ids, k - 1);
    }
    IdBitsAgree(c, st.bits - DeletedBits(ids));
  }

  lemma DeleteApplies(st: Store, m: Message)
    requires WellFormed(st) && AcceptedDelete(st, m) && ZeroReachable(st.slots, m.deletions)
    ensures Finalize(st, m, DeletedBits(m.deletions)) == Done(Rebuilt(Cleared(st.slots, m.deletions)))
    ensures WellFormed(Rebuilt(Cleared(st.slots, m.deletions)))
  {
    var c := Cleared(st.slots, m.deletions);
    DeleteAcceptedExactly(st, m);
    WellFormedIsRebuilt(st);
    DeleteAllClears(st, m.deletions);
    ClearedGood(st.slots, m.deletions);
    ClearedBits(st, m.deletions);
    WellFormedIsRebuilt(Rebuilt(c));
  }

  /** If the look-up for filter 0 meets a free slot, filter 0 stays where it is. */
  lemma ZeroMissed(st: Store, ids: seq<octet>, k: nat)
    requires WellFormed(st) && NoRepeats(ids) && AllPresent(st.slots, ids)
    requires k < |ids| && ids[k] == 0 && !GapFree(st.slots, ids[..k])
    ensures DeleteAll(st, ids[..k]).Done?
    ensures var s, w := DeleteAll(st, ids[..k]).st.slots, WithId(st.slots, 0);
      Live(s[w]) && s[w].identifier == 0 && FindIdFrom(s, 0, 0) != w
  {
    hide WellFormed, Indexed, TableFor;
    var init, w := ids[..k], WithId(st.slots, 0);
    assert forall i :: 0 <= i < k ==> init[i] == ids[i] && ids[i] != 0;
    WellFormedIsRebuilt(st);
    DeleteAllClears(st, init);
    var c := Cleared(st.slots, init);
    assert c[w] == st.slots[w];
    var j :| 0 <= j < w && (!Live(st.slots[j]) || st.slots[j].identifier in init);
    assert c[j].identifier == 0;
  }

  lemma {:induction false} ZeroSurvives(st: Store, ids: seq<octet>, k: nat, n: nat)
    requires WellFormed(st) && NoRepeats(ids) && AllPresent(st.slots, ids)
    requires k < n <= |ids| && ids[k] == 0 && !GapFree(st.slots, ids[..k])
    requires DeleteAll(st, ids[..n]).Done?
    ensures var s, w := DeleteAll(st, ids[..n]).st.slots, WithId(st.slots, 0);
      Live(s[w]) && s[w].identifier == 0
    decreases n
  {
    hide WellFormed, GapFree, AllPresent;
    assert ids[..n][..n - 1] == ids[..n - 1];
    if k == n - 1 {
      ZeroMissed(st, ids, k);
    } else {
      ZeroSurvives(st, ids, k, n - 1);
    }
  }

  lemma DeleteMisses(st: Store, m: Message, k: nat)
    requires WellFormed(st) && NoRepeats(m.deletions) && AllPresent(st.slots, m.deletions)
    requires m.opcode == OPCODE_DELETE
    requires k < |m.deletions| && m.deletions[k] == 0 && !GapFree(st.slots, m.deletions[..k])
    ensures var o := Finalize(st, m, DeletedBits(m.deletions));
      o.Done? ==> !BitsAgree(o.st.slots, o.st.bits)
  {
    var ids := m.deletions;
    if DeleteAll(st, ids).Done? {
      assert ids[..|ids|] == ids;
      ZeroSurvives(st, ids, k, |ids|);
      assert HasId(DeleteAll(st, ids).st.slots, 1 - 1);
      DeletedHas(ids, 0);
    }
  }

  /**
   * An accepted delete is applied as section 10.5.6.12 intends exactly when filter 0, if named,
   * has no free slot before it at its turn. Otherwise it aborts or breaks the template.
   */
  lemma DeleteAppliesExactly(st: Store, m: Message)
    requires WellFormed(st) && AcceptedDelete(st, m)
    ensures var o := Finalize(st, m, DeletedBits(m.deletions));
      && (o == Done(Rebuilt(Cleared(st.slots, m.deletions))) <==> ZeroReachable(st.slots, m.deletions))
      && (o.Done? && WellFormed(o.st) <==> ZeroReachable(st.slots, m.deletions))
  {
    DeleteAcceptedExactly(st, m);
    if ZeroReachable(st.slots, m.deletions) {
      DeleteApplies(st, m);
    } else {
      var k :| 0 <= k < |m.deletions| && m.deletions[k] == 0 && !GapFree(st.slots, m.deletions[..k]);
      DeleteMisses(st, m, k);
      WellFormedIsRebuilt(st);
      ClearedGood(st.slots, m.deletions);
      WellFormedIsRebuilt(Rebuilt(Cleared(st.slots, m.deletions)));
    }
  }

  ghost predicate HasSlot(slots: seq<PacketFilter>, id: int) {
    exists j :: 0 <= j < |slots| && slots[j].identifier == id
  }

  /** A look-up never fails: a slot goes only when its identifier is named. */
  lemma {:induction false} DeleteAllFinds(st: Store, ids: seq<octet>)
    requires |st.table| == TABLE_SIZE && NoRepeats(ids)
    requires forall i :: 0 <= i < |ids| ==> HasSlot(st.slots, ids[i])
    ensures DeleteAll(st, ids).Done?
    ensures forall v :: v !in ids && HasSlot(st.slots, v) ==> HasSlot(DeleteAll(st, ids).st.slots, v)
  {
    if ids != [] {
      var last := |ids| - 1;
      DeleteAllFinds(st, ids[..last]);
      var s := DeleteAll(st, ids[..last]).st;
      assert HasSlot(s.slots, ids[last]);
      var i := FindIdFrom(s.slots, ids[last], 0);
      forall v | v != ids[last] && HasSlot(s.slots, v) ensures HasSlot(s.slots[i := ZERO_FILTER], v) {
        var j :| 0 <= j < |s.slots| && s.slots[j].identifier == v;
        assert s.slots[i := ZERO_FILTER][j].identifier == v;
      }
      assert ids == ids[..last] + [ids[last]];
    }
  }

  /** An accepted delete never ends in a failed assertion. */
  lemma DeleteNeverAborts(st: Store, m: Message)
    requires WellFormed(st) && AcceptedDelete(st, m)
    ensures Finalize(st, m, DeletedBits(m.deletions)).Done?
  {
    hide WellFormed, VerifyCause;
    DeleteAcceptedExactly(st, m);
    forall i | 0 <= i < |m.deletions| ensures HasSlot(st.slots, m.deletions[i]) {
      assert HasId(st.slots, m.deletions[i]);
    }
    DeleteAllFinds(st, m.deletions);
  }

  /** Deleting drops the named filters and nothing else. */
  lemma ClearedFilters(slots: seq<PacketFilter>, ids: seq<octet>)
    ensures LiveSet(Cleared(slots, ids)) == set f | f in LiveSet(slots) && f.identifier !in ids
  {
  }
}
