/** Received operations and stored templates. */
module TftStores {
  import opened Octets
  import opened PacketFilters
  import opened TftRules
  import opened TftIndices

  datatype Option<+T> = None | Some(value: T)

  const OPCODE_CREATE: bits3 := 1
  const OPCODE_ADD: bits3 := 3
  const OPCODE_REPLACE: bits3 := 4
  const OPCODE_DELETE: bits3 := 5
  const OPCODE_NO_OPERATION: bits3 := 6

  /** A received operation: the operation code decides which list of the union the entries are. */
  datatype Message = Message(opcode: bits3, filters: seq<PacketFilter>, deletions: seq<octet>)

  function MessageWith(opcode: bits3, filters: seq<PacketFilter>, deletions: seq<octet>): Message {
    if opcode == OPCODE_DELETE then Message(opcode, [], deletions) else Message(opcode, filters, [])
  }

  /** A stored template: sixteen slots, a four-bit counter and the two indices. */
  datatype Store = Store(slots: seq<PacketFilter>, count: bits4, bits: Bitmap, table: seq<octet>)

  /** The filters are distinct, the indices agree with them, and free slots are all zero. */
  ghost predicate WellFormed(st: Store) {
    && |st.slots| == MAX_FILTERS
    && (forall i :: 0 <= i < MAX_FILTERS && !Live(st.slots[i]) ==> st.slots[i] == ZERO_FILTER)
    && Distinct(st.slots)
    && Indexed(st.slots, st.bits, st.table)
    && st.count == LiveCount(st.slots) % 16
  }

  ghost function DeletedBits(ids: seq<octet>): Bitmap {
    set i | 0 <= i < |ids| :: UpOne(ids[i])
  }

  function UpOne(id: octet): nat {
    id + 1
  }

  /** Shifting 1 this far leaves what a C int can hold. */
  const MAX_SHIFT: nat := 31

  /** The shift that makes a bit for each identifier stays within a C int. */
  ghost predicate ShiftsDefined(ids: seq<octet>) {
    forall i :: 0 <= i < |ids| ==> UpOne(ids[i]) < MAX_SHIFT
  }

  lemma DeletedHas(ids: seq<octet>, id: int)
    ensures id + 1 in DeletedBits(ids) <==> id in ids
  {
  }

  lemma DeletedMore(ids: seq<octet>, id: octet)
    ensures DeletedBits(ids + [id]) == DeletedBits(ids) + {id + 1}
  {
    var more := ids + [id];
    forall k ensures k in DeletedBits(more) <==> k in DeletedBits(ids) + {id + 1} {
      DeletedHas(ids, k - 1);
      DeletedHas(more, k - 1);
    }
  }

  lemma BitsRemaining(fs: seq<PacketFilter>, bits: Bitmap, table: seq<octet>, ids: seq<octet>)
    requires Indexed(fs, bits, table)
    ensures bits - bits * DeletedBits(ids) == {} <==> AllDeleted(fs, ids)
  {
    forall k: nat ensures k in bits - bits * DeletedBits(ids) <==> HasId(fs, k - 1) && k - 1 !in ids {
      DeletedHas(ids, k - 1);
    }
    forall i | 0 <= i < |fs| && Live(fs[i]) && fs[i].identifier !in ids
      ensures bits - bits * DeletedBits(ids) != {}
    {
      assert HasId(fs, fs[i].identifier + 1 - 1);
      assert fs[i].identifier + 1 in bits - bits * DeletedBits(ids);
    }
  }
}
