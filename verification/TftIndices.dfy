/**
 * The two indices a traffic flow template keeps beside its filters: a bitmap with identifier n
 * at bit n + 1, and a table from precedence to identifier + 1.
 */
module TftIndices {
  import opened Bits
  import opened Octets
  import opened PacketFilters
  import opened TftRules

  /** A word of bits, given as the set of the positions that are one. */
  type Bitmap = set<nat>

  const TABLE_SIZE: nat := 256

  /** Identifiers are kept one bit higher. */
  function BitOf(f: PacketFilter): nat {
    f.identifier + 1
  }

  ghost predicate BitsAgree(fs: seq<PacketFilter>, bits: Bitmap) {
    forall k: nat :: k in bits <==> HasId(fs, k - 1)
  }

  ghost predicate TableAgrees(fs: seq<PacketFilter>, table: seq<octet>) {
    && |table| == TABLE_SIZE
    && (forall i :: 0 <= i < |fs| && Live(fs[i]) ==> table[fs[i].precedence] == BitOf(fs[i]))
    && (forall p :: 0 <= p < TABLE_SIZE && table[p] != 0 ==> HasPrec(fs, p))
  }

  /** The indices agree exactly with a list of filters. */
  ghost predicate Indexed(fs: seq<PacketFilter>, bits: Bitmap, table: seq<octet>) {
    BitsAgree(fs, bits) && TableAgrees(fs, table)
  }

  lemma EmptyIndexed(table: seq<octet>)
    requires |table| == TABLE_SIZE && forall p :: 0 <= p < TABLE_SIZE ==> table[p] == 0
    ensures Indexed([], {}, table)
  {
  }

  lemma AppendedHas(fs: seq<PacketFilter>, gs: seq<PacketFilter>, v: int)
    ensures HasId(fs + gs, v) <==> HasId(fs, v) || HasId(gs, v)
    ensures HasPrec(fs + gs, v) <==> HasPrec(fs, v) || HasPrec(gs, v)
  {
    var all := fs + gs;
    assert forall i :: 0 <= i < |fs| ==> all[i] == fs[i];
    assert forall i :: 0 <= i < |gs| ==> all[|fs| + i] == gs[i];
  }

  lemma InitHasId(fs: seq<PacketFilter>, v: int)
    requires fs != []
    ensures HasId(fs, v) <==>
      HasId(fs[..|fs| - 1], v) || (Live(fs[|fs| - 1]) && fs[|fs| - 1].identifier == v)
  {
  }

  lemma InitHasPrec(fs: seq<PacketFilter>, p: int)
    requires fs != []
    ensures HasPrec(fs, p) <==>
      HasPrec(fs[..|fs| - 1], p) || (Live(fs[|fs| - 1]) && fs[|fs| - 1].precedence == p)
  {
  }

  /** Setting a bit and a table entry accounts for one more filter. */
  lemma AppendedIndexed(fs: seq<PacketFilter>, f: PacketFilter, bits: Bitmap, table: seq<octet>)
    requires Indexed(fs, bits, table) && Live(f) && !HasPrec(fs, f.precedence)
    ensures Indexed(fs + [f], bits + {f.identifier + 1}, table[f.precedence := f.identifier + 1])
  {
    var fs', bits', table' := fs + [f], bits + {f.identifier + 1}, table[f.precedence := f.identifier + 1];
    forall k: nat ensures k in bits' <==> HasId(fs', k - 1) {
      AppendedHas(fs, [f], k - 1);
      assert HasId([f], k - 1) <==> [f][0].identifier == k - 1;
    }
    forall p | 0 <= p < TABLE_SIZE && table'[p] != 0 ensures HasPrec(fs', p) {
      AppendedHas(fs, [f], p);
      assert p == f.precedence ==> [f][0].precedence == p;
    }
  }

  lemma BitReads(fs: seq<PacketFilter>, bits: Bitmap, table: seq<octet>, id: octet)
    requires Indexed(fs, bits, table)
    ensures id + 1 in bits <==> HasId(fs, id)
  {
    assert HasId(fs, id) <==> HasId(fs, id as int + 1 - 1);
  }

  /** The table entry of a precedence in use is non-zero, and names its holder. */
  lemma TableReads(fs: seq<PacketFilter>, bits: Bitmap, table: seq<octet>, p: octet)
    requires Indexed(fs, bits, table)
    ensures table[p] != 0 <==> HasPrec(fs, p)
    ensures table[p] != 0 ==>
      exists j :: 0 <= j < |fs| && Live(fs[j]) && fs[j].precedence == p && fs[j].identifier == table[p] - 1
  {
  }

  // ---------------------------------------------------------------------------
  // Counting

  ghost function LiveCount(fs: seq<PacketFilter>): (n: nat)
    ensures n <= |fs|
  {
    if fs == [] then 0
    else LiveCount(fs[..|fs| - 1]) + if Live(fs[|fs| - 1]) then 1 else 0
  }

  ghost function LiveSet(fs: seq<PacketFilter>): set<PacketFilter> {
    set i | 0 <= i < |fs| && Live(fs[i]) :: fs[i]
  }

  ghost function IdBits(fs: seq<PacketFilter>): (bits: Bitmap) {
    if fs == [] then {}
    else IdBits(fs[..|fs| - 1]) + if Live(fs[|fs| - 1]) then {BitOf(fs[|fs| - 1])} else {}
  }

  ghost function PrecsUsed(fs: seq<PacketFilter>): set<nat> {
    if fs == [] then {}
    else PrecsUsed(fs[..|fs| - 1]) + if Live(fs[|fs| - 1]) then {fs[|fs| - 1].precedence} else {}
  }

  lemma {:induction false} InIdBits(fs: seq<PacketFilter>, k: nat)
    ensures k in IdBits(fs) <==> HasId(fs, k - 1)
  {
    if fs != [] {
      InIdBits(fs[..|fs| - 1], k);
      InitHasId(fs, k - 1);
    }
  }

  lemma {:induction false} InPrecsUsed(fs: seq<PacketFilter>, p: nat)
    ensures p in PrecsUsed(fs) <==> HasPrec(fs, p)
  {
    if fs != [] {
      InPrecsUsed(fs[..|fs| - 1], p);
      InitHasPrec(fs, p);
    }
  }

  lemma {:induction false} IdsCounted(fs: seq<PacketFilter>)
    requires DistinctIds(fs)
    ensures |IdBits(fs)| == LiveCount(fs)
  {
    if fs != [] {
      var init, f := fs[..|fs| - 1], fs[|fs| - 1];
      IdsCounted(init);
      InIdBits(init, BitOf(f));
    }
  }

  lemma {:induction false} PrecsCounted(fs: seq<PacketFilter>)
    requires DistinctPrecs(fs)
    ensures |PrecsUsed(fs)| == LiveCount(fs)
  {
    if fs != [] {
      var init, f := fs[..|fs| - 1], fs[|fs| - 1];
      PrecsCounted(init);
      InPrecsUsed(init, f.precedence);
    }
  }

  /** Four-bit identifiers that differ pairwise number at most sixteen. */
  lemma Pigeonhole(fs: seq<PacketFilter>)
    requires DistinctIds(fs)
    ensures LiveCount(fs) <= MAX_FILTERS
  {
    IdsCounted(fs);
    forall k | k in IdBits(fs) ensures 1 <= k <= MAX_FILTERS {
      InIdBits(fs, k);
    }
    BoundedSize(IdBits(fs), MAX_FILTERS);
  }

  lemma {:induction false} BoundedSize(s: set<nat>, n: nat)
    requires forall k :: k in s ==> 1 <= k <= n
    ensures |s| <= n
  {
    if n == 0 {
      assert s == {};
    } else {
      BoundedSize(s - {n}, n - 1);
    }
  }

  ghost function NonZeroEntries(table: seq<octet>): set<nat> {
    set p | 0 <= p < |table| && table[p] != 0
  }

  /** On a bitmap that agrees, the one bits count the filters. */
  lemma BitmapSize(fs: seq<PacketFilter>, bits: Bitmap)
    requires DistinctIds(fs) && BitsAgree(fs, bits)
    ensures |bits| == LiveCount(fs)
  {
    IdsCounted(fs);
    forall k: nat ensures k in bits <==> k in IdBits(fs) {
      InIdBits(fs, k);
    }
    assert bits == IdBits(fs);
  }

  /** In a table that agrees, the non-zero entries count the filters. */
  lemma TableSize(fs: seq<PacketFilter>, table: seq<octet>)
    requires DistinctPrecs(fs) && TableAgrees(fs, table)
    ensures |NonZeroEntries(table)| == LiveCount(fs)
  {
    hide LiveCount;
    PrecsCounted(fs);
    forall p: nat ensures p in NonZeroEntries(table) <==> p in PrecsUsed(fs) {
      InPrecsUsed(fs, p);
    }
    assert NonZeroEntries(table) == PrecsUsed(fs);
  }

  lemma {:induction false} AppendedCount(fs: seq<PacketFilter>, gs: seq<PacketFilter>)
    ensures LiveCount(fs + gs) == LiveCount(fs) + LiveCount(gs)
  {
    if gs == [] {
      assert fs + gs == fs;
    } else {
      var last := |gs| - 1;
      assert (fs + gs)[..|fs| + last] == fs + gs[..last];
      AppendedCount(fs, gs[..last]);
    }
  }

  lemma {:induction false} AllLiveCount(fs: seq<PacketFilter>)
    requires AllLive(fs)
    ensures LiveCount(fs) == |fs|
  {
    if fs != [] {
      assert forall i :: 0 <= i < |fs| - 1 ==> fs[..|fs| - 1][i] == fs[i];
      AllLiveCount(fs[..|fs| - 1]);
    }
  }

  /** Writing one slot changes the count by what it held and what it holds. */
  lemma {:induction false} UpdatedCount(fs: seq<PacketFilter>, i: nat, f: PacketFilter)
    requires i < |fs|
    ensures LiveCount(fs[i := f]) + (if Live(fs[i]) then 1 else 0) == LiveCount(fs) + if Live(f) then 1 else 0
  {
    var last := |fs| - 1;
    if i == last {
      assert fs[i := f][..last] == fs[..last];
    } else {
      assert fs[i := f][..last] == fs[..last][i := f];
      UpdatedCount(fs[..last], i, f);
    }
  }

  /** So an accepted add never overfills the sixteen slots, although only the old count is tested. */
  lemma AddFits(orig: seq<PacketFilter>, origCount: nat, fs: seq<PacketFilter>)
    requires Distinct(orig) && origCount != MAX_FILTERS && AddCause(orig, origCount, fs, 0) == Success
    ensures LiveCount(orig) + |fs| <= MAX_FILTERS
  {
    AddAccepted(orig, origCount, fs);
    Pigeonhole(orig + fs);
    AppendedCount(orig, fs);
    AllLiveCount(fs);
  }

  // ---------------------------------------------------------------------------
  // The number a bitmap stands for.

  /** The value of the lowest n bits. */
  ghost function Value(b: Bitmap, n: nat): nat {
    if n == 0 then 0 else Value(b, n - 1) + if n - 1 in b then Pow2(n - 1) else 0
  }

  /** Subtracting a word whose bits all occur in the other clears those bits: nothing is borrowed. */
  lemma {:induction false} SubtractionClearsBits(b: Bitmap, removed: Bitmap, n: nat)
    requires removed <= b
    ensures Value(b - removed, n) == Value(b, n) - Value(removed, n)
  {
    if n > 0 {
      SubtractionClearsBits(b, removed, n - 1);
    }
  }

  lemma {:induction false} ZeroMeansNoBits(b: Bitmap, n: nat)
    ensures Value(b, n) == 0 <==> forall k :: k in b ==> k >= n
  {
    if n > 0 {
      ZeroMeansNoBits(b, n - 1);
      if n - 1 !in b {
        assert (forall k :: k in b ==> k >= n) <==> (forall k :: k in b ==> k >= n - 1);
      }
    }
  }
}
