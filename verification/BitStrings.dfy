/** Numbers held in ASN.1 bit strings, whose last octet may end in unused bits. */
module BitStrings {
  import opened Octets
  import opened Bits

  datatype BitString = BitString(buf: seq<octet>, unused: nat)

  /**
   * A size that the routine is not meant for aborts the program; a shift past what an int holds is
   * not defined.
   */
  datatype Extracted<T> = Number(value: T) | Aborted | Undefined

  const INT_END := 0x8000_0000

  /** The octets as one big-endian number. */
  function Big(s: seq<octet>): nat {
    if s == [] then 0 else Big(s[..|s| - 1]) * 0x100 + s[|s| - 1] as int
  }

  /** The number the bit string stands for: the unused bits are cut off. */
  function Extract(bits: BitString): nat {
    ShiftRight(Big(bits.buf), bits.unused)
  }

  /** It is the quotient by 2 to the power of the unused bits, rounded down. */
  lemma ExtractDivides(bits: BitString)
    ensures Extract(bits) == Big(bits.buf) / Pow2(bits.unused)
  {
    ShiftRightDivides(Big(bits.buf), bits.unused);
  }

  /** The number of one to four octets, divided by 1, 2, 4 up to 128. */
  lemma ExtractSpelled(bits: BitString)
    requires 1 <= |bits.buf| <= 4 && bits.unused <= 7
    ensures var b, p := bits.buf, [1, 2, 4, 8, 16, 32, 64, 128][bits.unused];
      Extract(bits) ==
        (if |b| == 1 then b[0] as int
         else if |b| == 2 then b[0] as int * 0x100 + b[1] as int
         else if |b| == 3 then b[0] as int * 0x1_0000 + b[1] as int * 0x100 + b[2] as int
         else b[0] as int * 0x100_0000 + b[1] as int * 0x1_0000 + b[2] as int * 0x100 + b[3] as int) / p
  {
    hide Extract, Big, Pow2;
    var b := bits.buf;
    ExtractDivides(bits);
    SmallPowers();
    BigNothing(0);
    assert b[..0] == [] && b[..|b|] == b;
    BigNext(b, 0);
    if |b| > 1 {
      BigNext(b, 1);
    }
    if |b| > 2 {
      BigNext(b, 2);
    }
    if |b| > 3 {
      BigNext(b, 3);
    }
  }

  lemma SmallPowers()
    ensures forall k :: 0 <= k <= 7 ==> Pow2(k) == [1, 2, 4, 8, 16, 32, 64, 128][k]
  {
    assert Pow2(3) == 8;
    assert Pow2(6) == 64;
  }

  lemma {:induction false} BigBound(s: seq<octet>)
    ensures Big(s) < Pow2(8 * |s|)
  {
    if s != [] {
      BigBound(s[..|s| - 1]);
      Pow2Sum(8, 8 * (|s| - 1));
      assert Pow2(8) == 0x100;
    }
  }

  /** What the octets in front of the last k make up, in its final place, fits a word of all of them. */
  lemma PrefixFits(s: seq<octet>, k: nat, unused: nat)
    requires unused <= 8 * k
    ensures ShiftLeft(Big(s), 8 * k - unused) < Pow2(8 * (|s| + k))
  {
    hide Big, Pow2;
    BigBound(s);
    Pow2Sum(8 * |s|, 8 * k);
    Pow2Sum(unused, 8 * k - unused);
    Larger(Big(s), Pow2(8 * |s|), Pow2(8 * k - unused), Pow2(8 * k), Pow2(unused));
  }

  lemma Larger(a: nat, b: nat, p: nat, q: nat, r: nat)
    requires a < b && r > 0 && p > 0 && q == r * p
    ensures a * p < b * q
  {
    assert q >= p;
    assert a * p < b * p <= b * q;
  }

  /** The extracted number fits the word that the octets fill. */
  lemma ExtractFits(bits: BitString, n: nat)
    requires |bits.buf| <= n
    ensures Extract(bits) < Pow2(8 * n)
  {
    hide *;
    BigBound(bits.buf);
    ExtractBelow(bits);
    var m := 8 * |bits.buf|;
    Pow2Sum(m, 8 * n - m);
    Below(Extract(bits), Pow2(bits.unused), Big(bits.buf), Pow2(m), Pow2(8 * n - m));
  }

  lemma ExtractBelow(bits: BitString)
    ensures Extract(bits) * Pow2(bits.unused) <= Big(bits.buf)
  {
    hide Big, Pow2;
    ShiftRightBounds(Big(bits.buf), bits.unused);
  }

  lemma Below(x: nat, p: nat, b: nat, u: nat, r: nat)
    requires x * p <= b < u && p > 0 && r > 0
    ensures x < u * r
  {
    Grows(x, p);
    Grows(u, r);
  }

  lemma Grows(x: nat, p: nat)
    requires p > 0
    ensures x <= x * p
  {
  }

  lemma Widths()
    ensures Pow2(8) == 0x100 && Pow2(16) == 0x1_0000 && Pow2(32) == 0x1_0000_0000
  {
    assert Pow2(4) == 16;
    hide Pow2;
    Pow2Sum(4, 4);
    Pow2Sum(8, 8);
    Pow2Sum(16, 16);
  }

  /** One more octet, of which `shift` bits are still to come. */
  lemma NextJoins(high: nat, next: octet, shift: nat)
    ensures Or(ShiftLeft(high, shift + 8), ShiftLeft(next, shift)) == ShiftLeft(high * 0x100 + next as int, shift)
  {
    hide Or, Pow2;
    Widths();
    Pow2Sum(8, shift);
    var p := Pow2(shift);
    assert next * p < 0x100 * p;
    OrDisjoint(high, next * p, shift + 8);
    assert high * (0x100 * p) == high * 0x100 * p;
  }

  /** The last octet loses its unused bits. */
  lemma LastJoins(high: nat, last: octet, unused: nat)
    requires unused <= 7
    ensures Or(ShiftLeft(high, 8 - unused), ShiftRight(last, unused)) == ShiftRight(high * 0x100 + last as int, unused)
  {
    hide *;
    Widths();
    ByteLeft(high);
    ShiftLeftTwice(high, 8 - unused, unused);
    ShiftRightAdds(ShiftLeft(high, 8 - unused), last, unused);
    ShiftRightBound(last, 8 - unused, unused);
    OrShifted(high, ShiftRight(last, unused), 8 - unused);
  }

  lemma ByteLeft(high: nat)
    ensures ShiftLeft(high, 8) == high * 0x100
  {
    hide Pow2;
    Widths();
  }

  lemma BigNext(s: seq<octet>, i: nat)
    requires i < |s|
    ensures Big(s[..i + 1]) == Big(s[..i]) * 0x100 + s[i] as int
  {
    assert s[..i + 1][..i] == s[..i];
  }

  lemma BigNothing(n: nat)
    ensures Big([]) == 0 && ShiftLeft(0, n) == 0
  {
  }

  method ToUint8(bits: BitString) returns (r: Extracted<octet>)
    requires bits.unused <= 7
    ensures r == if |bits.buf| == 1 then Number(Extract(bits)) else Aborted
  {
    if |bits.buf| != 1 {
      return Aborted;
    }
    hide ShiftRight, Pow2, Big;
    BigNothing(0);
    BigNext(bits.buf, 0);
    assert bits.buf[..0] == [] && bits.buf[..1] == bits.buf;
    ExtractFits(bits, 1);
    Widths();
    r := Number(ShiftRight(bits.buf[0], bits.unused));
  }

  method ToUint16(bits: BitString) returns (r: Extracted<u16>)
    requires bits.unused <= 7
    ensures r == if 1 <= |bits.buf| <= 2 then Number(Extract(bits)) else Aborted
  {
    hide Or, Pow2, ShiftRight, ShiftLeft, Big;
    var size := |bits.buf|;
    if size < 1 || size > 2 {
      return Aborted;
    }
    ghost var shift := 8 - bits.unused;
    var result: u16, index := 0, 0;
    BigNothing(shift + 8);
    BigNothing(shift);
    assert bits.buf[..0] == [] && bits.buf[..size] == bits.buf;
    Widths();
    if size == 2 {
      NextJoins(0, bits.buf[0], shift);
      BigNext(bits.buf, 0);
      PrefixFits(bits.buf[..1], 1, bits.unused);
      result := Or(result, ShiftLeft(bits.buf[index], 8 - bits.unused));
      index := index + 1;
    }
    LastJoins(Big(bits.buf[..index]), bits.buf[index], bits.unused);
    BigNext(bits.buf, index);
    ExtractFits(bits, 2);
    result := Or(result, ShiftRight(bits.buf[index], bits.unused));
    r := Number(result);
  }

  /** Four octets that use all their bits, and the highest of them: the first is shifted out of an int. */
  predicate ShiftedOut(bits: BitString) {
    |bits.buf| == 4 && bits.unused == 0 && bits.buf[0] >= 0x80
  }

  method ToUint32(bits: BitString) returns (r: Extracted<u32>)
    requires bits.unused <= 7
    ensures r ==
      if |bits.buf| < 1 || |bits.buf| > 4 then Aborted
      else if ShiftedOut(bits) then Undefined
      else Number(Extract(bits))
  {
    hide Or, Pow2, ShiftRight, ShiftLeft, Big;
    var size := |bits.buf|;
    if size < 1 || size > 4 {
      return Aborted;
    }
    var result: u32, shift: int := 0, (size - 1) * 8 - bits.unused;
    BigNothing(shift + 8);
    assert bits.buf[..0] == [] && bits.buf[..size] == bits.buf;
    Widths();
    var index := 0;
    while index < size - 1
      invariant index <= size - 1 && shift == (size - 1 - index) * 8 - bits.unused
      invariant result == ShiftLeft(Big(bits.buf[..index]), shift + 8)
      invariant index > 0 ==> !ShiftedOut(bits)
    {
      NextJoins(Big(bits.buf[..index]), bits.buf[index], shift);
      BigNext(bits.buf, index);
      FitsWord(bits, index + 1);
      ShiftedExactly(bits, index, shift);
      if ShiftLeft(bits.buf[index], shift) >= INT_END {
        return Undefined;
      }
      result := Or(result, ShiftLeft(bits.buf[index], shift));
      shift := shift - 8;
      index := index + 1;
    }
    LastJoins(Big(bits.buf[..index]), bits.buf[index], bits.unused);
    BigNext(bits.buf, index);
    ExtractFits(bits, 4);
    result := Or(result, ShiftRight(bits.buf[index], bits.unused));
    r := Number(result);
  }

  lemma ShiftedExactly(bits: BitString, i: nat, shift: nat)
    requires i < |bits.buf| - 1 <= 3 && bits.unused <= 7 && shift == (|bits.buf| - 1 - i) * 8 - bits.unused
    ensures ShiftLeft(bits.buf[i], shift) >= INT_END <==> i == 0 && ShiftedOut(bits)
  {
    hide Pow2;
    TopPlace();
    if shift < 24 {
      HalfOfTop(shift);
      assert bits.buf[i] * Pow2(shift) <= 0xFF * Pow2(shift);
    }
  }

  lemma TopPlace()
    ensures Pow2(24) == 0x100_0000
  {
    hide Pow2;
    Widths();
    Pow2Sum(16, 8);
  }

  lemma HalfOfTop(shift: nat)
    requires shift < 24
    ensures 2 * Pow2(shift) <= Pow2(24)
  {
    hide Pow2;
    Pow2Step(shift + 1);
    Pow2Sum(shift + 1, 23 - shift);
    Grows(Pow2(shift + 1), Pow2(23 - shift));
  }

  lemma FitsWord(bits: BitString, i: nat)
    requires i < |bits.buf| <= 4 && bits.unused <= 7
    ensures ShiftLeft(Big(bits.buf[..i]), 8 * (|bits.buf| - i) - bits.unused) < 0x1_0000_0000
  {
    hide Big, ShiftLeft, Pow2;
    PrefixFits(bits.buf[..i], |bits.buf| - i, bits.unused);
    Widths();
    Pow2Sum(8 * |bits.buf|, 32 - 8 * |bits.buf|);
    assert Pow2(8 * |bits.buf|) <= Pow2(8 * |bits.buf|) * Pow2(32 - 8 * |bits.buf|);
  }
}
