/** Lists of networks octet by octet (section 10.5.1.13 of 3GPP TS 24.008). */
module PlmnWire {
  import opened Octets
  import opened Tlv
  import opened PlmnLists

  /** Two halves of an octet. */
  function Halves(high: bits4, low: bits4): octet {
    high as int * 16 + low as int
  }

  /** The digits of the country code in order, with the third network digit before the first two. */
  function Digits(ps: seq<Plmn>): seq<octet> {
    if ps == [] then []
    else
      var p := ps[0];
      [Halves(p.mcc2, p.mcc1), Halves(p.mnc3, p.mcc3), Halves(p.mnc2, p.mnc1)] + Digits(ps[1..])
  }

  lemma {:induction false} DigitsSent(ps: seq<Plmn>)
    ensures PlmnsOctets(ps) == Digits(ps)
  {
    if ps != [] {
      DigitsSent(ps[1..]);
    }
  }

  lemma ListSpelled(ps: seq<Plmn>, present: bool)
    requires |ps| <= 15
    ensures ListIe(ps, present) == (if present then [0x4A] else []) + [3 * |ps|] + Digits(ps)
  {
    hide PlmnsOctets, Digits, LowOctet;
    DigitsSent(ps);
    LowOctetSmall(3 * |ps|);
  }

  /** Networks are read while octets are left, fifteen at the most. */
  lemma ListReadExactly(ps: seq<Plmn>, rest: seq<octet>, left: int)
    requires |ps| <= 15 && 3 * |ps| - 3 < left <= 3 * |ps|
    ensures LoadPlmns(Digits(ps) + rest, left, 0) == Ok(ps, 3 * |ps|)
  {
    DigitsSent(ps);
    PlmnsRead(ps, rest, left, 0);
  }

  lemma {:induction false} PlmnsRead(ps: seq<Plmn>, rest: seq<octet>, left: int, n: nat)
    requires n + |ps| <= 15 && 3 * |ps| - 3 < left <= 3 * |ps|
    ensures LoadPlmns(PlmnsOctets(ps) + rest, left, n) == Ok(ps, 3 * |ps|)
    decreases |ps|
  {
    hide LoadPlmn, PlmnOctets;
    if ps != [] {
      PlmnRestored(ps[0], PlmnsOctets(ps[1..]) + rest);
      AppendAssociates(PlmnOctets(ps[0]), PlmnsOctets(ps[1..]), rest);
      var t := PlmnOctets(ps[0]) + (PlmnsOctets(ps[1..]) + rest);
      assert PlmnsOctets(ps) + rest == t && t[3..] == PlmnsOctets(ps[1..]) + rest;
      assert [ps[0]] + ps[1..] == ps;
      if |ps| > 1 {
        PlmnsRead(ps[1..], rest, left - 3, n + 1);
      } else {
        assert LoadPlmns(t[3..], left - 3, n + 1) == Ok([], 0);
      }
    }
  }

  /** A sixteenth network would go beyond the list. */
  lemma {:induction false} SixteenthOverruns(t: seq<octet>, left: int, n: nat)
    requires n <= 15 && left > 3 * (15 - n)
    ensures LoadPlmns(t, left, n) == Overrun
    decreases 15 - n
  {
    hide LoadPlmn;
    if n < 15 && |t| >= 3 {
      SixteenthOverruns(t[3..], left - 3, n + 1);
    }
  }

  /** The element is refused before the networks are read. */
  lemma ListRefused(s: seq<octet>, present: bool, len: nat, before: octet)
    requires |s| >= if present then 2 else 1
    ensures var at := if present then 1 else 0;
      LoadListIe(s, present, len, before) ==
        if len < 3 * before as nat + 1 + at then Error(-12)
        else if present && s[0] != 0x4A then Error(-2)
        else if s[at] as int > len - at - 1 then Error(-12)
        else
          match LoadPlmns(if present then s[2..] else s[1..], len - at - 1, 0)
          case Ok(ps, size) => Ok(ps, at + 1 + size)
          case Error(code) => Error(code)
          case Overrun => Overrun
  {
    hide LoadPlmns;
  }
}
