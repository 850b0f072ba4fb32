/**
 * Mobile identities octet by octet (section 10.5.1.4 of 3GPP TS 24.008): an odd number of digits is
 * marked 1, an even one 0, and ends in 15.
 */
module IdentityWire {
  import opened Bits
  import opened Octets
  import opened Tlv
  import opened PlmnLists
  import opened MobileIdentities
  import opened MobileIdentityCoder

  lemma {:induction false} UnpackAt(s: seq<octet>, i: nat)
    requires i < |s|
    ensures Unpack(s)[2 * i] == s[i] % 16 && Unpack(s)[2 * i + 1] == s[i] / 16
  {
    if i > 0 {
      UnpackAt(s[1..], i - 1);
    }
  }

  // ---------------------------------------------------------------------------
  // What is sent

  /** Two halves of an octet. */
  function Halves(high: bits4, low: bits4): octet {
    high as int * 16 + low as int
  }

  lemma {:induction false} PackAt(d: seq<bits4>, i: nat)
    requires 2 * i + 1 < |d|
    ensures Pack(d)[i] == Halves(d[2 * i + 1], d[2 * i])
  {
    if i > 0 {
      PackAt(d[2..], i - 1);
    }
  }

  /** A pair of digits from the sixth on; with an even number, its upper half is filled. */
  function Pair(odd: bit, d: seq<bits4>, k: nat): octet
    requires k + 1 < |d|
  {
    Halves(if odd == 1 then d[k + 1] else 15, d[k])
  }

  lemma {:induction false} TailIs(odd: bit, d: seq<bits4>, n: nat)
    requires |d| % 2 == 0 && 2 * n <= |d| && forall j :: 0 <= j < 2 * n && j % 2 == 0 ==> d[j] != 15
    requires |d| == 2 * n || d[2 * n] == 15
    ensures |Tail(odd, d)| == 2 * n
    ensures forall j :: 0 <= j < 2 * n ==> Tail(odd, d)[j] == if j % 2 == 0 || odd == 1 then d[j] else 15
    decreases n
  {
    hide Tail;
    TailStep(odd, d);
    if n > 0 {
      LaterUnmarked(d, n);
      TailIs(odd, d[2..], n - 1);
      TailJoins(odd, d, Tail(odd, d[2..]), n);
    }
  }

  lemma LaterUnmarked(d: seq<bits4>, n: nat)
    requires 0 < 2 * n <= |d| && forall j :: 0 <= j < 2 * n && j % 2 == 0 ==> d[j] != 15
    ensures d[0] != 15 && forall j :: 0 <= j < 2 * n - 2 && j % 2 == 0 ==> d[2..][j] != 15
  {
    forall j | 0 <= j < 2 * n - 2 && j % 2 == 0 ensures d[2..][j] != 15 {
      assert d[2..][j] == d[j + 2] && (j + 2) % 2 == 0;
    }
  }

  lemma TailJoins(odd: bit, d: seq<bits4>, r: seq<bits4>, n: nat)
    requires 0 < 2 * n <= |d| && |r| == 2 * n - 2
    requires forall j :: 0 <= j < 2 * n - 2 ==> r[j] == if j % 2 == 0 || odd == 1 then d[2..][j] else 15
    ensures var t := [d[0], if odd == 1 then d[1] else 15] + r;
      forall j :: 0 <= j < 2 * n ==> t[j] == if j % 2 == 0 || odd == 1 then d[j] else 15
  {
    var t := [d[0], if odd == 1 then d[1] else 15] + r;
    forall j | 2 <= j < 2 * n ensures t[j] == if j % 2 == 0 || odd == 1 then d[j] else 15 {
      assert t[j] == r[j - 2] && d[2..][j - 2] == d[j] && (j - 2) % 2 == j % 2;
    }
  }

  lemma TailStep(odd: bit, d: seq<bits4>)
    ensures Tail(odd, d) ==
      if |d| < 2 || d[0] == 15 then [] else [d[0], if odd == 1 then d[1] else 15] + Tail(odd, d[2..])
  {
  }

  /**
   * An IMSI, for all its digits: the first three octets, and then n pairs, up to the first that starts
   * with 15.
   */
  lemma ImsiSpelled(odd: bit, d: digits15, n: nat)
    requires n <= 5 && (forall k :: 5 <= k < 5 + 2 * n && k % 2 == 1 ==> d[k] != 15) && (n == 5 || d[5 + 2 * n] == 15)
    ensures var o := IdentityOctets(Imsi(odd, d));
      && |o| == 3 + n
      && o[0] == Halves(d[0], if odd == 1 then 9 else 1) && o[1] == Halves(d[2], d[1])
      && o[2] == (if d[3] == 15 then 0xFF else Halves(d[4], d[3]))
      && forall i :: 3 <= i < 3 + n ==> o[i] == Pair(odd, d, 2 * i - 1)
  {
    hide Tail, Pack, SentImsi, Head, Halves;
    SentIs(odd, d, n);
    HeadIs(d[0], odd, 1);
    var sent := SentImsi(odd, d);
    PackAt(sent, 0);
    PackAt(sent, 1);
    BothMarks();
    forall i | 3 <= i < 3 + n ensures Pack(sent)[i - 1] == Pair(odd, d, 2 * i - 1) {
      PackAt(sent, i - 1);
    }
  }

  lemma HeadIs(high: bits4, odd: bit, kind: bits3)
    ensures Head(high, odd, kind) == Halves(high, if odd == 1 then 8 + kind as int else kind)
  {
  }

  lemma BothMarks()
    ensures Halves(15, 15) == 0xFF
  {
  }

  lemma SentIs(odd: bit, d: digits15, n: nat)
    requires n <= 5 && (forall k :: 5 <= k < 5 + 2 * n && k % 2 == 1 ==> d[k] != 15) && (n == 5 || d[5 + 2 * n] == 15)
    ensures var sent := SentImsi(odd, d);
      && |sent| == 4 + 2 * n && sent[0] == d[1] && sent[1] == d[2]
      && sent[2] == d[3] && sent[3] == (if d[3] == 15 then 15 else d[4])
      && forall j :: 4 <= j < 4 + 2 * n ==> sent[j] == if j % 2 == 0 || odd == 1 then d[j + 1] else 15
  {
    hide Tail;
    var e := d[5..];
    assert forall j :: 0 <= j < 10 ==> e[j] == d[5 + j] && (j % 2 == 0 <==> (5 + j) % 2 == 1);
    TailIs(odd, e, n);
    forall j | 4 <= j < 4 + 2 * n ensures SentImsi(odd, d)[j] == Tail(odd, e)[j - 4] && (j - 4) % 2 == j % 2 {
    }
  }

  /** In particular, fifteen digits below 15. */
  lemma ImsiOfDigits(d: digits15)
    requires forall i :: 0 <= i < 15 ==> d[i] != 15
    ensures IdentityOctets(Imsi(1, d)) ==
      [Halves(d[0], 9), Halves(d[2], d[1]), Halves(d[4], d[3]), Halves(d[6], d[5]),
       Halves(d[8], d[7]), Halves(d[10], d[9]), Halves(d[12], d[11]), Halves(d[14], d[13])]
    ensures IdentityOctets(Imsi(0, d)) ==
      [Halves(d[0], 1), Halves(d[2], d[1]), Halves(d[4], d[3]), Halves(15, d[5]),
       Halves(15, d[7]), Halves(15, d[9]), Halves(15, d[11]), Halves(15, d[13])]
  {
    hide IdentityOctets;
    ImsiSpelled(1, d, 5);
    ImsiSpelled(0, d, 5);
  }

  lemma ImeiSpelled(odd: bit, d: digits15)
    ensures IdentityOctets(Imei(odd, d)) ==
      [Halves(d[0], if odd == 1 then 10 else 2), Halves(d[2], d[1]), Halves(d[4], d[3]), Halves(d[6], d[5]),
       Halves(d[8], d[7]), Halves(d[10], d[9]), Halves(d[12], d[11]), Halves(if odd == 1 then d[14] else 15, d[13])]
  {
    hide Pack, Head;
    HeadIs(d[0], odd, 2);
    var sent := SentImei(odd, d);
    SevenPairs(sent);
  }

  lemma SevenPairs(d: seq<bits4>)
    requires |d| == 14
    ensures Pack(d) == [Halves(d[1], d[0]), Halves(d[3], d[2]), Halves(d[5], d[4]), Halves(d[7], d[6]),
                        Halves(d[9], d[8]), Halves(d[11], d[10]), Halves(d[13], d[12])]
  {
    hide Pack;
    PackAt(d, 0);
    PackAt(d, 1);
    PackAt(d, 2);
    PackAt(d, 3);
    PackAt(d, 4);
    PackAt(d, 5);
    PackAt(d, 6);
  }

  /** The last digit of an odd IMEISV is or-ed into the one before it. */
  lemma ImeisvSpelled(odd: bit, d: digits17)
    ensures Or(d[16], d[15]) < 16
    ensures IdentityOctets(Imeisv(odd, d)) ==
      [Halves(d[0], if odd == 1 then 11 else 3), Halves(d[2], d[1]), Halves(d[4], d[3]), Halves(d[6], d[5]),
       Halves(d[8], d[7]), Halves(d[10], d[9]), Halves(d[12], d[11]), Halves(d[14], d[13]),
       if odd == 1 then Or(d[16], d[15]) else Halves(15, d[15])]
  {
    hide Pack, Or, SentImeisv, Head;
    OrSmall(d[16], d[15], 4);
    SentImeisvIs(odd, d);
    HeadIs(d[0], odd, 3);
    EightPairs(SentImeisv(odd, d));
  }

  lemma SentImeisvIs(odd: bit, d: digits17)
    ensures var sent := SentImeisv(odd, d);
      && |sent| == 16 && (forall j :: 0 <= j < 14 ==> sent[j] == d[j + 1])
      && sent[14] == (if odd == 1 then Or(d[16], d[15]) else d[15]) && sent[15] == if odd == 1 then 0 else 15
  {
    hide Or;
  }

  lemma EightPairs(d: seq<bits4>)
    requires |d| == 16
    ensures Pack(d) == [Halves(d[1], d[0]), Halves(d[3], d[2]), Halves(d[5], d[4]), Halves(d[7], d[6]),
                        Halves(d[9], d[8]), Halves(d[11], d[10]), Halves(d[13], d[12]), Halves(d[15], d[14])]
  {
    hide Pack, Halves;
    assert d == d[..14] + d[14..];
    PackSum(d[..14], d[14..]);
    SevenPairs(d[..14]);
    PackAt(d[14..], 0);
    assert |Pack(d[14..])| == 1;
  }

  /** The others: a TMSI is marked 15, a TMGI carries its service in three octets, and none is one octet of three. */
  lemma OthersSpelled(odd: bit, f: bits4, t: octets4, session: bit, network: bit, service: u32, p: Plmn, id: octet,
                      few: seq<bits4>)
    ensures IdentityOctets(Tmsi(odd, f, t)) == [if odd == 1 then 0xFC else 0xF4, t[0], t[1], t[2], t[3]]
    ensures IdentityOctets(Tmgi(odd, session, network, service, p, id)) ==
      [session as int * 32 + network as int * 16 + (if odd == 1 then 13 else 5),
       service / 0x100_0000, service / 0x1_0000 % 0x100, service / 0x100 % 0x100,
       Halves(p.mcc2, p.mcc1), Halves(p.mnc3, p.mcc3), Halves(p.mnc2, p.mnc1), id]
    ensures IdentityOctets(NoIdentity(odd, few)) == [0] && IdentityLength(NoIdentity(odd, few)) == 3
  {
  }

  /** The element: an identifier if asked for, the length, the identity. */
  lemma IdentityElementSpelled(id: Identity, present: bool)
    ensures IdentityIe(id, present) == (if present then [0x23] else []) +
      [if id.NoIdentity? then 3 else |IdentityOctets(id)|] + IdentityOctets(id)
  {
  }

  /** Most kinds ask for the room they take; a group identity asks for one octet more, and an IMSI for none. */
  lemma RoomAgainstSize(id: Identity)
    ensures RoomAsked(id) == if id.Imsi? then 0 else |IdentityOctets(id)| + if id.Tmgi? then 1 else 0
  {
    hide Pack;
  }

  // ---------------------------------------------------------------------------
  // What is read: the lower three bits of the first octet are the kind

  lemma FifteenDigits(t: seq<octet>)
    requires |t| >= 8
    ensures [t[0] / 16] + Unpack(t[1..8]) ==
      [t[0] / 16, t[1] % 16, t[1] / 16, t[2] % 16, t[2] / 16, t[3] % 16, t[3] / 16, t[4] % 16,
       t[4] / 16, t[5] % 16, t[5] / 16, t[6] % 16, t[6] / 16, t[7] % 16, t[7] / 16]
  {
    hide Unpack;
    var s := t[1..8];
    UnpackAt(s, 0);
    UnpackAt(s, 1);
    UnpackAt(s, 2);
    UnpackAt(s, 3);
    UnpackAt(s, 4);
    UnpackAt(s, 5);
    UnpackAt(s, 6);
  }

  /** 1: an even number of digits is refused unless the last six octets, but for two, end in 15. */
  lemma ImsiRead(t: seq<octet>, n: nat, strict: bool)
    requires |t| >= 8 && t[0] % 8 == 1
    ensures LoadIdentity(t, n, strict) ==
      if n < 8 then Error(-12)
      else if t[0] / 8 % 2 == 0
        && !(t[2] / 16 == t[3] / 16 == t[4] / 16 == t[5] / 16 == t[6] / 16 == t[7] / 16 == 15) then Error(-4)
      else
        Ok(Imsi(t[0] / 8 % 2,
                [t[0] / 16, t[1] % 16, t[1] / 16, t[2] % 16, t[2] / 16, t[3] % 16, t[3] / 16, t[4] % 16,
                 t[4] / 16, t[5] % 16, t[5] / 16, t[6] % 16, t[6] / 16, t[7] % 16, t[7] / 16]), 8)
  {
    hide Unpack;
    FifteenDigits(t);
  }

  /** 2: an even number of digits is refused unless it ends in 15. */
  lemma ImeiRead(t: seq<octet>, n: nat, strict: bool)
    requires |t| >= 8 && t[0] % 8 == 2
    ensures LoadIdentity(t, n, strict) ==
      if n < 8 then Error(-12)
      else if t[0] / 8 % 2 == 0 && t[7] / 16 != 15 then Error(-4)
      else
        Ok(Imei(t[0] / 8 % 2,
                [t[0] / 16, t[1] % 16, t[1] / 16, t[2] % 16, t[2] / 16, t[3] % 16, t[3] / 16, t[4] % 16,
                 t[4] / 16, t[5] % 16, t[5] / 16, t[6] % 16, t[6] / 16, t[7] % 16, t[7] / 16]), 8)
  {
    hide Unpack;
    FifteenDigits(t);
  }

  /** 3: likewise, if the end mark is asked for. */
  lemma ImeisvRead(t: seq<octet>, n: nat, strict: bool)
    requires |t| >= 9 && t[0] % 8 == 3
    ensures LoadIdentity(t, n, strict) ==
      if n < 9 then Error(-12)
      else if t[0] / 8 % 2 == 0 && t[8] / 16 != 15 && strict then Error(-4)
      else
        Ok(Imeisv(t[0] / 8 % 2,
                  [t[0] / 16, t[1] % 16, t[1] / 16, t[2] % 16, t[2] / 16, t[3] % 16, t[3] / 16, t[4] % 16,
                   t[4] / 16, t[5] % 16, t[5] / 16, t[6] % 16, t[6] / 16, t[7] % 16, t[7] / 16,
                   t[8] % 16, t[8] / 16]), 9)
  {
    hide Unpack;
    FifteenDigits(t);
    UnpackAppend(t[1..8], t[8]);
    assert t[1..9] == t[1..8] + [t[8]];
    AppendAssociates([t[0] / 16], Unpack(t[1..8]), [t[8] % 16, t[8] / 16]);
    assert |[t[0] / 16] + Unpack(t[1..9])| == 17;
    assert [t[0] / 16] + Unpack(t[1..9]) ==
      [t[0] / 16, t[1] % 16, t[1] / 16, t[2] % 16, t[2] / 16, t[3] % 16, t[3] / 16, t[4] % 16,
       t[4] / 16, t[5] % 16, t[5] / 16, t[6] % 16, t[6] / 16, t[7] % 16, t[7] / 16, t[8] % 16, t[8] / 16];
  }

  /** 4, 5 and 0; other kinds are refused. */
  lemma OthersRead(t: seq<octet>, n: nat, strict: bool)
    requires |t| >= 8 && t[0] % 8 !in {1, 2, 3}
    ensures var high, odd := t[0] / 16, t[0] / 8 % 2;
      LoadIdentity(t, n, strict) ==
        match t[0] % 8
        case 4 =>
          if n < 5 then Error(-12) else if high != 15 then Error(-4)
          else Ok(Tmsi(odd, 15, [t[1], t[2], t[3], t[4]]), 5)
        case 5 =>
          if n < 9 then Error(-12) else if high >= 8 then Error(-4)
          else
            Ok(Tmgi(odd, t[0] / 32 % 2, t[0] / 16 % 2, t[1] as int * 0x1_0000 + t[2] as int * 0x100 + t[3] as int,
                    Plmn(t[4] % 16, t[4] / 16, t[5] % 16, t[6] % 16, t[6] / 16, t[5] / 16), t[7]), 8)
        case 0 =>
          if n < 1 then Error(-12)
          else if n == 1 then Ok(NoIdentity(odd, [high]), 1)
          else if n == 2 then Ok(NoIdentity(odd, [high, t[1] % 16, t[1] / 16]), 2)
          else Ok(NoIdentity(odd, [high, t[1] % 16, t[1] / 16, t[2] % 16, t[2] / 16]), 3)
        case _ => Error(-4)
  {
    if t[0] % 8 == 4 {
      assert t[1..5] == [t[1], t[2], t[3], t[4]];
    } else if t[0] % 8 == 0 && n > 0 {
      hide Unpack;
      FewDigits(t);
      assert [t[0] / 16] + [] == [t[0] / 16];
      assert [t[0] / 16] + [t[1] % 16, t[1] / 16] == [t[0] / 16, t[1] % 16, t[1] / 16];
      assert [t[0] / 16] + [t[1] % 16, t[1] / 16, t[2] % 16, t[2] / 16] ==
        [t[0] / 16, t[1] % 16, t[1] / 16, t[2] % 16, t[2] / 16];
      assert n == 1 || n == 2 || n >= 3;
    }
  }

  lemma FewDigits(t: seq<octet>)
    requires |t| >= 3
    ensures Unpack(t[1..1]) == [] && Unpack(t[1..2]) == [t[1] % 16, t[1] / 16]
    ensures Unpack(t[1..3]) == [t[1] % 16, t[1] / 16, t[2] % 16, t[2] / 16]
  {
    assert t[1..2] == [] + [t[1]] && t[1..3] == t[1..2] + [t[2]];
    UnpackAppend([], t[1]);
    UnpackAppend(t[1..2], t[2]);
  }

  /** The element is refused before the identity is read. */
  lemma IdentityRefused(s: seq<octet>, present: bool, len: nat, strict: bool)
    requires |s| >= if present then 3 else 2
    ensures var at := if present then 1 else 0;
      LoadIdentityIe(s, present, len, strict) ==
        if len < 2 + at then Error(-12)
        else if present && s[0] != 0x23 then Error(-2)
        else if s[at] as int > len - at - 1 then Error(-12)
        else
          match LoadIdentity(if present then s[2..] else s[1..], s[at], strict)
          case Ok(id, size) => Ok(id, at + 1 + size)
          case Error(code) => Error(code)
          case Overrun => Overrun
  {
    hide LoadIdentity;
  }
}
