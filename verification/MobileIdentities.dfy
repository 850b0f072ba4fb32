/** Mobile identities (section 10.5.1.4 of 3GPP TS 24.008). */
module MobileIdentities {
  import opened Bits
  import opened Octets
  import opened Tlv
  import opened PlmnLists

  const IDENTITY_IEI: octet := 0x23
  const IDENTITY_MIN_LENGTH: nat := 3

  const IMSI: bits3 := 1
  const IMEI: bits3 := 2
  const IMEISV: bits3 := 3
  const TMSI: bits3 := 4
  const TMGI: bits3 := 5
  const NO_IDENTITY: bits3 := 0

  const EVEN: bit := 0
  const END_MARK: bits4 := 15

  type digits15 = d: seq<bits4> | |d| == 15 witness seq(15, _ => 0)
  type digits17 = d: seq<bits4> | |d| == 17 witness seq(17, _ => 0)

  /** `odd` tells whether the number of digits is odd. */
  datatype Identity =
    | Imsi(odd: bit, digits: digits15)
    | Imei(odd: bit, number: digits15)
    | Imeisv(odd: bit, version: digits17)
    | Tmsi(odd: bit, f: bits4, tmsi: octets4)
    | Tmgi(odd: bit, session: bit, network: bit, service: u32, plmn: Plmn, sessionId: octet)
    | NoIdentity(odd: bit, few: seq<bits4>)

  // ---------------------------------------------------------------------------
  // Digits, two to an octet, the first of them in the lower half

  function Pack(d: seq<bits4>): (s: seq<octet>)
    ensures |s| == |d| / 2
  {
    if |d| < 2 then [] else [Nibbles(d[1], d[0])] + Pack(d[2..])
  }

  function Unpack(s: seq<octet>): (d: seq<bits4>)
    ensures |d| == 2 * |s|
  {
    if s == [] then [] else [s[0] % 16, s[0] / 16] + Unpack(s[1..])
  }

  lemma {:induction false} UnpackPack(d: seq<bits4>)
    requires |d| % 2 == 0
    ensures Unpack(Pack(d)) == d
  {
    if d != [] {
      NibblesRead(d[1], d[0]);
      UnpackPack(d[2..]);
      assert d == [d[0], d[1]] + d[2..];
    }
  }

  lemma {:induction false} PackUnpack(s: seq<octet>)
    ensures Pack(Unpack(s)) == s
  {
    if s != [] {
      NibblesRestored(s[0]);
      PackUnpack(s[1..]);
      assert Unpack(s)[2..] == Unpack(s[1..]);
    }
  }

  function Head(high: bits4, odd: bit, kind: bits3): octet {
    high * 16 + odd * 8 + kind
  }

  lemma HeadRead(high: bits4, odd: bit, kind: bits3)
    ensures var b := Head(high, odd, kind); b / 16 == high && b / 8 % 2 == odd && b % 8 == kind
  {
  }

  lemma HeadRestored(b: octet)
    ensures Head(b / 16, b / 8 % 2, b % 8) == b
  {
    var c := b / 8;
    assert b == 8 * c + b % 8 && c / 2 == b / 16 && c == 2 * (c / 2) + c % 2;
  }

  // ---------------------------------------------------------------------------
  // Encoding

  /** From the sixth digit on, pairs are sent up to the first that starts with an end mark. */
  function Tail(odd: bit, d: seq<bits4>): (r: seq<bits4>)
    ensures |r| % 2 == 0 && |r| <= |d|
  {
    if |d| < 2 || d[0] == END_MARK then []
    else [d[0], if odd != EVEN then d[1] else END_MARK] + Tail(odd, d[2..])
  }

  function Leading(d: digits15): (r: seq<bits4>)
    ensures |r| == 4
  {
    d[1..3] + if d[3] != END_MARK then d[3..5] else [END_MARK, END_MARK]
  }

  /** The digits sent after the first. */
  function SentImsi(odd: bit, d: digits15): (r: seq<bits4>)
    ensures |r| % 2 == 0 && 4 <= |r| <= 14
  {
    Leading(d) + Tail(odd, d[5..])
  }

  function SentImei(odd: bit, d: digits15): (r: seq<bits4>)
    ensures |r| == 14
  {
    d[1..14] + [if odd != EVEN then d[14] else END_MARK]
  }

  /** With an odd number of digits, the last is or-ed into the place of the one before it. */
  function SentImeisv(odd: bit, d: digits17): (r: seq<bits4>)
    ensures |r| == 16
  {
    OrSmall(d[16], d[15], 4);
    d[1..15] + (if odd != EVEN then [Or(d[16], d[15]), 0] else [d[15], END_MARK])
  }

  function IdentityOctets(id: Identity): (s: seq<octet>)
    ensures 1 <= |s| <= 9
  {
    match id
    case Imsi(odd, d) => [Head(d[0], odd, IMSI)] + Pack(SentImsi(odd, d))
    case Imei(odd, d) => [Head(d[0], odd, IMEI)] + Pack(SentImei(odd, d))
    case Imeisv(odd, d) => [Head(d[0], odd, IMEISV)] + Pack(SentImeisv(odd, d))
    case Tmsi(odd, f, tmsi) => [Head(END_MARK, odd, TMSI)] + tmsi
    case Tmgi(odd, session, network, service, plmn, sessionId) =>
      [Head(session * 2 + network, odd, TMGI)] + Octets4(service)[..3] + PlmnOctets(plmn) + [sessionId]
    case NoIdentity(_, _) => [NO_IDENTITY]
  }

  /** Without an identity, one octet is written and three are announced. */
  function IdentityLength(id: Identity): octet {
    if id.NoIdentity? then 3 else |IdentityOctets(id)|
  }

  function IdentityIe(id: Identity, present: bool): seq<octet> {
    (if present then [IDENTITY_IEI] else []) + [IdentityLength(id)] + IdentityOctets(id)
  }

  // ---------------------------------------------------------------------------
  // Decoding

  /** With an even number of digits, every octet from the third on must end in an end mark. */
  predicate EndMarked(d: digits15) {
    d[4] == d[6] == d[8] == d[10] == d[12] == d[14] == END_MARK
  }

  function LoadIdentity(t: seq<octet>, n: nat, strict: bool): Decoded<Identity>
    requires t != []
  {
    var high, odd, kind := t[0] / 16, t[0] / 8 % 2, t[0] % 8;
    if kind == IMSI then
      if n < 8 then Error(TLV_BUFFER_TOO_SHORT)
      else if |t| < 8 then Overrun
      else
        var d := [high] + Unpack(t[1..8]);
        if odd == EVEN && !EndMarked(d) then Error(TLV_VALUE_DOESNT_MATCH) else Ok(Imsi(odd, d), 8)
    else if kind == IMEI then
      if n < 8 then Error(TLV_BUFFER_TOO_SHORT)
      else if |t| < 8 then Overrun
      else
        var d := [high] + Unpack(t[1..8]);
        if odd == EVEN && d[14] != END_MARK then Error(TLV_VALUE_DOESNT_MATCH) else Ok(Imei(odd, d), 8)
    else if kind == IMEISV then
      if n < 9 then Error(TLV_BUFFER_TOO_SHORT)
      else if |t| < 9 then Overrun
      else
        var d := [high] + Unpack(t[1..9]);
        if odd == EVEN && d[16] != END_MARK && strict then Error(TLV_VALUE_DOESNT_MATCH) else Ok(Imeisv(odd, d), 9)
    else if kind == TMSI then
      if n < 5 then Error(TLV_BUFFER_TOO_SHORT)
      else if |t| < 5 then Overrun
      else if high != END_MARK then Error(TLV_VALUE_DOESNT_MATCH)
      else Ok(Tmsi(odd, high, t[1..5]), 5)
    else if kind == TMGI then
      if n < 9 then Error(TLV_BUFFER_TOO_SHORT)
      else if |t| < 8 then Overrun
      else if high >= 8 then Error(TLV_VALUE_DOESNT_MATCH)
      else Ok(Tmgi(odd, high / 2 % 2, high % 2, Value3(t[1..]), LoadPlmn(t[4..]), t[7]), 8)
    else if kind == NO_IDENTITY then
      if n < 1 then Error(TLV_BUFFER_TOO_SHORT)
      else
        var k := if n < 3 then n else 3;
        if |t| < k then Overrun else Ok(NoIdentity(odd, [high] + Unpack(t[1..k])), k)
    else Error(TLV_VALUE_DOESNT_MATCH)
  }

  function LoadIdentityIe(s: seq<octet>, present: bool, len: nat, strict: bool): Decoded<Identity> {
    var at := if present then 1 else 0;
    if len < IDENTITY_MIN_LENGTH - 1 + at then Error(TLV_BUFFER_TOO_SHORT)
    else if |s| < at then Overrun
    else if present && s[0] != IDENTITY_IEI then Error(TLV_UNEXPECTED_IEI)
    else if |s| < at + 2 then Overrun
    else if len - at - 1 < s[at] as nat then Error(TLV_BUFFER_TOO_SHORT)
    else
      match LoadIdentity(s[at + 1..], s[at], strict)
      case Ok(id, size) => Ok(id, at + 1 + size)
      case Error(code) => Error(code)
      case Overrun => Overrun
  }

  // ---------------------------------------------------------------------------
  // Which identities come back

  /** Nothing before the end is an end mark, unless it is followed by another in the same octet. */
  ghost predicate Unbroken(odd: bit, d: digits15) {
    && (d[3] == END_MARK ==> d[4] == END_MARK)
    && (forall i :: 5 <= i < 15 && i % 2 == 1 ==> d[i] != END_MARK)
    && (odd == EVEN ==> EndMarked(d))
  }

  ghost predicate Restorable(id: Identity) {
    match id
    case Imsi(odd, d) => Unbroken(odd, d)
    case Imei(odd, d) => odd == EVEN ==> d[14] == END_MARK
    case Imeisv(odd, d) => d[16] == if odd == EVEN then END_MARK else 0
    case Tmsi(_, f, _) => f == END_MARK
    case Tmgi(_, _, _, _, _, _) => false
    case NoIdentity(_, _) => false
  }

  lemma {:induction false} TailWhole(odd: bit, d: seq<bits4>)
    requires |d| % 2 == 0
    ensures Tail(odd, d) == d <==>
      && (forall i :: 0 <= i < |d| && i % 2 == 0 ==> d[i] != END_MARK)
      && (odd == EVEN ==> forall i :: 0 <= i < |d| && i % 2 == 1 ==> d[i] == END_MARK)
  {
    if d != [] {
      var e := d[2..];
      TailWhole(odd, e);
      assert d == [d[0], d[1]] + e;
      forall i | 0 <= i < |e| ensures d[i + 2] == e[i] && (i + 2) % 2 == i % 2 {}
      if d[0] != END_MARK {
        assert Tail(odd, d)[2..] == Tail(odd, e);
      }
    }
  }

  lemma SentWhole(odd: bit, d: digits15)
    ensures (|SentImsi(odd, d)| == 14 && [d[0]] + SentImsi(odd, d) == d && (odd == EVEN ==> EndMarked(d))) <==>
      Unbroken(odd, d)
  {
    hide Tail;
    var e, tail := d[5..], Tail(odd, d[5..]);
    TailWhole(odd, e);
    forall i | 0 <= i < 10 ensures e[i] == d[i + 5] && i % 2 == 1 - (i + 5) % 2 {}
    assert forall i :: 5 <= i < 15 ==> d[i] == e[i - 5];
    assert (forall i :: 0 <= i < 10 && i % 2 == 0 ==> e[i] != END_MARK) <==>
      forall i :: 5 <= i < 15 && i % 2 == 1 ==> d[i] != END_MARK;
    var sent := SentImsi(odd, d);
    assert |sent| == 14 ==> ([d[0]] + sent)[5..] == tail;
    assert ([d[0]] + sent)[3..5] == [sent[2], sent[3]];
  }

  /** An identity as it is read back from the octets sent. */
  lemma ImsiBack(odd: bit, d: digits15, rest: seq<octet>, strict: bool)
    ensures var o := IdentityOctets(Imsi(odd, d));
      LoadIdentity(o + rest, |o|, strict) == Ok(Imsi(odd, d), |o|) <==> Unbroken(odd, d)
  {
    hide SentImsi, Unbroken, EndMarked, Head, Pack, Unpack;
    var o, sent := IdentityOctets(Imsi(odd, d)), SentImsi(odd, d);
    HeadRead(d[0], odd, IMSI);
    SentWhole(odd, d);
    UnpackPack(sent);
    if |o| >= 8 {
      assert (o + rest)[1..8] == Pack(sent);
    }
  }

  lemma ImeiBack(odd: bit, d: digits15, rest: seq<octet>, strict: bool)
    ensures var o := IdentityOctets(Imei(odd, d));
      LoadIdentity(o + rest, |o|, strict) == Ok(Imei(odd, d), |o|) <==> Restorable(Imei(odd, d))
  {
    hide Head, Pack, Unpack;
    var o, sent := IdentityOctets(Imei(odd, d)), SentImei(odd, d);
    HeadRead(d[0], odd, IMEI);
    UnpackPack(sent);
    assert (o + rest)[1..8] == Pack(sent);
    assert ([d[0]] + sent)[14] == sent[13];
    assert [d[0]] + sent == d[..14] + [sent[13]] && d == d[..14] + [d[14]];
  }

  lemma ImeisvBack(odd: bit, d: digits17, rest: seq<octet>, strict: bool)
    ensures var o := IdentityOctets(Imeisv(odd, d));
      LoadIdentity(o + rest, |o|, strict) == Ok(Imeisv(odd, d), |o|) <==> Restorable(Imeisv(odd, d))
  {
    hide Head, Pack, Unpack, Or;
    var o, sent := IdentityOctets(Imeisv(odd, d)), SentImeisv(odd, d);
    HeadRead(d[0], odd, IMEISV);
    UnpackPack(sent);
    OrZero(d[15]);
    assert (o + rest)[1..9] == Pack(sent);
    assert ([d[0]] + sent)[15] == sent[14] && ([d[0]] + sent)[16] == sent[15];
    assert [d[0]] + sent == d[..15] + [sent[14], sent[15]] && d == d[..15] + [d[15], d[16]];
  }

  lemma OthersBack(id: Identity, rest: seq<octet>, strict: bool)
    requires id.Tmsi? || id.Tmgi? || id.NoIdentity?
    ensures var o := IdentityOctets(id);
      LoadIdentity(o + rest, IdentityLength(id), strict) == Ok(id, |o|) <==> Restorable(id)
  {
  }

  /** An identity comes back, from its own octets, exactly when it is restorable. */
  lemma IdentityBack(id: Identity, rest: seq<octet>, strict: bool)
    ensures LoadIdentity(IdentityOctets(id) + rest, IdentityLength(id), strict) == Ok(id, |IdentityOctets(id)|) <==>
      Restorable(id)
  {
    hide LoadIdentity, IdentityOctets;
    match id
    case Imsi(odd, d) => ImsiBack(odd, d, rest, strict);
    case Imei(odd, d) => ImeiBack(odd, d, rest, strict);
    case Imeisv(odd, d) => ImeisvBack(odd, d, rest, strict);
    case _ => OthersBack(id, rest, strict);
  }

  lemma IdentityIeParts(id: Identity, present: bool, rest: seq<octet>)
    ensures var ie, at := IdentityIe(id, present), if present then 1 else 0;
      && |ie| == at + 1 + |IdentityOctets(id)| && (present ==> (ie + rest)[0] == IDENTITY_IEI)
      && (ie + rest)[at] == IdentityLength(id) && (ie + rest)[at + 1..] == IdentityOctets(id) + rest
  {
    hide IdentityOctets, IdentityLength;
  }

  /**
   * Round trip: whatever follows it in the message, an element is restored exactly when its
   * identity is restorable. Group identities and absent ones never are.
   */
  lemma IdentityRestoredExactly(id: Identity, present: bool, rest: seq<octet>, more: nat, strict: bool)
    requires more <= |rest|
    ensures var ie := IdentityIe(id, present);
      LoadIdentityIe(ie + rest, present, |ie| + more, strict) == Ok(id, |ie|) <==> Restorable(id)
  {
    hide IdentityIe, IdentityOctets, LoadIdentity, Restorable;
    IdentityIeParts(id, present, rest);
    IdentityBack(id, rest, strict);
    NeverBack(id);
  }

  lemma NeverBack(id: Identity)
    ensures IdentityLength(id) as int > |IdentityOctets(id)| ==> !Restorable(id)
  {
  }

  /** The other way, for what the encoder sends of the digits read. */
  lemma DigitsReread(t: seq<octet>, n: nat, kind: bits3, sent: seq<bits4>)
    requires 1 <= n <= |t| && t[0] % 8 == kind && sent == Unpack(t[1..n])
    ensures [Head(t[0] / 16, t[0] / 8 % 2, kind)] + Pack(sent) == t[..n]
  {
    hide Head, Pack, Unpack;
    HeadRestored(t[0]);
    PackUnpack(t[1..n]);
  }

  lemma OctetsReread(t: seq<octet>, n: nat, strict: bool)
    requires t != [] && LoadIdentity(t, n, strict).Ok? && Restorable(LoadIdentity(t, n, strict).value)
    ensures var r := LoadIdentity(t, n, strict); r.size <= |t| && IdentityOctets(r.value) == t[..r.size]
  {
    hide Head, Pack, Unpack, Unbroken, SentImsi, Or;
    match LoadIdentity(t, n, strict).value
    case Imsi(odd, d) =>
      SentWhole(odd, d);
      assert SentImsi(odd, d) == d[1..] == Unpack(t[1..8]);
      DigitsReread(t, 8, IMSI, SentImsi(odd, d));
    case Imei(odd, d) =>
      assert SentImei(odd, d) == d[1..] == Unpack(t[1..8]);
      DigitsReread(t, 8, IMEI, SentImei(odd, d));
    case Imeisv(odd, d) =>
      OrZero(d[15]);
      assert SentImeisv(odd, d) == d[1..] == Unpack(t[1..9]);
      DigitsReread(t, 9, IMEISV, SentImeisv(odd, d));
    case Tmsi(odd, f, tmsi) =>
      HeadRestored(t[0]);
  }

  /**
   * An element is encoded as it was read exactly when the identity is restorable and the length
   * octet announced no more than it takes.
   */
  lemma IdentityReencodedExactly(s: seq<octet>, present: bool, len: nat, strict: bool)
    requires LoadIdentityIe(s, present, len, strict).Ok?
    ensures var r, at := LoadIdentityIe(s, present, len, strict), if present then 1 else 0;
      && r.size <= |s|
      && (IdentityIe(r.value, present) == s[..r.size] <==>
            (Restorable(r.value) && s[at] as int == |IdentityOctets(r.value)|))
  {
    hide IdentityOctets, LoadIdentity, Restorable;
    var at := if present then 1 else 0;
    var t, r := s[at + 1..], LoadIdentityIe(s, present, len, strict);
    var id, k := r.value, r.size - at - 1;
    ReadNoMore(t, s[at], strict);
    assert s[..r.size] == s[..at] + [s[at]] + t[..k];
    if Restorable(id) {
      OctetsReread(t, s[at], strict);
      LengthRight(id);
    }
    if IdentityIe(id, present) == s[..r.size] {
      IdentityIeParts(id, present, []);
      assert IdentityIe(id, present)[at] == s[..r.size][at];
      assert IdentityOctets(id) == IdentityIe(id, present)[at + 1..] == t[..k];
      assert t == IdentityOctets(id) + t[k..];
      IdentityBack(id, t[k..], strict);
      LengthRight(id);
    }
  }

  lemma ReadNoMore(t: seq<octet>, n: nat, strict: bool)
    requires t != [] && LoadIdentity(t, n, strict).Ok?
    ensures LoadIdentity(t, n, strict).size <= |t|
  {
  }

  lemma LengthRight(id: Identity)
    requires Restorable(id)
    ensures IdentityLength(id) as int == |IdentityOctets(id)|
  {
  }
}
