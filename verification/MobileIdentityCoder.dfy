/** The mobile identity encoders and decoders, working on a buffer of octets. */
module MobileIdentityCoder {
  import opened Octets
  import opened Tlv
  import opened PlmnLists
  import opened MobileIdentities

  // ---------------------------------------------------------------------------
  // Encoding

  lemma {:induction false} PackSum(a: seq<bits4>, b: seq<bits4>)
    requires |a| % 2 == 0
    ensures Pack(a + b) == Pack(a) + Pack(b)
  {
    hide Nibbles;
    if a == [] {
      assert [] + b == b;
    } else {
      var first := [Nibbles(a[1], a[0])];
      PackSum(a[2..], b);
      assert (a + b)[2..] == a[2..] + b && (a + b)[0] == a[0] && (a + b)[1] == a[1];
      assert Pack(a + b) == first + Pack(a[2..] + b);
      AppendAssociates(first, Pack(a[2..]), Pack(b));
    }
  }

  lemma PackPair(low: bits4, high: bits4)
    ensures Pack([low, high]) == [Nibbles(high, low)]
  {
  }

  /** One more pair of digits after those in `done`. */
  method PutPair(low: bits4, high: bits4, buffer: array<octet>, at: nat, ghost base: nat,
      ghost before: seq<octet>, ghost done: seq<bits4>)
    requires |done| % 2 == 0 && at == base + |done| / 2 < buffer.Length
    requires Wrote(before, buffer[..], base, Pack(done), 0)
    modifies buffer
    ensures Wrote(before, buffer[..], base, Pack(done + [low, high]), 0)
  {
    hide Wrote, Pack;
    PackSum(done, [low, high]);
    PackPair(low, high);
    ghost var now := buffer[..];
    PutU8(buffer, at, high * 16 + low);
    WroteMore(before, now, buffer[..], base, Pack(done), [Nibbles(high, low)], 0, 0);
  }

  method PutPairs(d: seq<bits4>, buffer: array<octet>, at: nat)
    requires |d| % 2 == 0 && at + |d| / 2 <= buffer.Length
    modifies buffer
    ensures Wrote(old(buffer[..]), buffer[..], at, Pack(d), 0)
  {
    hide Wrote;
    WroteNothing(buffer[..], at);
    assert d[..0] == [];
    for i := 0 to |d| / 2
      invariant Wrote(old(buffer[..]), buffer[..], at, Pack(d[..2 * i]), 0)
    {
      PutPair(d[2 * i], d[2 * i + 1], buffer, at + i, at, old(buffer[..]), d[..2 * i]);
      assert d[..2 * (i + 1)] == d[..2 * i] + [d[2 * i], d[2 * i + 1]];
    }
    assert d[..2 * (|d| / 2)] == d;
  }

  /** The nested tests of the encoder: the pairs up to the first that starts with an end mark. */
  method PutTail(odd: bit, d: seq<bits4>, buffer: array<octet>, at: nat) returns (n: nat)
    requires at + |Tail(odd, d)| / 2 <= buffer.Length && |d| % 2 == 0
    modifies buffer
    ensures n == |Tail(odd, d)| / 2 && Wrote(old(buffer[..]), buffer[..], at, Pack(Tail(odd, d)), 0)
  {
    hide Wrote, Pack;
    ghost var done: seq<bits4> := [];
    WroteNothing(buffer[..], at);
    NothingPacked();
    assert [] + Tail(odd, d) == Tail(odd, d);
    n := 0;
    while 2 * n < |d| && d[2 * n] != END_MARK
      invariant 2 * n <= |d| && |done| == 2 * n
      invariant done + Tail(odd, d[2 * n..]) == Tail(odd, d)
      invariant Wrote(old(buffer[..]), buffer[..], at, Pack(done), 0)
    {
      var low, high := d[2 * n], if odd != EVEN then d[2 * n + 1] else END_MARK;
      assert d[2 * n..][2..] == d[2 * (n + 1)..];
      AppendAssociates(done, [low, high], Tail(odd, d[2 * (n + 1)..]));
      PutPair(low, high, buffer, at + n, at, old(buffer[..]), done);
      done := done + [low, high];
      n := n + 1;
    }
    assert done + [] == done;
  }

  lemma NothingPacked()
    ensures Pack([]) == []
  {
  }

  lemma ImsiParts(odd: bit, d: digits15)
    ensures var head, tail := [Head(d[0], odd, IMSI)], Tail(odd, d[5..]);
      && IdentityOctets(Imsi(odd, d)) == head + Pack(Leading(d)) + Pack(tail)
      && |IdentityOctets(Imsi(odd, d))| == 3 + |tail| / 2
  {
    hide Pack, Tail, Leading;
    PackSum(Leading(d), Tail(odd, d[5..]));
    AppendAssociates([Head(d[0], odd, IMSI)], Pack(Leading(d)), Pack(Tail(odd, d[5..])));
  }

  method EncodeImsi(odd: bit, d: digits15, buffer: array<octet>, base: nat) returns (encoded: int)
    requires base + |IdentityOctets(Imsi(odd, d))| <= buffer.Length
    modifies buffer
    ensures encoded == |IdentityOctets(Imsi(odd, d))|
    ensures Wrote(old(buffer[..]), buffer[..], base, IdentityOctets(Imsi(odd, d)), 0)
  {
    hide Wrote, Pack, Tail, IdentityOctets, Leading;
    ImsiParts(odd, d);
    EncodeDigits(d[0], odd, IMSI, Leading(d), buffer, base);
    ghost var begun := buffer[..];
    var n := PutTail(odd, d[5..], buffer, base + 3);
    WroteMore(old(buffer[..]), begun, buffer[..], base,
      [Head(d[0], odd, IMSI)] + Pack(Leading(d)), Pack(Tail(odd, d[5..])), 0, 0);
    encoded := 3 + n;
  }

  method EncodeDigits(first: bits4, odd: bit, kind: bits3, sent: seq<bits4>, buffer: array<octet>, base: nat)
    requires |sent| % 2 == 0 && base + 1 + |sent| / 2 <= buffer.Length
    modifies buffer
    ensures Wrote(old(buffer[..]), buffer[..], base, [Head(first, odd, kind)] + Pack(sent), 0)
  {
    hide Wrote;
    PutU8(buffer, base, first * 16 + odd * 8 + kind);
    ghost var headed := buffer[..];
    PutPairs(sent, buffer, base + 1);
    WroteMore(old(buffer[..]), headed, buffer[..], base, [Head(first, odd, kind)], Pack(sent), 0, 0);
  }

  method EncodeTmgi(id: Identity, buffer: array<octet>, base: nat)
    requires id.Tmgi? && base + |IdentityOctets(id)| <= buffer.Length
    modifies buffer
    ensures Wrote(old(buffer[..]), buffer[..], base, IdentityOctets(id), 0)
  {
    assert |Octets4(id.service)| == 4;
    hide Wrote, PlmnOctets, Octets4;
    ghost var a, head := buffer[..], [Head(id.session * 2 + id.network, id.odd, TMGI)];
    PutU8(buffer, base, id.session * 32 + id.network * 16 + id.odd * 8 + TMGI);
    ghost var b := buffer[..];
    PutU24(buffer, base + 1, id.service);
    ghost var c := buffer[..];
    WroteMore(a, b, c, base, head, Octets4(id.service)[..3], 0, 1);
    PutPlmn(id.plmn, buffer, base + 4);
    ghost var d := buffer[..];
    WroteMore(a, c, d, base, head + Octets4(id.service)[..3], PlmnOctets(id.plmn), 1, 0);
    PutU8(buffer, base + 7, id.sessionId);
    WroteMore(a, d, buffer[..], base, head + Octets4(id.service)[..3] + PlmnOctets(id.plmn), [id.sessionId], 0, 0);
  }

  /** Room that the encoder of each kind asks for. */
  function RoomAsked(id: Identity): nat {
    match id
    case Imsi(_, _) => 0
    case Imei(_, _) => 8
    case Imeisv(_, _) => 9
    case Tmsi(_, _, _) => 5
    case Tmgi(_, _, _, _, _, _) => 9
    case NoIdentity(_, _) => 1
  }

  method EncodeIdentity(id: Identity, buffer: array<octet>, base: nat, len: nat) returns (encoded: int)
    requires len >= RoomAsked(id) ==> base + |IdentityOctets(id)| <= buffer.Length
    modifies buffer
    ensures len < RoomAsked(id) ==> encoded == TLV_BUFFER_TOO_SHORT && buffer[..] == old(buffer[..])
    ensures len >= RoomAsked(id) ==> encoded == |IdentityOctets(id)|
    ensures len >= RoomAsked(id) ==> Wrote(old(buffer[..]), buffer[..], base, IdentityOctets(id), 0)
  {
    hide Wrote, Pack, SentImsi;
    if len < RoomAsked(id) {
      return TLV_BUFFER_TOO_SHORT;
    }
    match id {
      case Imsi(odd, d) =>
        encoded := EncodeImsi(odd, d, buffer, base);
      case Imei(odd, d) =>
        EncodeDigits(d[0], odd, IMEI, SentImei(odd, d), buffer, base);
        encoded := 8;
      case Imeisv(odd, d) =>
        EncodeDigits(d[0], odd, IMEISV, SentImeisv(odd, d), buffer, base);
        encoded := 9;
      case Tmsi(odd, _, tmsi) =>
        ghost var before := buffer[..];
        PutU8(buffer, base, 0xF0 + odd * 8 + TMSI);
        ghost var headed := buffer[..];
        PutOctets(buffer, base + 1, tmsi);
        WroteMore(before, headed, buffer[..], base, [Head(END_MARK, odd, TMSI)], tmsi, 0, 0);
        encoded := 5;
      case Tmgi(_, _, _, _, _, _) =>
        EncodeTmgi(id, buffer, base);
        encoded := 8;
      case NoIdentity(_, _) =>
        PutU8(buffer, base, NO_IDENTITY);
        encoded := 1;
    }
  }

  /** The element: its length octet is written last. */
  method EncodeIdentityIe(id: Identity, present: bool, buffer: array<octet>, len: nat) returns (encoded: int)
    requires len >= (if present then 3 else 2) ==> buffer.Length >= 1
    requires var at := if present then 2 else 1;
      len >= 1 + at && len - at >= RoomAsked(id) ==> |IdentityIe(id, present)| <= buffer.Length
    modifies buffer
    ensures var at := if present then 2 else 1;
      && (len < 1 + at || len - at < RoomAsked(id) ==> encoded == TLV_BUFFER_TOO_SHORT)
      && (len < 1 + at ==> buffer[..] == old(buffer[..]))
      && (len >= 1 + at && len - at < RoomAsked(id) ==>
            Wrote(old(buffer[..]), buffer[..], 0, if present then [IDENTITY_IEI] else [], 0))
      && (len >= 1 + at && len - at >= RoomAsked(id) ==> encoded == |IdentityIe(id, present)|)
      && (len >= 1 + at && len - at >= RoomAsked(id) ==>
            Wrote(old(buffer[..]), buffer[..], 0, IdentityIe(id, present), 0))
  {
    hide Wrote, IdentityOctets;
    ghost var before := buffer[..];
    if len < IDENTITY_MIN_LENGTH - (if present then 0 else 1) {
      return TLV_BUFFER_TOO_SHORT;
    }
    var at := PutIei(buffer, IDENTITY_IEI, present);
    ghost var headed := buffer[..];
    var n := EncodeIdentity(id, buffer, at + 1, len - at - 1);
    if n < 0 {
      return n;
    }
    ghost var full := buffer[..];
    buffer[at] := if id.NoIdentity? then 3 else n;
    IeWrote(before, headed, full, if present then [IDENTITY_IEI] else [], IdentityLength(id), IdentityOctets(id));
    encoded := at + 1 + n;
  }

  // ---------------------------------------------------------------------------
  // Decoding

  lemma {:induction false} UnpackAppend(s: seq<octet>, b: octet)
    ensures Unpack(s + [b]) == Unpack(s) + [b % 16, b / 16]
  {
    if s == [] {
      assert [] + [b] == [b] && [b][1..] == [];
    } else {
      UnpackAppend(s[1..], b);
      assert (s + [b])[1..] == s[1..] + [b];
    }
  }

  method GetPairs(buffer: array<octet>, at: nat, n: nat) returns (d: seq<bits4>)
    requires at + n <= buffer.Length
    ensures d == Unpack(buffer[at..at + n])
  {
    d := [];
    for i := 0 to n
      invariant d == Unpack(buffer[at..at + i])
    {
      UnpackAppend(buffer[at..at + i], buffer[at + i]);
      assert buffer[at..at + i + 1] == buffer[at..at + i] + [buffer[at + i]];
      d := d + [buffer[at + i] % 16, buffer[at + i] / 16];
    }
  }

  method DecodeImsi(buffer: array<octet>, base: nat, n: nat, ghost strict: bool) returns (r: Decoded<Identity>)
    requires base < buffer.Length && buffer[base] % 8 == IMSI && LoadIdentity(buffer[base..], n, strict) != Overrun
    ensures r == LoadIdentity(buffer[base..], n, strict)
  {
    hide Unpack, EndMarked;
    if n < 8 {
      return Error(TLV_BUFFER_TOO_SHORT);
    }
    ghost var t := buffer[base..];
    assert t[0] == buffer[base] && t[1..8] == buffer[base + 1..base + 8];
    var odd := buffer[base] / 8 % 2;
    var d := GetPairs(buffer, base + 1, 7);
    d := [buffer[base] / 16] + d;
    if odd == EVEN && !EndMarked(d) {
      return Error(TLV_VALUE_DOESNT_MATCH);
    }
    r := Ok(Imsi(odd, d), 8);
  }

  method DecodeImei(buffer: array<octet>, base: nat, n: nat, ghost strict: bool) returns (r: Decoded<Identity>)
    requires base < buffer.Length && buffer[base] % 8 == IMEI && LoadIdentity(buffer[base..], n, strict) != Overrun
    ensures r == LoadIdentity(buffer[base..], n, strict)
  {
    hide Unpack;
    if n < 8 {
      return Error(TLV_BUFFER_TOO_SHORT);
    }
    ghost var t := buffer[base..];
    assert t[0] == buffer[base] && t[1..8] == buffer[base + 1..base + 8];
    var odd := buffer[base] / 8 % 2;
    var d := GetPairs(buffer, base + 1, 7);
    d := [buffer[base] / 16] + d;
    if odd == EVEN && d[14] != END_MARK {
      return Error(TLV_VALUE_DOESNT_MATCH);
    }
    r := Ok(Imei(odd, d), 8);
  }

  /** The end mark is insisted on only where the configuration asks for it. */
  method DecodeImeisv(buffer: array<octet>, base: nat, n: nat, strict: bool) returns (r: Decoded<Identity>)
    requires base < buffer.Length && buffer[base] % 8 == IMEISV && LoadIdentity(buffer[base..], n, strict) != Overrun
    ensures r == LoadIdentity(buffer[base..], n, strict)
  {
    hide Unpack;
    if n < 9 {
      return Error(TLV_BUFFER_TOO_SHORT);
    }
    ghost var t := buffer[base..];
    assert t[0] == buffer[base] && t[1..9] == buffer[base + 1..base + 9];
    var odd := buffer[base] / 8 % 2;
    var d := GetPairs(buffer, base + 1, 8);
    d := [buffer[base] / 16] + d;
    if odd == EVEN && d[16] != END_MARK && strict {
      return Error(TLV_VALUE_DOESNT_MATCH);
    }
    r := Ok(Imeisv(odd, d), 9);
  }

  method DecodeTmsi(buffer: array<octet>, base: nat, n: nat, ghost strict: bool) returns (r: Decoded<Identity>)
    requires base < buffer.Length && buffer[base] % 8 == TMSI && LoadIdentity(buffer[base..], n, strict) != Overrun
    ensures r == LoadIdentity(buffer[base..], n, strict)
  {
    if n < 5 {
      return Error(TLV_BUFFER_TOO_SHORT);
    }
    if buffer[base] / 16 != END_MARK {
      return Error(TLV_VALUE_DOESNT_MATCH);
    }
    assert buffer[base..][1..5] == buffer[base + 1..base + 5];
    r := Ok(Tmsi(buffer[base] / 8 % 2, buffer[base] / 16, buffer[base + 1..base + 5]), 5);
  }

  method DecodeTmgi(buffer: array<octet>, base: nat, n: nat, ghost strict: bool) returns (r: Decoded<Identity>)
    requires base < buffer.Length && buffer[base] % 8 == TMGI && LoadIdentity(buffer[base..], n, strict) != Overrun
    ensures r == LoadIdentity(buffer[base..], n, strict)
  {
    hide Value3, LoadPlmn;
    if n < 9 {
      return Error(TLV_BUFFER_TOO_SHORT);
    }
    var high := buffer[base] / 16;
    if high >= 8 {
      return Error(TLV_VALUE_DOESNT_MATCH);
    }
    ghost var t := buffer[base..];
    assert t[1..] == buffer[base + 1..] && t[4..] == buffer[base + 4..];
    var service := Value3(buffer[base + 1..]);
    var plmn := GetPlmn(buffer, base + 4);
    r := Ok(Tmgi(buffer[base] / 8 % 2, high / 2 % 2, high % 2, service, plmn, buffer[base + 7]), 8);
  }

  method DecodeNoIdentity(buffer: array<octet>, base: nat, n: nat, ghost strict: bool) returns (r: Decoded<Identity>)
    requires base < buffer.Length && buffer[base] % 8 == NO_IDENTITY
    requires LoadIdentity(buffer[base..], n, strict) != Overrun
    ensures r == LoadIdentity(buffer[base..], n, strict)
  {
    hide Unpack;
    if n < 1 {
      return Error(TLV_BUFFER_TOO_SHORT);
    }
    var k := if n < 3 then n else 3;
    assert buffer[base..][1..k] == buffer[base + 1..base + k];
    var d := GetPairs(buffer, base + 1, k - 1);
    r := Ok(NoIdentity(buffer[base] / 8 % 2, [buffer[base] / 16] + d), k);
  }

  lemma ReservedKind(t: seq<octet>, n: nat, strict: bool)
    requires t != [] && t[0] % 8 > TMGI
    ensures LoadIdentity(t, n, strict) == Error(TLV_VALUE_DOESNT_MATCH)
  {
  }

  /** The dispatch on the kind of identity, which is in the lowest bits of the first octet. */
  method DecodeIdentity(buffer: array<octet>, base: nat, n: nat, strict: bool) returns (r: Decoded<Identity>)
    requires base < buffer.Length && LoadIdentity(buffer[base..], n, strict) != Overrun
    ensures r == LoadIdentity(buffer[base..], n, strict)
  {
    hide LoadIdentity;
    var kind := buffer[base] % 8;
    if kind == IMSI {
      r := DecodeImsi(buffer, base, n, strict);
    } else if kind == IMEI {
      r := DecodeImei(buffer, base, n, strict);
    } else if kind == IMEISV {
      r := DecodeImeisv(buffer, base, n, strict);
    } else if kind == TMSI {
      r := DecodeTmsi(buffer, base, n, strict);
    } else if kind == TMGI {
      r := DecodeTmgi(buffer, base, n, strict);
    } else if kind == NO_IDENTITY {
      r := DecodeNoIdentity(buffer, base, n, strict);
    } else {
      ReservedKind(buffer[base..], n, strict);
      r := Error(TLV_VALUE_DOESNT_MATCH);
    }
  }

  method DecodeIdentityIe(present: bool, buffer: array<octet>, len: nat, strict: bool) returns (r: Decoded<Identity>)
    requires LoadIdentityIe(buffer[..], present, len, strict) != Overrun
    ensures r == LoadIdentityIe(buffer[..], present, len, strict)
  {
    hide LoadIdentity;
    if len < IDENTITY_MIN_LENGTH - (if present then 0 else 1) {
      return Error(TLV_BUFFER_TOO_SHORT);
    }
    var at := 0;
    if present {
      if buffer[0] != IDENTITY_IEI {
        return Error(TLV_UNEXPECTED_IEI);
      }
      at := 1;
    }
    if len - at - 1 < buffer[at] as int {
      return Error(TLV_BUFFER_TOO_SHORT);
    }
    assert buffer[..][at + 1..] == buffer[at + 1..];
    r := DecodeIdentity(buffer, at + 1, buffer[at], strict);
    if r.Ok? {
      r := Ok(r.value, at + 1 + r.size);
    }
  }
}
