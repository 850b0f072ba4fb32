/** Lists of public land mobile networks (section 10.5.1.13 of 3GPP TS 24.008). */
module PlmnLists {
  import opened Octets
  import opened Tlv

  const MAX_PLMNS: nat := 15
  const LIST_IEI: octet := 0x4A
  const LIST_MAX_LENGTH: nat := 47

  datatype Plmn = Plmn(mcc1: bits4, mcc2: bits4, mcc3: bits4, mnc1: bits4, mnc2: bits4, mnc3: bits4)

  const ZERO_PLMN := Plmn(0, 0, 0, 0, 0, 0)

  function Nibbles(high: bits4, low: bits4): octet {
    high * 16 + low
  }

  lemma NibblesRead(high: bits4, low: bits4)
    ensures Nibbles(high, low) / 16 == high && Nibbles(high, low) % 16 == low
  {
  }

  lemma NibblesRestored(b: octet)
    ensures Nibbles(b / 16, b % 16) == b
  {
  }

  function PlmnOctets(p: Plmn): (s: seq<octet>)
    ensures |s| == 3
  {
    [Nibbles(p.mcc2, p.mcc1), Nibbles(p.mnc3, p.mcc3), Nibbles(p.mnc2, p.mnc1)]
  }

  function LoadPlmn(t: seq<octet>): Plmn
    requires |t| >= 3
  {
    Plmn(t[0] % 16, t[0] / 16, t[1] % 16, t[2] % 16, t[2] / 16, t[1] / 16)
  }

  lemma PlmnRestored(p: Plmn, rest: seq<octet>)
    ensures LoadPlmn(PlmnOctets(p) + rest) == p
  {
  }

  lemma PlmnReencoded(t: seq<octet>)
    requires |t| >= 3
    ensures PlmnOctets(LoadPlmn(t)) == t[..3]
  {
  }

  function PlmnsOctets(ps: seq<Plmn>): (s: seq<octet>)
    ensures |s| == 3 * |ps|
  {
    if ps == [] then [] else PlmnOctets(ps[0]) + PlmnsOctets(ps[1..])
  }

  function Prepend(p: Plmn, later: Decoded<seq<Plmn>>): Decoded<seq<Plmn>> {
    match later
    case Ok(ps, size) => Ok([p] + ps, 3 + size)
    case Error(code) => Error(code)
    case Overrun => Overrun
  }

  /** The decoder's loop, with `n` places taken: it goes on while any octet of the message is left. */
  function LoadPlmns(t: seq<octet>, left: int, n: nat): (r: Decoded<seq<Plmn>>)
    ensures r.Ok? && n <= MAX_PLMNS ==> n + |r.value| <= MAX_PLMNS
    decreases left
  {
    if left <= 0 then Ok([], 0)
    else if |t| < 3 || n >= MAX_PLMNS then Overrun
    else Prepend(LoadPlmn(t), LoadPlmns(t[3..], left - 3, n + 1))
  }

  function ListIe(ps: seq<Plmn>, present: bool): seq<octet> {
    (if present then [LIST_IEI] else []) + [LowOctet(3 * |ps|)] + PlmnsOctets(ps)
  }

  /** `before` is the number of networks the list held before: the decoder asks for room for as many. */
  function LoadListIe(s: seq<octet>, present: bool, len: nat, before: octet): (r: Decoded<seq<Plmn>>)
    ensures r.Ok? ==> |r.value| <= MAX_PLMNS
  {
    var at := if present then 1 else 0;
    if len < 3 * before as nat + 1 + at then Error(TLV_BUFFER_TOO_SHORT)
    else if |s| < at then Overrun
    else if present && s[0] != LIST_IEI then Error(TLV_UNEXPECTED_IEI)
    else if |s| < at + 1 then Overrun
    else if len - at - 1 < s[at] as nat then Error(TLV_BUFFER_TOO_SHORT)
    else
      match LoadPlmns(s[at + 1..], len - at - 1, 0)
      case Ok(ps, size) => Ok(ps, at + 1 + size)
      case Error(code) => Error(code)
      case Overrun => Overrun
  }

  lemma {:induction false} PlmnsRoundTrip(ps: seq<Plmn>, rest: seq<octet>, n: nat)
    requires n + |ps| <= MAX_PLMNS
    ensures LoadPlmns(PlmnsOctets(ps) + rest, 3 * |ps|, n) == Ok(ps, 3 * |ps|)
    decreases |ps|
  {
    hide LoadPlmn, PlmnOctets;
    if ps != [] {
      PlmnRestored(ps[0], PlmnsOctets(ps[1..]) + rest);
      AppendAssociates(PlmnOctets(ps[0]), PlmnsOctets(ps[1..]), rest);
      var t := PlmnOctets(ps[0]) + (PlmnsOctets(ps[1..]) + rest);
      assert PlmnsOctets(ps) + rest == t && t[3..] == PlmnsOctets(ps[1..]) + rest;
      assert [ps[0]] + ps[1..] == ps;
      PlmnsRoundTrip(ps[1..], rest, n + 1);
    }
  }

  /** As many networks as it takes to cover the octets left; they are laid out again as they were. */
  lemma {:induction false} PlmnsReencoded(t: seq<octet>, left: nat, n: nat)
    requires LoadPlmns(t, left, n).Ok?
    ensures var r := LoadPlmns(t, left, n);
      r.size == 3 * |r.value| <= |t| && PlmnsOctets(r.value) == t[..r.size] && left <= r.size < left + 3
    decreases left
  {
    hide LoadPlmn, PlmnOctets;
    if left > 0 {
      PlmnReencoded(t);
      var p, r := LoadPlmn(t), LoadPlmns(t[3..], left - 3, n + 1);
      if left > 3 {
        PlmnsReencoded(t[3..], left - 3, n + 1);
      }
      assert ([p] + r.value)[1..] == r.value;
      assert t[..3 + r.size] == t[..3] + t[3..][..r.size];
    }
  }

  lemma IeParts(ps: seq<Plmn>, present: bool, rest: seq<octet>)
    ensures var ie, at := ListIe(ps, present), if present then 1 else 0;
      && |ie| == at + 1 + 3 * |ps| && (present ==> (ie + rest)[0] == LIST_IEI)
      && (ie + rest)[at] == LowOctet(3 * |ps|) && (ie + rest)[at + 1..] == PlmnsOctets(ps) + rest
  {
    hide LowOctet, PlmnsOctets;
  }

  /**
   * Round trip: the element, of 47 octets at most, is restored exactly when it is the last of the
   * message and the list held no more networks before.
   */
  lemma ListRestoredExactly(ps: seq<Plmn>, present: bool, rest: seq<octet>, more: nat, before: octet)
    requires |ps| <= MAX_PLMNS && more <= |rest|
    ensures |ListIe(ps, present)| <= LIST_MAX_LENGTH
    ensures var ie := ListIe(ps, present);
      LoadListIe(ie + rest, present, |ie| + more, before) == Ok(ps, |ie|) <==> more == 0 && before as int <= |ps|
  {
    hide ListIe, LoadPlmns, PlmnsOctets;
    IeParts(ps, present, rest);
    LowOctetSmall(3 * |ps|);
    if more == 0 {
      PlmnsRoundTrip(ps, rest, 0);
    } else if LoadPlmns(PlmnsOctets(ps) + rest, 3 * |ps| + more, 0).Ok? {
      PlmnsReencoded(PlmnsOctets(ps) + rest, 3 * |ps| + more, 0);
    }
  }

  /** The other way: a decoded element is encoded as it was exactly when its length octet was right. */
  lemma ListReencodedExactly(s: seq<octet>, present: bool, len: nat, before: octet)
    requires LoadListIe(s, present, len, before).Ok?
    ensures var r, at := LoadListIe(s, present, len, before), if present then 1 else 0;
      && r.size <= |s| && len <= r.size < len + 3
      && (ListIe(r.value, present) == s[..r.size] <==> s[at] as int == 3 * |r.value|)
  {
    hide LoadPlmns, PlmnsOctets;
    var r, at := LoadListIe(s, present, len, before), if present then 1 else 0;
    PlmnsReencoded(s[at + 1..], len - at - 1, 0);
    LowOctetSmall(3 * |r.value|);
    assert s[..r.size] == s[..at] + [s[at]] + s[at + 1..][..r.size - at - 1];
    assert ListIe(r.value, present)[at] == LowOctet(3 * |r.value|);
    assert s[..r.size][at] == s[at];
  }

  // ---------------------------------------------------------------------------
  // In memory

  class PlmnList {
    const plmn: array<Plmn>
    var count: octet

    ghost predicate Valid() {
      plmn.Length == MAX_PLMNS
    }

    constructor ()
      ensures Valid() && count == 0 && fresh(plmn)
    {
      plmn := new Plmn[MAX_PLMNS](_ => ZERO_PLMN);
      count := 0;
    }
  }

  lemma PlmnsSnoc(ps: seq<Plmn>, p: Plmn)
    ensures PlmnsOctets(ps + [p]) == PlmnsOctets(ps) + PlmnOctets(p)
  {
    hide PlmnOctets;
    if ps == [] {
      assert [] + [p] == [p] && [p][1..] == [];
      assert [] + PlmnOctets(p) == PlmnOctets(p) == PlmnOctets(p) + [];
    } else {
      PlmnsSnoc(ps[1..], p);
      assert (ps + [p])[1..] == ps[1..] + [p];
      AppendAssociates(PlmnOctets(ps[0]), PlmnsOctets(ps[1..]), PlmnOctets(p));
    }
  }

  method PutPlmn(p: Plmn, buffer: array<octet>, at: nat)
    requires at + 3 <= buffer.Length
    modifies buffer
    ensures Wrote(old(buffer[..]), buffer[..], at, PlmnOctets(p), 0)
  {
    buffer[at] := p.mcc2 * 16 + p.mcc1;
    buffer[at + 1] := p.mnc3 * 16 + p.mcc3;
    buffer[at + 2] := p.mnc2 * 16 + p.mnc1;
  }

  /** The encoder. */
  method EncodeList(list: PlmnList, present: bool, buffer: array<octet>, len: nat) returns (encoded: int)
    requires list.Valid() && list.count as int <= MAX_PLMNS && len <= buffer.Length
    modifies buffer
    ensures var ie := ListIe(list.plmn[..list.count], present);
      && (len < |ie| ==> encoded == TLV_BUFFER_TOO_SHORT && buffer[..] == old(buffer[..]))
      && (len >= |ie| ==> encoded == |ie| && Wrote(old(buffer[..]), buffer[..], 0, ie, 0))
  {
    hide PlmnOctets, PlmnsOctets, Wrote, LowOctet;
    ghost var before, ps := buffer[..], list.plmn[..list.count];
    if len < 3 * list.count as int + (if present then 2 else 1) {
      return TLV_BUFFER_TOO_SHORT;
    }
    var at := PutIei(buffer, LIST_IEI, present);
    ghost var headed := buffer[..];
    encoded := at + 1;
    WroteNothing(headed, at + 1);
    assert ps[..0] == [] && PlmnsOctets([]) == [];
    for i := 0 to list.count as int
      invariant encoded == at + 1 + 3 * i
      invariant Wrote(headed, buffer[..], at + 1, PlmnsOctets(ps[..i]), 0)
    {
      ghost var now := buffer[..];
      PutPlmn(list.plmn[i], buffer, encoded);
      WroteMore(headed, now, buffer[..], at + 1, PlmnsOctets(ps[..i]), PlmnOctets(ps[i]), 0, 0);
      PlmnsSnoc(ps[..i], ps[i]);
      assert ps[..i + 1] == ps[..i] + [ps[i]];
      encoded := encoded + 3;
    }
    assert ps[..list.count] == ps;
    ghost var full := buffer[..];
    buffer[at] := LowOctet(encoded - at - 1);
    IeWrote(before, headed, full, if present then [LIST_IEI] else [], LowOctet(3 * |ps|), PlmnsOctets(ps));
  }

  /** With the networks in `done` read, at `t` and with `left` octets left, the outcome is still to be. */
  ghost predicate Remains(done: seq<Plmn>, t: seq<octet>, left: int, outcome: Decoded<seq<Plmn>>) {
    && outcome != Overrun
    && match LoadPlmns(t, left, |done|)
       case Ok(ps, size) => outcome == Ok(done + ps, 3 * |done| + size)
       case Error(code) => outcome == Error(code)
       case Overrun => false
  }

  lemma RemainsStart(t: seq<octet>, left: int)
    requires LoadPlmns(t, left, 0) != Overrun
    ensures Remains([], t, left, LoadPlmns(t, left, 0))
  {
    var r := LoadPlmns(t, left, 0);
    if r.Ok? {
      assert [] + r.value == r.value;
    }
  }

  lemma RemainsNext(done: seq<Plmn>, t: seq<octet>, left: int, outcome: Decoded<seq<Plmn>>)
    requires Remains(done, t, left, outcome) && left > 0
    ensures |t| >= 3 && |done| < MAX_PLMNS
    ensures Remains(done + [LoadPlmn(t)], t[3..], left - 3, outcome)
  {
    hide LoadPlmn;
    var later := LoadPlmns(t[3..], left - 3, |done| + 1);
    if later.Ok? {
      AppendAssociates(done, [LoadPlmn(t)], later.value);
    }
  }

  lemma RemainsEnd(done: seq<Plmn>, t: seq<octet>, left: int, outcome: Decoded<seq<Plmn>>)
    requires Remains(done, t, left, outcome) && left <= 0
    ensures outcome == Ok(done, 3 * |done|)
  {
    assert done + [] == done;
  }

  method GetPlmn(buffer: array<octet>, at: nat) returns (p: Plmn)
    requires at + 3 <= buffer.Length
    ensures p == LoadPlmn(buffer[at..]) && buffer[at..][3..] == buffer[at + 3..]
  {
    p := Plmn(
      buffer[at] % 16, buffer[at] / 16, buffer[at + 1] % 16,
      buffer[at + 2] % 16, buffer[at + 2] / 16, buffer[at + 1] / 16);
  }

  /** The decoder's loop, filling the places from the first one on. */
  method DecodePlmns(list: PlmnList, buffer: array<octet>, at: nat, len: nat) returns (decoded: nat)
    requires list.Valid() && at <= len && at <= buffer.Length && LoadPlmns(buffer[at..], len - at, 0) != Overrun
    modifies list`count, list.plmn
    ensures list.count as int <= MAX_PLMNS && decoded >= at
    ensures LoadPlmns(buffer[at..], len - at, 0) == Ok(list.plmn[..list.count], decoded - at)
    ensures list.plmn[list.count..] == old(list.plmn[..])[list.count..]
  {
    hide LoadPlmns, LoadPlmn, Remains;
    ghost var outcome, places := LoadPlmns(buffer[at..], len - at, 0), list.plmn[..];
    RemainsStart(buffer[at..], len - at);
    decoded := at;
    list.count := 0;
    while decoded < len
      invariant list.count as int <= MAX_PLMNS && decoded == at + 3 * list.count as int <= buffer.Length
      invariant list.plmn[list.count..] == places[list.count..]
      invariant Remains(list.plmn[..list.count], buffer[decoded..], len - decoded, outcome)
    {
      ghost var done := list.plmn[..list.count];
      RemainsNext(done, buffer[decoded..], len - decoded, outcome);
      var p := GetPlmn(buffer, decoded);
      list.plmn[list.count] := p;
      list.count := list.count + 1;
      assert list.plmn[..list.count] == done + [p];
      assert places[list.count..] == places[list.count - 1..][1..];
      decoded := decoded + 3;
    }
    RemainsEnd(list.plmn[..list.count], buffer[decoded..], len - decoded, outcome);
  }

  /** The decoder. */
  method DecodeList(list: PlmnList, present: bool, buffer: array<octet>, len: nat) returns (decoded: int)
    requires list.Valid() && LoadListIe(buffer[..], present, len, list.count) != Overrun
    modifies list`count, list.plmn
    ensures match LoadListIe(buffer[..], present, len, old(list.count))
      case Ok(ps, size) => decoded == size && list.count as int == |ps| && list.plmn[..] == ps + old(list.plmn[|ps|..])
      case Error(code) => decoded == code && list.count == old(list.count) && list.plmn[..] == old(list.plmn[..])
      case Overrun => false
  {
    hide LoadPlmns, LoadPlmn;
    if len < 3 * list.count as int + (if present then 2 else 1) {
      return TLV_BUFFER_TOO_SHORT;
    }
    var at := 0;
    if present {
      if buffer[0] != LIST_IEI {
        return TLV_UNEXPECTED_IEI;
      }
      at := 1;
    }
    if len - at - 1 < buffer[at] as int {
      return TLV_BUFFER_TOO_SHORT;
    }
    assert buffer[..][at + 1..] == buffer[at + 1..];
    ghost var places := list.plmn[..];
    decoded := DecodePlmns(list, buffer, at + 1, len);
    assert list.plmn[..] == list.plmn[..list.count] + list.plmn[list.count..];
  }
}
