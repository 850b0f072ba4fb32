/** The packet filter encoder and decoder, working on a buffer of octets. */
module FilterCoder {
  import opened Octets
  import opened PacketFilters
  import opened Tlv
  import opened FilterCodec

  /** Storing a flow label also touches the octet after it. */
  function Slack(flags: set<nat>): nat {
    if FLOW_LABEL in flags then 1 else 0
  }

  /** A run of addresses followed by the run of their masks. */
  method PutPairs(addr: seq<octet>, mask: seq<octet>, buffer: array<octet>, at: nat)
    requires |addr| == |mask| && at + 2 * |addr| <= buffer.Length
    modifies buffer
    ensures Wrote(old(buffer[..]), buffer[..], at, addr + mask, 0)
  {
    var n := |addr|;
    for j := 0 to n
      invariant buffer[..at] == old(buffer[..at])
      invariant buffer[at..at + j] == addr[..j]
      invariant buffer[at + n..at + n + j] == mask[..j]
      invariant buffer[at + 2 * n..] == old(buffer[at + 2 * n..])
    {
      buffer[at + j] := addr[j];
      buffer[at + n + j] := mask[j];
    }
    assert buffer[at..at + 2 * n] == buffer[at..at + n] + buffer[at + n..at + 2 * n];
  }

  method PutPayload(c: Contents, k: nat, buffer: array<octet>, at: nat)
    requires k < KINDS && at + ReachOf(k) <= buffer.Length
    modifies buffer
    ensures Wrote(old(buffer[..]), buffer[..], at, Payload(c, k), ReachOf(k) - SizeOf(k))
  {
    if k == 0 {
      PutPairs(c.ipv4Addr, c.ipv4Mask, buffer, at);
    } else if k == 1 {
      PutPairs(c.ipv6Addr, c.ipv6Mask, buffer, at);
    } else if k == 2 {
      PutU8(buffer, at, c.nextHeader);
    } else if k == 3 {
      PutU16(buffer, at, c.localPort);
    } else if k == 4 {
      PutU16Pair(c.localLow, c.localHigh, buffer, at);
    } else if k == 5 {
      PutU16(buffer, at, c.remotePort);
    } else if k == 6 {
      PutU16Pair(c.remoteLow, c.remoteHigh, buffer, at);
    } else if k == 7 {
      PutU32(buffer, at, c.securityIndex);
    } else if k == 8 {
      PutPairs([c.classValue], [c.classMask], buffer, at);
    } else {
      PutU24(buffer, at, c.flowLabel % 0x10_0000);
    }
  }

  method PutU16Pair(a: u16, b: u16, buffer: array<octet>, at: nat)
    requires at + 4 <= buffer.Length
    modifies buffer
    ensures Wrote(old(buffer[..]), buffer[..], at, Octets2(a) + Octets2(b), 0)
  {
    PutU16(buffer, at, a);
    ghost var mid := buffer[..];
    PutU16(buffer, at + 2, b);
    WroteMore(old(buffer[..]), mid, buffer[..], at, Octets2(a), Octets2(b), 0, 0);
  }

  /** A component: its type, then its fields. */
  method PutComponent(c: Contents, k: nat, buffer: array<octet>, at: nat) returns (n: nat)
    requires k < KINDS && at + 1 + ReachOf(k) <= buffer.Length
    modifies buffer
    ensures n == 1 + SizeOf(k)
    ensures Wrote(old(buffer[..]), buffer[..], at, [TypeOf(k)] + Payload(c, k), ReachOf(k) - SizeOf(k))
  {
    PutU8(buffer, at, TypeOf(k));
    ghost var mid := buffer[..];
    PutPayload(c, k, buffer, at + 1);
    WroteMore(old(buffer[..]), mid, buffer[..], at, [TypeOf(k)], Payload(c, k), 0, ReachOf(k) - SizeOf(k));
    n := 1 + SizeOf(k);
  }

  /** What component k adds to the body. */
  ghost function Chosen(c: Contents, k: nat): seq<octet>
    requires k < KINDS
  {
    if k in c.flags then [TypeOf(k)] + Payload(c, k) else []
  }

  /** One turn of the loop over the flags. */
  method PutIfFlagged(c: Contents, k: nat, buffer: array<octet>, at: nat) returns (n: nat)
    requires k < KINDS && at + |Chosen(c, k)| + Slack(c.flags) <= buffer.Length
    modifies buffer
    ensures n == |Chosen(c, k)|
    ensures Wrote(old(buffer[..]), buffer[..], at, Chosen(c, k), if k + 1 == KINDS then Slack(c.flags) else 0)
  {
    hide Payload, Wrote;
    SlackAt(c.flags, k);
    n := 0;
    if k in c.flags {
      n := PutComponent(c, k, buffer, at);
    } else {
      WroteNothing(buffer[..], at);
    }
  }

  lemma LayoutNext(c: Contents, k: nat, done: seq<octet>)
    requires k < KINDS
    ensures done + Layout(PartsOf(c.flags, PayloadsOf(c), k)) ==
      done + Chosen(c, k) + Layout(PartsOf(c.flags, PayloadsOf(c), k + 1))
  {
    hide Layout, PartsOf, PayloadsOf, Chosen;
    LayoutChosen(c, k);
    AppendAssociates(done, Chosen(c, k), Layout(PartsOf(c.flags, PayloadsOf(c), k + 1)));
  }

  lemma LayoutChosen(c: Contents, k: nat)
    requires k < KINDS
    ensures Layout(PartsOf(c.flags, PayloadsOf(c), k)) == Chosen(c, k) + Layout(PartsOf(c.flags, PayloadsOf(c), k + 1))
  {
    hide Layout, PartsOf, PayloadsOf, Payload;
    LayoutStep(c.flags, PayloadsOf(c), k);
  }

  lemma LayoutStep(flags: set<nat>, ps: Payloads, k: nat)
    requires k < KINDS
    ensures Layout(PartsOf(flags, ps, k)) ==
      (if k in flags then [TypeOf(k)] + ps[k] else []) + Layout(PartsOf(flags, ps, k + 1))
  {
    var rest := PartsOf(flags, ps, k + 1);
    if k in flags {
      assert ([Part(k, ps[k])] + rest)[1..] == rest;
    } else {
      assert [] + rest == rest;
    }
  }

  /** The loop over the flags, from bit 0 to bit 9. */
  method PutBody(c: Contents, buffer: array<octet>, at: nat) returns (n: nat)
    requires at + |Body(c)| + Slack(c.flags) <= buffer.Length
    modifies buffer
    ensures n == |Body(c)| && Wrote(old(buffer[..]), buffer[..], at, Body(c), Slack(c.flags))
  {
    hide Layout, Payload, PayloadsOf, PartsOf, Wrote, TypeOf, SizeOf, Body, ReachOf, Slack, Chosen;
    ghost var before, ps, done: seq<octet> := buffer[..], PayloadsOf(c), [];
    WroteNothing(before, at);
    LayoutAll(c);
    n := 0;
    var k := 0;
    while k < KINDS
      invariant k <= KINDS && n == |done|
      invariant done + Layout(PartsOf(c.flags, ps, k)) == Body(c)
      invariant Wrote(before, buffer[..], at, done, if k == KINDS then Slack(c.flags) else 0)
    {
      ghost var now := buffer[..];
      LayoutNext(c, k, done);
      var m := PutIfFlagged(c, k, buffer, at + n);
      WroteMore(before, now, buffer[..], at, done, Chosen(c, k), 0, if k + 1 == KINDS then Slack(c.flags) else 0);
      n, done := n + m, done + Chosen(c, k);
      k := k + 1;
    }
    LayoutNone(c.flags, ps);
    assert done + [] == done;
  }

  lemma LayoutAll(c: Contents)
    ensures [] + Layout(PartsOf(c.flags, PayloadsOf(c), 0)) == Body(c)
  {
    hide Layout, PartsOf, PayloadsOf;
  }

  lemma SlackAt(flags: set<nat>, k: nat)
    requires k < KINDS
    ensures k in flags ==> ReachOf(k) - SizeOf(k) == if k + 1 == KINDS then Slack(flags) else 0
    ensures k !in flags && k + 1 == KINDS ==> Slack(flags) == 0
    ensures k in flags ==> Slack(flags) >= ReachOf(k) - SizeOf(k)
  {
  }

  lemma LayoutNone(flags: set<nat>, ps: Payloads)
    ensures Layout(PartsOf(flags, ps, KINDS)) == []
  {
  }

  lemma LengthPatched(
      a: seq<octet>, b: seq<octet>, c: seq<octet>, base: nat, head: seq<octet>, v: octet, body: seq<octet>, s: nat)
    requires |head| == 2 && Wrote(a, b, base, head, 0) && base + 3 <= |b|
    requires Wrote(b, c, base + 3, body, s)
    ensures Wrote(a, c[base + 2 := v], base, head + [v] + body, s)
  {
    var d := c[base + 2 := v];
    var end := base + 3 + |body|;
    assert d[..base] == c[..base + 3][..base] == b[..base + 3][..base] == a[..base];
    assert d[base..base + 2] == c[..base + 3][base..base + 2] == b[..base + 3][base..base + 2] == head;
    assert d[base + 3..end] == c[base + 3..end] == body;
    assert d[base..end] == d[base..base + 2] + [v] + d[base + 3..end];
    assert d[end + s..] == c[end + s..] == b[end + s..] == b[base + 2..][1 + |body| + s..] == a[end + s..];
  }

  /**
   * The encoder: identifier and direction, precedence, room for the length, the flagged
   * components in the order of their flags, and the length written back at the end.
   */
  method EncodePacketFilter(f: PacketFilter, buffer: array<octet>, base: nat, len: nat) returns (encoded: int)
    requires len > 0 ==> base + |FilterOctets(f)| + Slack(f.contents.flags) <= buffer.Length
    modifies buffer
    ensures len == 0 ==> encoded == TLV_VALUE_DOESNT_MATCH && buffer[..] == old(buffer[..])
    ensures len > 0 ==> encoded == |FilterOctets(f)|
    ensures len > 0 ==> Wrote(old(buffer[..]), buffer[..], base, FilterOctets(f), Slack(f.contents.flags))
  {
    if len == 0 {
      return TLV_VALUE_DOESNT_MATCH;
    }
    hide *;
    FilterParts(f);
    ghost var before := buffer[..];
    PutHead(f, buffer, base);
    ghost var headed := buffer[..];
    var size := PutBody(f.contents, buffer, base + 3);
    ghost var full := buffer[..];
    LengthPatched(before, headed, full, base, Header(f, 0)[..2], size, Body(f.contents), Slack(f.contents.flags));
    buffer[base + 2] := size;
    encoded := 3 + size;
  }

  lemma FilterParts(f: PacketFilter)
    ensures |Header(f, 0)| == 3 && |Body(f.contents)| < 0x100
    ensures FilterOctets(f) == Header(f, 0)[..2] + [|Body(f.contents)|] + Body(f.contents)
  {
    hide Body, TotalSize;
    assert Header(f, |Body(f.contents)|) == Header(f, 0)[..2] + [|Body(f.contents)|];
  }

  method PutHead(f: PacketFilter, buffer: array<octet>, base: nat)
    requires base + 2 <= buffer.Length
    modifies buffer
    ensures |Header(f, 0)| == 3 && Wrote(old(buffer[..]), buffer[..], base, Header(f, 0)[..2], 0)
  {
    buffer[base] := f.direction * 16 + f.identifier;
    buffer[base + 1] := f.precedence;
  }

  // ---------------------------------------------------------------------------
  // Decoding

  method GetPairs(buffer: array<octet>, at: nat, n: nat) returns (addr: seq<octet>, mask: seq<octet>)
    requires at + 2 * n <= buffer.Length
    ensures addr == buffer[at..at + n] && mask == buffer[at + n..at + 2 * n]
  {
    addr, mask := [], [];
    for j := 0 to n
      invariant addr == buffer[at..at + j] && mask == buffer[at + n..at + n + j]
    {
      addr := addr + [buffer[at + j]];
      mask := mask + [buffer[at + n + j]];
    }
  }

  method GetU16(buffer: array<octet>, at: nat) returns (v: u16)
    requires at + 2 <= buffer.Length
    ensures v == Value2(buffer[at..])
  {
    v := buffer[at] as int * 0x100 + buffer[at + 1] as int;
  }

  method GetU32(buffer: array<octet>, at: nat) returns (v: u32)
    requires at + 4 <= buffer.Length
    ensures v == Value4(buffer[at..])
  {
    v := buffer[at] as int * 0x100_0000 + buffer[at + 1] as int * 0x1_0000
      + buffer[at + 2] as int * 0x100 + buffer[at + 3] as int;
  }

  /** DECODE_U24 reads a word and drops its last octet. */
  method GetU24(buffer: array<octet>, at: nat) returns (v: u24)
    requires at + 4 <= buffer.Length
    ensures v == Value3(buffer[at..])
  {
    var w := GetU32(buffer, at);
    v := w / 0x100;
  }

  /** Read the fields of component k at `at`. */
  method GetPayload(c: Contents, k: nat, buffer: array<octet>, at: nat) returns (d: Contents)
    requires k < KINDS && at + ReachOf(k) <= buffer.Length
    ensures d == Load(c, k, buffer[at..])
  {
    d := c.(flags := c.flags + {k});
    if k == 0 {
      var addr, mask := GetPairs(buffer, at, 4);
      d := d.(ipv4Addr := addr, ipv4Mask := mask);
      assert buffer[at..][..4] == addr && buffer[at..][4..8] == mask;
    } else if k == 1 {
      var addr, mask := GetPairs(buffer, at, 16);
      d := d.(ipv6Addr := addr, ipv6Mask := mask);
      assert buffer[at..][..16] == addr && buffer[at..][16..32] == mask;
    } else if k == 2 {
      d := d.(nextHeader := buffer[at]);
    } else if k == 3 {
      var v := GetU16(buffer, at);
      d := d.(localPort := v);
    } else if k == 4 {
      var low := GetU16(buffer, at);
      var high := GetU16(buffer, at + 2);
      d := d.(localLow := low, localHigh := high);
    } else if k == 5 {
      var v := GetU16(buffer, at);
      d := d.(remotePort := v);
    } else if k == 6 {
      var low := GetU16(buffer, at);
      var high := GetU16(buffer, at + 2);
      d := d.(remoteLow := low, remoteHigh := high);
    } else if k == 7 {
      var v := GetU32(buffer, at);
      d := d.(securityIndex := v);
    } else if k == 8 {
      d := d.(classValue := buffer[at], classMask := buffer[at + 1]);
    } else {
      var v := GetU24(buffer, at);
      d := d.(flowLabel := v);
    }
  }

  /** What is still to come, given the components read so far. */
  ghost function Resume(c: Contents, t: seq<octet>, left: int, size: nat): Decoded<Contents> {
    match Parse(t, left)
    case Ok(parts, more) => Ok(LoadParts(c, parts), size + more)
    case Error(code) => Error(code)
    case Overrun => Overrun
  }

  /** Reading one component leaves the outcome as it was. */
  lemma ResumeOne(c: Contents, t: seq<octet>, left: int, size: nat)
    requires left > 0 && Resume(c, t, left, size) != Overrun
    ensures t != []
    ensures KindOf(t[0]) == KINDS ==> Resume(c, t, left, size) == Error(TLV_UNEXPECTED_IEI)
    ensures KindOf(t[0]) < KINDS ==>
      var k := KindOf(t[0]);
      && 1 + ReachOf(k) <= |t|
      && Resume(c, t, left, size) ==
           Resume(Load(c, k, t[1..]), t[1 + SizeOf(k)..], left - 1 - SizeOf(k), size + 1 + SizeOf(k))
  {
    var k := KindOf(t[0]);
    if k < KINDS && Parse(t[1 + SizeOf(k)..], left - 1 - SizeOf(k)).Ok? {
      var parts := Parse(t[1 + SizeOf(k)..], left - 1 - SizeOf(k)).value;
      var p := t[1..1 + SizeOf(k)];
      assert ([Part(k, p)] + parts)[1..] == parts;
      LoadPrefix(c, k, p, t[1..]);
    }
  }

  lemma LoadPrefix(c: Contents, k: nat, p: seq<octet>, q: seq<octet>)
    requires k < KINDS && |p| == SizeOf(k) && p <= q
    ensures Load(c, k, p) == Load(c, k, q)
  {
    assert q[..|p|] == p;
    if k == 0 {
      assert p[..4] == q[..4] && p[4..8] == q[4..8];
    } else if k == 1 {
      assert p[..16] == q[..16] && p[16..32] == q[16..32];
    }
  }

  /** Nothing more is read. */
  lemma ReadEnd(c: Contents, t: seq<octet>, left: int)
    requires left <= 0 || (t != [] && KindOf(t[0]) == KINDS)
    ensures LoadParts(c, PartsRead(t, left)) == c
  {
  }

  /** One component is read, and then the others. */
  lemma ReadOne(c: Contents, t: seq<octet>, left: int)
    requires left > 0 && t != [] && KindOf(t[0]) < KINDS && 1 + ReachOf(KindOf(t[0])) <= |t|
    ensures var k := KindOf(t[0]);
      LoadParts(c, PartsRead(t, left)) ==
        LoadParts(Load(c, k, t[1..]), PartsRead(t[1 + SizeOf(k)..], left - 1 - SizeOf(k)))
  {
    hide Load, SizeOf, TypeOf, KindOf;
    var k := KindOf(t[0]);
    var p, parts := t[1..1 + SizeOf(k)], PartsRead(t[1 + SizeOf(k)..], left - 1 - SizeOf(k));
    assert ([Part(k, p)] + parts)[1..] == parts;
    LoadPrefix(c, k, p, t[1..]);
  }

  /** The decoder: it stops when the declared length is used up, even if a component overshoots it. */
  method DecodePacketFilter(buffer: array<octet>, base: nat, remaining: int, prior: PacketFilter)
    returns (decoded: int, f: PacketFilter)
    requires base <= buffer.Length && LoadFilter(buffer[base..], remaining, prior) != Overrun
    ensures match LoadFilter(buffer[base..], remaining, prior)
      case Ok(v, size) => decoded == size && f == v
      case Error(code) => decoded == code < 0
      case Overrun => false
    ensures f == FilterLeft(buffer[base..], remaining, prior)
  {
    hide Parse, PartsRead, Load, LoadParts, DirectionOf, IdentifierOf, SizeOf, TypeOf, KindOf;
    f := prior;
    if remaining == 0 {
      return TLV_VALUE_DOESNT_MATCH, f;
    }
    ghost var s := buffer[base..];
    var c := prior.contents.(flags := {});
    var length := buffer[base + 2];
    f := PacketFilter(DirectionOf(buffer[base]), IdentifierOf(buffer[base]), buffer[base + 1], length, c);
    decoded := 3;
    ghost var outcome, parts := Resume(c, s[3..], length as int, 3), LoadParts(c, PartsRead(s[3..], length as int));
    while decoded - 3 < length
      invariant 3 <= decoded <= |s|
      invariant Resume(c, s[decoded..], length as int - (decoded - 3), decoded) == outcome
      invariant LoadParts(c, PartsRead(s[decoded..], length as int - (decoded - 3))) == parts
      decreases length as int - (decoded - 3)
    {
      ResumeOne(c, s[decoded..], length as int - (decoded - 3), decoded);
      var k := KindOf(buffer[base + decoded]);
      if k == KINDS {
        ReadEnd(c, s[decoded..], length as int - (decoded - 3));
        return TLV_UNEXPECTED_IEI, f.(contents := c);
      }
      ReadOne(c, s[decoded..], length as int - (decoded - 3));
      assert s[decoded..][1..] == buffer[base + decoded + 1..];
      assert s[decoded..][1 + SizeOf(k)..] == s[decoded + 1 + SizeOf(k)..];
      c := GetPayload(c, k, buffer, base + decoded + 1);
      decoded := decoded + 1 + SizeOf(k);
    }
    ResumeEnd(c, s[decoded..], length as int - (decoded - 3), decoded);
    ReadEnd(c, s[decoded..], length as int - (decoded - 3));
    f := f.(contents := c);
  }

  lemma ResumeEnd(c: Contents, t: seq<octet>, left: int, size: nat)
    requires left <= 0
    ensures Resume(c, t, left, size) == Ok(c, size)
  {
  }
}
