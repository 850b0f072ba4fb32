/**
 * The octets of one packet filter (section 10.5.6.12 of 3GPP TS 24.008): what the encoder
 * writes, what the decoder reads, and how the two compose.
 */
module FilterCodec {
  import opened Octets
  import opened PacketFilters
  import opened Tlv

  /** Components are numbered by their bit in the flag word. */
  const KINDS: nat := 10
  const FLOW_LABEL: nat := 9

  function TypeOf(k: nat): octet
    requires k < KINDS
  {
    if k == 0 then 0x10 else if k == 1 then 0x20 else if k == 2 then 0x30
    else if k == 3 then 0x40 else if k == 4 then 0x41 else if k == 5 then 0x50
    else if k == 6 then 0x51 else if k == 7 then 0x60 else if k == 8 then 0x70
    else 0x80
  }

  /** Octets counted for a component, after its type. */
  function SizeOf(k: nat): (n: nat)
    requires k < KINDS
    ensures 1 <= n <= 32
  {
    if k == 0 then 8 else if k == 1 then 32 else if k == 2 then 1
    else if k == 3 || k == 5 || k == 8 then 2 else if k == FLOW_LABEL then 3 else 4
  }

  /** Octets touched for a component: a flow label is read as a word of four. */
  function ReachOf(k: nat): (n: nat)
    requires k < KINDS
    ensures n == SizeOf(k) + if k == FLOW_LABEL then 1 else 0
  {
    if k == FLOW_LABEL then 4 else SizeOf(k)
  }

  /** The component that a type octet announces, or KINDS. */
  function KindOf(t: octet): (k: nat)
    ensures k <= KINDS && (k < KINDS ==> TypeOf(k) == t)
  {
    KindFrom(t, 0)
  }

  function KindFrom(t: octet, j: nat): (k: nat)
    requires j <= KINDS
    ensures j <= k <= KINDS && (k < KINDS ==> TypeOf(k) == t)
    ensures forall i :: j <= i < k ==> TypeOf(i) != t
    decreases KINDS - j
  {
    if j == KINDS || TypeOf(j) == t then j else KindFrom(t, j + 1)
  }

  lemma KindOfType(k: nat)
    requires k < KINDS
    ensures KindOf(TypeOf(k)) == k
  {
    TypesDiffer(k, KindOf(TypeOf(k)));
  }

  lemma TypesDiffer(j: nat, k: nat)
    requires j < KINDS && k < KINDS && TypeOf(j) == TypeOf(k)
    ensures j == k
  {
  }

  // ---------------------------------------------------------------------------
  // Encoding

  function Payload(c: Contents, k: nat): (p: seq<octet>)
    requires k < KINDS
    ensures |p| == SizeOf(k)
  {
    if k == 0 then c.ipv4Addr + c.ipv4Mask
    else if k == 1 then c.ipv6Addr + c.ipv6Mask
    else if k == 2 then [c.nextHeader]
    else if k == 3 then Octets2(c.localPort)
    else if k == 4 then Octets2(c.localLow) + Octets2(c.localHigh)
    else if k == 5 then Octets2(c.remotePort)
    else if k == 6 then Octets2(c.remoteLow) + Octets2(c.remoteHigh)
    else if k == 7 then Octets4(c.securityIndex)
    else if k == 8 then [c.classValue, c.classMask]
    else Octets4(c.flowLabel % 0x10_0000)[..3]
  }

  /** The octets of all ten components, flagged or not. */
  type Payloads = ps: seq<seq<octet>> | Sized(ps) witness EXAMPLE_PAYLOADS

  predicate Sized(ps: seq<seq<octet>>) {
    |ps| == KINDS && forall k :: 0 <= k < KINDS ==> |ps[k]| == SizeOf(k)
  }

  const EXAMPLE_PAYLOADS: seq<seq<octet>> := PayloadsOf(ZERO_CONTENTS)

  function PayloadsOf(c: Contents): (ps: seq<seq<octet>>)
    ensures Sized(ps)
    ensures forall k :: 0 <= k < KINDS ==> ps[k] == Payload(c, k)
  {
    seq(KINDS, k requires 0 <= k < KINDS => Payload(c, k))
  }

  /** One component: its number and the octets counted for it. */
  datatype AnyPart = Part(kind: nat, octets: seq<octet>)

  type Part = p: AnyPart | p.kind < KINDS && |p.octets| == SizeOf(p.kind) witness Part(2, [0])

  /** The flagged components from number k on, in the order of their flags. */
  function PartsOf(flags: set<nat>, ps: Payloads, k: nat): seq<Part>
    requires k <= KINDS
    decreases KINDS - k
  {
    if k == KINDS then []
    else (if k in flags then [Part(k, ps[k])] else []) + PartsOf(flags, ps, k + 1)
  }

  /** Components laid out one after the other, each after its type. */
  function Layout(parts: seq<Part>): (s: seq<octet>)
    decreases |parts|
  {
    if parts == [] then [] else [TypeOf(parts[0].kind)] + parts[0].octets + Layout(parts[1..])
  }

  /** The size of the flagged components from number k on. */
  function TotalSize(flags: set<nat>, k: nat): nat
    requires k <= KINDS
    decreases KINDS - k
  {
    if k == KINDS then 0 else (if k in flags then 1 + SizeOf(k) else 0) + TotalSize(flags, k + 1)
  }

  lemma {:induction false} LayoutSize(flags: set<nat>, ps: Payloads, k: nat)
    requires k <= KINDS
    ensures |Layout(PartsOf(flags, ps, k))| == TotalSize(flags, k)
    decreases KINDS - k
  {
    hide SizeOf, TypeOf;
    if k < KINDS {
      var rest := PartsOf(flags, ps, k + 1);
      LayoutSize(flags, ps, k + 1);
      if k in flags {
        assert ([Part(k, ps[k])] + rest)[1..] == rest;
      } else {
        assert [] + rest == rest;
      }
    }
  }

  const MAX_SIZES: seq<nat> := [72, 63, 30, 28, 25, 20, 17, 12, 7, 4, 0]

  lemma {:induction false} TotalSizeBound(flags: set<nat>, k: nat)
    requires k <= KINDS
    ensures TotalSize(flags, k) <= MAX_SIZES[k]
    decreases KINDS - k
  {
    if k < KINDS {
      TotalSizeBound(flags, k + 1);
    }
  }

  function Body(c: Contents): (body: seq<octet>)
    ensures |body| == TotalSize(c.flags, 0) <= 72
  {
    LayoutSize(c.flags, PayloadsOf(c), 0);
    TotalSizeBound(c.flags, 0);
    Layout(PartsOf(c.flags, PayloadsOf(c), 0))
  }

  function Header(f: PacketFilter, size: octet): (h: seq<octet>) {
    [f.direction * 16 + f.identifier, f.precedence, size]
  }

  /** The whole filter: at most 75 octets, so its length octet is never truncated. */
  function FilterOctets(f: PacketFilter): (s: seq<octet>)
    ensures 3 <= |s| <= 75 && |s| == 3 + TotalSize(f.contents.flags, 0)
  {
    hide Body, TotalSize;
    Header(f, |Body(f.contents)|) + Body(f.contents)
  }

  // ---------------------------------------------------------------------------
  // Decoding

  /** Store what a component's octets say. */
  function Load(c: Contents, k: nat, p: seq<octet>): (r: Contents)
    requires k < KINDS && |p| >= SizeOf(k)
    ensures r.flags == c.flags + {k}
  {
    var d := c.(flags := c.flags + {k});
    if k == 0 then d.(ipv4Addr := p[..4], ipv4Mask := p[4..8])
    else if k == 1 then d.(ipv6Addr := p[..16], ipv6Mask := p[16..32])
    else if k == 2 then d.(nextHeader := p[0])
    else if k == 3 then d.(localPort := Value2(p))
    else if k == 4 then d.(localLow := Value2(p), localHigh := Value2(p[2..]))
    else if k == 5 then d.(remotePort := Value2(p))
    else if k == 6 then d.(remoteLow := Value2(p), remoteHigh := Value2(p[2..]))
    else if k == 7 then d.(securityIndex := Value4(p))
    else if k == 8 then d.(classValue := p[0], classMask := p[1])
    else d.(flowLabel := Value3(p))
  }

  /** The components at the start of `t`, as long as some of the declared length is left. */
  function Parse(t: seq<octet>, left: int): (r: Decoded<seq<Part>>)
    ensures r.Error? ==> r.code == TLV_UNEXPECTED_IEI
    decreases if left > 0 then left else 0
  {
    if left <= 0 then Ok([], 0)
    else if t == [] then Overrun
    else
      var k := KindOf(t[0]);
      if k == KINDS then Error(TLV_UNEXPECTED_IEI)
      else if 1 + ReachOf(k) > |t| then Overrun
      else
        var n := 1 + SizeOf(k);
        match Parse(t[n..], left - n)
        case Ok(parts, size) => Ok([Part(k, t[1..n])] + parts, n + size)
        case Error(code) => Error(code)
        case Overrun => Overrun
  }

  /** Store components one after the other, so that the last of a kind wins. */
  function LoadParts(c: Contents, parts: seq<Part>): Contents
    decreases |parts|
  {
    if parts == [] then c else LoadParts(Load(c, parts[0].kind, parts[0].octets), parts[1..])
  }

  /** The high nibble, stored into a field of two bits. */
  function DirectionOf(o: octet): bits2 {
    o / 16 % 4
  }

  function IdentifierOf(o: octet): bits4 {
    o % 16
  }

  /**
   * Decode the filter at the start of `s`, into the structure that held `prior`; `remaining` is
   * the length given for the rest of the message, which is compared with zero and no more.
   */
  function LoadFilter(s: seq<octet>, remaining: int, prior: PacketFilter): (r: Decoded<PacketFilter>)
    ensures r.Error? ==> r.code in {TLV_VALUE_DOESNT_MATCH, TLV_UNEXPECTED_IEI}
  {
    if remaining == 0 then Error(TLV_VALUE_DOESNT_MATCH)
    else if |s| < 3 then Overrun
    else
      match Parse(s[3..], s[2] as int)
      case Ok(parts, size) =>
        var c := LoadParts(prior.contents.(flags := {}), parts);
        Ok(PacketFilter(DirectionOf(s[0]), IdentifierOf(s[0]), s[1], s[2], c), 3 + size)
      case Error(code) => Error(code)
      case Overrun => Overrun
  }

  /** The components read before the decoder is done or meets an unknown type. */
  function PartsRead(t: seq<octet>, left: int): seq<Part>
    decreases if left > 0 then left else 0
  {
    if left <= 0 || t == [] then []
    else
      var k := KindOf(t[0]);
      if k == KINDS || 1 + ReachOf(k) > |t| then []
      else [Part(k, t[1..1 + SizeOf(k)])] + PartsRead(t[1 + SizeOf(k)..], left - 1 - SizeOf(k))
  }

  /** What the decoder leaves in the structure, also where it reports an error. */
  function FilterLeft(s: seq<octet>, remaining: int, prior: PacketFilter): PacketFilter {
    if remaining == 0 || |s| < 3 then prior
    else
      var c := LoadParts(prior.contents.(flags := {}), PartsRead(s[3..], s[2] as int));
      PacketFilter(DirectionOf(s[0]), IdentifierOf(s[0]), s[1], s[2], c)
  }

  lemma {:induction false} ParsedRead(t: seq<octet>, left: int)
    requires Parse(t, left).Ok?
    ensures PartsRead(t, left) == Parse(t, left).value
    decreases if left > 0 then left else 0
  {
    hide TypeOf, SizeOf, KindOf;
    if left > 0 {
      var n := 1 + SizeOf(KindOf(t[0]));
      ParsedRead(t[n..], left - n);
    }
  }

  /** Where it reports none, that is the decoded filter. */
  lemma DecodedIsLeft(s: seq<octet>, remaining: int, prior: PacketFilter)
    requires LoadFilter(s, remaining, prior).Ok?
    ensures FilterLeft(s, remaining, prior) == LoadFilter(s, remaining, prior).value
  {
    hide Parse, PartsRead;
    ParsedRead(s[3..], s[2] as int);
  }

  // ---------------------------------------------------------------------------
  // Fields

  /** Both records hold the same value of component k. */
  ghost predicate SameField(c: Contents, d: Contents, k: nat) {
    && (k == 0 ==> c.ipv4Addr == d.ipv4Addr && c.ipv4Mask == d.ipv4Mask)
    && (k == 1 ==> c.ipv6Addr == d.ipv6Addr && c.ipv6Mask == d.ipv6Mask)
    && (k == 2 ==> c.nextHeader == d.nextHeader)
    && (k == 3 ==> c.localPort == d.localPort)
    && (k == 4 ==> c.localLow == d.localLow && c.localHigh == d.localHigh)
    && (k == 5 ==> c.remotePort == d.remotePort)
    && (k == 6 ==> c.remoteLow == d.remoteLow && c.remoteHigh == d.remoteHigh)
    && (k == 7 ==> c.securityIndex == d.securityIndex)
    && (k == 8 ==> c.classValue == d.classValue && c.classMask == d.classMask)
    && (k == FLOW_LABEL ==> c.flowLabel == d.flowLabel)
  }

  /** Flow labels travel without their top twelve bits, and lose their lowest eight on the way. */
  function CarriedLabel(v: u32): u32 {
    v % 0x10_0000 / 0x100
  }

  /** A record as it comes out of a trip through the codec. */
  function Carried(c: Contents): Contents {
    c.(flowLabel := CarriedLabel(c.flowLabel))
  }

  lemma LoadKeeps(c: Contents, k: nat, p: seq<octet>, j: nat)
    requires k < KINDS && |p| >= SizeOf(k) && j != k
    ensures SameField(Load(c, k, p), c, j)
  {
  }

  lemma LoadPayload(c: Contents, d: Contents, k: nat, p: seq<octet>)
    requires k < KINDS && Payload(d, k) <= p
    ensures SameField(Load(c, k, p), Carried(d), k)
  {
    var q := Payload(d, k);
    assert p[..|q|] == q;
    if k == 0 {
      assert p[..4] == q[..4] && p[4..8] == q[4..8];
    } else if k == 1 {
      assert p[..16] == q[..16] && p[16..32] == q[16..32];
    } else if k == 7 {
      Value4Octets(d.securityIndex, p);
    } else if k == FLOW_LABEL {
      Value3Octets(d.flowLabel % 0x10_0000);
    }
  }


  // ---------------------------------------------------------------------------
  // Decoding what was encoded

  ghost function FlagsFrom(flags: set<nat>, k: nat): set<nat> {
    set j | j in flags && k <= j < KINDS
  }

  /** `r` holds the flagged components of `d` from number k on, and otherwise what `c` held. */
  ghost predicate Took(r: Contents, c: Contents, d: Contents, k: nat) {
    && r.flags == c.flags + FlagsFrom(d.flags, k)
    && forall j :: 0 <= j < KINDS ==> SameField(r, if j in FlagsFrom(d.flags, k) then Carried(d) else c, j)
  }

  lemma TookOne(r: Contents, c: Contents, c': Contents, d: Contents, k: nat, p: seq<octet>)
    requires k < KINDS && k in d.flags && Payload(d, k) <= p && c' == Load(c, k, p) && Took(r, c', d, k + 1)
    ensures Took(r, c, d, k)
  {
    hide Load, Payload, Carried;
    LoadPayload(c, d, k, p);
    forall j | 0 <= j < KINDS
      ensures SameField(r, if j in FlagsFrom(d.flags, k) then Carried(d) else c, j)
    {
      var from := if j in FlagsFrom(d.flags, k + 1) then Carried(d) else c';
      assert SameField(r, from, j);
      if j == k {
        assert from == c';
      } else {
        assert j in FlagsFrom(d.flags, k) <==> j in FlagsFrom(d.flags, k + 1);
        LoadKeeps(c, k, p, j);
      }
    }
  }

  lemma ParsesOne(k: nat, p: seq<octet>, tail: seq<octet>, left: int)
    requires k < KINDS && |p| == SizeOf(k) && left > 0 && (k == FLOW_LABEL ==> tail != [])
    requires Parse(tail, left - 1 - |p|).Ok?
    ensures var r := Parse(tail, left - 1 - |p|);
      Parse([TypeOf(k)] + p + tail, left) == Ok([Part(k, p)] + r.value, 1 + |p| + r.size)
  {
    var t := [TypeOf(k)] + p + tail;
    KindOfType(k);
    assert t[1..1 + |p|] == p;
    assert t[1 + |p|..] == tail;
  }

  lemma ParsesNothing(t: seq<octet>)
    ensures Parse(t, 0) == Ok([], 0)
  {
  }

  /** Parsing finds exactly the components that were laid out, in any order and with any repeats. */
  lemma {:induction false} ParsesLayout(parts: seq<Part>, rest: seq<octet>)
    requires rest != [] || forall i :: 0 <= i < |parts| ==> parts[i].kind != FLOW_LABEL
    ensures Parse(Layout(parts) + rest, |Layout(parts)|) == Ok(parts, |Layout(parts)|)
    decreases |parts|
  {
    hide Parse;
    if parts == [] {
      ParsesNothing(Layout(parts) + rest);
    } else {
      var p, tail := parts[0], Layout(parts[1..]);
      ParsesLayout(parts[1..], rest);
      ParsesOne(p.kind, p.octets, tail + rest, 1 + |p.octets| + |tail|);
      AppendAssociates([TypeOf(p.kind)] + p.octets, tail, rest);
      assert [Part(p.kind, p.octets)] + parts[1..] == parts;
    }
  }

  lemma {:induction false} PartKinds(flags: set<nat>, ps: Payloads, k: nat)
    requires k <= KINDS
    ensures forall i :: 0 <= i < |PartsOf(flags, ps, k)| ==> PartsOf(flags, ps, k)[i].kind in flags
    decreases KINDS - k
  {
    if k < KINDS {
      PartKinds(flags, ps, k + 1);
      var rest := PartsOf(flags, ps, k + 1);
      assert PartsOf(flags, ps, k) == (if k in flags then [Part(k, ps[k])] else []) + rest;
    }
  }

  lemma LoadsNext(c: Contents, flags: set<nat>, ps: Payloads, k: nat)
    requires k < KINDS
    ensures LoadParts(c, PartsOf(flags, ps, k)) ==
      LoadParts(if k in flags then Load(c, k, ps[k]) else c, PartsOf(flags, ps, k + 1))
  {
    hide Load;
    var rest := PartsOf(flags, ps, k + 1);
    if k in flags {
      assert ([Part(k, ps[k])] + rest)[1..] == rest;
    } else {
      assert [] + rest == rest;
    }
  }

  lemma {:induction false} LoadPartsTakes(c: Contents, d: Contents, k: nat)
    requires k <= KINDS
    ensures Took(LoadParts(c, PartsOf(d.flags, PayloadsOf(d), k)), c, d, k)
    decreases KINDS - k
  {
    hide Load, Payload, PayloadsOf, Took, LoadParts;
    if k == KINDS {
      NothingTaken(c, d);
    } else {
      var p := PayloadsOf(d)[k];
      var c' := if k in d.flags then Load(c, k, p) else c;
      LoadsNext(c, d.flags, PayloadsOf(d), k);
      LoadPartsTakes(c', d, k + 1);
      var r := LoadParts(c', PartsOf(d.flags, PayloadsOf(d), k + 1));
      if k in d.flags {
        TookOne(r, c, c', d, k, p);
      } else {
        TookSame(r, c, d, k);
      }
    }
  }

  lemma TookSame(r: Contents, c: Contents, d: Contents, k: nat)
    requires k < KINDS && k !in d.flags && Took(r, c, d, k + 1)
    ensures Took(r, c, d, k)
  {
    assert FlagsFrom(d.flags, k) == FlagsFrom(d.flags, k + 1);
  }

  lemma NothingTaken(c: Contents, d: Contents)
    ensures Took(LoadParts(c, PartsOf(d.flags, PayloadsOf(d), KINDS)), c, d, KINDS)
  {
  }

  /**
   * `g` is what `f` becomes on a trip into a structure that held `prior`: flow label apart, every
   * flagged field of it, and elsewhere what was there before.
   */
  ghost predicate Received(g: PacketFilter, f: PacketFilter, prior: PacketFilter) {
    && g.direction == f.direction && g.identifier == f.identifier && g.precedence == f.precedence
    && g.length == TotalSize(f.contents.flags, 0)
    && g.contents.flags == FlagsFrom(f.contents.flags, 0)
    && forall k :: 0 <= k < KINDS ==>
         SameField(g.contents, if k in f.contents.flags then Carried(f.contents) else prior.contents, k)
  }

  /**
   * Packet-filter round trip, for every set of components and every field value: decoding what
   * was encoded restores all of it but the flow label, and consumes exactly what was written.
   * One octet must follow a flow label, since it is read as four.
   */
  lemma FilterRoundTrip(f: PacketFilter, rest: seq<octet>, remaining: int, prior: PacketFilter)
    requires remaining != 0 && (FLOW_LABEL in f.contents.flags ==> rest != [])
    ensures var r := LoadFilter(FilterOctets(f) + rest, remaining, prior);
      r.Ok? && r.size == |FilterOctets(f)| && Received(r.value, f, prior)
  {
    hide Body, Parse;
    HeaderSplit(f, Body(f.contents), rest);
    RoundTripFrom(f, FilterOctets(f) + rest, rest, remaining, prior);
  }

  lemma HeaderSplit(f: PacketFilter, body: seq<octet>, rest: seq<octet>)
    requires |body| < 256
    ensures var s := Header(f, |body|) + body + rest;
      && s[0] == f.direction * 16 + f.identifier && s[1] == f.precedence && s[2] == |body|
      && s[3..] == body + rest
  {
  }

  lemma RoundTripFrom(f: PacketFilter, s: seq<octet>, rest: seq<octet>, remaining: int, prior: PacketFilter)
    requires remaining != 0 && (FLOW_LABEL in f.contents.flags ==> rest != [])
    requires |s| >= 3 && s[0] == f.direction * 16 + f.identifier && s[1] == f.precedence
    requires s[2] == |Body(f.contents)| && s[3..] == Body(f.contents) + rest
    ensures var r := LoadFilter(s, remaining, prior);
      r.Ok? && r.size == 3 + |Body(f.contents)| && Received(r.value, f, prior)
  {
    hide DirectionOf, IdentifierOf, SameField, Took, Layout, PartsOf, PayloadsOf, TotalSize;
    hide LoadParts, Carried, Parse, Payload;
    var d, blank := f.contents, prior.contents.(flags := {});
    PartKinds(d.flags, PayloadsOf(d), 0);
    ParsesLayout(PartsOf(d.flags, PayloadsOf(d), 0), rest);
    LoadPartsTakes(blank, d, 0);
    ReceivedAll(LoadParts(blank, PartsOf(d.flags, PayloadsOf(d), 0)), blank, d);
    FlagsNoField(LoadParts(blank, PartsOf(d.flags, PayloadsOf(d), 0)), prior.contents);
    FirstOctet(s[0], f.direction, f.identifier);
  }

  lemma FlagsNoField(r: Contents, c: Contents)
    ensures forall k :: SameField(r, c.(flags := {}), k) <==> SameField(r, c, k)
  {
  }

  lemma ReceivedAll(r: Contents, blank: Contents, d: Contents)
    requires Took(r, blank, d, 0) && blank.flags == {}
    ensures r.flags == FlagsFrom(d.flags, 0)
    ensures forall k :: 0 <= k < KINDS ==> SameField(r, if k in d.flags then Carried(d) else blank, k)
  {
    hide SameField;
    assert forall k :: 0 <= k < KINDS ==> (k in d.flags <==> k in FlagsFrom(d.flags, 0));
  }

  lemma FirstOctet(o: octet, direction: bits2, identifier: bits4)
    requires o == direction * 16 + identifier
    ensures DirectionOf(o) == direction && IdentifierOf(o) == identifier
  {
  }

  /** Nothing is lost exactly when no flow label is carried, or it is zero. */
  lemma RoundTripExact(f: PacketFilter, g: PacketFilter, prior: PacketFilter)
    requires Received(g, f, prior)
    ensures (forall k :: 0 <= k < KINDS && k in f.contents.flags ==> SameField(g.contents, f.contents, k)) <==>
      (FLOW_LABEL in f.contents.flags ==> f.contents.flowLabel == 0)
  {
    var d := f.contents;
    LabelKept(d.flowLabel);
    if FLOW_LABEL in d.flags && d.flowLabel != 0 {
      assert SameField(g.contents, Carried(d), FLOW_LABEL);
      assert !SameField(g.contents, d, FLOW_LABEL);
    }
    forall k | 0 <= k < KINDS && k in d.flags && (k == FLOW_LABEL ==> d.flowLabel == 0)
      ensures SameField(g.contents, d, k)
    {
      assert SameField(g.contents, Carried(d), k);
    }
  }

  /** Two records with the same flags and fields are one. */
  lemma SameContents(c: Contents, d: Contents)
    requires c.flags == d.flags && forall k :: 0 <= k < KINDS ==> SameField(c, d, k)
    ensures c == d
  {
    assert SameField(c, d, 0) && SameField(c, d, 1) && SameField(c, d, 2) && SameField(c, d, 3) && SameField(c, d, 4);
    assert SameField(c, d, 5) && SameField(c, d, 6) && SameField(c, d, 7) && SameField(c, d, 8) && SameField(c, d, 9);
  }

  /** What a filter must be like to come back as it was from a structure that held `prior`. */
  ghost predicate Restorable(f: PacketFilter, prior: PacketFilter) {
    && f.length == TotalSize(f.contents.flags, 0)
    && (forall k :: k in f.contents.flags ==> k < KINDS)
    && (FLOW_LABEL in f.contents.flags ==> f.contents.flowLabel == 0)
    && forall k :: 0 <= k < KINDS && k !in f.contents.flags ==> SameField(f.contents, prior.contents, k)
  }

  /** A filter that was received is the one sent exactly when that one is restorable. */
  lemma ReceivedExactly(g: PacketFilter, f: PacketFilter, prior: PacketFilter)
    requires Received(g, f, prior)
    ensures g == f <==> Restorable(f, prior)
  {
    hide SameField, TotalSize, Carried;
    var d := f.contents;
    RoundTripExact(f, g, prior);
    SameAsItself(d);
    if Restorable(f, prior) {
      forall k | 0 <= k < KINDS ensures SameField(g.contents, d, k) {
        if k !in d.flags {
          SameThrough(g.contents, prior.contents, d, k);
        }
      }
      assert FlagsFrom(d.flags, 0) == d.flags;
      SameContents(g.contents, d);
    }
  }

  /**
   * The whole structure is restored exactly when its length counts its components, its flags are
   * known ones, it carries no flow label but 0, and its unused fields are those found there.
   */
  lemma FilterRestoredExactly(f: PacketFilter, rest: seq<octet>, remaining: int, prior: PacketFilter)
    requires remaining != 0 && (FLOW_LABEL in f.contents.flags ==> rest != [])
    ensures LoadFilter(FilterOctets(f) + rest, remaining, prior) == Ok(f, |FilterOctets(f)|) <==> Restorable(f, prior)
  {
    hide FilterOctets, LoadFilter, Received, Restorable;
    FilterRoundTrip(f, rest, remaining, prior);
    ReceivedExactly(LoadFilter(FilterOctets(f) + rest, remaining, prior).value, f, prior);
  }

  lemma SameAsItself(c: Contents)
    ensures forall k :: SameField(c, c, k)
  {
  }

  lemma SameThrough(a: Contents, b: Contents, c: Contents, k: nat)
    requires SameField(a, b, k) && SameField(c, b, k)
    ensures SameField(a, c, k)
  {
  }

  lemma LabelKept(v: u32)
    ensures CarriedLabel(v) == v <==> v == 0
  {
  }

  // ---------------------------------------------------------------------------
  // Encoding what was decoded

  ghost function PartsSize(parts: seq<Part>): nat
  {
    if parts == [] then 0 else 1 + SizeOf(parts[0].kind) + PartsSize(parts[1..])
  }

  lemma {:induction false} ParsedSize(t: seq<octet>, left: int)
    requires Parse(t, left).Ok?
    ensures Parse(t, left).size == PartsSize(Parse(t, left).value)
    ensures Parse(t, left).value == [] <==> left <= 0
    decreases if left > 0 then left else 0
  {
    if left > 0 {
      var k := KindOf(t[0]);
      var n := 1 + SizeOf(k);
      ParsedSize(t[n..], left - n);
      var parts := Parse(t[n..], left - n).value;
      assert ([Part(k, t[1..n])] + parts)[1..] == parts;
    }
  }

  /** Loaded components take at least the octets that laying them out once each takes. */
  lemma {:induction false} LoadedFlags(c: Contents, parts: seq<Part>)
    decreases |parts|
    ensures var r := LoadParts(c, parts);
      && TotalSize(r.flags, 0) <= TotalSize(c.flags, 0) + PartsSize(parts)
      && forall k :: k in r.flags <==> k in c.flags || exists i :: 0 <= i < |parts| && parts[i].kind == k
  {
    hide Load, SizeOf;
    if parts != [] {
      var k := parts[0].kind;
      LoadedFlags(Load(c, k, parts[0].octets), parts[1..]);
      OneMoreSize(c.flags, k, 0);
      assert parts == [parts[0]] + parts[1..];
    }
  }

  lemma {:induction false} OneMoreSize(flags: set<nat>, k: nat, j: nat)
    requires k < KINDS && j <= KINDS
    ensures TotalSize(flags + {k}, j) <= TotalSize(flags, j) + if j <= k then 1 + SizeOf(k) else 0
    decreases KINDS - j
  {
    if j < KINDS {
      OneMoreSize(flags, k, j + 1);
    }
  }

  /** A decoded filter reads as in use exactly when it has a component, and only known flags are set. */
  lemma DecodedLive(s: seq<octet>, remaining: int, prior: PacketFilter)
    requires LoadFilter(s, remaining, prior).Ok?
    ensures var g := LoadFilter(s, remaining, prior).value;
      && (Live(g) <==> g.contents.flags != {})
      && forall k :: k in g.contents.flags ==> k < KINDS
  {
    var parts := Parse(s[3..], s[2] as int).value;
    ParsedSize(s[3..], s[2] as int);
    LoadedFlags(prior.contents.(flags := {}), parts);
    if parts != [] {
      assert parts[0].kind in LoadFilter(s, remaining, prior).value.contents.flags;
    }
  }

  /**
   * Canonical form: whatever was decoded, with components in any order and repeated at will,
   * encodes to no more octets than were consumed.
   */
  lemma ReencodedNoLonger(s: seq<octet>, remaining: int, prior: PacketFilter)
    requires LoadFilter(s, remaining, prior).Ok?
    ensures |FilterOctets(LoadFilter(s, remaining, prior).value)| <= LoadFilter(s, remaining, prior).size
  {
    ParsedSize(s[3..], s[2] as int);
    LoadedFlags(prior.contents.(flags := {}), Parse(s[3..], s[2] as int).value);
    NoFlags(0);
  }

  lemma {:induction false} NoFlags(k: nat)
    requires k <= KINDS
    ensures TotalSize({}, k) == 0
    decreases KINDS - k
  {
    if k < KINDS {
      NoFlags(k + 1);
    }
  }

  // ---------------------------------------------------------------------------
  // Encoding again

  lemma {:induction false} SameParts(flags: set<nat>, ps: Payloads, qs: Payloads, k: nat)
    requires k <= KINDS && forall j :: k <= j < KINDS && j in flags ==> ps[j] == qs[j]
    ensures PartsOf(flags, ps, k) == PartsOf(flags, qs, k)
    decreases KINDS - k
  {
    if k < KINDS {
      SameParts(flags, ps, qs, k + 1);
    }
  }

  lemma {:induction false} PartsTell(flags: set<nat>, ps: Payloads, qs: Payloads, k: nat, j: nat)
    requires k <= j < KINDS && j in flags && PartsOf(flags, ps, k) == PartsOf(flags, qs, k)
    ensures ps[j] == qs[j]
    decreases KINDS - k
  {
    var p, q := PartsOf(flags, ps, k + 1), PartsOf(flags, qs, k + 1);
    if k in flags {
      assert ([Part(k, ps[k])] + p)[0] == ([Part(k, qs[k])] + q)[0];
      assert ([Part(k, ps[k])] + p)[1..] == p && ([Part(k, qs[k])] + q)[1..] == q;
    } else {
      assert [] + p == p && [] + q == q;
    }
    if k < j {
      PartsTell(flags, ps, qs, k + 1, j);
    }
  }

  /** Different components lay out differently, since parsing tells them apart. */
  lemma LayoutInjective(parts: seq<Part>, others: seq<Part>)
    requires Layout(parts) == Layout(others)
    ensures parts == others
  {
    hide Layout, Parse;
    ParsesLayout(parts, [0]);
    ParsesLayout(others, [0]);
  }

  lemma SamePayload(c: Contents, d: Contents, k: nat)
    requires k < FLOW_LABEL && SameField(c, d, k)
    ensures Payload(c, k) == Payload(d, k)
  {
  }

  /** A second trip leaves a flow label alone exactly when its lower twenty bits are below 256. */
  lemma LabelStable(v: u32)
    ensures Octets4(CarriedLabel(v) % 0x10_0000)[..3] == Octets4(v % 0x10_0000)[..3] <==> v % 0x10_0000 < 0x100
  {
    var x := v % 0x10_0000;
    assert CarriedLabel(v) % 0x10_0000 == x / 0x100;
    Value3Octets(x);
    Value3Octets(x / 0x100);
    if x < 0x100 {
      assert Octets4(x)[..3] == [0, 0, 0] && Octets4(x / 0x100)[..3] == [0, 0, 0];
    }
  }

  /**
   * Canonical form: encoding what was received, and again after the trip, gives the same octets
   * exactly when no flow label is carried, or its lower twenty bits are below 256.
   */
  lemma ReencodedStable(f: PacketFilter, g: PacketFilter, prior: PacketFilter)
    requires Received(g, f, prior) && forall k :: k in f.contents.flags ==> k < KINDS
    ensures FilterOctets(g) == FilterOctets(f) <==>
      (FLOW_LABEL in f.contents.flags ==> f.contents.flowLabel % 0x10_0000 < 0x100)
  {
    hide Layout, Payload, TotalSize, PartsOf;
    var c, d := g.contents, f.contents;
    assert c.flags == d.flags;
    forall k | 0 <= k < FLOW_LABEL && k in d.flags ensures PayloadsOf(c)[k] == PayloadsOf(d)[k] {
      assert SameField(c, Carried(d), k);
      SamePayload(c, d, k);
    }
    if FLOW_LABEL in d.flags {
      LabelPayload(c, d);
    }
    if FLOW_LABEL in d.flags ==> PayloadsOf(c)[FLOW_LABEL] == PayloadsOf(d)[FLOW_LABEL] {
      SameParts(d.flags, PayloadsOf(c), PayloadsOf(d), 0);
    } else if PartsOf(d.flags, PayloadsOf(c), 0) == PartsOf(d.flags, PayloadsOf(d), 0) {
      PartsTell(d.flags, PayloadsOf(c), PayloadsOf(d), 0, FLOW_LABEL);
    }
    SameBodies(f, g);
  }

  lemma LabelPayload(c: Contents, d: Contents)
    requires SameField(c, Carried(d), FLOW_LABEL)
    ensures PayloadsOf(c)[FLOW_LABEL] == PayloadsOf(d)[FLOW_LABEL] <==> d.flowLabel % 0x10_0000 < 0x100
  {
    LabelStable(d.flowLabel);
  }

  lemma SameBodies(f: PacketFilter, g: PacketFilter)
    requires f.direction == g.direction && f.identifier == g.identifier && f.precedence == g.precedence
    requires f.contents.flags == g.contents.flags
    ensures FilterOctets(g) == FilterOctets(f) <==>
      PartsOf(f.contents.flags, PayloadsOf(g.contents), 0) == PartsOf(f.contents.flags, PayloadsOf(f.contents), 0)
  {
    hide Layout, PayloadsOf, TotalSize, PartsOf;
    if FilterOctets(g) == FilterOctets(f) {
      assert Body(g.contents) == FilterOctets(g)[3..] == FilterOctets(f)[3..] == Body(f.contents);
      LayoutInjective(PartsOf(f.contents.flags, PayloadsOf(g.contents), 0),
                      PartsOf(f.contents.flags, PayloadsOf(f.contents), 0));
    }
  }

  /**
   * Canonical form of any octets that decode: encoding again takes no more octets than were
   * consumed, and decoding that once more gives the same components. From then on the octets
   * repeat themselves, flow labels apart.
   */
  lemma CanonicalForm(s: seq<octet>, remaining: int, prior: PacketFilter, rest: seq<octet>, prior': PacketFilter)
    requires LoadFilter(s, remaining, prior).Ok?
    requires FLOW_LABEL in LoadFilter(s, remaining, prior).value.contents.flags ==> rest != []
    ensures var r := LoadFilter(s, remaining, prior);
      var r' := LoadFilter(FilterOctets(r.value) + rest, remaining, prior');
      && |FilterOctets(r.value)| <= r.size
      && r'.Ok? && Received(r'.value, r.value, prior')
      && (FilterOctets(r'.value) == FilterOctets(r.value) <==>
            (FLOW_LABEL in r.value.contents.flags ==> r.value.contents.flowLabel % 0x10_0000 < 0x100))
  {
    hide FilterOctets, Parse, Received;
    var g := LoadFilter(s, remaining, prior).value;
    ReencodedNoLonger(s, remaining, prior);
    DecodedLive(s, remaining, prior);
    FilterRoundTrip(g, rest, remaining, prior');
    ReencodedStable(g, LoadFilter(FilterOctets(g) + rest, remaining, prior').value, prior');
  }
}
