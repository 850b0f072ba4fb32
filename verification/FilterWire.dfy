/**
 * Packet filters octet by octet (section 10.5.6.12 of 3GPP TS 24.008): every component with its type
 * and its fields written out, for the encoder and for the decoder.
 */
module FilterWire {
  import opened Octets
  import opened PacketFilters
  import opened Tlv
  import opened FilterCodec
  import opened FilterCoder

  // ---------------------------------------------------------------------------
  // What is sent

  /**
   * Component k: IPv4 address, IPv6 address, next header, local port, its range, remote port, its
   * range, security parameter index, type of service, flow label.
   */
  function Piece(c: Contents, k: nat): seq<octet> {
    if k !in c.flags then []
    else if k == 0 then [0x10] + c.ipv4Addr + c.ipv4Mask
    else if k == 1 then [0x20] + c.ipv6Addr + c.ipv6Mask
    else if k == 2 then [0x30, c.nextHeader]
    else if k == 3 then [0x40, c.localPort / 0x100, c.localPort % 0x100]
    else if k == 4 then
      [0x41, c.localLow / 0x100, c.localLow % 0x100, c.localHigh / 0x100, c.localHigh % 0x100]
    else if k == 5 then [0x50, c.remotePort / 0x100, c.remotePort % 0x100]
    else if k == 6 then
      [0x51, c.remoteLow / 0x100, c.remoteLow % 0x100, c.remoteHigh / 0x100, c.remoteHigh % 0x100]
    else if k == 7 then
      [0x60, c.securityIndex / 0x100_0000, c.securityIndex / 0x1_0000 % 0x100,
       c.securityIndex / 0x100 % 0x100, c.securityIndex % 0x100]
    else if k == 8 then [0x70, c.classValue, c.classMask]
    else if k == 9 then [0x80, 0, c.flowLabel / 0x1_0000 % 0x10, c.flowLabel / 0x100 % 0x100]
    else []
  }

  /** The first n components, one after the other. */
  function Pieces(c: Contents, n: nat): seq<octet> {
    if n == 0 then [] else Pieces(c, n - 1) + Piece(c, n - 1)
  }

  lemma PieceChosen(c: Contents, k: nat)
    requires k < 10
    ensures Piece(c, k) == Chosen(c, k)
  {
    if k == 9 {
      TwentyBits(c.flowLabel);
    }
  }

  lemma TwentyBits(v: u32)
    ensures Octets4(v % 0x10_0000)[..3] == [0, v / 0x1_0000 % 0x10, v / 0x100 % 0x100]
  {
    var h, x := v / 0x10_0000, v % 0x10_0000;
    UpperPart(h, x);
    LowerPart(h, x);
  }

  lemma UpperPart(h: nat, x: nat)
    requires x < 0x10_0000
    ensures x / 0x100_0000 == 0
    ensures (h * 0x10_0000 + x) / 0x1_0000 % 0x10 == x / 0x1_0000 == x / 0x1_0000 % 0x100
  {
    assert (h * 0x10_0000 + x) / 0x1_0000 == h * 0x10 + x / 0x1_0000;
  }

  lemma LowerPart(h: nat, x: nat)
    ensures (h * 0x10_0000 + x) / 0x100 % 0x100 == x / 0x100 % 0x100
  {
    assert (h * 0x10_0000 + x) / 0x100 == 0x10 * h * 0x100 + x / 0x100;
    LowerOctet(0x10 * h, x / 0x100);
  }

  lemma LowerOctet(k: nat, y: nat)
    ensures (k * 0x100 + y) % 0x100 == y % 0x100
  {
  }

  lemma {:induction false} PiecesLaidOut(c: Contents, n: nat)
    requires n <= 10
    ensures Pieces(c, n) + Layout(PartsOf(c.flags, PayloadsOf(c), n)) == Body(c)
  {
    hide Layout, PartsOf, PayloadsOf, Body, Piece, Chosen;
    if n == 0 {
      LayoutAll(c);
    } else {
      PiecesLaidOut(c, n - 1);
      PieceChosen(c, n - 1);
      LayoutNext(c, n - 1, Pieces(c, n - 1));
    }
  }

  /** A filter is sent as its identity, its precedence, a length, and its components in order. */
  lemma FilterSpelled(f: PacketFilter)
    ensures |Pieces(f.contents, 10)| <= 72
    ensures FilterOctets(f) ==
      [f.direction * 16 + f.identifier, f.precedence, |Pieces(f.contents, 10)|] + Pieces(f.contents, 10)
  {
    hide Pieces, Layout, PartsOf, PayloadsOf, Body, TotalSize;
    var c := f.contents;
    PiecesLaidOut(c, 10);
    LayoutNone(c.flags, PayloadsOf(c));
    assert Pieces(c, 10) + [] == Pieces(c, 10);
  }

  // ---------------------------------------------------------------------------
  // What is read

  /** The octets after a component's type, or 0 for a type that is not known. */
  function Width(t: octet): nat {
    match t
    case 0x10 => 8
    case 0x20 => 32
    case 0x30 => 1
    case 0x40 => 2
    case 0x41 => 4
    case 0x50 => 2
    case 0x51 => 4
    case 0x60 => 4
    case 0x70 => 2
    case 0x80 => 3
    case _ => 0
  }

  function Word2(p: seq<octet>, i: nat): u16
    requires i + 2 <= |p|
  {
    p[i] as int * 0x100 + p[i + 1] as int
  }

  /** What reading a component with type t and octets p leaves. */
  function Noted(c: Contents, t: octet, p: seq<octet>): Contents
    requires |p| == Width(t)
  {
    match t
    case 0x10 => c.(flags := c.flags + {0}, ipv4Addr := p[..4], ipv4Mask := p[4..])
    case 0x20 => c.(flags := c.flags + {1}, ipv6Addr := p[..16], ipv6Mask := p[16..])
    case 0x30 => c.(flags := c.flags + {2}, nextHeader := p[0])
    case 0x40 => c.(flags := c.flags + {3}, localPort := Word2(p, 0))
    case 0x41 => c.(flags := c.flags + {4}, localLow := Word2(p, 0), localHigh := Word2(p, 2))
    case 0x50 => c.(flags := c.flags + {5}, remotePort := Word2(p, 0))
    case 0x51 => c.(flags := c.flags + {6}, remoteLow := Word2(p, 0), remoteHigh := Word2(p, 2))
    case 0x60 => c.(flags := c.flags + {7}, securityIndex := Word2(p, 0) as int * 0x1_0000 + Word2(p, 2) as int)
    case 0x70 => c.(flags := c.flags + {8}, classValue := p[0], classMask := p[1])
    case 0x80 => c.(flags := c.flags + {9}, flowLabel := p[0] as int * 0x1_0000 + Word2(p, 1) as int)
    case _ => c
  }

  /** A component as it stands in a message. */
  datatype Item = Item(kind: octet, octets: seq<octet>)

  ghost predicate Known(x: Item) {
    Width(x.kind) > 0 && |x.octets| == Width(x.kind)
  }

  ghost predicate AllKnown(items: seq<Item>) {
    forall i :: 0 <= i < |items| ==> Known(items[i])
  }

  function Flat(items: seq<Item>): seq<octet> {
    if items == [] then [] else [items[0].kind] + items[0].octets + Flat(items[1..])
  }

  /** Reading them one after the other. */
  ghost function NotedAll(c: Contents, items: seq<Item>): Contents
    requires AllKnown(items)
    decreases |items|
  {
    if items == [] then c else NotedAll(Noted(c, items[0].kind, items[0].octets), items[1..])
  }

  /** The octet after a flow label must exist. */
  ghost predicate Followed(items: seq<Item>, rest: seq<octet>) {
    items != [] && items[|items| - 1].kind == 0x80 ==> rest != []
  }

  /** The components take up the length, and would not without the last of them. */
  ghost predicate Covers(items: seq<Item>, left: int)
    decreases |items|
  {
    if items == [] then left <= 0 else left > 0 && Covers(items[1..], left - 1 - |items[0].octets|)
  }

  /** Some of the length is left after them. */
  ghost predicate Precedes(items: seq<Item>, left: int) {
    |Flat(items)| < left
  }

  lemma KindWidth(t: octet)
    ensures KindOf(t) == KINDS <==> Width(t) == 0
    ensures KindOf(t) < KINDS ==> SizeOf(KindOf(t)) == Width(t) && (KindOf(t) == 9 <==> t == 0x80)
  {
    assert Width(t) > 0 ==> exists k :: 0 <= k < KINDS && TypeOf(k) == t by {
      assert TypeOf(0) == 0x10 && TypeOf(1) == 0x20 && TypeOf(2) == 0x30 && TypeOf(3) == 0x40 && TypeOf(4) == 0x41;
      assert TypeOf(5) == 0x50 && TypeOf(6) == 0x51 && TypeOf(7) == 0x60 && TypeOf(8) == 0x70 && TypeOf(9) == 0x80;
    }
  }

  lemma NotedLoads(c: Contents, t: octet, p: seq<octet>)
    requires Width(t) > 0 && |p| == Width(t) && KindOf(t) < KINDS
    ensures Noted(c, t, p) == Load(c, KindOf(t), p)
  {
    hide KindFrom, KindOf;
  }

  lemma FlatFirst(items: seq<Item>, rest: seq<octet>)
    requires items != [] && AllKnown(items) && Followed(items, rest)
    ensures var x, later, n := items[0], Flat(items[1..]) + rest, 1 + Width(items[0].kind);
      var t := Flat(items) + rest;
      && t[0] == x.kind && n <= |t| && t[1..n] == x.octets && t[n..] == later && |Flat(items)| == n + |Flat(items[1..])|
      && (x.kind == 0x80 ==> later != [])
    ensures AllKnown(items[1..]) && Followed(items[1..], rest)
  {
    hide Width;
    var x, later := items[0], Flat(items[1..]) + rest;
    AppendAssociates([x.kind] + x.octets, Flat(items[1..]), rest);
    assert Known(x);
    assert Flat(items) + rest == [x.kind] + x.octets + later;
    assert |items| > 1 ==> Flat(items[1..]) != [];
  }

  /** What is read of components that are known is what they say. */
  lemma {:induction false} ItemsRead(items: seq<Item>, rest: seq<octet>, left: int, c: Contents)
    requires AllKnown(items) && Followed(items, rest)
    requires Covers(items, left) || (Precedes(items, left) && rest != [] && Width(rest[0]) == 0)
    ensures var t := Flat(items) + rest;
      && LoadParts(c, PartsRead(t, left)) == NotedAll(c, items)
      && if Covers(items, left) then
           Parse(t, left).Ok? && Parse(t, left).size == |Flat(items)|
             && LoadParts(c, Parse(t, left).value) == NotedAll(c, items)
         else Parse(t, left) == Error(-2)
    decreases |items|
  {
    hide Width, Noted, Known, Parse, PartsRead, LoadParts;
    var t := Flat(items) + rest;
    if items == [] {
      assert t == rest;
      ReadsNone(rest, left, c);
    } else {
      var x, later := items[0], Flat(items[1..]) + rest;
      FlatFirst(items, rest);
      ReadsFirst(t, x, later, left, c);
      ItemsRead(items[1..], rest, left - 1 - |x.octets|, Noted(c, x.kind, x.octets));
    }
  }

  lemma ReadsNone(rest: seq<octet>, left: int, c: Contents)
    requires left <= 0 || (rest != [] && Width(rest[0]) == 0)
    ensures LoadParts(c, PartsRead(rest, left)) == c
    ensures LoadParts(c, []) == c && Parse(rest, left) == if left <= 0 then Ok([], 0) else Error(-2)
  {
    hide Width, KindOf;
    if left > 0 {
      KindWidth(rest[0]);
    }
  }

  lemma ReadsFirst(t: seq<octet>, x: Item, later: seq<octet>, left: int, c: Contents)
    requires Known(x) && left > 0
    requires var n := 1 + Width(x.kind); n <= |t| && t[0] == x.kind && t[1..n] == x.octets && t[n..] == later
    requires x.kind == 0x80 ==> later != []
    ensures var d, less := Noted(c, x.kind, x.octets), left - 1 - |x.octets|;
      && LoadParts(c, PartsRead(t, left)) == LoadParts(d, PartsRead(later, less))
      && match Parse(later, less)
         case Ok(parts, size) =>
           && Parse(t, left).Ok? && Parse(t, left).size == 1 + |x.octets| + size
           && LoadParts(c, Parse(t, left).value) == LoadParts(d, parts)
         case Error(code) => Parse(t, left) == Error(code)
         case Overrun => Parse(t, left) == Overrun
  {
    hide Width, Noted, Load, TypeOf, KindOf;
    KindWidth(x.kind);
    var k := KindOf(x.kind);
    NotedLoads(c, x.kind, x.octets);
    var parts := PartsRead(later, left - 1 - |x.octets|);
    assert ([Part(k, x.octets)] + parts)[1..] == parts;
    if Parse(later, left - 1 - |x.octets|).Ok? {
      var all := Parse(later, left - 1 - |x.octets|).value;
      assert ([Part(k, x.octets)] + all)[1..] == all;
    }
  }

  /** Whatever is read stands in the message as known components, and an unknown type if it ends there. */
  lemma {:induction false} ReadAsItems(t: seq<octet>, left: int) returns (items: seq<Item>, rest: seq<octet>)
    requires Parse(t, left) != Overrun
    ensures t == Flat(items) + rest && AllKnown(items) && Followed(items, rest)
    ensures Parse(t, left).Ok? ==> Covers(items, left)
    ensures Parse(t, left).Error? ==> Precedes(items, left) && rest != [] && Width(rest[0]) == 0
    decreases if left > 0 then left else 0
  {
    hide Width, TypeOf, KindOf;
    if left <= 0 {
      items, rest := [], t;
    } else {
      KindWidth(t[0]);
      if KindOf(t[0]) == KINDS {
        items, rest := [], t;
      } else {
        var n := 1 + Width(t[0]);
        var x := Item(t[0], t[1..n]);
        var later;
        later, rest := ReadAsItems(t[n..], left - n);
        items := [x] + later;
        ItemPut(x, later, rest, t);
      }
    }
  }

  lemma ItemPut(x: Item, later: seq<Item>, rest: seq<octet>, t: seq<octet>)
    requires Known(x) && AllKnown(later) && |t| >= 1 + |x.octets| && [x.kind] + x.octets == t[..1 + |x.octets|]
    requires t[1 + |x.octets|..] == Flat(later) + rest && Followed(later, rest)
    requires x.kind == 0x80 ==> |t| > 1 + |x.octets|
    ensures var items := [x] + later;
      && t == Flat(items) + rest && AllKnown(items) && Followed(items, rest) && items[1..] == later
      && |Flat(items)| == 1 + |x.octets| + |Flat(later)|
  {
    var items := [x] + later;
    assert items[1..] == later;
    AppendAssociates([x.kind] + x.octets, Flat(later), rest);
    assert t == t[..1 + |x.octets|] + t[1 + |x.octets|..];
  }

  /**
   * The decoder, for all octets it can read: a filter of known components that take up the length,
   * or known components that do not and a type that is unknown.
   */
  lemma DecodesExactly(s: seq<octet>, remaining: int, prior: PacketFilter, items: seq<Item>, rest: seq<octet>)
    requires remaining != 0 && |s| >= 3 && s[3..] == Flat(items) + rest && AllKnown(items) && Followed(items, rest)
    requires Covers(items, s[2] as int) || (Precedes(items, s[2] as int) && rest != [] && Width(rest[0]) == 0)
    ensures var read :=
        PacketFilter(s[0] / 16 % 4, s[0] % 16, s[1], s[2], NotedAll(prior.contents.(flags := {}), items));
      && FilterLeft(s, remaining, prior) == read
      && LoadFilter(s, remaining, prior) ==
           if Covers(items, s[2] as int) then Ok(read, 3 + |Flat(items)|) else Error(-2)
  {
    hide Parse, PartsRead, LoadParts, Width, Covers, Precedes, Followed, AllKnown, NotedAll, Flat;
    ItemsRead(items, rest, s[2] as int, prior.contents.(flags := {}));
  }

  /** There are no other octets, but those that it would have to read beyond the last. */
  lemma DecodesAll(s: seq<octet>, remaining: int, prior: PacketFilter) returns (items: seq<Item>, rest: seq<octet>)
    requires remaining != 0 && LoadFilter(s, remaining, prior) != Overrun
    ensures |s| >= 3 && s[3..] == Flat(items) + rest && AllKnown(items) && Followed(items, rest)
    ensures Covers(items, s[2] as int) || (Precedes(items, s[2] as int) && rest != [] && Width(rest[0]) == 0)
  {
    hide Parse, Width, Covers, Precedes, Followed, AllKnown, Flat;
    items, rest := ReadAsItems(s[3..], s[2] as int);
  }

  /** With no length left, nothing is read. */
  lemma DecodesNone(s: seq<octet>, prior: PacketFilter)
    ensures LoadFilter(s, 0, prior) == Error(-4) && FilterLeft(s, 0, prior) == prior
  {
  }

  /** A filter on the local port alone, and the octets it is sent as. */
  function PortFilter(direction: bits2, identifier: bits4, precedence: octet, port: u16): PacketFilter {
    PacketFilter(direction, identifier, precedence, 3, ZERO_CONTENTS.(flags := {3}, localPort := port))
  }

  function PortOctets(direction: bits2, identifier: bits4, precedence: octet, port: u16): seq<octet> {
    [direction * 16 + identifier, precedence, 3, 0x40, port / 0x100, port % 0x100]
  }

  lemma PortSent(direction: bits2, identifier: bits4, precedence: octet, port: u16)
    ensures FilterOctets(PortFilter(direction, identifier, precedence, port)) ==
      PortOctets(direction, identifier, precedence, port)
  {
    var f := PortFilter(direction, identifier, precedence, port);
    hide FilterOctets;
    FilterSpelled(f);
    OnePiece(f.contents, 3, 10);
  }

  lemma {:induction false} OnePiece(c: Contents, k: nat, n: nat)
    requires c.flags == {k}
    ensures Pieces(c, n) == if k < n then Piece(c, k) else []
  {
    hide Piece;
    if n > 0 {
      OnePiece(c, k, n - 1);
      NoPiece(c, n - 1);
    }
  }

  lemma NoPiece(c: Contents, k: nat)
    ensures k !in c.flags ==> Piece(c, k) == []
  {
  }

  lemma PortRead(direction: bits2, identifier: bits4, precedence: octet, port: u16, rest: seq<octet>, remaining: int)
    requires remaining != 0
    ensures LoadFilter(PortOctets(direction, identifier, precedence, port) + rest, remaining, ZERO_FILTER) ==
      Ok(PortFilter(direction, identifier, precedence, port), 6)
  {
    hide LoadFilter, FilterLeft;
    var s, x := PortOctets(direction, identifier, precedence, port) + rest, Item(0x40, [port / 0x100, port % 0x100]);
    assert [x][1..] == [] && Flat([x]) == [0x40, port / 0x100, port % 0x100];
    assert s[3..] == Flat([x]) + rest;
    assert Known(x) && Covers([], 0) && Covers([x], 3);
    DecodesExactly(s, remaining, ZERO_FILTER, [x], rest);
    assert Word2(x.octets, 0) == port;
    assert ZERO_CONTENTS.flags + {3} == {3} && ZERO_FILTER.contents.(flags := {}) == ZERO_CONTENTS;
    assert NotedAll(ZERO_CONTENTS, [x]) == NotedAll(Noted(ZERO_CONTENTS, 0x40, x.octets), [x][1..]);
    assert s[0] / 16 % 4 == direction && s[0] % 16 == identifier;
  }
}
