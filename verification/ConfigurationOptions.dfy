/**
 * The octets of protocol configuration options (section 10.5.6.3 of 3GPP TS 24.008): a first
 * octet, then containers, each an identifier, a length and contents.
 */
module ConfigurationOptions {
  import opened Octets
  import opened Tlv

  const MAX_CONTAINERS: nat := 8
  const OPTIONS_IEI: octet := 0x27
  const OPTIONS_MIN_LENGTH: nat := 3

  /** No contents and empty contents are the same here: neither puts anything on the wire. */
  datatype Container = Container(id: u16, length: octet, contents: seq<octet>)

  datatype Options = Options(protocol: bits3, containers: seq<Container>)

  predicate Consistent(c: Container) {
    |c.contents| == c.length
  }

  // ---------------------------------------------------------------------------
  // Encoding

  function ContainerOctets(c: Container): seq<octet> {
    Octets2(c.id) + [c.length] + c.contents
  }

  function ContainersOctets(cs: seq<Container>): seq<octet> {
    if cs == [] then [] else ContainerOctets(cs[0]) + ContainersOctets(cs[1..])
  }

  function OptionsOctets(o: Options): seq<octet> {
    [(0x80 + o.protocol as int) as octet] + ContainersOctets(o.containers)
  }

  /** The encoder only looks at the room before it copies contents. */
  predicate Refused(cs: seq<Container>, len: u32, at: nat)
    decreases |cs|
  {
    && cs != []
    && (TooLong(cs[0].contents, len, at + 3) || Refused(cs[1..], len, at + 3 + |cs[0].contents|))
  }

  predicate TooLong(contents: seq<octet>, len: u32, at: nat) {
    0 < |contents| && Room(len, at) < |contents|
  }

  /** What the encoder writes of the containers: all of them, or those before a refusal and three octets more. */
  function SentContainers(cs: seq<Container>, len: u32, at: nat): seq<octet>
    decreases |cs|
  {
    if cs == [] then []
    else if TooLong(cs[0].contents, len, at + 3) then Octets2(cs[0].id) + [cs[0].length]
    else ContainerOctets(cs[0]) + SentContainers(cs[1..], len, at + 3 + |cs[0].contents|)
  }

  function SentOptions(o: Options, len: u32): seq<octet> {
    [(0x80 + o.protocol as int) as octet] + SentContainers(o.containers, len, 1)
  }

  lemma {:induction false} SentAll(cs: seq<Container>, len: u32, at: nat)
    requires !Refused(cs, len, at)
    ensures SentContainers(cs, len, at) == ContainersOctets(cs)
    decreases |cs|
  {
    hide ContainerOctets, Room;
    if cs != [] {
      SentAll(cs[1..], len, at + 3 + |cs[0].contents|);
    }
  }

  /** With room for everything, nothing is refused. */
  lemma {:induction false} FittingNotRefused(cs: seq<Container>, len: u32, at: nat)
    requires at + |ContainersOctets(cs)| <= len
    ensures !Refused(cs, len, at)
    decreases |cs|
  {
    if cs != [] {
      FittingNotRefused(cs[1..], len, at + 3 + |cs[0].contents|);
    }
  }

  // ---------------------------------------------------------------------------
  // Decoding

  /** One more container in front of those that follow. */
  function Prepend(c: Container, n: nat, later: Decoded<seq<Container>>): Decoded<seq<Container>> {
    match later
    case Ok(cs, size) => Ok([c] + cs, n + size)
    case Error(code) => Error(code)
    case Overrun => Overrun
  }

  /**
   * The decoder's loop, with `n` of the eight places already taken: it goes on as long as three
   * octets are left, and nothing keeps it from running past the eighth place.
   */
  function LoadContainers(t: seq<octet>, left: int, n: nat): Decoded<seq<Container>>
    decreases left
  {
    if left < 3 then Ok([], 0)
    else if |t| < 3 || n >= MAX_CONTAINERS then Overrun
    else if left - 3 < t[2] as int then Error(TLV_BUFFER_TOO_SHORT)
    else if |t| < 3 + t[2] as nat then Overrun
    else
      var k := 3 + t[2] as nat;
      Prepend(Container(Value2(t), t[2], t[3..k]), k, LoadContainers(t[k..], left - k, n + 1))
  }

  /** The protocol is read from bits 1 to 3, though it is written to bits 0 to 2. */
  function LoadOptions(s: seq<octet>, len: int): Decoded<Options> {
    if s == [] then Overrun
    else if s[0] / 0x80 != 1 || s[0] / 8 % 16 != 0 then Error(TLV_VALUE_DOESNT_MATCH)
    else
      match LoadContainers(s[1..], len - 1, 0)
      case Ok(cs, size) => Ok(Options(s[0] / 2 % 8, cs), 1 + size)
      case Error(code) => Error(code)
      case Overrun => Overrun
  }

  /** The containers read before the decoder is done or reports an error. */
  function ContainersRead(t: seq<octet>, left: int): seq<Container>
    decreases left
  {
    if left < 3 || |t| < 3 || left - 3 < t[2] as int || |t| < 3 + t[2] as nat then []
    else
      var k := 3 + t[2] as nat;
      [Container(Value2(t), t[2], t[3..k])] + ContainersRead(t[k..], left - k)
  }

  /** What comes after some containers is decoded as if nothing had come before. */
  function Chain(cs: seq<Container>, size: nat, later: Decoded<seq<Container>>): Decoded<seq<Container>> {
    match later
    case Ok(more, n) => Ok(cs + more, size + n)
    case Error(code) => Error(code)
    case Overrun => Overrun
  }

  lemma ContainerRead(c: Container, rest: seq<octet>)
    requires Consistent(c)
    ensures var t := ContainerOctets(c) + rest;
      var k := 3 + c.length as nat;
      && |t| >= k == |ContainerOctets(c)|
      && Value2(t) == c.id && t[2] == c.length && t[3..k] == c.contents && t[k..] == rest
  {
  }

  lemma ContainerChain(c: Container, u: seq<octet>, more: nat, n: nat)
    requires Consistent(c) && n < MAX_CONTAINERS
    ensures LoadContainers(ContainerOctets(c) + u, |ContainerOctets(c)| + more, n) ==
      Prepend(c, |ContainerOctets(c)|, LoadContainers(u, more, n + 1))
  {
    hide ContainerOctets, Value2;
    ContainerRead(c, u);
  }

  lemma ChainPrepend(c: Container, k: nat, cs: seq<Container>, size: nat, later: Decoded<seq<Container>>)
    ensures Prepend(c, k, Chain(cs, size, later)) == Chain([c] + cs, k + size, later)
  {
    if later.Ok? {
      AppendAssociates([c], cs, later.value);
    }
  }

  lemma NothingChained(later: Decoded<seq<Container>>)
    ensures Chain([], 0, later) == later
  {
    if later.Ok? {
      assert [] + later.value == later.value;
    }
  }

  lemma ContainersFirst(cs: seq<Container>)
    ensures ContainersOctets(cs) == if cs == [] then [] else ContainerOctets(cs[0]) + ContainersOctets(cs[1..])
  {
  }

  lemma {:induction false} ContainersChain(cs: seq<Container>, rest: seq<octet>, more: nat, n: nat)
    requires forall i :: 0 <= i < |cs| ==> Consistent(cs[i])
    requires n + |cs| <= MAX_CONTAINERS
    ensures LoadContainers(ContainersOctets(cs) + rest, |ContainersOctets(cs)| + more, n) ==
      Chain(cs, |ContainersOctets(cs)|, LoadContainers(rest, more, n + |cs|))
    decreases |cs|
  {
    hide ContainerOctets, ContainersOctets, LoadContainers, Chain, Prepend, Consistent;
    ContainersFirst(cs);
    var later := LoadContainers(rest, more, n + |cs|);
    if cs == [] {
      NothingChained(later);
      assert [] + rest == rest;
    } else {
      var c, tail := cs[0], ContainersOctets(cs[1..]);
      AppendAssociates(ContainerOctets(c), tail, rest);
      ContainersChain(cs[1..], rest, more, n + 1);
      ContainerChain(c, tail + rest, |tail| + more, n);
      ChainPrepend(c, |ContainerOctets(c)|, cs[1..], |tail|, later);
      assert [c] + cs[1..] == cs;
    }
  }

  lemma FirstOctet(p: bits3)
    ensures (0x80 + p) / 0x80 == 1 && (0x80 + p) / 8 % 16 == 0 && (0x80 + p) / 2 % 8 == p / 2
  {
  }

  /**
   * Whatever follows them, up to eight containers come back as they were, and so does what
   * can be decoded after them; the protocol comes back halved.
   */
  lemma OptionsChain(o: Options, rest: seq<octet>, more: nat)
    requires |o.containers| <= MAX_CONTAINERS
    requires forall i :: 0 <= i < |o.containers| ==> Consistent(o.containers[i])
    ensures LoadOptions(OptionsOctets(o) + rest, |OptionsOctets(o)| + more) ==
      match LoadContainers(rest, more, |o.containers|)
      case Ok(cs, size) => Ok(Options(o.protocol / 2, o.containers + cs), |OptionsOctets(o)| + size)
      case Error(code) => Error(code)
      case Overrun => Overrun
  {
    hide LoadContainers, ContainersOctets;
    FirstOctet(o.protocol);
    ContainersChain(o.containers, rest, more, 0);
    assert (OptionsOctets(o) + rest)[1..] == ContainersOctets(o.containers) + rest;
  }

  /** Every decoded container has as many contents as it says. */
  lemma {:induction false} LoadedConsistent(t: seq<octet>, left: int, n: nat)
    requires LoadContainers(t, left, n).Ok?
    ensures forall i :: 0 <= i < |LoadContainers(t, left, n).value| ==> Consistent(LoadContainers(t, left, n).value[i])
    ensures left >= 3 ==> LoadContainers(t, left, n).size >= 3
    decreases left
  {
    hide Value2;
    if left >= 3 {
      var k := 3 + t[2] as nat;
      LoadedConsistent(t[k..], left - k, n + 1);
    }
  }

  /**
   * Round trip: options of at most eight containers are restored exactly when their protocol is
   * 0 and every length is right, with up to two octets to spare after them.
   */
  lemma OptionsRestoredExactly(o: Options, rest: seq<octet>, spare: nat)
    requires |o.containers| <= MAX_CONTAINERS && spare < 3
    ensures LoadOptions(OptionsOctets(o) + rest, |OptionsOctets(o)| + spare) == Ok(o, |OptionsOctets(o)|) <==>
      o.protocol == 0 && forall i :: 0 <= i < |o.containers| ==> Consistent(o.containers[i])
  {
    hide OptionsOctets;
    if forall i :: 0 <= i < |o.containers| ==> Consistent(o.containers[i]) {
      hide LoadOptions;
      OptionsChain(o, rest, spare);
      assert o.containers + [] == o.containers;
      assert o.protocol / 2 == o.protocol <==> o.protocol == 0;
    } else {
      hide LoadContainers;
      var s, len := OptionsOctets(o) + rest, |OptionsOctets(o)| + spare;
      if LoadOptions(s, len).Ok? {
        LoadedConsistent(s[1..], len - 1, 0);
      }
    }
  }

  /** The other way: the containers decoded are laid out again as they were. */
  lemma {:induction false} ContainersReencoded(t: seq<octet>, left: int, n: nat)
    requires LoadContainers(t, left, n).Ok?
    ensures var r := LoadContainers(t, left, n);
      && r.size <= |t| && ContainersOctets(r.value) == t[..r.size]
      && (n <= MAX_CONTAINERS ==> n + |r.value| <= MAX_CONTAINERS)
    ensures left >= 0 ==> left - 2 <= LoadContainers(t, left, n).size <= left
    decreases left
  {
    hide Value2, ContainerOctets, ContainersOctets;
    if left < 3 {
      ContainersFirst([]);
    } else {
      var k := 3 + t[2] as nat;
      var c, r := Container(Value2(t), t[2], t[3..k]), LoadContainers(t[k..], left - k, n + 1);
      ContainersReencoded(t[k..], left - k, n + 1);
      ContainerReencoded(t, k);
      ContainersFirst([c] + r.value);
      assert ([c] + r.value)[1..] == r.value;
      assert t[..k + r.size] == t[..k] + t[k..][..r.size];
    }
  }

  lemma ContainerReencoded(t: seq<octet>, k: nat)
    requires 3 <= k <= |t| && k == 3 + t[2] as nat
    ensures ContainerOctets(Container(Value2(t), t[2], t[3..k])) == t[..k]
  {
    hide Value2, Octets2;
    PairRestored(t);
    assert t[..k] == t[..2] + [t[2]] + t[3..k];
  }

  lemma PairRestored(t: seq<octet>)
    requires |t| >= 2
    ensures Octets2(Value2(t)) == t[..2]
  {
  }

  /**
   * Decoded options are encoded as the octets they were read from exactly when the first octet
   * was 0x80. At most two declared octets are left over.
   */
  lemma OptionsReencodedExactly(s: seq<octet>, len: int)
    requires LoadOptions(s, len).Ok?
    ensures var r := LoadOptions(s, len);
      && r.size <= |s| && |r.value.containers| <= MAX_CONTAINERS
      && (OptionsOctets(r.value) == s[..r.size] <==> s[0] == 0x80)
    ensures len >= 1 ==> len - 2 <= LoadOptions(s, len).size <= len
  {
    hide LoadContainers, ContainersOctets;
    ContainersReencoded(s[1..], len - 1, 0);
    var r := LoadOptions(s, len);
    assert s[..r.size] == [s[0]] + s[1..][..r.size - 1];
    FirstOctetRead(s[0]);
    var e := (0x80 + r.value.protocol as int) as octet;
    assert OptionsOctets(r.value)[0] == e && s[..r.size][0] == s[0];
  }

  lemma FirstOctetRead(b: octet)
    requires b / 0x80 == 1 && b / 8 % 16 == 0
    ensures 0x80 + b / 2 % 8 == b <==> b == 0x80
  {
    assert 0x80 <= b < 0x88;
  }

  // ---------------------------------------------------------------------------
  // The information element

  function OptionsIe(o: Options, present: bool): seq<octet> {
    (if present then [OPTIONS_IEI] else []) + [LowOctet(|OptionsOctets(o)|)] + OptionsOctets(o)
  }

  /** The length octet is compared with the octets at hand, and otherwise ignored. */
  function LoadOptionsIe(s: seq<octet>, present: bool, len: nat): Decoded<Options> {
    var at := if present then 1 else 0;
    if len < OPTIONS_MIN_LENGTH - 1 + at then Error(TLV_BUFFER_TOO_SHORT)
    else if |s| < at then Overrun
    else if present && s[0] != OPTIONS_IEI then Error(TLV_UNEXPECTED_IEI)
    else if |s| < at + 1 then Overrun
    else if len - at - 1 < s[at] as nat then Error(TLV_BUFFER_TOO_SHORT)
    else
      match LoadOptions(s[at + 1..], len - at - 1)
      case Ok(o, size) => Ok(o, at + 1 + size)
      case Error(code) => Error(code)
      case Overrun => Overrun
  }

  lemma OptionsIeParts(o: Options, present: bool, rest: seq<octet>)
    ensures var ie, at := OptionsIe(o, present), if present then 1 else 0;
      && |ie| == at + 1 + |OptionsOctets(o)| && (present ==> (ie + rest)[0] == OPTIONS_IEI)
      && (ie + rest)[at] == LowOctet(|OptionsOctets(o)|) && (ie + rest)[at + 1..] == OptionsOctets(o) + rest
  {
    hide OptionsOctets, LowOctet;
  }

  lemma LowOctetAtMost(n: nat)
    ensures LowOctet(n) as int <= n
  {
  }

  /**
   * The element is restored exactly when fewer than three octets of the message follow it: the
   * decoder takes any others for more containers, however long the element says it is. Its size
   * does not matter, not even when the length octet wraps around.
   */
  lemma OptionsIeRestoredExactly(o: Options, present: bool, rest: seq<octet>, more: nat)
    requires o.protocol == 0 && |o.containers| <= MAX_CONTAINERS && more <= |rest|
    requires forall i :: 0 <= i < |o.containers| ==> Consistent(o.containers[i])
    ensures var ie := OptionsIe(o, present);
      LoadOptionsIe(ie + rest, present, |ie| + more) == Ok(o, |ie|) <==> more < 3
  {
    hide OptionsIe, OptionsOctets, LoadOptions, LowOctet, LoadContainers;
    OptionsIeParts(o, present, rest);
    OptionsOctetsNotEmpty(o);
    LowOctetAtMost(|OptionsOctets(o)|);
    OptionsChain(o, rest, more);
    Beyond(rest, more, |o.containers|);
    assert o.containers + [] == o.containers;
  }

  lemma OptionsOctetsNotEmpty(o: Options)
    ensures |OptionsOctets(o)| >= 1
  {
  }

  lemma Beyond(t: seq<octet>, left: nat, n: nat)
    ensures left < 3 ==> LoadContainers(t, left, n) == Ok([], 0)
    ensures left >= 3 && LoadContainers(t, left, n).Ok? ==> LoadContainers(t, left, n).size >= 3
  {
  }
}
