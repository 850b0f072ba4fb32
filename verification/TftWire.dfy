/** Traffic flow templates octet by octet (section 10.5.6.12 of 3GPP TS 24.008). */
module TftWire {
  import opened Octets
  import opened PacketFilters
  import opened TftStores
  import opened Tlv
  import opened FilterCodec
  import opened FilterWire
  import opened TftCodec
  import opened TftSessions

  /** The first octet holds the operation, the E bit and the number of entries. */
  lemma TemplateSpelled(d: Fields)
    requires Full(d)
    ensures TftOctets(d) == [d.opcode * 32 + d.ebit * 16 + d.count] +
      (if d.opcode == 5 then d.deletions[..d.count]
       else if d.opcode in {1, 3, 4} then FiltersOctets(d.filters[..d.count])
       else [])
  {
  }

  /** The element puts its size in front, modulo 256. */
  lemma ElementSpelled(d: Fields)
    requires Full(d)
    ensures IeOctets(d) == [|TftOctets(d)| % 256] + TftOctets(d)
  {
  }

  /** It is refused before the template is read, and otherwise read from its second octet on. */
  lemma ElementRead(s: seq<octet>, len: nat, prior: Fields)
    requires Full(prior) && s != []
    ensures LoadIe(s, len, prior) ==
      if len < 2 || s[0] as int > len - 1 then Error(-12)
      else
        match LoadTft(s[1..], len - 1, prior)
        case Ok(d, size) => Ok(d, 1 + size)
        case Error(code) => Error(code)
        case Overrun => Overrun
    ensures IeLeft(s, len, prior) ==
      if len < 2 || s[0] as int > len - 1 then prior else FieldsLeft(s[1..], len - 1, prior)
  {
    hide LoadTft;
  }

  /** What the first octet, and the identifiers to delete, become in a message. */
  lemma MessageRead(s: seq<octet>, len: int)
    requires LoadTft(s, len, ClearedFields()) != Overrun
    ensures s != []
    ensures var m, n := MessageFrom(s, len), s[0] % 16;
      && m.opcode == s[0] / 32
      && (if s[0] / 32 == 5 then m.filters == [] && n < |s| && m.deletions == s[1..1 + n]
          else m.deletions == [] && |m.filters| == n)
  {
    hide LoadFilters, FiltersLeft;
  }

  // ---------------------------------------------------------------------------
  // The list of filters

  /** Filters stand one after the other, and none of them starts where the length given ends. */
  ghost predicate StandIn(s: seq<octet>, len: int, at: nat, gs: seq<PacketFilter>)
    decreases |gs|
  {
    gs != [] ==>
      && at <= |s| && at != len
      && LoadFilter(s[at..], 1, ZERO_FILTER) == Ok(gs[0], SizeAt(s, at))
      && StandIn(s, len, at + SizeAt(s, at), gs[1..])
  }

  function SizeAt(s: seq<octet>, at: nat): nat
    requires at <= |s|
  {
    var r := LoadFilter(s[at..], 1, ZERO_FILTER);
    if r.Ok? then r.size else 0
  }

  /** Where they end. */
  ghost function EndOf(s: seq<octet>, len: int, at: nat, gs: seq<PacketFilter>): nat
    requires StandIn(s, len, at, gs)
    decreases |gs|
  {
    if gs == [] then at else EndOf(s, len, at + SizeAt(s, at), gs[1..])
  }

  /** A length left that is not zero does not matter. */
  lemma AnyLength(s: seq<octet>, remaining: int, prior: PacketFilter)
    requires remaining != 0
    ensures LoadFilter(s, remaining, prior) == LoadFilter(s, 1, prior)
    ensures FilterLeft(s, remaining, prior) == FilterLeft(s, 1, prior)
  {
    hide Parse, PartsRead;
  }

  lemma {:induction false} StandingRead(
      s: seq<octet>, len: int, at: nat, gs: seq<PacketFilter>, fs: seq<PacketFilter>, i: nat, n: nat)
    requires i + |gs| <= n <= |fs| && StandIn(s, len, at, gs)
    requires forall j :: i <= j < |fs| ==> fs[j] == ZERO_FILTER
    ensures var now, end, next := fs[..i] + gs + fs[i + |gs|..], EndOf(s, len, at, gs), i + |gs|;
      && LoadFilters(s, len, at, fs, i, n) == LoadFilters(s, len, end, now, next, n)
      && FiltersLeft(s, len, at, fs, i, n) == FiltersLeft(s, len, end, now, next, n)
    decreases |gs|
  {
    hide LoadFilter, FilterLeft;
    if gs == [] {
      assert fs[..i] + gs + fs[i..] == fs;
    } else {
      hide LoadFilters, FiltersLeft;
      var next, size := fs[i := gs[0]], SizeAt(s, at);
      FirstStands(s, len, at, gs[0], fs, i, n);
      StandingRead(s, len, at + size, gs[1..], next, i + 1, n);
      assert next[..i + 1] + gs[1..] + next[i + |gs|..] == fs[..i] + gs + fs[i + |gs|..];
    }
  }

  lemma FirstStands(
      s: seq<octet>, len: int, at: nat, g: PacketFilter, fs: seq<PacketFilter>, i: nat, n: nat)
    requires i < n <= |fs| && at <= |s| && at != len && fs[i] == ZERO_FILTER
    requires LoadFilter(s[at..], 1, ZERO_FILTER) == Ok(g, SizeAt(s, at))
    ensures var next, end := fs[i := g], at + SizeAt(s, at);
      && LoadFilters(s, len, at, fs, i, n) == LoadFilters(s, len, end, next, i + 1, n)
      && FiltersLeft(s, len, at, fs, i, n) == FiltersLeft(s, len, end, next, i + 1, n)
  {
    hide LoadFilter, FilterLeft, SizeAt;
    AnyLength(s[at..], len - at, ZERO_FILTER);
  }

  /** How reading the list ends after the filters `gs`, of n. */
  ghost predicate ListEnds(s: seq<octet>, len: int, gs: seq<PacketFilter>, n: nat)
    requires StandIn(s, len, 1, gs)
  {
    var end := EndOf(s, len, 1, gs);
    || |gs| == n
    || (|gs| < n && end <= |s| && (end == len || LoadFilter(s[end..], 1, ZERO_FILTER).Error?))
  }

  /**
   * The filters of a template: all of them, or those before the one that starts where the length given
   * ends, which reports -4, or before the one that cannot be decoded, of which a part is kept.
   */
  lemma ListRead(s: seq<octet>, len: int, gs: seq<PacketFilter>)
    requires s != [] && s[0] / 32 in {1, 3, 4} && StandIn(s, len, 1, gs) && ListEnds(s, len, gs, s[0] % 16)
    ensures var n, end, m, r := s[0] % 16, EndOf(s, len, 1, gs), MessageFrom(s, len), LoadTft(s, len, ClearedFields());
      if |gs| == n then r.Ok? && r.size == end && m.filters == gs
      else if end == len then r == Error(-4) && m.filters == gs + seq(n - |gs|, _ => ZERO_FILTER)
      else
        && r == Error(LoadFilter(s[end..], 1, ZERO_FILTER).code)
        && m.filters == gs + [FilterLeft(s[end..], 1, ZERO_FILTER)] + seq(n - |gs| - 1, _ => ZERO_FILTER)
  {
    hide LoadFilter, FilterLeft, LoadFilters, FiltersLeft, StandIn, EndOf, ClearedFields, LoadTft, MessageFrom;
    var cleared, n, end := ClearedFields(), s[0] % 16, EndOf(s, len, 1, gs);
    ListOfTemplate(s, len);
    StandingRead(s, len, 1, gs, cleared.filters, 0, n);
    var now := gs + cleared.filters[|gs|..];
    assert cleared.filters[..0] + gs + cleared.filters[|gs|..] == now;
    ListStops(s, len, end, now, |gs|, n);
    assert gs == now[..|gs|];
    FilledUp(now, |gs|, n);
  }

  lemma ListOfTemplate(s: seq<octet>, len: int)
    requires s != [] && s[0] / 32 in {1, 3, 4}
    ensures var n, fs := s[0] % 16, ClearedFields().filters;
      && MessageFrom(s, len).filters == FiltersLeft(s, len, 1, fs, 0, n)[..n]
      && match LoadFilters(s, len, 1, fs, 0, n)
         case Ok(_, size) =>
           LoadTft(s, len, ClearedFields()).Ok? && LoadTft(s, len, ClearedFields()).size == size
         case Error(code) => LoadTft(s, len, ClearedFields()) == Error(code)
         case Overrun => LoadTft(s, len, ClearedFields()) == Overrun
  {
    hide LoadFilters, FiltersLeft, ClearedFields;
  }

  /** Filter i is the first that is not read, if there is one. */
  lemma ListStops(s: seq<octet>, len: int, end: nat, fs: seq<PacketFilter>, i: nat, n: nat)
    requires i <= n <= |fs| && (i < n ==> end <= |s| && fs[i] == ZERO_FILTER)
    ensures i == n ==> LoadFilters(s, len, end, fs, i, n) == Ok(fs, end) && FiltersLeft(s, len, end, fs, i, n) == fs
    ensures i < n && end == len ==>
      LoadFilters(s, len, end, fs, i, n) == Error(-4) && FiltersLeft(s, len, end, fs, i, n) == fs
    ensures i < n && end != len && LoadFilter(s[end..], 1, ZERO_FILTER).Error? ==>
      && LoadFilters(s, len, end, fs, i, n) == Error(LoadFilter(s[end..], 1, ZERO_FILTER).code)
      && FiltersLeft(s, len, end, fs, i, n) == fs[i := FilterLeft(s[end..], 1, ZERO_FILTER)]
  {
    hide LoadFilter, FilterLeft;
    if i < n {
      if end == len {
        DecodesNone(s[end..], ZERO_FILTER);
        assert fs[i := ZERO_FILTER] == fs;
      } else {
        AnyLength(s[end..], len - end, ZERO_FILTER);
      }
    }
  }

  lemma FilledUp(fs: seq<PacketFilter>, i: nat, n: nat)
    requires i <= n <= |fs| && forall j :: i <= j < n ==> fs[j] == ZERO_FILTER
    ensures fs[..n] == fs[..i] + seq(n - i, _ => ZERO_FILTER)
    ensures i < n ==> forall f :: fs[i := f][..n] == fs[..i] + [f] + seq(n - i - 1, _ => ZERO_FILTER)
  {
    if i < n {
      forall f ensures fs[i := f][..n] == fs[..i] + [f] + seq(n - i - 1, _ => ZERO_FILTER) {
      }
    }
  }
}
