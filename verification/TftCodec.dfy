/**
 * The octets of a traffic flow template (section 10.5.6.12 of 3GPP TS 24.008), without its
 * parameter list, which neither encoder nor decoder handles.
 */
module TftCodec {
  import opened Octets
  import opened PacketFilters
  import opened TftRules
  import opened TftStores
  import opened Tlv
  import opened FilterCodec
  import opened FilterCoder

  /** The coded fields: every template has room for sixteen filters and sixteen identifiers. */
  datatype Fields = Fields(
    opcode: bits3, ebit: bit, count: bits4, filters: seq<PacketFilter>, deletions: seq<octet>)

  ghost predicate Full(d: Fields) {
    |d.filters| == |d.deletions| == MAX_FILTERS
  }

  predicate CarriesFilters(opcode: bits3) {
    opcode in {OPCODE_CREATE, OPCODE_ADD, OPCODE_REPLACE}
  }

  // ---------------------------------------------------------------------------
  // Encoding

  function FiltersOctets(fs: seq<PacketFilter>): seq<octet> {
    if fs == [] then [] else FilterOctets(fs[0]) + FiltersOctets(fs[1..])
  }

  /** Octets touched after the last filter. */
  function ListSlack(fs: seq<PacketFilter>): nat {
    if fs == [] then 0 else Slack(fs[|fs| - 1].contents.flags)
  }

  function ListOctets(d: Fields): seq<octet>
    requires |d.filters| == |d.deletions| == MAX_FILTERS
  {
    if d.opcode == OPCODE_DELETE then d.deletions[..d.count]
    else if CarriesFilters(d.opcode) then FiltersOctets(d.filters[..d.count])
    else []
  }

  function TftSlack(d: Fields): nat
    requires |d.filters| == MAX_FILTERS
  {
    if CarriesFilters(d.opcode) then ListSlack(d.filters[..d.count]) else 0
  }

  function TftHeader(d: Fields): octet {
    d.opcode * 32 + d.ebit * 16 + d.count
  }

  function TftOctets(d: Fields): seq<octet>
    requires |d.filters| == |d.deletions| == MAX_FILTERS
  {
    [TftHeader(d)] + ListOctets(d)
  }

  lemma {:induction false} FiltersSize(fs: seq<PacketFilter>)
    ensures 3 * |fs| <= |FiltersOctets(fs)| <= 75 * |fs|
  {
    hide FilterOctets;
    if fs != [] {
      FiltersSize(fs[1..]);
    }
  }

  // ---------------------------------------------------------------------------
  // Decoding: filters i to n - 1 go into the list that held `fs`.

  function LoadFilters(s: seq<octet>, len: int, at: nat, fs: seq<PacketFilter>, i: nat, n: nat)
    : (r: Decoded<seq<PacketFilter>>)
    requires n <= |fs|
    ensures r.Ok? ==> |r.value| == |fs|
    ensures r.Error? ==> r.code in {TLV_VALUE_DOESNT_MATCH, TLV_UNEXPECTED_IEI}
    decreases n - i
  {
    if i >= n then Ok(fs, at)
    else if at > |s| then Overrun
    else
      match LoadFilter(s[at..], len - at, fs[i])
      case Ok(f, size) => LoadFilters(s, len, at + size, fs[i := f], i + 1, n)
      case Error(code) => Error(code)
      case Overrun => Overrun
  }

  function LoadDeletions(s: seq<octet>, at: nat, ids: seq<octet>, n: nat): (r: Decoded<seq<octet>>)
    requires n <= |ids|
    ensures r.Ok? ==> |r.value| == |ids|
    ensures !r.Error?
  {
    if at + n > |s| then Overrun else Ok(s[at..at + n] + ids[n..], at + n)
  }

  function LoadTft(s: seq<octet>, len: int, prior: Fields): (r: Decoded<Fields>)
    requires |prior.filters| == |prior.deletions| == MAX_FILTERS
    ensures r.Error? ==> r.code in {TLV_VALUE_DOESNT_MATCH, TLV_UNEXPECTED_IEI}
  {
    if s == [] then Overrun
    else
      var d := prior.(opcode := s[0] / 32, ebit := s[0] / 16 % 2, count := s[0] % 16);
      if d.opcode == OPCODE_DELETE then
        match LoadDeletions(s, 1, prior.deletions, d.count)
        case Ok(ids, size) => Ok(d.(deletions := ids), size)
        case Error(code) => Error(code)
        case Overrun => Overrun
      else if CarriesFilters(d.opcode) then
        match LoadFilters(s, len, 1, prior.filters, 0, d.count)
        case Ok(fs, size) => Ok(d.(filters := fs), size)
        case Error(code) => Error(code)
        case Overrun => Overrun
      else Ok(d, 1)
  }

  // What the decoders leave in the record, also where they report an error

  function FiltersLeft(s: seq<octet>, len: int, at: nat, fs: seq<PacketFilter>, i: nat, n: nat): (r: seq<PacketFilter>)
    requires n <= |fs|
    ensures |r| == |fs| && forall j :: 0 <= j < |fs| && !(i <= j < n) ==> r[j] == fs[j]
    decreases n - i
  {
    if i >= n || at > |s| then fs
    else
      match LoadFilter(s[at..], len - at, fs[i])
      case Ok(f, size) => FiltersLeft(s, len, at + size, fs[i := f], i + 1, n)
      case _ => fs[i := FilterLeft(s[at..], len - at, fs[i])]
  }

  function FieldsLeft(s: seq<octet>, len: int, prior: Fields): (d: Fields)
    requires |prior.filters| == |prior.deletions| == MAX_FILTERS
    ensures |d.filters| == |d.deletions| == MAX_FILTERS
  {
    if s == [] then prior
    else
      var d := prior.(opcode := s[0] / 32, ebit := s[0] / 16 % 2, count := s[0] % 16);
      if d.opcode == OPCODE_DELETE then
        match LoadDeletions(s, 1, prior.deletions, d.count)
        case Ok(ids, _) => d.(deletions := ids)
        case _ => d
      else if CarriesFilters(d.opcode) then d.(filters := FiltersLeft(s, len, 1, prior.filters, 0, d.count))
      else d
  }

  lemma {:induction false} LoadedFiltersLeft(s: seq<octet>, len: int, at: nat, fs: seq<PacketFilter>, i: nat, n: nat)
    requires n <= |fs| && LoadFilters(s, len, at, fs, i, n).Ok?
    ensures FiltersLeft(s, len, at, fs, i, n) == LoadFilters(s, len, at, fs, i, n).value
    decreases n - i
  {
    hide LoadFilter, FilterLeft;
    if i < n {
      var r := LoadFilter(s[at..], len - at, fs[i]);
      LoadedFiltersLeft(s, len, at + r.size, fs[i := r.value], i + 1, n);
    }
  }

  /** Without an error, that is the decoded template. */
  lemma LoadedIsLeft(s: seq<octet>, len: int, prior: Fields)
    requires Full(prior) && LoadTft(s, len, prior).Ok?
    ensures FieldsLeft(s, len, prior) == LoadTft(s, len, prior).value
  {
    hide LoadFilters, FiltersLeft;
    if CarriesFilters(s[0] / 32) {
      LoadedFiltersLeft(s, len, 1, prior.filters, 0, s[0] % 16);
    }
  }

  // ---------------------------------------------------------------------------
  // Round trip

  /** `rs` holds what became of `gs` from position i on, and otherwise what `fs` held. */
  ghost predicate AllReceived(rs: seq<PacketFilter>, gs: seq<PacketFilter>, fs: seq<PacketFilter>, i: nat) {
    && |rs| == |fs| && i + |gs| <= |fs|
    && forall j :: 0 <= j < |fs| ==>
         if i <= j < i + |gs| then Received(rs[j], gs[j - i], fs[j]) else rs[j] == fs[j]
  }

  lemma ReceivedFirst(rs: seq<PacketFilter>, g: PacketFilter, gs: seq<PacketFilter>, f: PacketFilter,
                      fs: seq<PacketFilter>, i: nat)
    requires i < |fs| && Received(f, g, fs[i]) && AllReceived(rs, gs, fs[i := f], i + 1)
    ensures AllReceived(rs, [g] + gs, fs, i)
  {
    hide Received;
  }

  lemma {:induction false} FiltersRoundTrip(
      gs: seq<PacketFilter>, s: seq<octet>, len: int, at: nat, rest: seq<octet>, fs: seq<PacketFilter>, i: nat)
    requires i + |gs| <= |fs| && at <= |s| && s[at..] == FiltersOctets(gs) + rest
    requires at + |FiltersOctets(gs)| <= len && (ListSlack(gs) == 1 ==> rest != [])
    ensures var r := LoadFilters(s, len, at, fs, i, i + |gs|);
      r.Ok? && r.size == at + |FiltersOctets(gs)| && AllReceived(r.value, gs, fs, i)
    decreases |gs|
  {
    hide LoadFilter, LoadFilters, FilterOctets, Received, AllReceived, FiltersOctets, ListSlack;
    FiltersFirst(gs, rest);
    if gs == [] {
      NoneReceived(fs, i);
      LoadsNone(s, len, at, fs, i);
    } else {
      var g, after := gs[0], FiltersOctets(gs[1..]) + rest;
      FilterRoundTrip(g, after, len - at, fs[i]);
      var f, next := LoadFilter(s[at..], len - at, fs[i]).value, at + |FilterOctets(g)|;
      assert s[next..] == after;
      LoadsFirst(s, len, at, fs, i, i + |gs|);
      FiltersRoundTrip(gs[1..], s, len, next, rest, fs[i := f], i + 1);
      ReceivedFirst(LoadFilters(s, len, next, fs[i := f], i + 1, i + |gs|).value, g, gs[1..], f, fs, i);
      assert [g] + gs[1..] == gs;
    }
  }

  lemma FiltersFirst(gs: seq<PacketFilter>, rest: seq<octet>)
    ensures gs == [] ==> FiltersOctets(gs) == []
    ensures gs != [] ==>
      var after := FiltersOctets(gs[1..]) + rest;
      && FiltersOctets(gs) + rest == FilterOctets(gs[0]) + after
      && |FiltersOctets(gs)| == |FilterOctets(gs[0])| + |FiltersOctets(gs[1..])|
      && (ListSlack(gs[1..]) == 1 ==> ListSlack(gs) == 1)
      && ((ListSlack(gs) == 1 ==> rest != []) && FLOW_LABEL in gs[0].contents.flags ==> after != [])
  {
    hide FilterOctets;
    if gs != [] {
      AppendAssociates(FilterOctets(gs[0]), FiltersOctets(gs[1..]), rest);
      FiltersSize(gs[1..]);
    }
  }

  lemma LoadsNone(s: seq<octet>, len: int, at: nat, fs: seq<PacketFilter>, i: nat)
    requires i <= |fs|
    ensures LoadFilters(s, len, at, fs, i, i) == Ok(fs, at)
  {
  }

  lemma LoadsFirst(s: seq<octet>, len: int, at: nat, fs: seq<PacketFilter>, i: nat, n: nat)
    requires i < n <= |fs| && at <= |s| && LoadFilter(s[at..], len - at, fs[i]).Ok?
    ensures var r := LoadFilter(s[at..], len - at, fs[i]);
      LoadFilters(s, len, at, fs, i, n) == LoadFilters(s, len, at + r.size, fs[i := r.value], i + 1, n)
  {
    hide LoadFilter;
  }

  lemma NoneReceived(fs: seq<PacketFilter>, i: nat)
    requires i <= |fs|
    ensures AllReceived(fs, [], fs, i)
  {
  }

  /** `e` is what `d` becomes on a trip into a template that held `prior`. */
  ghost predicate Delivered(e: Fields, d: Fields, prior: Fields)
    requires Full(e) && Full(d) && Full(prior)
  {
    && e.opcode == d.opcode && e.ebit == d.ebit && e.count == d.count
    && e.deletions ==
         (if d.opcode == OPCODE_DELETE then d.deletions[..d.count] + prior.deletions[d.count..] else prior.deletions)
    && AllReceived(e.filters, if CarriesFilters(d.opcode) then d.filters[..d.count] else [], prior.filters, 0)
  }

  lemma HeaderParts(o: octet, d: Fields)
    requires o == TftHeader(d)
    ensures o / 32 == d.opcode && o / 16 % 2 == d.ebit && o % 16 == d.count
  {
  }

  /**
   * Template round trip, for every operation code and every list: decoding what was encoded
   * restores the header and every entry, and consumes exactly what was written.
   */
  lemma TftRoundTrip(d: Fields, rest: seq<octet>, len: int, prior: Fields)
    requires Full(d) && Full(prior) && |TftOctets(d)| <= len && (TftSlack(d) == 1 ==> rest != [])
    ensures var r := LoadTft(TftOctets(d) + rest, len, prior);
      r.Ok? && r.size == |TftOctets(d)| && Full(r.value) && Delivered(r.value, d, prior)
  {
    hide FiltersOctets, FilterOctets, AllReceived, TftHeader, LoadFilters;
    var s := TftOctets(d) + rest;
    HeaderParts(s[0], d);
    assert s[1..] == ListOctets(d) + rest;
    if CarriesFilters(d.opcode) {
      FiltersRoundTrip(d.filters[..d.count], s, len, 1, rest, prior.filters, 0);
    } else {
      NoneReceived(prior.filters, 0);
      if d.opcode == OPCODE_DELETE {
        assert s[1..1 + d.count] == d.deletions[..d.count];
      }
    }
  }

  /** Every carried filter is restorable, and everything not carried is as it was in the record before. */
  ghost predicate AllRestorable(d: Fields, prior: Fields)
    requires Full(d) && Full(prior)
  {
    && (if d.opcode == OPCODE_DELETE then d.deletions[d.count..] == prior.deletions[d.count..]
        else d.deletions == prior.deletions)
    && forall j :: 0 <= j < MAX_FILTERS ==>
         if CarriesFilters(d.opcode) && j < d.count as int then Restorable(d.filters[j], prior.filters[j])
         else d.filters[j] == prior.filters[j]
  }

  lemma DeliveredExactly(e: Fields, d: Fields, prior: Fields)
    requires Full(e) && Full(d) && Full(prior) && Delivered(e, d, prior)
    ensures e == d <==> AllRestorable(d, prior)
  {
    hide Received, Restorable;
    var n := if CarriesFilters(d.opcode) then d.count as int else 0;
    forall j | 0 <= j < MAX_FILTERS
      ensures e.filters[j] == d.filters[j] <==>
        if j < n then Restorable(d.filters[j], prior.filters[j]) else d.filters[j] == prior.filters[j]
    {
      if j < n {
        assert d.filters[..d.count][j] == d.filters[j];
        ReceivedExactly(e.filters[j], d.filters[j], prior.filters[j]);
      }
    }
    assert e.filters == d.filters <==> forall j :: 0 <= j < MAX_FILTERS ==> e.filters[j] == d.filters[j];
    SplitDeletions(e, d, prior);
  }

  lemma SplitDeletions(e: Fields, d: Fields, prior: Fields)
    requires Full(e) && Full(d) && Full(prior)
    requires e.deletions ==
      (if d.opcode == OPCODE_DELETE then d.deletions[..d.count] + prior.deletions[d.count..] else prior.deletions)
    ensures e.deletions == d.deletions <==>
      (if d.opcode == OPCODE_DELETE then d.deletions[d.count..] == prior.deletions[d.count..]
       else d.deletions == prior.deletions)
  {
    assert d.deletions == d.deletions[..d.count] + d.deletions[d.count..];
    if d.opcode == OPCODE_DELETE {
      assert e.deletions[d.count..] == prior.deletions[d.count..];
    }
  }

  /** The whole record is restored exactly when all it carries is restorable and the rest was there before. */
  lemma TftRestoredExactly(d: Fields, rest: seq<octet>, len: int, prior: Fields)
    requires Full(d) && Full(prior) && |TftOctets(d)| <= len && (TftSlack(d) == 1 ==> rest != [])
    ensures LoadTft(TftOctets(d) + rest, len, prior) == Ok(d, |TftOctets(d)|) <==> AllRestorable(d, prior)
  {
    hide TftOctets, TftSlack, LoadTft, Delivered, AllRestorable;
    TftRoundTrip(d, rest, len, prior);
    DeliveredExactly(LoadTft(TftOctets(d) + rest, len, prior).value, d, prior);
  }

  // ---------------------------------------------------------------------------
  // The information element without its identifier: a length octet, then the template.

  function IeOctets(d: Fields): seq<octet>
    requires |d.filters| == |d.deletions| == MAX_FILTERS
  {
    [|TftOctets(d)| % 0x100] + TftOctets(d)
  }

  const MINIMUM_LENGTH := 3

  function LoadIe(s: seq<octet>, len: nat, prior: Fields): (r: Decoded<Fields>)
    requires |prior.filters| == |prior.deletions| == MAX_FILTERS
  {
    if len < MINIMUM_LENGTH - 1 then Error(TLV_BUFFER_TOO_SHORT)
    else if s == [] then Overrun
    else if len - 1 < s[0] as int then Error(TLV_BUFFER_TOO_SHORT)
    else
      match LoadTft(s[1..], len - 1, prior)
      case Ok(d, size) => Ok(d, 1 + size)
      case Error(code) => Error(code)
      case Overrun => Overrun
  }

  function IeLeft(s: seq<octet>, len: nat, prior: Fields): (d: Fields)
    requires |prior.filters| == |prior.deletions| == MAX_FILTERS
    ensures |d.filters| == |d.deletions| == MAX_FILTERS
  {
    if len < MINIMUM_LENGTH - 1 || s == [] || len - 1 < s[0] as int then prior
    else FieldsLeft(s[1..], len - 1, prior)
  }

  /**
   * The element comes back whatever its size and whatever the message goes on with, since the
   * decoder only compares the length octet with what it was given.
   */
  lemma IeRoundTrip(d: Fields, rest: seq<octet>, more: nat, prior: Fields)
    requires Full(d) && Full(prior) && (TftSlack(d) == 1 ==> rest != [])
    ensures var r := LoadIe(IeOctets(d) + rest, |IeOctets(d)| + more, prior);
      r.Ok? && r.size == |IeOctets(d)| && Full(r.value) && Delivered(r.value, d, prior)
  {
    hide LoadTft, Delivered, TftOctets, TftSlack;
    var s := IeOctets(d) + rest;
    assert s[1..] == TftOctets(d) + rest;
    TftNotEmpty(d);
    TftRoundTrip(d, rest, |IeOctets(d)| + more - 1, prior);
  }

  lemma TftNotEmpty(d: Fields)
    requires Full(d)
    ensures |TftOctets(d)| >= 1
  {
  }

  /** A filter with all ten components takes 75 octets. */
  ghost predicate AllTen(f: PacketFilter) {
    forall k :: 0 <= k < KINDS ==> k in f.contents.flags
  }

  lemma {:induction false} TotalSizeTen(flags: set<nat>, k: nat)
    requires k <= KINDS && forall j :: 0 <= j < KINDS ==> j in flags
    ensures TotalSize(flags, k) == MAX_SIZES[k]
    decreases KINDS - k
  {
    if k < KINDS {
      TotalSizeTen(flags, k + 1);
    }
  }

  lemma {:induction false} FiltersSizeTen(fs: seq<PacketFilter>)
    requires forall i :: 0 <= i < |fs| ==> AllTen(fs[i])
    ensures |FiltersOctets(fs)| == 75 * |fs|
  {
    hide FilterOctets, TotalSize;
    if fs != [] {
      TotalSizeTen(fs[0].contents.flags, 0);
      FiltersSizeTen(fs[1..]);
    }
  }

  /**
   * Any three filters, and any identifiers to delete, leave the length octet right. Four filters may
   * not: with all their components it is always wrong.
   */
  lemma IeLengthOctet(d: Fields)
    requires Full(d)
    ensures CarriesFilters(d.opcode) && d.count <= 3 ==> |TftOctets(d)| <= 226
    ensures !CarriesFilters(d.opcode) || d.count <= 3 ==> IeOctets(d)[0] == |TftOctets(d)|
    ensures CarriesFilters(d.opcode) && d.count >= 4 && (forall i :: 0 <= i < d.count ==> AllTen(d.filters[i])) ==>
      IeOctets(d)[0] < |TftOctets(d)|
  {
    hide FiltersOctets, AllTen;
    var fs := d.filters[..d.count];
    FiltersSize(fs);
    if forall i :: 0 <= i < d.count ==> AllTen(d.filters[i]) {
      FiltersSizeTen(fs);
    }
  }
}
