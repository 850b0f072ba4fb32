/** Protocol configuration options in memory: coded from and to a buffer, copied, and cleared. */
module ConfigurationOptionsCoder {
  import opened Octets
  import opened Tlv
  import opened ConfigurationOptions

  /** A container's place. The contents are a string of their own on the heap, or none. */
  datatype Slot = Slot(id: u16, length: octet, contents: array?<octet>)

  const EMPTY_SLOT := Slot(0, 0, null)

  ghost function Text(c: array?<octet>): seq<octet>
    reads c
  {
    if c == null then [] else c[..]
  }

  /** The container in a place. */
  ghost function Stored(s: Slot): Container
    reads s.contents
  {
    Container(s.id, s.length, Text(s.contents))
  }

  /** bstrcpy, or blk2bstr: a new string with these octets. */
  method NewString(octets: seq<octet>) returns (c: array<octet>)
    ensures fresh(c) && c[..] == octets
  {
    c := new octet[|octets|](i requires 0 <= i < |octets| => octets[i]);
  }

  /** Nothing of what a released string held is left. */
  ghost predicate Released(c: array<octet>)
    reads c
  {
    forall i :: 0 <= i < c.Length ==> c[i] == 0
  }

  /** bdestroy: what the string held is lost. */
  method Release(c: array<octet>)
    modifies c
    ensures Released(c)
  {
    for i := 0 to c.Length
      invariant forall j :: 0 <= j < i ==> c[j] == 0
    {
      c[i] := 0;
    }
  }

  class Pco {
    var ext: bit
    var spare: bits4
    var protocol: bits3
    var count: octet
    const slots: array<Slot>

    /** The strings held. */
    ghost function Held(): set<object>
      reads slots
    {
      set i | 0 <= i < slots.Length && slots[i].contents != null :: slots[i].contents as object
    }

    /** Eight places, and no string in two of them. */
    ghost predicate Valid()
      reads slots
    {
      && slots.Length == MAX_CONTAINERS
      && forall i, j :: 0 <= i < j < slots.Length && slots[i].contents != null ==>
           slots[i].contents != slots[j].contents
    }

    ghost function Containers(n: nat): (cs: seq<Container>)
      requires n <= slots.Length
      reads slots, Held()
      ensures |cs| == n && forall i :: 0 <= i < n ==> cs[i] == Stored(slots[i])
    {
      seq(n, i requires 0 <= i < n reads slots, Held() => Stored(slots[i]))
    }

    ghost function Value(): Options
      requires Valid() && count as int <= MAX_CONTAINERS
      reads this, slots, Held()
    {
      Options(protocol, Containers(count))
    }

    /** As after memset. */
    ghost predicate Zero()
      reads this, slots
    {
      && ext == 0 && spare == 0 && protocol == 0 && count == 0
      && forall i :: 0 <= i < slots.Length ==> slots[i] == EMPTY_SLOT
    }

    constructor ()
      ensures Valid() && Zero() && fresh(slots)
    {
      ext, spare, protocol, count := 0, 0, 0, 0;
      slots := new Slot[MAX_CONTAINERS](_ => EMPTY_SLOT);
    }

    /** Fill one place; the others, and the strings that were held, stay as they are. */
    method Put(i: nat, id: u16, length: octet, contents: array?<octet>)
      requires Valid() && i < slots.Length && (contents == null || contents !in Held())
      modifies slots
      ensures Valid() && slots[i] == Slot(id, length, contents)
      ensures forall j :: 0 <= j < slots.Length && j != i ==> slots[j] == old(slots[j])
      ensures Held() <= old(Held()) + (if contents == null then {} else {contents})
    {
      slots[i] := Slot(id, length, contents);
    }

    /** One container is copied, with a string of its own. */
    method CopySlot(src: Pco, i: nat)
      requires Valid() && i < slots.Length && i < src.slots.Length && src.slots != slots
      modifies slots
      ensures Valid() && Stored(slots[i]) == Stored(src.slots[i])
      ensures slots[i].contents != null ==> fresh(slots[i].contents)
      ensures forall j :: 0 <= j < slots.Length && j != i ==> slots[j] == old(slots[j])
    {
      var c := src.slots[i].contents;
      var d: array?<octet> := null;
      if c != null {
        d := NewString(c[..]);
      }
      Put(i, src.slots[i].id, src.slots[i].length, d);
    }

    /** Copying the containers in use. More than eight abort the program. */
    method Copy(src: Pco) returns (aborted: bool)
      requires Valid() && src.Valid() && src != this && src.slots != slots
      modifies this, slots
      ensures Valid() && aborted == (src.count as int > MAX_CONTAINERS)
      ensures ext == src.ext && spare == src.spare && protocol == src.protocol && count == src.count
      ensures !aborted ==> Value() == src.Value()
      ensures !aborted ==> forall i :: 0 <= i < count as int && slots[i].contents != null ==> fresh(slots[i].contents)
      ensures forall i :: count as int <= i < slots.Length ==> slots[i] == old(slots[i])
      ensures forall o :: o in Held() ==> fresh(o) || o in old(Held())
      ensures aborted ==> slots[..] == old(slots[..])
    {
      ext, spare, protocol, count := src.ext, src.spare, src.protocol, src.count;
      if count as int > MAX_CONTAINERS {
        return true;
      }
      hide Text;
      for i := 0 to count as int
        modifies slots
        invariant Valid()
        invariant forall j :: 0 <= j < i && slots[j].contents != null ==> fresh(slots[j].contents)
        invariant forall j :: 0 <= j < i ==> Stored(slots[j]) == Stored(src.slots[j])
        invariant forall j :: i <= j < slots.Length ==> slots[j] == old(slots[j])
      {
        CopySlot(src, i);
      }
      assert Containers(count) == src.Containers(count);
      aborted := false;
    }

    /** Clearing: every string held is released and everything is zero. */
    method Clear()
      requires Valid()
      modifies this, slots, Held()
      ensures Valid() && Zero()
      ensures ext == 0 && spare == 0 && protocol == 0 && count == 0
      ensures forall i :: 0 <= i < slots.Length ==> slots[i] == Slot(0, 0, null)
      ensures forall i :: 0 <= i < slots.Length && old(slots[i]).contents != null ==> Released(old(slots[i]).contents)
    {
      for i := 0 to slots.Length
        invariant forall j :: i <= j < slots.Length ==> slots[j] == old(slots[j])
        invariant forall j :: 0 <= j < i && old(slots[j]).contents != null ==> Released(old(slots[j]).contents)
      {
        var c := slots[i].contents;
        if c != null {
          Release(c);
          slots[i] := slots[i].(contents := null);
        }
      }
      for i := 0 to slots.Length
        modifies slots
        invariant forall j :: 0 <= j < i ==> slots[j] == EMPTY_SLOT
      {
        slots[i] := EMPTY_SLOT;
      }
      ext, spare, protocol, count := 0, 0, 0, 0;
    }
  }

  /** A copy stands for the same options, and clearing it leaves those copied as they were. */
  method CopyThenClear(src: Pco, dst: Pco) returns (ghost copied: Options)
    requires src.Valid() && dst.Valid() && src != dst && src.slots != dst.slots
    requires src.count as int <= MAX_CONTAINERS && src.Held() !! dst.Held()
    modifies dst, dst.slots, dst.Held()
    ensures copied == src.Value() == old(src.Value())
    ensures dst.Zero()
  {
    var aborted := dst.Copy(src);
    copied := dst.Value();
    dst.Clear();
  }

  // ---------------------------------------------------------------------------
  // Encoding

  /** One container, of which `encoded` octets precede. */
  method EncodeContainer(s: Slot, buffer: array<octet>, base: nat, encoded: nat, len: u32) returns (n: int)
    requires buffer != s.contents && base + encoded + 3 <= buffer.Length
    requires !TooLong(Text(s.contents), len, encoded + 3) ==>
      base + encoded + |ContainerOctets(Stored(s))| <= buffer.Length
    modifies buffer
    ensures TooLong(Text(s.contents), len, encoded + 3) ==> n == TLV_BUFFER_TOO_SHORT
    ensures !TooLong(Text(s.contents), len, encoded + 3) ==> n == |ContainerOctets(Stored(s))|
    ensures Wrote(old(buffer[..]), buffer[..], base + encoded,
      if TooLong(Text(s.contents), len, encoded + 3) then Octets2(s.id) + [s.length] else ContainerOctets(Stored(s)), 0)
  {
    assert |Octets2(s.id)| == 2;
    hide Wrote, Octets2, Room;
    ghost var a := buffer[..];
    PutU16(buffer, base + encoded, s.id);
    ghost var b := buffer[..];
    PutU8(buffer, base + encoded + 2, s.length);
    ghost var c := buffer[..];
    WroteMore(a, b, c, base + encoded, Octets2(s.id), [s.length], 0, 0);
    n := 3;
    if s.contents != null && s.contents.Length > 0 {
      if Room(len, encoded + 3) < s.contents.Length {
        return TLV_BUFFER_TOO_SHORT;
      }
      PutOctets(buffer, base + encoded + 3, s.contents[..]);
      n := 3 + s.contents.Length;
    } else {
      WroteNothing(c, base + encoded + 3);
    }
    WroteMore(a, c, buffer[..], base + encoded, Octets2(s.id) + [s.length], Text(s.contents), 0, 0);
  }

  /** After i containers `done` is written, and what is still to come decides the outcome. */
  ghost predicate Underway(o: Options, i: nat, done: seq<octet>, len: u32) {
    && i <= |o.containers|
    && done + ContainersOctets(o.containers[i..]) == OptionsOctets(o)
    && done + SentContainers(o.containers[i..], len, |done|) == SentOptions(o, len)
    && Refused(o.containers[i..], len, |done|) == Refused(o.containers, len, 1)
  }

  lemma UnderwayStart(o: Options, len: u32)
    ensures Underway(o, 0, [(0x80 + o.protocol as int) as octet], len)
    ensures |SentOptions(o, len)| >= 1
  {
    hide ContainersOctets, SentContainers, Refused;
    assert o.containers[0..] == o.containers;
  }

  lemma UnderwayNext(o: Options, i: nat, done: seq<octet>, len: u32)
    requires i < |o.containers| && Underway(o, i, done, len)
    ensures var c := o.containers[i];
      && |done| + 3 <= |SentOptions(o, len)|
      && (!TooLong(c.contents, len, |done| + 3) ==> |done| + |ContainerOctets(c)| <= |SentOptions(o, len)|)
      && (TooLong(c.contents, len, |done| + 3) ==>
            Refused(o.containers, len, 1) && SentOptions(o, len) == done + (Octets2(c.id) + [c.length]))
      && (!TooLong(c.contents, len, |done| + 3) ==> Underway(o, i + 1, done + ContainerOctets(c), len))
  {
    hide Room, OptionsOctets, SentOptions, Octets2;
    var cs, c := o.containers[i..], o.containers[i];
    assert cs[0] == c && cs[1..] == o.containers[i + 1..];
    assert |Octets2(c.id)| == 2 by { OctetPair(c.id); }
    AppendAssociates(done, ContainerOctets(c), ContainersOctets(cs[1..]));
    AppendAssociates(done, ContainerOctets(c), SentContainers(cs[1..], len, |done| + 3 + |c.contents|));
  }

  lemma OctetPair(v: u16)
    ensures |Octets2(v)| == 2
  {
  }

  lemma UnderwayEnd(o: Options, done: seq<octet>, len: u32)
    requires Underway(o, |o.containers|, done, len)
    ensures done == OptionsOctets(o) == SentOptions(o, len) && !Refused(o.containers, len, 1)
  {
    assert done + [] == done;
  }

  /** The encoder. It refuses contents that exceed the room left, and has by then written what comes before them. */
  method EncodeOptions(pco: Pco, buffer: array<octet>, base: nat, len: u32) returns (encoded: int)
    requires pco.Valid() && pco.count as int <= MAX_CONTAINERS && buffer !in pco.Held()
    requires base + |SentOptions(pco.Value(), len)| <= buffer.Length
    modifies buffer
    ensures Refused(pco.Value().containers, len, 1) ==> encoded == TLV_BUFFER_TOO_SHORT
    ensures !Refused(pco.Value().containers, len, 1) ==>
      encoded == |OptionsOctets(pco.Value())| && SentOptions(pco.Value(), len) == OptionsOctets(pco.Value())
    ensures Wrote(old(buffer[..]), buffer[..], base, SentOptions(pco.Value(), len), 0)
  {
    hide ContainerOctets, OptionsOctets, SentOptions, Refused, TooLong, Wrote, Text, Underway, Octets2;
    ghost var before, o := buffer[..], pco.Value();
    ghost var done := [(0x80 + o.protocol as int) as octet];
    UnderwayStart(o, len);
    PutU8(buffer, base, 0x80 + pco.protocol as int);
    encoded := 1;
    var i := 0;
    while i < pco.count as int
      invariant i <= pco.count as int && pco.Value() == o && encoded == |done|
      invariant Underway(o, i, done, len)
      invariant Wrote(before, buffer[..], base, done, 0)
    {
      ghost var c, now := o.containers[i], buffer[..];
      UnderwayNext(o, i, done, len);
      var n := EncodeContainer(pco.slots[i], buffer, base, encoded, len);
      if n < 0 {
        WroteMore(before, now, buffer[..], base, done, Octets2(c.id) + [c.length], 0, 0);
        return n;
      }
      WroteMore(before, now, buffer[..], base, done, ContainerOctets(c), 0, 0);
      done := done + ContainerOctets(c);
      encoded := encoded + n;
      i := i + 1;
    }
    UnderwayEnd(o, done, len);
  }

  /**
   * The element: the length octet is written last, even after an error, and an error reaches the
   * caller increased by the octets written before it.
   */
  method EncodeOptionsIe(pco: Pco, present: bool, buffer: array<octet>, len: u32) returns (encoded: int)
    requires pco.Valid() && pco.count as int <= MAX_CONTAINERS && buffer !in pco.Held()
    requires var at := if present then 2 else 1;
      len >= 1 + at ==> at + |SentOptions(pco.Value(), len - at)| <= buffer.Length
    modifies buffer
    ensures var at := if present then 2 else 1;
      var iei: seq<octet> := if present then [OPTIONS_IEI] else [];
      var left := if len < at then 0 else len - at;
      var refused := Refused(pco.Value().containers, left, 1);
      && (len < 1 + at ==> encoded == TLV_BUFFER_TOO_SHORT && buffer[..] == old(buffer[..]))
      && (len >= 1 + at && refused ==> encoded == TLV_BUFFER_TOO_SHORT + at)
      && (len >= 1 + at && refused ==>
            Wrote(old(buffer[..]), buffer[..], 0,
                  iei + [LowOctet(TLV_BUFFER_TOO_SHORT)] + SentOptions(pco.Value(), left), 0))
      && (len >= 1 + at && !refused ==> encoded == |OptionsIe(pco.Value(), present)|)
      && (len >= 1 + at && !refused ==> Wrote(old(buffer[..]), buffer[..], 0, OptionsIe(pco.Value(), present), 0))
  {
    hide OptionsOctets, SentOptions, Refused, Wrote, LowOctet, Text;
    ghost var before, o := buffer[..], pco.Value();
    if len < OPTIONS_MIN_LENGTH - (if present then 0 else 1) {
      return TLV_BUFFER_TOO_SHORT;
    }
    var at := PutIei(buffer, OPTIONS_IEI, present);
    ghost var headed := buffer[..];
    var n := EncodeOptions(pco, buffer, at + 1, len - at - 1);
    ghost var full := buffer[..];
    encoded := at + 1 + n;
    var size := LowOctet(encoded - at - 1);
    buffer[at] := size;
    IeWrote(before, headed, full, if present then [OPTIONS_IEI] else [], size, SentOptions(o, len - at - 1));
  }

  // ---------------------------------------------------------------------------
  // Decoding

  /**
   * With the containers in `done` read, at `t` and with `left` declared, the outcome and the rest
   * of `all` the containers are still to be.
   */
  ghost predicate Remains(done: seq<Container>, size: nat, t: seq<octet>, left: int,
                          outcome: Decoded<seq<Container>>, all: seq<Container>) {
    && Chain(done, size, LoadContainers(t, left, |done|)) == outcome != Overrun
    && done + ContainersRead(t, left) == all
  }

  lemma RemainsStart(t: seq<octet>, left: int)
    requires LoadContainers(t, left, 0) != Overrun
    ensures Remains([], 0, t, left, LoadContainers(t, left, 0), ContainersRead(t, left))
  {
    NothingChained(LoadContainers(t, left, 0));
    assert [] + ContainersRead(t, left) == ContainersRead(t, left);
  }

  /** The loop ends, or a container exceeds what is left. */
  lemma RemainsEnd(done: seq<Container>, size: nat, t: seq<octet>, left: int,
                   outcome: Decoded<seq<Container>>, all: seq<Container>)
    requires Remains(done, size, t, left, outcome, all)
    requires left < 3 || (|t| >= 3 && left - 3 < t[2] as int)
    ensures outcome == (if left < 3 then Ok(done, size) else Error(TLV_BUFFER_TOO_SHORT)) && all == done
  {
    assert done + [] == done;
  }

  lemma RemainsNext(done: seq<Container>, size: nat, t: seq<octet>, left: int,
                    outcome: Decoded<seq<Container>>, all: seq<Container>)
    requires Remains(done, size, t, left, outcome, all) && left >= 3
    ensures |t| >= 3 && |done| < MAX_CONTAINERS
    ensures left - 3 >= t[2] as int ==>
      var k := 3 + t[2] as nat;
      k <= |t| && Remains(done + [Container(Value2(t), t[2], t[3..k])], size + k, t[k..], left - k, outcome, all)
  {
    hide Value2, Chain, Prepend;
    ChainFails(done, size);
    if left - 3 >= t[2] as int && |t| >= 3 + t[2] as nat {
      var k := 3 + t[2] as nat;
      var c := Container(Value2(t), t[2], t[3..k]);
      ChainNext(done, size, c, k, LoadContainers(t[k..], left - k, |done| + 1));
      AppendAssociates(done, [c], ContainersRead(t[k..], left - k));
    }
  }

  lemma ChainNext(done: seq<Container>, size: nat, c: Container, k: nat, later: Decoded<seq<Container>>)
    ensures Chain(done, size, Prepend(c, k, later)) == Chain(done + [c], size + k, later)
  {
    if later.Ok? {
      AppendAssociates(done, [c], later.value);
    }
  }

  lemma ChainFails(done: seq<Container>, size: nat)
    ensures Chain(done, size, Overrun) == Overrun
  {
  }

  /** One container read into the next free place. */
  method DecodeContainer(pco: Pco, buffer: array<octet>, at: nat, left: int) returns (n: int)
    requires pco.Valid() && pco.count as int < MAX_CONTAINERS
    requires left >= 3 && at + 3 <= buffer.Length
    requires left - 3 >= buffer[at + 2] as int ==> at + 3 + buffer[at + 2] as int <= buffer.Length
    modifies pco.slots
    ensures pco.Valid()
    ensures forall j :: 0 <= j < pco.slots.Length && j != pco.count as int ==> pco.slots[j] == old(pco.slots[j])
    ensures left - 3 < buffer[at + 2] as int ==>
      n == TLV_BUFFER_TOO_SHORT && pco.slots[pco.count].contents == old(pco.slots[pco.count].contents)
    ensures left - 3 >= buffer[at + 2] as int ==>
      var t, c := buffer[at..], pco.slots[pco.count].contents;
      && n == 3 + t[2] as int
      && Stored(pco.slots[pco.count]) == Container(Value2(t), t[2], t[3..n])
      && (c != null ==> fresh(c))
  {
    var id, length := buffer[at] as int * 0x100 + buffer[at + 1] as int, buffer[at + 2];
    var c: array?<octet> := null;
    if 0 < length {
      if left - 3 < length as int {
        pco.slots[pco.count] := pco.slots[pco.count].(id := id, length := length);
        return TLV_BUFFER_TOO_SHORT;
      }
      c := NewString(buffer[at + 3..at + 3 + length as int]);
    }
    pco.Put(pco.count, id, length, c);
    n := 3 + length as int;
  }

  /**
   * What the decoder leaves in the record, also where it reports an error: nothing new if the
   * first octet is wrong, and else the protocol and the containers read until then.
   */
  ghost predicate Left(pco: Pco, s: seq<octet>, len: int, protocol: bits3, count: octet, slots: seq<Slot>)
    requires s != []
    reads pco, pco.slots, pco.Held()
  {
    if s[0] / 0x80 != 1 || s[0] / 8 % 16 != 0 then
      pco.protocol == protocol && pco.count == count && pco.slots[..] == slots
    else
      var cs := ContainersRead(s[1..], len - 1);
      && pco.protocol == s[0] / 2 % 8 && pco.count as int == |cs| <= pco.slots.Length
      && pco.Containers(|cs|) == cs
  }

  /** The element's own checks fail. */
  predicate IeRejected(s: seq<octet>, present: bool, len: nat) {
    var at := if present then 1 else 0;
    len < OPTIONS_MIN_LENGTH - 1 + at || |s| < at + 2 || (present && s[0] != OPTIONS_IEI) || len - at - 1 < s[at] as nat
  }

  /** The first places hold these containers. */
  ghost predicate Filled(pco: Pco, done: seq<Container>)
    requires pco.Valid()
    reads pco, pco.slots, pco.Held()
  {
    pco.count as int == |done| <= MAX_CONTAINERS && pco.Containers(|done|) == done
  }

  /** One turn of the decoder's loop. */
  method DecodeNext(pco: Pco, buffer: array<octet>, at: nat, left: int, ghost done: seq<Container>, ghost size: nat,
                    ghost outcome: Decoded<seq<Container>>, ghost all: seq<Container>)
    returns (m: int, ghost more: seq<Container>)
    requires pco.Valid() && Filled(pco, done) && left >= 3 && at <= buffer.Length
    requires Remains(done, size, buffer[at..], left, outcome, all)
    modifies pco`count, pco.slots
    ensures pco.Valid() && Filled(pco, more)
    ensures forall o :: o in pco.Held() ==> fresh(o) || o in old(pco.Held())
    ensures m < 0 ==> outcome == Error(m) && all == more
    ensures m >= 0 ==> 3 <= m <= buffer.Length - at && Remains(more, size + m, buffer[at + m..], left - m, outcome, all)
  {
    hide Remains, Value2, Text;
    ghost var t := buffer[at..];
    RemainsNext(done, size, t, left, outcome, all);
    m := DecodeContainer(pco, buffer, at, left);
    if m < 0 {
      RemainsEnd(done, size, t, left, outcome, all);
      more := done;
      assert pco.Containers(pco.count) == done;
      return;
    }
    assert t[m..] == buffer[at + m..];
    more := done + [Stored(pco.slots[pco.count])];
    pco.count := pco.count + 1;
    assert pco.Containers(pco.count) == more;
  }

  /** The decoder's loop. */
  method DecodeContainers(pco: Pco, buffer: array<octet>, at: nat, left: int) returns (n: int)
    requires pco.Valid() && pco.count == 0
    requires at <= buffer.Length && LoadContainers(buffer[at..], left, 0) != Overrun
    modifies pco`count, pco.slots
    ensures pco.Valid() && Filled(pco, ContainersRead(buffer[at..], left))
    ensures forall o :: o in pco.Held() ==> fresh(o) || o in old(pco.Held())
    ensures LoadContainers(buffer[at..], left, 0) ==
      if n < 0 then Error(n) else Ok(ContainersRead(buffer[at..], left), n)
  {
    hide LoadContainers, ContainersRead, Remains;
    ghost var done: seq<Container>, outcome, all :=
      [], LoadContainers(buffer[at..], left, 0), ContainersRead(buffer[at..], left);
    RemainsStart(buffer[at..], left);
    assert pco.Containers(0) == [];
    n := 0;
    while 3 <= left - n
      invariant pco.Valid() && Filled(pco, done)
      invariant forall o :: o in pco.Held() ==> fresh(o) || o in old(pco.Held())
      invariant 0 <= n <= buffer.Length - at
      invariant Remains(done, n, buffer[at + n..], left - n, outcome, all)
    {
      var m;
      m, done := DecodeNext(pco, buffer, at + n, left - n, done, n, outcome, all);
      if m < 0 {
        return m;
      }
      n := n + m;
    }
    RemainsEnd(done, n, buffer[at + n..], left - n, outcome, all);
  }

  /** The decoder. */
  method DecodeOptions(pco: Pco, buffer: array<octet>, base: nat, len: nat) returns (decoded: int)
    requires pco.Valid() && base <= buffer.Length && LoadOptions(buffer[base..], len) != Overrun
    modifies pco`protocol, pco`count, pco.slots
    ensures pco.Valid()
    ensures forall o :: o in pco.Held() ==> fresh(o) || o in old(pco.Held())
    ensures match LoadOptions(buffer[base..], len)
      case Ok(o, size) => decoded == size && pco.count as int <= MAX_CONTAINERS && pco.Value() == o
      case Error(code) => decoded == code < 0
      case Overrun => false
    ensures Left(pco, buffer[base..], len, old(pco.protocol), old(pco.count), old(pco.slots[..]))
  {
    hide LoadContainers, ContainersRead;
    if buffer[base] / 0x80 != 1 || buffer[base] / 8 % 16 != 0 {
      return TLV_VALUE_DOESNT_MATCH;
    }
    assert buffer[base..][1..] == buffer[base + 1..];
    pco.protocol := buffer[base] / 2 % 8;
    pco.count := 0;
    var n := DecodeContainers(pco, buffer, base + 1, len - 1);
    decoded := if n < 0 then n else 1 + n;
  }

  lemma NothingToLoad(len: int)
    ensures LoadOptions([], len) == Overrun
  {
  }

  method DecodeOptionsIe(pco: Pco, present: bool, buffer: array<octet>, len: nat) returns (decoded: int)
    requires pco.Valid() && LoadOptionsIe(buffer[..], present, len) != Overrun
    modifies pco`protocol, pco`count, pco.slots
    ensures pco.Valid()
    ensures forall o :: o in pco.Held() ==> fresh(o) || o in old(pco.Held())
    ensures match LoadOptionsIe(buffer[..], present, len)
      case Ok(o, size) => decoded == size && pco.count as int <= MAX_CONTAINERS && pco.Value() == o
      case Error(code) => decoded == code < 0
      case Overrun => false
    ensures var at := if present then 1 else 0;
      if IeRejected(buffer[..], present, len)
      then pco.protocol == old(pco.protocol) && pco.count == old(pco.count) && pco.slots[..] == old(pco.slots[..])
      else Left(pco, buffer[at + 1..], len - at - 1, old(pco.protocol), old(pco.count), old(pco.slots[..]))
  {
    hide LoadOptions, Left;
    if len < OPTIONS_MIN_LENGTH - (if present then 0 else 1) {
      return TLV_BUFFER_TOO_SHORT;
    }
    var at := 0;
    if present {
      if buffer[0] != OPTIONS_IEI {
        return TLV_UNEXPECTED_IEI;
      }
      at := 1;
    }
    if len - at - 1 < buffer[at] as int {
      return TLV_BUFFER_TOO_SHORT;
    }
    assert buffer[..][at + 1..] == buffer[at + 1..];
    assert buffer.Length > at + 1 by {
      if buffer.Length == at + 1 {
        assert buffer[..][at + 1..] == [];
        NothingToLoad(len - at - 1);
      }
    }
    var n := DecodeOptions(pco, buffer, at + 1, len - at - 1);
    decoded := if n < 0 then n else at + 1 + n;
  }
}
