/** Protocol configuration options octet by octet (section 10.5.6.3 of 3GPP TS 24.008). */
module OptionsWire {
  import opened Octets
  import opened Tlv
  import opened ConfigurationOptions

  // ---------------------------------------------------------------------------
  // What is sent

  /** The containers one after the other: an identifier of two octets, a length, the contents. */
  function Boxes(cs: seq<Container>): seq<octet> {
    if cs == [] then []
    else [cs[0].id / 0x100, cs[0].id % 0x100, cs[0].length] + cs[0].contents + Boxes(cs[1..])
  }

  lemma {:induction false} BoxesSent(cs: seq<Container>)
    ensures ContainersOctets(cs) == Boxes(cs)
  {
    hide ContainersOctets;
    ContainersFirst(cs);
    if cs != [] {
      BoxesSent(cs[1..]);
      var c := cs[0];
      assert ContainerOctets(c) == [c.id / 0x100, c.id % 0x100, c.length] + c.contents;
    }
  }

  /** Options are sent as 0x80 with the protocol, and the containers. */
  lemma OptionsSpelled(o: Options, present: bool)
    ensures OptionsOctets(o) == [0x80 + o.protocol as int] + Boxes(o.containers)
    ensures OptionsIe(o, present) == (if present then [0x27] else []) + [|OptionsOctets(o)| % 256] + OptionsOctets(o)
  {
    hide ContainersOctets;
    BoxesSent(o.containers);
  }

  /** The length given ends within the contents of container i, or where they start. */
  ghost predicate EndsWithin(cs: seq<Container>, i: nat, len: u32, at: nat)
    requires i < |cs|
  {
    var start := at + |Boxes(cs[..i])| + 3;
    start <= len < start + |cs[i].contents|
  }

  lemma BoxesFirst(cs: seq<Container>, i: nat)
    requires i < |cs|
    ensures |Boxes(cs[..i + 1])| == 3 + |cs[0].contents| + |Boxes(cs[1..][..i])|
    ensures cs[1..][..i] == cs[..i + 1][1..]
  {
    assert cs[..i + 1][0] == cs[0] && cs[..i + 1][1..] == cs[1..][..i];
  }

  lemma {:induction false} RefusedFrom(cs: seq<Container>, len: u32, at: nat)
    requires at + |Boxes(cs)| < 0x1_0000_0000
    ensures Refused(cs, len, at) <==> exists i :: 0 <= i < |cs| && EndsWithin(cs, i, len, at)
    decreases |cs|
  {
    hide TooLong;
    if cs != [] {
      var rest, next := cs[1..], at + 3 + |cs[0].contents|;
      RefusedFrom(rest, len, next);
      TooLongExactly(cs, len, at);
      if Refused(rest, len, next) {
        var i :| 0 <= i < |rest| && EndsWithin(rest, i, len, next);
        BoxesFirst(cs, i);
        assert EndsWithin(cs, i + 1, len, at);
      }
      if i :| 0 < i < |cs| && EndsWithin(cs, i, len, at) {
        BoxesFirst(cs, i - 1);
        assert EndsWithin(rest, i - 1, len, next);
      }
    }
  }

  lemma TooLongExactly(cs: seq<Container>, len: u32, at: nat)
    requires cs != [] && at + |Boxes(cs)| < 0x1_0000_0000
    ensures TooLong(cs[0].contents, len, at + 3) <==> EndsWithin(cs, 0, len, at)
  {
    assert cs[..0] == [];
    RoomLeft(len, at + 3);
  }

  lemma RoomLeft(len: u32, at: u32)
    ensures Room(len, at) == if at <= len then len - at else 0x1_0000_0000 + len - at
  {
  }

  /** The encoder refuses exactly when the length given ends within the contents of a container, or where they start. */
  lemma RefusedExactly(o: Options, len: u32)
    requires |OptionsOctets(o)| < 0x1_0000_0000
    ensures Refused(o.containers, len, 1) <==>
      exists i :: 0 <= i < |o.containers| && EndsWithin(o.containers, i, len, 1)
  {
    hide OptionsOctets, Refused;
    OptionsSpelled(o, false);
    RefusedFrom(o.containers, len, 1);
  }

  /** Then it has written all before those contents. */
  lemma {:induction false} SentBefore(cs: seq<Container>, len: u32, at: nat, i: nat)
    requires i < |cs| && at + |Boxes(cs)| < 0x1_0000_0000
    requires EndsWithin(cs, i, len, at) && forall j :: 0 <= j < i ==> !EndsWithin(cs, j, len, at)
    ensures SentContainers(cs, len, at) == Boxes(cs[..i]) + [cs[i].id / 0x100, cs[i].id % 0x100, cs[i].length]
    decreases |cs|
  {
    hide TooLong, Room, SentContainers, ContainerOctets, Boxes, EndsWithin;
    TooLongExactly(cs, len, at);
    if i == 0 {
      SentFirst(cs, len, at);
    } else {
      var rest, next := cs[1..], at + 3 + |cs[0].contents|;
      BoxesRest(cs);
      forall j | 0 <= j < i ensures EndsWithin(rest, j, len, next) <==> EndsWithin(cs, j + 1, len, at) {
        EndsLater(cs, j, len, at);
      }
      EndsLater(cs, i - 1, len, at);
      SentBefore(rest, len, next, i - 1);
      SentNext(cs, len, at, i);
      AppendAssociates(ContainerOctets(cs[0]), Boxes(rest[..i - 1]),
                       [cs[i].id / 0x100, cs[i].id % 0x100, cs[i].length]);
    }
  }

  lemma EndsLater(cs: seq<Container>, j: nat, len: u32, at: nat)
    requires j + 1 < |cs|
    ensures EndsWithin(cs[1..], j, len, at + 3 + |cs[0].contents|) <==> EndsWithin(cs, j + 1, len, at)
  {
    BoxesFirst(cs, j);
  }

  lemma BoxesRest(cs: seq<Container>)
    requires cs != []
    ensures |Boxes(cs)| == 3 + |cs[0].contents| + |Boxes(cs[1..])|
  {
  }

  lemma SentFirst(cs: seq<Container>, len: u32, at: nat)
    requires cs != [] && TooLong(cs[0].contents, len, at + 3)
    ensures SentContainers(cs, len, at) == Boxes(cs[..0]) + [cs[0].id / 0x100, cs[0].id % 0x100, cs[0].length]
  {
    hide TooLong;
    assert cs[..0] == [];
  }

  lemma SentNext(cs: seq<Container>, len: u32, at: nat, i: nat)
    requires 0 < i < |cs| && !TooLong(cs[0].contents, len, at + 3)
    ensures SentContainers(cs, len, at) ==
      ContainerOctets(cs[0]) + SentContainers(cs[1..], len, at + 3 + |cs[0].contents|)
    ensures Boxes(cs[..i]) == ContainerOctets(cs[0]) + Boxes(cs[1..][..i - 1])
  {
    hide TooLong;
    assert cs[..i][0] == cs[0] && cs[..i][1..] == cs[1..][..i - 1];
  }

  // ---------------------------------------------------------------------------
  // What is read

  ghost predicate Sound(cs: seq<Container>) {
    forall i :: 0 <= i < |cs| ==> |cs[i].contents| == cs[i].length
  }

  /** How reading goes on after n containers, with `left` octets to go. */
  ghost predicate Stops(rest: seq<octet>, left: int, n: nat) {
    left < 3 || (|rest| >= 3 && n < 8 && rest[2] as int > left - 3)
  }

  lemma StopsThere(rest: seq<octet>, left: int, n: nat)
    requires Stops(rest, left, n)
    ensures LoadContainers(rest, left, n) == if left < 3 then Ok([], 0) else Error(-12)
  {
  }

  /**
   * Containers are read, eight at the most, until fewer than three octets are left or one announces
   * more than is left.
   */
  lemma ContainersReadExactly(cs: seq<Container>, rest: seq<octet>, more: nat)
    requires Sound(cs) && |cs| <= 8 && Stops(rest, more, |cs|)
    ensures LoadContainers(Boxes(cs) + rest, |Boxes(cs)| + more, 0) ==
      if more < 3 then Ok(cs, |Boxes(cs)|) else Error(-12)
  {
    hide LoadContainers, Boxes, Stops;
    BoxesSent(cs);
    assert forall i :: 0 <= i < |cs| ==> Consistent(cs[i]);
    ContainersChain(cs, rest, more, 0);
    StopsThere(rest, more, |cs|);
    assert cs + [] == cs;
  }

  /** Those are the containers left in the record, also where an error is reported. */
  lemma {:induction false} ContainersKept(cs: seq<Container>, rest: seq<octet>, more: nat)
    requires Sound(cs) && (more < 3 || (|rest| >= 3 && rest[2] as int > more - 3))
    ensures ContainersRead(Boxes(cs) + rest, |Boxes(cs)| + more) == cs
    decreases |cs|
  {
    hide Value2, ContainersRead, Boxes;
    if cs == [] {
      NoneKept(rest, more);
    } else {
      var c, tail := cs[0], Boxes(cs[1..]);
      BoxesFront(cs);
      BoxTaken(c, tail, rest);
      FirstKept(Boxes(cs) + rest, |Boxes(cs)| + more, c, tail + rest);
      ContainersKept(cs[1..], rest, more);
      assert [c] + cs[1..] == cs;
    }
  }

  lemma NoneKept(rest: seq<octet>, more: nat)
    requires more < 3 || (|rest| >= 3 && rest[2] as int > more - 3)
    ensures ContainersRead(Boxes([]) + rest, |Boxes([])| + more) == []
  {
    assert [] + rest == rest;
  }

  lemma BoxesFront(cs: seq<Container>)
    requires cs != []
    ensures Boxes(cs) == [cs[0].id / 0x100, cs[0].id % 0x100, cs[0].length] + cs[0].contents + Boxes(cs[1..])
  {
  }

  lemma FirstKept(t: seq<octet>, left: int, c: Container, later: seq<octet>)
    requires var k := 3 + c.length as nat;
      k <= |t| && left >= k && t[2] == c.length && t[3..k] == c.contents && t[k..] == later && Value2(t) == c.id
    ensures ContainersRead(t, left) == [c] + ContainersRead(later, left - 3 - c.length as int)
  {
    hide Value2;
  }

  lemma BoxTaken(c: Container, tail: seq<octet>, rest: seq<octet>)
    requires |c.contents| == c.length
    ensures var t := [c.id / 0x100, c.id % 0x100, c.length] + c.contents + tail + rest;
      var k := 3 + c.length as nat;
      && |t| >= k && t[2] == c.length && t[3..k] == c.contents && t[k..] == tail + rest && Value2(t) == c.id
  {
    assert [c.id / 0x100, c.id % 0x100, c.length] + c.contents + tail + rest ==
      [c.id / 0x100, c.id % 0x100, c.length] + (c.contents + (tail + rest));
  }

  /** A ninth container would go beyond the record. */
  lemma NinthOverruns(cs: seq<Container>, rest: seq<octet>, more: nat)
    requires Sound(cs) && |cs| == 8 && more >= 3
    ensures LoadContainers(Boxes(cs) + rest, |Boxes(cs)| + more, 0) == Overrun
  {
    hide Boxes;
    BoxesSent(cs);
    assert forall i :: 0 <= i < |cs| ==> Consistent(cs[i]);
    assert LoadContainers(rest, more, 8) == Overrun;
    hide LoadContainers;
    ContainersChain(cs, rest, more, 0);
  }

  /** All octets that can be read are such. */
  lemma {:induction false} ContainersReadAll(t: seq<octet>, left: nat, n: nat)
      returns (cs: seq<Container>, rest: seq<octet>)
    requires LoadContainers(t, left, n) != Overrun && n <= 8
    ensures Sound(cs) && n + |cs| <= 8 && t == Boxes(cs) + rest && |Boxes(cs)| <= left
    ensures Stops(rest, left - |Boxes(cs)|, n + |cs|)
    decreases left
  {
    hide Value2, Boxes;
    if left < 3 || left - 3 < t[2] as int {
      cs, rest := [], t;
      NoBoxes(t);
    } else {
      var k := 3 + t[2] as nat;
      var c := Container(Value2(t), t[2], t[3..k]);
      var later;
      later, rest := ContainersReadAll(t[k..], left - k, n + 1);
      cs := [c] + later;
      BoxPut(t, c, later, rest);
    }
  }

  lemma NoBoxes(rest: seq<octet>)
    ensures Boxes([]) == [] && rest == Boxes([]) + rest
  {
  }

  lemma BoxPut(t: seq<octet>, c: Container, later: seq<Container>, rest: seq<octet>)
    requires |t| >= 3 && 3 + t[2] as nat <= |t| && c == Container(Value2(t), t[2], t[3..3 + t[2] as nat])
    requires Sound(later) && t[3 + t[2] as nat..] == Boxes(later) + rest
    ensures Sound([c] + later) && t == Boxes([c] + later) + rest
    ensures |Boxes([c] + later)| == 3 + t[2] as nat + |Boxes(later)|
  {
    var k := 3 + t[2] as nat;
    assert ([c] + later)[1..] == later;
    var box := [c.id / 0x100, c.id % 0x100, c.length] + c.contents;
    assert box == t[..k];
    AppendAssociates(box, Boxes(later), rest);
    assert t == t[..k] + t[k..];
  }

  /** The first octet is one of 0x80 to 0x87, and its bits 1 to 3 are read as the protocol. */
  lemma OptionsReadExactly(s: seq<octet>, len: int)
    requires s != []
    ensures LoadOptions(s, len) ==
      if s[0] < 0x80 || s[0] >= 0x88 then Error(-4)
      else
        match LoadContainers(s[1..], len - 1, 0)
        case Ok(cs, size) => Ok(Options((s[0] - 0x80) / 2, cs), 1 + size)
        case Error(code) => Error(code)
        case Overrun => Overrun
  {
    hide LoadContainers;
    assert s[0] / 0x80 == 1 && s[0] / 8 % 16 == 0 <==> 0x80 <= s[0] < 0x88;
  }

  /** The element is refused before the options are read. */
  lemma OptionsRefused(s: seq<octet>, present: bool, len: nat)
    requires |s| >= if present then 2 else 1
    ensures var at := if present then 1 else 0;
      LoadOptionsIe(s, present, len) ==
        if len < 2 + at then Error(-12)
        else if present && s[0] != 0x27 then Error(-2)
        else if s[at] as int > len - at - 1 then Error(-12)
        else
          match LoadOptions(if present then s[2..] else s[1..], len - at - 1)
          case Ok(o, size) => Ok(o, at + 1 + size)
          case Error(code) => Error(code)
          case Overrun => Overrun
  {
    hide LoadOptions;
  }
}
