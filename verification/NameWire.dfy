/** Access point names octet by octet (section 10.5.6.1 of 3GPP TS 24.008). */
module NameWire {
  import opened Octets
  import opened Tlv
  import opened AccessPointNames

  // ---------------------------------------------------------------------------
  // What is sent: three rules, one for each way in which a name goes on

  /** A name without a dot or a NUL is one label. */
  lemma OneLabel(a: Name)
    requires 46 !in a && 0 !in a
    ensures NameOctets(a) == [|a| % 256] + a
  {
    hide Pack;
    CutPlain(a, []);
    SplitPrefixed(a, []);
    assert a + [] == a && [a] + [] == [a];
    PackedAfter(a, []);
    PackNothing();
    assert [|a| % 256] + a + [] == [|a| % 256] + a;
  }

  /** The characters before the first dot are a label, and the characters after it are packed alike. */
  lemma LabelAndMore(a: Name, b: Name)
    requires 46 !in a && 0 !in a
    ensures NameOctets(a + [46] + b) == [|a| % 256] + a + NameOctets(b)
  {
    hide Pack, LowOctet;
    var c := Cut(b);
    CutPlain(a, [46] + b);
    CutDot(b);
    AppendAssociates(a, [46], b);
    SplitPrefixed(a, [46] + c);
    assert ([46] + c)[1..] == c && ([[]] + Split(c))[1..] == Split(c) && a + [] == a;
    assert Split([46] + c) == [[]] + Split(c);
    PackedAfter(a, Split(c));
  }

  lemma PackedAfter(a: Name, labels: seq<Name>)
    ensures Pack([a] + labels) == [|a| % 256] + a + Pack(labels)
  {
    assert ([a] + labels)[1..] == labels;
  }

  /** Nothing is packed of a NUL and of what follows it. */
  lemma LabelAtNul(a: Name, b: Name)
    requires 46 !in a && 0 !in a
    ensures NameOctets(a + [0] + b) == [|a| % 256] + a
  {
    hide Pack, LowOctet, Split;
    CutPlain(a, [0] + b);
    AppendAssociates(a, [0], b);
    assert a + [] == a;
    OneLabel(a);
    CutPlain(a, []);
  }

  lemma {:induction false} CutPlain(a: Name, s: Name)
    requires 0 !in a
    ensures Cut(a + s) == a + Cut(s)
  {
    if a == [] {
      assert a + s == s;
    } else {
      assert (a + s)[1..] == a[1..] + s;
      CutPlain(a[1..], s);
      assert a == [a[0]] + a[1..];
      AppendAssociates([a[0]], a[1..], Cut(s));
    }
  }

  lemma CutDot(b: Name)
    ensures Cut([46] + b) == [46] + Cut(b)
  {
    assert ([46] + b)[1..] == b;
  }

  /** The element: an identifier if asked for, the length, the labels. */
  lemma ElementSpelled(name: Name, present: bool)
    requires |Cut(name)| < 255
    ensures Ie(NameOctets(name), present) ==
      (if present then [0x28] else []) + [|NameOctets(name)|] + NameOctets(name)
  {
    hide NameOctets, Cut;
    NameOctetsSize(name);
  }

  // ---------------------------------------------------------------------------
  // What is read

  /** Labels, each after its length. */
  function Tiles(labels: seq<Name>): seq<octet>
    requires Short(labels)
  {
    if labels == [] then [] else [|labels[0]|] + labels[0] + Tiles(labels[1..])
  }

  /** Labels, each after a dot. */
  function Dots(labels: seq<Name>): Name {
    if labels == [] then [] else [46] + labels[0] + Dots(labels[1..])
  }

  /** A label is announced that is longer than what is left. */
  ghost predicate Overlong(rest: seq<octet>, left: int) {
    left > 0 && rest != [] && rest[0] as int > left - 1
  }

  lemma TilesFirst(labels: seq<Name>, rest: seq<octet>)
    requires labels != [] && Short(labels)
    ensures Short(labels[1..])
    ensures Tiles(labels) + rest == [|labels[0]|] + labels[0] + (Tiles(labels[1..]) + rest)
    ensures |Tiles(labels)| == 1 + |labels[0]| + |Tiles(labels[1..])|
  {
    assert |labels[0]| < 256;
    AppendAssociates([|labels[0]|] + labels[0], Tiles(labels[1..]), rest);
  }

  /** Labels that fill what is left are joined with dots; one that does not fit fails an assertion. */
  lemma {:induction false} LabelsRead(labels: seq<Name>, rest: seq<octet>, left: octet, name: Name, size: nat)
    requires Short(labels)
    requires |Tiles(labels)| == left as int || Overlong(rest, left as int - |Tiles(labels)|)
    ensures LoadLabels(Tiles(labels) + rest, left, name, size) ==
      if |Tiles(labels)| == left as int then Named(name + Dots(labels), size + left as nat) else Aborted
    decreases |labels|
  {
    hide Short, LoadLabels;
    if labels == [] {
      assert Tiles(labels) + rest == rest && name + [] == name;
      NoLabelRead(rest, left, name, size);
    } else {
      TilesFirst(labels, rest);
      var first, later := labels[0], Tiles(labels[1..]) + rest;
      LabelTaken(Tiles(labels) + rest, name, size, first, later, left as int - 1 - |first|);
      assert first == [] ==> name + [46] + first == name + [46];
      LabelsRead(labels[1..], rest, (left as int - 1 - |first|) as octet, name + [46] + first, size + 1 + |first|);
      AppendAssociates(name, [46], first);
      AppendAssociates(name, [46] + first, Dots(labels[1..]));
    }
  }

  lemma NoLabelRead(rest: seq<octet>, left: octet, name: Name, size: nat)
    requires left == 0 || Overlong(rest, left as int)
    ensures LoadLabels(rest, left, name, size) == if left == 0 then Named(name, size) else Aborted
  {
  }

  /** Whatever is read stands in the message as labels, and one that does not fit if it fails. */
  lemma {:induction false} ReadAsLabels(t: seq<octet>, left: octet, name: Name, size: nat)
      returns (labels: seq<Name>, rest: seq<octet>)
    requires !LoadLabels(t, left, name, size).Overrun?
    ensures Short(labels) && t == Tiles(labels) + rest
    ensures |Tiles(labels)| == left as int || Overlong(rest, left as int - |Tiles(labels)|)
    decreases left
  {
    if left == 0 || left - 1 < t[0] {
      labels, rest := [], t;
    } else {
      var n := 1 + t[0] as nat;
      var first: Name, later: seq<Name> := t[1..n], [];
      assert first == [] ==> n == 1;
      var joined := if first == [] then name + [46] else name + [46] + first;
      later, rest := ReadAsLabels(t[n..], left - n, joined, size + n);
      labels := [first] + later;
      LabelPut(first, later, rest, t);
    }
  }

  lemma LabelPut(first: Name, later: seq<Name>, rest: seq<octet>, t: seq<octet>)
    requires |first| < 256 && Short(later) && |t| >= 1 + |first| && [|first|] + first == t[..1 + |first|]
    requires t[1 + |first|..] == Tiles(later) + rest
    ensures var labels := [first] + later;
      Short(labels) && t == Tiles(labels) + rest && |Tiles(labels)| == 1 + |first| + |Tiles(later)|
  {
    assert ([first] + later)[1..] == later;
    AppendAssociates([|first|] + first, Tiles(later), rest);
    assert t == t[..1 + |first|] + t[1 + |first|..];
  }

  /** What follows the identifier, if there is one, and the length octet. */
  function Content(s: seq<octet>, present: bool): seq<octet>
    requires |s| >= if present then 2 else 1
  {
    if present then s[2..] else s[1..]
  }

  /** The element is refused before its labels are read. */
  lemma NameRefused(s: seq<octet>, present: bool, len: nat)
    requires |s| >= if present then 2 else 1
    ensures var at := if present then 1 else 0;
      LoadName(s, present, len) ==
        if len < 2 + at then Failed(-12)
        else if present && s[0] != 0x28 then Failed(-2)
        else if s[at] as int > len - at - 1 then Failed(-12)
        else if s[at] <= 1 then Unnamed(at + 1)
        else LoadFirst(Content(s, present), s[at], at + 1)
  {
  }

  /**
   * The labels: the first, of any length, and then as many as fill what is left of the length octet,
   * counted in eight bits.
   */
  lemma NameReadExactly(t: seq<octet>, n: octet, size: nat, first: Name, labels: seq<Name>, rest: seq<octet>)
    requires |first| < 256 && Short(labels) && t == [|first|] + first + (Tiles(labels) + rest)
    requires var left := (n as int - 1 - |first|) % 256;
      |Tiles(labels)| == left || Overlong(rest, left - |Tiles(labels)|)
    ensures LoadFirst(t, n, size) ==
      if |Tiles(labels)| == (n as int - 1 - |first|) % 256 then
        Named(first + Dots(labels), size + 1 + |first| + |Tiles(labels)|)
      else Aborted
  {
    hide LoadLabels, Short, Tiles, Dots;
    var k, left := 1 + |first|, (n as int - 1 - |first|) % 256;
    assert t[0] == |first| && t[1..k] == first && t[k..] == Tiles(labels) + rest;
    LabelsRead(labels, rest, left, first, size + k);
  }

  /** All octets are such, but those that have to be read beyond the last. */
  lemma NameReadAll(t: seq<octet>, n: octet, size: nat) returns (first: Name, labels: seq<Name>, rest: seq<octet>)
    requires !LoadFirst(t, n, size).Overrun?
    ensures |first| < 256 && Short(labels) && t == [|first|] + first + (Tiles(labels) + rest)
    ensures var left := (n as int - 1 - |first|) % 256;
      |Tiles(labels)| == left || Overlong(rest, left - |Tiles(labels)|)
  {
    hide LoadLabels, Short, Tiles;
    var k := 1 + t[0] as nat;
    first := t[1..k];
    labels, rest := ReadAsLabels(t[k..], (n as int - k) % 256, first, size + k);
    assert t == t[..1] + t[1..k] + t[k..] && t[..1] == [t[0]];
  }

  /** Two labels come back with a dot between them. */
  lemma TwoLabelsRead(a: Name, b: Name, present: bool, rest: seq<octet>)
    requires |a| + |b| + 2 < 256
    ensures var ie := (if present then [0x28] else []) + [|a| + |b| + 2, |a|] + a + [|b|] + b;
      LoadName(ie + rest, present, |ie|) == Named(a + [46] + b, |ie|)
  {
    hide LoadFirst, LoadName, Tiles, Dots, Short;
    var n := |a| + |b| + 2;
    TwoLabelsLaidOut(a, b, present, rest);
    OneTile(b);
    var s := (if present then [0x28] else []) + [n, |a|] + a + [|b|] + b + rest;
    NameRefused(s, present, n + if present then 2 else 1);
    NameReadExactly([|a|] + a + (Tiles([b]) + rest), n, if present then 2 else 1, a, [b], rest);
    AppendAssociates(a, [46], b);
  }

  lemma OneTile(b: Name)
    requires |b| < 256
    ensures Short([b]) && Tiles([b]) == [|b|] + b && Dots([b]) == [46] + b
  {
    assert [b][1..] == [];
  }

  lemma TwoLabelsLaidOut(a: Name, b: Name, present: bool, rest: seq<octet>)
    requires |a| + |b| + 2 < 256
    ensures var s := (if present then [0x28] else []) + [|a| + |b| + 2, |a|] + a + [|b|] + b + rest;
      && |s| == |a| + |b| + |rest| + (if present then 4 else 3)
      && (present ==> s[0] == 0x28) && s[if present then 1 else 0] == |a| + |b| + 2
      && Content(s, present) == [|a|] + a + ([|b|] + b + rest)
  {
    var n := |a| + |b| + 2;
    var s := (if present then [0x28] else []) + [n, |a|] + a + [|b|] + b + rest;
    var t := [|a|] + a + ([|b|] + b + rest);
    assert s == (if present then [0x28, n] else [n]) + t;
  }
}
