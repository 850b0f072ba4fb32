/**
 * Access point names (section 10.5.6.1 of 3GPP TS 24.008, section 9.1 of 3GPP TS 23.003): a
 * dotted name travels as its labels, each after its length.
 */
module AccessPointNames {
  import opened Octets
  import opened Tlv

  const DOT: octet := 46
  const NUL: octet := 0
  const NAME_IEI: octet := 0x28
  const MIN_LENGTH: nat := 3
  const MAX_LENGTH: nat := 102

  type Name = seq<octet>

  // ---------------------------------------------------------------------------
  // Names and their labels

  /** The characters before the first NUL. */
  function Cut(s: Name): (r: Name)
    ensures |r| <= |s| && r == s[..|r|]
    ensures forall i :: 0 <= i < |r| ==> r[i] != NUL
    ensures |r| < |s| ==> s[|r|] == NUL
  {
    if s == [] || s[0] == NUL then [] else [s[0]] + Cut(s[1..])
  }

  /** The labels between the dots: always at least one, and any of them may be empty. */
  function Split(s: Name): (labels: seq<Name>)
    ensures labels != []
  {
    if s == [] then [[]]
    else
      var rest := Split(s[1..]);
      if s[0] == DOT then [[]] + rest else [[s[0]] + rest[0]] + rest[1..]
  }

  /** The labels with a dot between every two. */
  function Join(labels: seq<Name>): Name
    requires labels != []
  {
    labels[0] + Dotted(labels[1..])
  }

  /** The labels, each after a dot. */
  function Dotted(labels: seq<Name>): Name {
    if labels == [] then [] else [DOT] + labels[0] + Dotted(labels[1..])
  }

  /** The labels, each after its length. */
  function Pack(labels: seq<Name>): seq<octet> {
    if labels == [] then [] else [LowOctet(|labels[0]|)] + labels[0] + Pack(labels[1..])
  }

  function NameOctets(s: Name): seq<octet> {
    Pack(Split(Cut(s)))
  }

  // ---------------------------------------------------------------------------
  // Splitting and joining are inverse

  lemma {:induction false} JoinSplit(s: Name)
    ensures Join(Split(s)) == s
  {
    if s != [] {
      JoinSplit(s[1..]);
      var rest := Split(s[1..]);
      if s[0] == DOT {
        assert ([[]] + rest)[1..] == rest;
      } else {
        assert ([[s[0]] + rest[0]] + rest[1..])[1..] == rest[1..];
      }
    }
  }

  /** A label that a name can carry. */
  ghost predicate Plain(part: Name) {
    DOT !in part && NUL !in part
  }

  lemma {:induction false} SplitPrefixed(part: Name, s: Name)
    requires DOT !in part
    ensures Split(part + s) == [part + Split(s)[0]] + Split(s)[1..]
  {
    if part == [] {
      assert [] + s == s;
      assert [] + Split(s)[0] == Split(s)[0];
    } else {
      assert (part + s)[1..] == part[1..] + s;
      SplitPrefixed(part[1..], s);
      assert part == [part[0]] + part[1..];
      AppendAssociates([part[0]], part[1..], Split(s)[0]);
    }
  }

  lemma {:induction false} SplitJoin(labels: seq<Name>)
    requires labels != [] && forall i :: 0 <= i < |labels| ==> DOT !in labels[i]
    ensures Split(Join(labels)) == labels
  {
    var first, rest := labels[0], labels[1..];
    SplitPrefixed(first, Dotted(rest));
    if rest != [] {
      SplitJoin(rest);
      assert Dotted(rest) == [DOT] + Join(rest) by {
        AppendAssociates([DOT], rest[0], Dotted(rest[1..]));
      }
      assert ([DOT] + Join(rest))[1..] == Join(rest);
      assert Split(Dotted(rest)) == [[]] + rest;
    }
    assert first + [] == first;
  }

  lemma {:induction false} PackSize(labels: seq<Name>)
    ensures |Pack(labels)| == |Dotted(labels)|
  {
    if labels != [] {
      PackSize(labels[1..]);
    }
  }

  /** One octet more than the name has characters. */
  lemma NameOctetsSize(s: Name)
    ensures |NameOctets(s)| == |Cut(s)| + 1
  {
    PackSize(Split(Cut(s)));
    JoinSplit(Cut(s));
  }

  // ---------------------------------------------------------------------------
  // Encoding

  lemma {:induction false} PackSnoc(labels: seq<Name>, part: Name)
    ensures Pack(labels + [part]) == Pack(labels) + [LowOctet(|part|)] + part
  {
    if labels == [] {
      assert [] + [part] == [part];
      assert [part][1..] == [];
    } else {
      assert (labels + [part])[1..] == labels[1..] + [part];
      PackSnoc(labels[1..], part);
    }
  }

  /** `done` are the labels before the current one, of which `part` has been seen; `rest` is to come. */
  ghost predicate Splits(s: Name, done: seq<Name>, part: Name, rest: Name) {
    Split(s) == done + [part + Split(rest)[0]] + Split(rest)[1..]
  }

  lemma SplitsStart(s: Name)
    ensures Splits(s, [], [], s)
  {
    assert [] + Split(s)[0] == Split(s)[0];
  }

  lemma SplitsDot(s: Name, done: seq<Name>, part: Name, rest: Name)
    requires rest != [] && rest[0] == DOT && Splits(s, done, part, rest)
    ensures Splits(s, done + [part], [], rest[1..])
  {
    var tail := Split(rest[1..]);
    assert Split(rest)[1..] == tail && part + [] == part && [] + tail[0] == tail[0];
    assert done + [part] + tail == done + [part] + [tail[0]] + tail[1..];
  }

  lemma SplitsOther(s: Name, done: seq<Name>, part: Name, rest: Name)
    requires rest != [] && rest[0] != DOT && Splits(s, done, part, rest)
    ensures Splits(s, done, part + [rest[0]], rest[1..])
  {
    var tail := Split(rest[1..]);
    assert Split(rest)[0] == [rest[0]] + tail[0] && Split(rest)[1..] == tail[1..];
    AppendAssociates(part, [rest[0]], tail[0]);
  }

  lemma SplitsEnd(s: Name, done: seq<Name>, part: Name)
    requires Splits(s, done, part, [])
    ensures Split(s) == done + [part]
  {
    assert part + [] == part && done + [part] + [] == done + [part];
  }

  /** The label that starts after `lengthIndex` is complete: its length goes in front of it. */
  method CloseLabel(scratch: array<octet>, lengthIndex: nat, end: nat, ghost done: seq<Name>, ghost part: Name)
    requires lengthIndex < end <= scratch.Length
    requires scratch[..lengthIndex] == Pack(done) && scratch[lengthIndex + 1..end] == part
    modifies scratch
    ensures scratch[..end] == Pack(done + [part])
  {
    hide Pack, LowOctet;
    scratch[lengthIndex] := LowOctet(end - lengthIndex - 1);
    PackSnoc(done, part);
    assert scratch[..end] == scratch[..lengthIndex] + [scratch[lengthIndex]] + scratch[lengthIndex + 1..end];
  }

  /**
   * The encoder's loop: characters are copied one place further on, and the place of each dot,
   * like the first place, takes the length of the label that follows once that is known.
   */
  method PackInto(name: Name, scratch: array<octet>) returns (n: nat)
    requires scratch.Length == MAX_LENGTH && |Cut(name)| < MAX_LENGTH
    modifies scratch
    ensures n == |Cut(name)| + 1 && scratch[..n] == NameOctets(name)
  {
    hide Split, Splits, Pack, LowOctet;
    var index, lengthIndex, indexCopy := 0, 0, 1;
    ghost var s, done: seq<Name>, part: Name := Cut(name), [], [];
    SplitsStart(s);
    PackNothing();
    while index < |name| && name[index] != NUL
      invariant index <= |s| && lengthIndex < indexCopy == index + 1
      invariant index < |s| <==> index < |name| && name[index] != NUL
      invariant Splits(s, done, part, s[index..])
      invariant scratch[..lengthIndex] == Pack(done)
      invariant scratch[lengthIndex + 1..indexCopy] == part
    {
      assert s[index..][0] == name[index] && s[index..][1..] == s[index + 1..];
      if name[index] == DOT {
        SplitsDot(s, done, part, s[index..]);
        CloseLabel(scratch, lengthIndex, indexCopy, done, part);
        lengthIndex := indexCopy;
        indexCopy := lengthIndex + 1;
        done, part := done + [part], [];
      } else {
        SplitsOther(s, done, part, s[index..]);
        scratch[indexCopy] := name[index];
        indexCopy := indexCopy + 1;
        part := part + [name[index]];
      }
      index := index + 1;
    }
    assert s[index..] == [];
    SplitsEnd(s, done, part);
    CloseLabel(scratch, lengthIndex, indexCopy, done, part);
    n := indexCopy;
  }

  lemma PackNothing()
    ensures Pack([]) == []
  {
  }

  /** Room that the encoder asks for before it starts. */
  function RoomAsked(present: bool): (n: nat)
    ensures n == if present then 102 else 2
  {
    if present then MAX_LENGTH else MIN_LENGTH - 1
  }

  /** The encoder: it needs room for the packed name, and reports when there is less. */
  method EncodeName(name: Name, present: bool, buffer: array<octet>, len: nat) returns (encoded: int)
    requires |Cut(name)| < MAX_LENGTH && len <= buffer.Length
    modifies buffer
    ensures len < RoomAsked(present) || len < |Ie(NameOctets(name), present)| ==> encoded == TLV_BUFFER_TOO_SHORT
    ensures len < RoomAsked(present) ==> buffer[..] == old(buffer[..])
    ensures RoomAsked(present) <= len < |Ie(NameOctets(name), present)| ==>
      Wrote(old(buffer[..]), buffer[..], 0, if present then [NAME_IEI] else [], 0)
    ensures len >= RoomAsked(present) && len >= |Ie(NameOctets(name), present)| ==>
      && encoded == |Ie(NameOctets(name), present)|
      && Wrote(old(buffer[..]), buffer[..], 0, Ie(NameOctets(name), present), 0)
  {
    hide NameOctets, Wrote, LowOctet;
    NameOctetsSize(name);
    if len < RoomAsked(present) {
      return TLV_BUFFER_TOO_SHORT;
    }
    ghost var before := buffer[..];
    var at := PutIei(buffer, NAME_IEI, present);
    ghost var headed := buffer[..];
    var scratch := new octet[MAX_LENGTH](_ => 0);
    var n := PackInto(name, scratch);
    if len - at - 1 < n {
      return TLV_BUFFER_TOO_SHORT;
    }
    PutOctets(buffer, at + 1, scratch[..n]);
    ghost var full := buffer[..];
    buffer[at] := LowOctet(n);
    IeWrote(before, headed, full, if present then [NAME_IEI] else [], LowOctet(n), NameOctets(name));
    encoded := at + 1 + n;
  }

  // ---------------------------------------------------------------------------
  // Decoding

  /** Besides the usual outcomes, a label longer than what is left fails an assertion. */
  datatype Loaded = Named(name: Name, size: nat) | Unnamed(size: nat) | Failed(code: int) | Overrun | Aborted

  /** The labels after the first one, as long as `left` octets are declared to follow. */
  function LoadLabels(t: seq<octet>, left: octet, name: Name, size: nat): (r: Loaded)
    ensures !r.Unnamed? && !r.Failed?
    decreases left
  {
    if left < 1 then Named(name, size)
    else if t == [] then Loaded.Overrun
    else if t[0] == 0 then LoadLabels(t[1..], left - 1, name + [DOT], size + 1)
    else if left - 1 < t[0] then Aborted
    else if |t| < 1 + t[0] as nat then Loaded.Overrun
    else
      var n := 1 + t[0] as nat;
      LoadLabels(t[n..], (left as int - n) as octet, name + [DOT] + t[1..n], size + n)
  }

  /** The octets left after the first label are counted in eight bits, and not checked. */
  function LoadName(s: seq<octet>, present: bool, len: nat): Loaded {
    var at := if present then 1 else 0;
    if len < MIN_LENGTH - 1 + at then Failed(TLV_BUFFER_TOO_SHORT)
    else if |s| < at then Loaded.Overrun
    else if present && s[0] != NAME_IEI then Failed(TLV_UNEXPECTED_IEI)
    else if |s| < at + 1 then Loaded.Overrun
    else if len - at - 1 < s[at] as nat then Failed(TLV_BUFFER_TOO_SHORT)
    else if s[at] <= 1 then Unnamed(at + 1)
    else LoadFirst(s[at + 1..], s[at], at + 1)
  }

  function LoadFirst(t: seq<octet>, left: octet, size: nat): Loaded {
    if t == [] || |t| < 1 + t[0] as nat then Loaded.Overrun
    else
      var n := 1 + t[0] as nat;
      LoadLabels(t[n..], LowOctet(left as int - n), t[1..n], size + n)
  }

  /** Labels read back with a dot before each. */
  lemma {:induction false} LoadsLabels(labels: seq<Name>, rest: seq<octet>, name: Name, size: nat)
    requires |Pack(labels)| <= 255
    ensures LoadLabels(Pack(labels) + rest, |Pack(labels)|, name, size) ==
      Named(name + Dotted(labels), size + |Pack(labels)|)
    decreases |labels|
  {
    hide *;
    LabelsEnd(labels, rest, name, size);
    if labels != [] {
      var first, tail := labels[0], Pack(labels[1..]);
      PackedFirst(labels, rest);
      LabelTaken(Pack(labels) + rest, name, size, first, tail + rest, |tail|);
      LoadsLabels(labels[1..], rest, name + [DOT] + first, size + 1 + |first|);
      DottedFirst(labels);
      AppendAssociates(name, [DOT], first);
      AppendAssociates(name, [DOT] + first, Dotted(labels[1..]));
    }
  }

  lemma LabelsEnd(labels: seq<Name>, rest: seq<octet>, name: Name, size: nat)
    ensures labels == [] ==> |Pack(labels)| == 0 && name + Dotted(labels) == name
    ensures labels == [] ==> LoadLabels(Pack(labels) + rest, 0, name, size) == Named(name, size)
  {
  }

  lemma DottedFirst(labels: seq<Name>)
    requires labels != []
    ensures Dotted(labels) == [DOT] + labels[0] + Dotted(labels[1..])
  {
  }

  lemma LabelTaken(t: seq<octet>, name: Name, size: nat, first: Name, after: seq<octet>, n: nat)
    requires 1 + |first| + n < 0x100 && t == [|first|] + first + after
    ensures LoadLabels(t, 1 + |first| + n, name, size) == LoadLabels(after, n, name + [DOT] + first, size + 1 + |first|)
  {
    assert t[0] == |first| && t[1..1 + |first|] == first && t[1 + |first|..] == after;
    if first == [] {
      assert name + [DOT] + first == name + [DOT];
    }
  }

  /** An information element around packed labels. */
  function Ie(packed: seq<octet>, present: bool): seq<octet> {
    (if present then [NAME_IEI] else []) + [LowOctet(|packed|)] + packed
  }

  lemma IeParts(packed: seq<octet>, present: bool, rest: seq<octet>)
    ensures var ie, at := Ie(packed, present), if present then 1 else 0;
      && |ie| == at + 1 + |packed| && (present ==> (ie + rest)[0] == NAME_IEI)
      && (ie + rest)[at] == LowOctet(|packed|) && (ie + rest)[at + 1..] == packed + rest
  {
  }

  lemma LoadsFirst(labels: seq<Name>, rest: seq<octet>, size: nat)
    requires labels != [] && |Pack(labels)| <= 255
    ensures LoadFirst(Pack(labels) + rest, |Pack(labels)|, size) == Named(Join(labels), size + |Pack(labels)|)
  {
    hide *;
    PackedFirst(labels, rest);
    JoinedFirst(labels);
    var first, tail := labels[0], Pack(labels[1..]);
    LoadsLabels(labels[1..], rest, first, size + 1 + |first|);
    FirstTaken(Pack(labels) + rest, |Pack(labels)|, size, first, tail + rest, |tail|);
  }

  lemma JoinedFirst(labels: seq<Name>)
    requires labels != []
    ensures Join(labels) == labels[0] + Dotted(labels[1..])
  {
  }

  lemma PackedFirst(labels: seq<Name>, rest: seq<octet>)
    requires labels != [] && |Pack(labels)| <= 255
    ensures Pack(labels) + rest == [|labels[0]|] + labels[0] + (Pack(labels[1..]) + rest)
    ensures |Pack(labels)| == 1 + |labels[0]| + |Pack(labels[1..])|
  {
    hide LowOctet;
    var tail := Pack(labels[1..]);
    LowOctetSmall(|labels[0]|);
    assert Pack(labels) == [|labels[0]|] + labels[0] + tail;
    AppendAssociates([|labels[0]|] + labels[0], tail, rest);
  }

  lemma FirstTaken(t: seq<octet>, left: octet, size: nat, first: Name, after: seq<octet>, n: octet)
    requires |first| < 0x100 && t == [|first|] + first + after && left as int == 1 + |first| + n
    ensures LoadFirst(t, left, size) == LoadLabels(after, n, first, size + 1 + |first|)
  {
    hide LoadLabels, LowOctet;
    LowOctetSmall(n);
    assert t[0] == |first| && t[1..1 + |first|] == first && t[1 + |first|..] == after;
  }

  /** A name of at least two packed octets reads back as its labels joined by dots. */
  lemma LoadsPacked(labels: seq<Name>, rest: seq<octet>, present: bool, more: nat)
    requires labels != [] && 2 <= |Pack(labels)| <= 255
    ensures var ie := Ie(Pack(labels), present);
      LoadName(ie + rest, present, |ie| + more) == Named(Join(labels), |ie|)
  {
    hide LoadFirst, Pack, Join, Ie, LowOctet;
    LowOctetSmall(|Pack(labels)|);
    IeParts(Pack(labels), present, rest);
    LoadsFirst(labels, rest, if present then 2 else 1);
  }

  /**
   * Round trip, for every name the scratch array can hold and whatever the message goes on with:
   * the characters before the first NUL come back. Without any, no name comes back, and the lone
   * length octet is left unread.
   */
  lemma NameRoundTrip(name: Name, rest: seq<octet>, present: bool, more: nat)
    requires |Cut(name)| < MAX_LENGTH
    ensures var ie := Ie(NameOctets(name), present);
      LoadName(ie + rest, present, |ie| + more) ==
        if Cut(name) == [] then Unnamed(|ie| - 1) else Named(Cut(name), |ie|)
  {
    hide LoadLabels, Ie;
    NameOctetsSize(name);
    if Cut(name) == [] {
      IeParts(NameOctets(name), present, rest);
    } else {
      hide LoadName;
      JoinSplit(Cut(name));
      LoadsPacked(Split(Cut(name)), rest, present, more);
    }
  }

  /** So a name is restored exactly when it is not empty and has no NUL. */
  lemma NameRestoredExactly(name: Name, rest: seq<octet>, present: bool, more: nat)
    requires |Cut(name)| < MAX_LENGTH
    ensures var ie := Ie(NameOctets(name), present);
      LoadName(ie + rest, present, |ie| + more) == Named(name, |ie|) <==> name != [] && NUL !in name
  {
    hide LoadName, NameOctets, Ie;
    NameRoundTrip(name, rest, present, more);
    if NUL in name {
      var i :| 0 <= i < |name| && name[i] == NUL;
      assert |Cut(name)| <= i;
    } else {
      assert Cut(name) == name;
    }
  }

  /** The other way: octets that are labels without dots and NULs are what their name packs to. */
  lemma LabelsRoundTrip(labels: seq<Name>, rest: seq<octet>, present: bool, more: nat)
    requires labels != [] && 2 <= |Pack(labels)| <= MAX_LENGTH
    requires forall i :: 0 <= i < |labels| ==> Plain(labels[i])
    ensures var ie := Ie(Pack(labels), present);
      && LoadName(ie + rest, present, |ie| + more) == Named(Join(labels), |ie|)
      && NameOctets(Join(labels)) == Pack(labels)
  {
    hide LoadName;
    LoadsPacked(labels, rest, present, more);
    PlainOctets(labels);
  }

  lemma PlainOctets(labels: seq<Name>)
    requires labels != [] && forall i :: 0 <= i < |labels| ==> Plain(labels[i])
    ensures NameOctets(Join(labels)) == Pack(labels)
  {
    hide Split, Pack, Dotted, Cut;
    SplitJoin(labels);
    DottedNul(labels);
    DottedFirst(labels);
    CutWhole(Join(labels));
  }

  lemma CutWhole(s: Name)
    ensures Cut(s) == s <==> NUL !in s
  {
  }

  lemma {:induction false} DottedNul(labels: seq<Name>)
    ensures NUL in Dotted(labels) <==> exists i :: 0 <= i < |labels| && NUL in labels[i]
  {
    if labels != [] {
      DottedNul(labels[1..]);
      assert labels == [labels[0]] + labels[1..];
    }
  }

  // ---------------------------------------------------------------------------
  // Encoding what was decoded

  /** The labels after the first one, as they stand in the octets. */
  ghost function LaterLabels(t: seq<octet>, left: octet): seq<Name>
    decreases left
  {
    if left < 1 || t == [] || left - 1 < t[0] || |t| < 1 + t[0] as nat then []
    else
      var n := 1 + t[0] as nat;
      [t[1..n]] + LaterLabels(t[n..], (left as int - n) as octet)
  }

  ghost function FirstLabels(t: seq<octet>, left: octet): (labels: seq<Name>)
    requires t != [] && 1 + t[0] as nat <= |t|
    ensures labels != []
  {
    var n := 1 + t[0] as nat;
    [t[1..n]] + LaterLabels(t[n..], LowOctet(left as int - n))
  }

  /** All labels of an element that decodes to a name. */
  ghost function LabelsOf(s: seq<octet>, present: bool, len: nat): (labels: seq<Name>)
    requires LoadName(s, present, len).Named?
    ensures labels != []
  {
    var at := if present then 1 else 0;
    FirstLabels(s[at + 1..], s[at])
  }

  ghost predicate Short(labels: seq<Name>) {
    forall i :: 0 <= i < |labels| ==> |labels[i]| < 0x100
  }

  lemma LaterStep(t: seq<octet>, left: octet)
    requires left >= 1 && t != [] && t[0] <= left - 1 && 1 + t[0] as nat <= |t|
    ensures var n := 1 + t[0] as nat;
      LaterLabels(t, left) == [t[1..n]] + LaterLabels(t[n..], (left as int - n) as octet)
  {
  }

  lemma LaterEnd(t: seq<octet>, left: octet, name: Name, size: nat)
    requires left < 1
    ensures LaterLabels(t, left) == [] && Pack([]) == [] && Dotted([]) == []
    ensures LoadLabels(t, left, name, size) == Named(name, size)
  {
  }

  /** The label in front, seen in the octets. */
  lemma PackedLabel(t: seq<octet>, labels: seq<Name>)
    requires t != [] && 1 + t[0] as nat <= |t|
    ensures var first := t[1..1 + t[0] as nat];
      && Pack([first] + labels) == t[..1 + t[0] as nat] + Pack(labels)
      && Dotted([first] + labels) == [DOT] + first + Dotted(labels)
  {
    hide LowOctet;
    var first := t[1..1 + t[0] as nat];
    LowOctetSmall(|first|);
    assert ([first] + labels)[1..] == labels;
    assert t[..1 + t[0] as nat] == [t[0]] + first;
  }

  lemma {:induction false} LaterLoaded(t: seq<octet>, left: octet, name: Name, size: nat)
    requires LoadLabels(t, left, name, size).Named?
    ensures var labels := LaterLabels(t, left);
      && Short(labels) && |Pack(labels)| == left as int <= |t| && Pack(labels) == t[..left]
      && LoadLabels(t, left, name, size) == Named(name + Dotted(labels), size + left as nat)
    decreases left
  {
    hide LowOctet, LoadLabels, LaterLabels, Pack, Dotted;
    if left < 1 {
      LaterEnd(t, left, name, size);
      assert name + [] == name;
    } else {
      LabelStep(t, left, name, size);
      var n := 1 + t[0] as nat;
      var first, later := t[1..n], (left as int - n) as octet;
      if first == [] {
        assert name + [DOT] + first == name + [DOT];
      }
      LaterStep(t, left);
      LaterLoaded(t[n..], later, name + [DOT] + first, size + n);
      PackedLabel(t, LaterLabels(t[n..], later));
      assert t[..left] == t[..n] + t[n..][..later];
      AppendAssociates(name, [DOT], first);
      AppendAssociates(name, [DOT] + first, Dotted(LaterLabels(t[n..], later)));
    }
  }

  lemma LowOctetTwice(b: octet, n: int)
    ensures LowOctet(n + LowOctet(b as int - n) as int) == b
  {
  }

  lemma FirstLoaded(t: seq<octet>, left: octet, size: nat)
    requires LoadFirst(t, left, size).Named?
    ensures t != [] && 1 + t[0] as nat <= |t|
    ensures var labels := FirstLabels(t, left);
      && Short(labels) && |Pack(labels)| <= |t| && Pack(labels) == t[..|Pack(labels)|]
      && LowOctet(|Pack(labels)|) == left
      && LoadFirst(t, left, size) == Named(Join(labels), size + |Pack(labels)|)
  {
    hide LowOctet, LoadLabels, LaterLabels, Pack, Dotted;
    var n := 1 + t[0] as nat;
    var first, later := t[1..n], LowOctet(left as int - n);
    LaterLoaded(t[n..], later, first, size + n);
    LowOctetTwice(left, n);
    PackedLabel(t, LaterLabels(t[n..], later));
    assert ([first] + LaterLabels(t[n..], later))[1..] == LaterLabels(t[n..], later);
    assert t[..n + later as nat] == t[..n] + t[n..][..later];
  }

  /** A decoded name is its labels joined, and its octets are the labels packed, if with a length octet that wrapped. */
  lemma NameLoaded(s: seq<octet>, present: bool, len: nat)
    requires LoadName(s, present, len).Named?
    ensures var r, labels, at := LoadName(s, present, len), LabelsOf(s, present, len), if present then 1 else 0;
      && Short(labels) && r.name == Join(labels) && r.size == at + 1 + |Pack(labels)| <= |s|
      && s[..r.size] == Ie(Pack(labels), present)
  {
    hide LowOctet, LoadFirst, FirstLabels, Pack, Join, Short;
    var at := if present then 1 else 0;
    FirstLoaded(s[at + 1..], s[at], at + 1);
    var n := |Pack(LabelsOf(s, present, len))|;
    assert s[..at + 1 + n] == s[..at] + [s[at]] + s[at + 1..][..n];
  }

  lemma FirstDot(part: Name, s: Name) returns (j: nat)
    requires DOT in part
    ensures j < |part| && DOT !in part[..j]
    ensures Split(part + s)[0] == part[..j]
  {
    j := 0;
    while part[j] != DOT
      invariant j < |part| && DOT !in part[..j]
      invariant DOT in part[j..]
      decreases |part| - j
    {
      j := j + 1;
    }
    assert part + s == part[..j] + (part[j..] + s);
    SplitPrefixed(part[..j], part[j..] + s);
    assert part[..j] + [] == part[..j];
  }

  lemma PackTells(labels: seq<Name>, others: seq<Name>)
    requires labels != [] && others != [] && Pack(labels) == Pack(others)
    ensures LowOctet(|labels[0]|) == LowOctet(|others[0]|)
    ensures |labels[0]| == |others[0]| ==> Pack(labels[1..]) == Pack(others[1..])
  {
    hide LowOctet;
    assert Pack(labels)[0] == LowOctet(|labels[0]|) && Pack(others)[0] == LowOctet(|others[0]|);
    if |labels[0]| == |others[0]| {
      assert Pack(labels)[1 + |labels[0]|..] == Pack(labels[1..]);
      assert Pack(others)[1 + |others[0]|..] == Pack(others[1..]);
    }
  }

  /** Splitting a joined name finds the same labels only if none of them has a dot. */
  lemma {:induction false} SplitTells(labels: seq<Name>)
    requires labels != [] && Short(labels) && Pack(Split(Join(labels))) == Pack(labels)
    ensures forall i :: 0 <= i < |labels| ==> DOT !in labels[i]
  {
    hide LowOctet, Pack, Split;
    var first, rest := labels[0], labels[1..];
    PackTells(Split(Join(labels)), labels);
    if DOT in first {
      var j := FirstDot(first, Dotted(rest));
      LowOctetSmall(j);
      LowOctetSmall(|first|);
    } else if rest != [] {
      SplitAfter(first, rest);
      assert ([first] + Split(Join(rest)))[1..] == Split(Join(rest));
      SplitTells(rest);
    }
    assert labels == [first] + rest;
  }

  lemma SplitAfter(first: Name, rest: seq<Name>)
    requires DOT !in first && rest != []
    ensures Split(first + Dotted(rest)) == [first] + Split(Join(rest))
  {
    SplitPrefixed(first, Dotted(rest));
    assert Dotted(rest) == [DOT] + Join(rest) by {
      AppendAssociates([DOT], rest[0], Dotted(rest[1..]));
    }
    assert ([DOT] + Join(rest))[1..] == Join(rest);
    assert Split(Dotted(rest)) == [[]] + Split(Join(rest));
    assert first + [] == first;
  }

  /**
   * A decoded name is encoded as the octets it was read from exactly when no label has a dot or
   * a NUL, even where the first label was longer than the element and the count of octets left
   * wrapped around.
   */
  lemma NameReencodedExactly(s: seq<octet>, present: bool, len: nat)
    requires LoadName(s, present, len).Named?
    ensures var r, labels := LoadName(s, present, len), LabelsOf(s, present, len);
      && r.size <= |s|
      && (Ie(NameOctets(r.name), present) == s[..r.size] <==> forall i :: 0 <= i < |labels| ==> Plain(labels[i]))
  {
    hide LoadName, LabelsOf, Ie, Split, Pack, LowOctet, Cut, Dotted, Join;
    var n, labels := LoadName(s, present, len).name, LabelsOf(s, present, len);
    NameLoaded(s, present, len);
    if forall i :: 0 <= i < |labels| ==> Plain(labels[i]) {
      PlainOctets(labels);
    }
    if Ie(NameOctets(n), present) == Ie(Pack(labels), present) {
      IeParts(NameOctets(n), present, []);
      IeParts(Pack(labels), present, []);
      assert NameOctets(n) + [] == NameOctets(n) && Pack(labels) + [] == Pack(labels);
      NameOctetsSize(n);
      PackSize(labels);
      CutWhole(n);
      JoinedFirst(labels);
      DottedFirst(labels);
      DottedNul(labels);
      SplitTells(labels);
    }
  }

  method DecodeName(present: bool, buffer: array<octet>, len: nat) returns (r: Loaded)
    requires LoadName(buffer[..], present, len) != Loaded.Overrun
    ensures r == LoadName(buffer[..], present, len)
  {
    hide LoadFirst, LowOctet;
    var decoded := 0;
    if len < MIN_LENGTH - (if present then 0 else 1) {
      return Failed(TLV_BUFFER_TOO_SHORT);
    }
    if present {
      if buffer[0] != NAME_IEI {
        return Failed(TLV_UNEXPECTED_IEI);
      }
      decoded := 1;
    }
    var left := buffer[decoded];
    decoded := decoded + 1;
    if len - decoded < left as int {
      return Failed(TLV_BUFFER_TOO_SHORT);
    }
    if 1 < left {
      assert buffer[..][decoded..] == buffer[decoded..];
      r := DecodeLabels(buffer, decoded, left);
    } else {
      r := Unnamed(decoded);
    }
  }

  /** The loop over the labels. */
  method DecodeLabels(buffer: array<octet>, at: nat, ielen: octet) returns (r: Loaded)
    requires at <= buffer.Length && LoadFirst(buffer[at..], ielen, at) != Loaded.Overrun
    ensures r == LoadFirst(buffer[at..], ielen, at)
  {
    hide *;
    FirstStep(buffer[at..], ielen, at);
    var n := buffer[at];
    var decoded := at + 1;
    SliceOf(buffer, at, 1 + n as nat);
    var name := buffer[decoded..decoded + n as int];
    decoded := decoded + n as int;
    var left := LowOctet(ielen as int - 1 - n as int);
    while 1 <= left
      invariant 0 <= decoded <= buffer.Length
      invariant LoadLabels(buffer[decoded..], left, name, decoded) == LoadFirst(buffer[at..], ielen, at)
      decreases left
    {
      LabelStep(buffer[decoded..], left, name, decoded);
      n := buffer[decoded];
      SliceOf(buffer, decoded, 1 + if left - 1 < n then 0 else n as nat);
      name := name + [DOT];
      decoded := decoded + 1;
      left := left - 1;
      if n > 0 {
        if left < n {
          return Aborted;
        }
        name := name + buffer[decoded..decoded + n as int];
        decoded := decoded + n as int;
        left := left - n;
      }
    }
    LabelEnd(buffer[decoded..], left, name, decoded);
    r := Named(name, decoded);
  }

  lemma SliceOf(buffer: array<octet>, at: nat, n: nat)
    requires 1 <= n && at + n <= buffer.Length
    ensures buffer[at..][0] == buffer[at] && buffer[at..][1..n] == buffer[at + 1..at + n]
    ensures buffer[at..][n..] == buffer[at + n..]
  {
  }

  lemma FirstStep(t: seq<octet>, left: octet, size: nat)
    requires LoadFirst(t, left, size) != Loaded.Overrun
    ensures t != []
    ensures var n := 1 + t[0] as nat;
      n <= |t| && LoadFirst(t, left, size) == LoadLabels(t[n..], LowOctet(left as int - n), t[1..n], size + n)
  {
    hide LowOctet, LoadLabels;
  }

  lemma LabelStep(t: seq<octet>, left: octet, name: Name, size: nat)
    requires left >= 1 && LoadLabels(t, left, name, size) != Loaded.Overrun
    ensures t != []
    ensures t[0] == 0 ==> LoadLabels(t, left, name, size) == LoadLabels(t[1..], left - 1, name + [DOT], size + 1)
    ensures 0 < t[0] && left - 1 < t[0] ==> LoadLabels(t, left, name, size) == Aborted
    ensures 0 < t[0] <= left - 1 ==>
      var n := 1 + t[0] as nat;
      n <= |t| && LoadLabels(t, left, name, size) ==
        LoadLabels(t[n..], (left as int - n) as octet, name + [DOT] + t[1..n], size + n)
  {
  }

  lemma LabelEnd(t: seq<octet>, left: octet, name: Name, size: nat)
    requires left < 1
    ensures LoadLabels(t, left, name, size) == Named(name, size)
  {
  }
}
