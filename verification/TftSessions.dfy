/**
 * From octets to runs: a received template is decoded into a cleared record, verified, and kept or
 * applied.
 */
module TftSessions {
  import opened Octets
  import opened PacketFilters
  import opened TftRules
  import opened TftIndices
  import opened TftStores
  import opened TftChecks
  import opened TftRuns
  import opened TrafficFlowTemplates
  import opened Tlv
  import opened FilterCodec
  import opened TftCodec
  import opened TftCoder

  const MAXIMUM_LENGTH := 257

  /** The fields of a record from calloc. */
  function ClearedFields(): (d: Fields)
    ensures |d.filters| == |d.deletions| == MAX_FILTERS
    ensures forall i :: 0 <= i < MAX_FILTERS ==> d.filters[i] == ZERO_FILTER && d.deletions[i] == 0
  {
    Fields(0, 0, 0, seq(MAX_FILTERS, _ => ZERO_FILTER), seq(MAX_FILTERS, _ => 0))
  }

  function MessageOf(d: Fields): Message
    requires |d.filters| == |d.deletions| == MAX_FILTERS
  {
    MessageWith(d.opcode, d.filters[..d.count], d.deletions[..d.count])
  }

  /** The message that octets leave in a cleared record, also where the decoder reports an error. */
  function MessageFrom(s: seq<octet>, len: int): Message {
    MessageOf(FieldsLeft(s, len, ClearedFields()))
  }

  /** The eight bits kept of the decoder's answer are not zero. */
  ghost predicate TakenIn(r: Decoded<Fields>) {
    match r
    case Ok(_, size) => LowOctet(size) != 0
    case Error(code) => LowOctet(code) != 0
    case Overrun => false
  }

  /** So a decoding error is never noticed, and a template is turned down exactly when its size is a multiple of 256. */
  lemma TakenInExactly(s: seq<octet>, len: int, prior: Fields)
    requires Full(prior) && LoadTft(s, len, prior) != Overrun
    ensures TakenIn(LoadTft(s, len, prior)) <==>
      (LoadTft(s, len, prior).Ok? ==> LoadTft(s, len, prior).size % 256 != 0)
  {
    hide LoadTft;
  }

  /** Taking a template in from octets. */
  method GetTft(tft: Tft, buffer: array<octet>, len: u16) returns (ok: bool)
    requires tft.Valid() && buffer != tft.deletions && LoadTft(buffer[..], len, FieldsOf(tft)) != Overrun
    modifies tft`opcode, tft`ebit, tft`count, tft.filters, tft.deletions
    ensures FieldsOf(tft) == FieldsLeft(buffer[..], len, old(FieldsOf(tft)))
    ensures ok == TakenIn(LoadTft(buffer[..], len, old(FieldsOf(tft))))
  {
    hide LoadTft, FieldsLeft, LowOctet;
    assert buffer[0..] == buffer[..];
    var n := DecodeTft(tft, buffer, 0, len);
    var offset := LowOctet(n);
    ok := 0 < offset && offset <= MAXIMUM_LENGTH;
  }

  /** Places after the last filter of a message stay as they were cleared. */
  lemma UnusedStayFree(s: seq<octet>, len: int, d: Fields)
    requires d == FieldsLeft(s, len, ClearedFields())
    ensures forall i :: d.count as int <= i < MAX_FILTERS ==> d.filters[i] == ZERO_FILTER
  {
    hide FiltersLeft;
  }

  method NewRecord() returns (tft: Tft)
    ensures tft.Valid() && tft.Fresh() && FieldsOf(tft) == ClearedFields()
    ensures fresh(tft) && fresh(tft.filters) && fresh(tft.deletions) && fresh(tft.precedenceSet)
  {
    tft := new Tft();
  }

  /** An operation that arrives as octets for a bearer without a template. A template turned down ends the process. */
  method ReceiveOctetsFirst(buffer: array<octet>, len: u16)
    returns (kept: Tft?, cause: EsmCause, aborted: bool)
    requires LoadTft(buffer[..], len, ClearedFields()) != Overrun
    ensures aborted <==> !TakenIn(LoadTft(buffer[..], len, ClearedFields()))
    ensures kept != null ==>
      kept.Valid() && fresh(kept) && fresh(kept.filters) && fresh(kept.deletions) && fresh(kept.precedenceSet)
    ensures !aborted ==> cause == VerifyCause(MessageFrom(buffer[..], len), None)
    ensures !aborted ==>
      Step(Idle, MessageFrom(buffer[..], len)) == if kept == null then Idle else Holding(kept.Stored())
  {
    hide LoadTft, FieldsLeft, TakenIn, Step, VerifyCause;
    var tft := NewRecord();
    var ok := GetTft(tft, buffer, len);
    if !ok {
      return null, Success, true;
    }
    ghost var d := FieldsOf(tft);
    UnusedStayFree(buffer[..], len, d);
    assert forall i :: tft.count <= i < MAX_FILTERS ==> tft.filters[i] == d.filters[i] == ZERO_FILTER;
    assert tft.Received() == MessageOf(d);
    kept, cause := ReceiveFirst(tft);
    aborted := false;
  }

  /** An operation that arrives as octets for a bearer with a template. */
  method ReceiveOctetsNext(original: Tft, buffer: array<octet>, len: u16) returns (ending: Ending)
    requires original.Valid() && LoadTft(buffer[..], len, ClearedFields()) != Overrun
    requires buffer != original.precedenceSet
    modifies original, original.filters, original.precedenceSet
    ensures !TakenIn(LoadTft(old(buffer[..]), len, ClearedFields())) ==>
      ending == Ending.Aborted && original.Stored() == old(original.Stored())
    ensures TakenIn(LoadTft(old(buffer[..]), len, ClearedFields())) ==>
      Step(Holding(old(original.Stored())), MessageFrom(old(buffer[..]), len)) ==
        if ending == Ending.Aborted then Bearer.Aborted
        else if ending == Failed(Undefined) then Unknown
        else Holding(original.Stored())
    ensures TakenIn(LoadTft(old(buffer[..]), len, ClearedFields())) ==>
      AnsweredAs(MessageFrom(old(buffer[..]), len), old(original.Stored()), ending, original.Stored())
  {
    hide LoadTft, FieldsLeft, TakenIn, Step, AnsweredAs;
    var tft := NewRecord();
    var ok := GetTft(tft, buffer, len);
    if !ok {
      return Ending.Aborted;
    }
    ending := ReceiveNext(tft, original);
  }

  // ---------------------------------------------------------------------------
  // Sessions: octets received one after the other for one bearer

  ghost predicate Readable(s: seq<octet>) {
    |s| < 0x1_0000 && LoadTft(s, |s|, ClearedFields()) != Overrun
  }

  ghost predicate Ended(b: Bearer) {
    b.Aborted? || b.Unknown?
  }

  ghost function OctetsStep(b: Bearer, s: seq<octet>): (b': Bearer)
    requires TftRuns.Sized(b)
    ensures TftRuns.Sized(b')
  {
    if Ended(b) then b
    else if TakenIn(LoadTft(s, |s|, ClearedFields())) then Step(b, MessageFrom(s, |s|))
    else Bearer.Aborted
  }

  ghost function OctetsRun(received: seq<seq<octet>>): (b: Bearer)
    ensures TftRuns.Sized(b)
  {
    if received == [] then Idle
    else OctetsStep(OctetsRun(received[..|received| - 1]), received[|received| - 1])
  }

  ghost function ContentsOf(buffers: seq<array<octet>>): (received: seq<seq<octet>>)
    reads buffers
    ensures |received| == |buffers|
    ensures forall i :: 0 <= i < |buffers| ==> received[i] == buffers[i][..]
  {
    if buffers == [] then []
    else ContentsOf(buffers[..|buffers| - 1]) + [buffers[|buffers| - 1][..]]
  }

  /** How a session stands: with the template kept, if any, or ended by the process or an undefined shift. */
  datatype Standing = Open(kept: Tft?) | Crashed | Undetermined

  ghost function BearerOf(kept: Tft?): (b: Bearer)
    requires kept != null ==> kept.Valid()
    reads if kept == null then {} else {kept, kept.filters, kept.precedenceSet}
    ensures TftRuns.Sized(b) && !Ended(b)
  {
    if kept == null then Idle else Holding(kept.Stored())
  }

  ghost function Parts(kept: Tft?): set<object> {
    if kept == null then {} else {kept, kept.filters, kept.precedenceSet}
  }

  /** One message. A template kept is the one before, or a new one that no caller holds. */
  method ReceiveOne(kept: Tft?, buffer: array<octet>) returns (standing: Standing)
    requires kept != null ==> kept.Valid() && buffer != kept.precedenceSet
    requires Readable(buffer[..])
    modifies Parts(kept)
    ensures standing.Open? && standing.kept != kept ==> fresh(Parts(standing.kept))
    ensures standing.Open? && standing.kept != null ==> standing.kept.Valid()
    ensures OctetsStep(old(BearerOf(kept)), old(buffer[..])) ==
      match standing
      case Open(now) => BearerOf(now)
      case Crashed => Bearer.Aborted
      case Undetermined => Unknown
  {
    hide LoadTft, TakenIn, MessageFrom, Step, VerifyCause, AnsweredAs;
    if kept == null {
      var now, cause, aborted := ReceiveOctetsFirst(buffer, buffer.Length);
      standing := if aborted then Crashed else Open(now);
    } else {
      var ending := ReceiveOctetsNext(kept, buffer, buffer.Length);
      standing :=
        if ending == Ending.Aborted then Crashed
        else if ending == Failed(Undefined) then Undetermined
        else Open(kept);
    }
  }

  /** The message loop: handle all that arrives for a bearer, up to the end of the process if there is one. */
  method ReceiveAll(buffers: seq<array<octet>>) returns (standing: Standing)
    requires forall i :: 0 <= i < |buffers| ==> Readable(buffers[i][..])
    ensures standing.Open? ==> fresh(Parts(standing.kept)) && (standing.kept != null ==> standing.kept.Valid())
    ensures OctetsRun(ContentsOf(buffers)) ==
      match standing
      case Open(now) => BearerOf(now)
      case Crashed => Bearer.Aborted
      case Undetermined => Unknown
  {
    hide OctetsStep, OctetsRun, Readable, BearerOf;
    ghost var received := ContentsOf(buffers);
    var kept: Tft? := null;
    StartsIdle(received);
    for i := 0 to |buffers|
      invariant fresh(Parts(kept)) && (kept != null ==> kept.Valid())
      invariant OctetsRun(received[..i]) == BearerOf(kept)
    {
      assert received[i] == buffers[i][..];
      OctetsNext(received, i);
      standing := ReceiveOne(kept, buffers[i]);
      if !standing.Open? {
        EndedStays(received, i + 1);
        return;
      }
      kept := standing.kept;
    }
    assert received[..|buffers|] == received;
    standing := Open(kept);
  }

  lemma StartsIdle(received: seq<seq<octet>>)
    ensures OctetsRun(received[..0]) == BearerOf(null)
  {
  }

  lemma OctetsNext(received: seq<seq<octet>>, i: nat)
    requires i < |received|
    ensures OctetsRun(received[..i + 1]) == OctetsStep(OctetsRun(received[..i]), received[i])
  {
    hide OctetsStep;
    assert received[..i + 1][..i] == received[..i];
  }

  /** Nothing is handled after the end. */
  lemma {:induction false} EndedStays(received: seq<seq<octet>>, i: nat)
    requires i <= |received| && Ended(OctetsRun(received[..i]))
    ensures OctetsRun(received) == OctetsRun(received[..i])
    decreases |received| - i
  {
    hide OctetsRun;
    if i == |received| {
      assert received[..i] == received;
    } else {
      OctetsNext(received, i);
      EndedStays(received, i + 1);
    }
  }

  // ---------------------------------------------------------------------------
  // Messages and their octets

  /** The fields of a cleared record into which a message is written. */
  function Record(m: Message): (d: Fields)
    requires |m.filters| < 16 && |m.deletions| < 16
    ensures |d.filters| == |d.deletions| == MAX_FILTERS
  {
    Fields(m.opcode, 0, if m.opcode == OPCODE_DELETE then |m.deletions| else |m.filters|,
      m.filters + ClearedFields().filters[|m.filters|..], m.deletions + ClearedFields().deletions[|m.deletions|..])
  }

  function OctetsOf(m: Message): seq<octet>
    requires |m.filters| < 16 && |m.deletions| < 16
  {
    TftOctets(Record(m))
  }

  /** A message that its octets carry: a list of the kind that its operation has, of filters that come back. */
  ghost predicate Carriable(m: Message) {
    && Countable(m)
    && (if m.opcode == OPCODE_DELETE then m.filters == [] else m.deletions == [] && CarriesFilters(m.opcode))
    && forall i :: 0 <= i < |m.filters| ==> Restorable(m.filters[i], ZERO_FILTER)
  }

  lemma RecordRestorable(m: Message)
    requires Carriable(m)
    ensures AllRestorable(Record(m), ClearedFields()) && MessageOf(Record(m)) == m
  {
    hide Restorable;
    var d := Record(m);
    assert d.filters[..|m.filters|] == m.filters;
    assert d.deletions[..|m.deletions|] == m.deletions;
    if m.opcode == OPCODE_DELETE {
      assert d.deletions[d.count..] == ClearedFields().deletions[d.count..];
    } else {
      assert d.deletions == ClearedFields().deletions;
    }
  }

  /** Such a message is what its octets leave in a cleared record. One must follow a flow label at the end. */
  lemma MessageTravels(m: Message, rest: seq<octet>)
    requires Carriable(m) && (TftSlack(Record(m)) == 1 ==> rest != [])
    ensures MessageFrom(OctetsOf(m) + rest, |OctetsOf(m)|) == m
    ensures LoadTft(OctetsOf(m) + rest, |OctetsOf(m)|, ClearedFields()) == Ok(Record(m), |OctetsOf(m)|)
  {
    hide TftOctets, LoadTft, FieldsLeft, AllRestorable, TftSlack, Record, ClearedFields;
    RecordRestorable(m);
    TftRestoredExactly(Record(m), rest, |OctetsOf(m)|, ClearedFields());
    LoadedIsLeft(OctetsOf(m) + rest, |OctetsOf(m)|, ClearedFields());
  }

  // ---------------------------------------------------------------------------
  // The short runs that go wrong, as octets

  /** The messages that octets received one after the other stand for. */
  function MessagesFrom(received: seq<seq<octet>>): (ms: seq<Message>)
    ensures |ms| == |received|
  {
    seq(|received|, i requires 0 <= i < |received| => MessageFrom(received[i], |received[i]|))
  }

  /** Octets that are all taken in run as the messages that they stand for. */
  lemma {:induction false} OctetsRunMessages(received: seq<seq<octet>>)
    requires forall i :: 0 <= i < |received| ==> TakenIn(LoadTft(received[i], |received[i]|, ClearedFields()))
    ensures OctetsRun(received) == Run(MessagesFrom(received))
  {
    hide LoadTft, TakenIn, MessageFrom, Step;
    if received != [] {
      var last := |received| - 1;
      var init := received[..last];
      OctetsRunMessages(init);
      assert MessagesFrom(received) == MessagesFrom(init) + [MessageFrom(received[last], |received[last]|)];
      RunExtends(MessagesFrom(init), MessageFrom(received[last], |received[last]|));
      if Ended(Run(MessagesFrom(init))) {
        EndedSteps(Run(MessagesFrom(init)), MessageFrom(received[last], |received[last]|));
      }
    }
  }

  lemma EndedSteps(b: Bearer, m: Message)
    requires Ended(b) && TftRuns.Sized(b)
    ensures Step(b, m) == b
  {
  }

  lemma SampleRestorable(identifier: bits4, precedence: octet)
    ensures Restorable(Sample(identifier, precedence), ZERO_FILTER)
  {
    hide TotalSize;
    OneComponent(2, 0);
  }

  lemma {:induction false} OneComponent(k: nat, j: nat)
    requires k < KINDS && j <= KINDS
    ensures TotalSize({k}, j) == if j <= k then 1 + SizeOf(k) else 0
    decreases KINDS - j
  {
    if j < KINDS {
      OneComponent(k, j + 1);
    }
  }

  ghost predicate Sampled(m: Message) {
    && Countable(m)
    && (if m.opcode == OPCODE_DELETE then m.filters == [] else m.deletions == [] && CarriesFilters(m.opcode))
    && forall i :: 0 <= i < |m.filters| ==> m.filters[i] == Sample(m.filters[i].identifier, m.filters[i].precedence)
  }

  lemma SampledTravels(m: Message)
    requires Sampled(m)
    ensures MessageFrom(OctetsOf(m), |OctetsOf(m)|) == m
  {
    hide Restorable, TftOctets, FieldsLeft;
    forall i | 0 <= i < |m.filters| ensures Restorable(m.filters[i], ZERO_FILTER) {
      SampleRestorable(m.filters[i].identifier, m.filters[i].precedence);
    }
    assert TftSlack(Record(m)) == 0 by {
      var n := |m.filters|;
      assert Record(m).filters[..n] == m.filters;
    }
    MessageTravels(m, []);
    assert OctetsOf(m) + [] == OctetsOf(m);
  }

  lemma ThreeTravel(m1: Message, m2: Message, m3: Message)
    requires Sampled(m1) && Sampled(m2) && Sampled(m3)
    ensures MessagesFrom([OctetsOf(m1), OctetsOf(m2), OctetsOf(m3)]) == [m1, m2, m3]
  {
    hide MessageFrom, OctetsOf, Sampled;
    SampledTravels(m1);
    SampledTravels(m2);
    SampledTravels(m3);
  }

  /** Octets of a create, a delete and a replace, all accepted, after which the template is unsound. */
  lemma UnsafeOctetsBreak()
    ensures var ms := MessagesFrom([OctetsOf(CREATE_1_0_2), OctetsOf(DELETE_1), OctetsOf(REPLACE_0)]);
      Sound(IntendedRun(ms)) && !Sound(Run(ms)) && !Run(ms).Aborted?
  {
    hide Run, IntendedRun, MessagesFrom, OctetsOf;
    ThreeTravel(CREATE_1_0_2, DELETE_1, REPLACE_0);
    UnsafeRunBreaks();
  }

  /** Octets that end the process. */
  lemma UnsafeOctetsAbort()
    ensures Run(MessagesFrom([OctetsOf(CREATE_1_0_2), OctetsOf(DELETE_1), OctetsOf(RENEW_0)])).Aborted?
  {
    hide Run, MessagesFrom, OctetsOf;
    ThreeTravel(CREATE_1_0_2, DELETE_1, RENEW_0);
    UnsafeRunAborts();
  }

  /** Octets of a create and two deletes, the last of them valid and refused. */
  lemma ValidOctetsRefused() returns (st: Store)
    ensures var ms := MessagesFrom([OctetsOf(CREATE_1_TO_4), OctetsOf(DELETE_1_2), OctetsOf(DELETE_3)]);
      && SafeRun(ms) && Run(ms) == Run(ms[..2]) == Holding(st) && WellFormed(st)
      && AllDirected(st.slots) && ValidDelete(st, ms[2]) && VerifyCause(ms[2], Some(st)) == SemanticErrorInTft
  {
    hide Run, SafeRun, MessagesFrom, OctetsOf, WellFormed, ValidDelete, VerifyCause;
    ThreeTravel(CREATE_1_TO_4, DELETE_1_2, DELETE_3);
    st := ValidDeleteRefused();
    assert [CREATE_1_TO_4, DELETE_1_2, DELETE_3][..2] == [CREATE_1_TO_4, DELETE_1_2];
  }

  /** Octets that fill a template, and of a valid delete of any one filter, which is refused. */
  lemma FullOctetsRefused(id: bits4) returns (st: Store)
    ensures var ms := MessagesFrom([OctetsOf(CreateFifteen()), OctetsOf(ADD_15), OctetsOf(DeleteOnly(id))]);
      && SafeRun(ms) && Run(ms) == Run(ms[..2]) == Holding(st) && WellFormed(st)
      && LiveCount(st.slots) == MAX_FILTERS
      && ValidDelete(st, ms[2]) && VerifyCause(ms[2], Some(st)) == SemanticErrorInTft
  {
    hide Run, SafeRun, MessagesFrom, OctetsOf, WellFormed, ValidDelete, VerifyCause, LiveCount;
    ThreeTravel(CreateFifteen(), ADD_15, DeleteOnly(id));
    st := FullRunRefuses();
    assert FullRefuses(st, id);
    assert [CreateFifteen(), ADD_15, DeleteOnly(id)][..2] == [CreateFifteen(), ADD_15];
  }
}
