/**
 * Runs: a bearer starts without a template and receives operations, each verified as a fresh
 * message and then applied when accepted.
 */
module TftRuns {
  import opened Octets
  import opened PacketFilters
  import opened TftRules
  import opened TftIndices
  import opened TftStores
  import opened TftChecks
  import opened TftUpdates
  import opened TftAdding
  import opened TftReplacing
  import opened TftDeleting

  /**
   * No template yet, a stored template, a process that ended in a failed assertion, or whatever an
   * undefined shift makes of it.
   */
  datatype Bearer = Idle | Holding(st: Store) | Aborted | Unknown

  ghost predicate Sized(b: Bearer) {
    b.Holding? ==> |b.st.table| == TABLE_SIZE
  }

  /** Four bits count the entries of a message. */
  ghost predicate Countable(m: Message) {
    |m.filters| < 16 && |m.deletions| < 16
  }

  ghost function Original(b: Bearer): Option<Store> {
    if b.Holding? then Some(b.st) else None
  }

  ghost predicate Accepted(b: Bearer, m: Message)
    requires Sized(b)
  {
    !b.Aborted? && !b.Unknown? && VerifyCause(m, Original(b)) == Success
  }

  /** What verification leaves in the bitmap of an accepted message. */
  ghost function MessageBits(m: Message): Bitmap {
    if m.opcode == OPCODE_DELETE then DeletedBits(m.deletions) else IdBits(m.filters)
  }

  /** The slots of a created template: the filters received, and the rest free. */
  ghost function Padded(fs: seq<PacketFilter>): (slots: seq<PacketFilter>)
    ensures |fs| <= MAX_FILTERS ==> |slots| == MAX_FILTERS
  {
    fs + seq(if |fs| <= MAX_FILTERS then MAX_FILTERS - |fs| else 0, i => ZERO_FILTER)
  }

  /** One message, as the program handles it. */
  ghost function Step(b: Bearer, m: Message): (b': Bearer)
    requires Sized(b)
    ensures Sized(b')
  {
    if b.Holding? && VerifyCause(m, Some(b.st)) == Undefined then Unknown
    else if !Accepted(b, m) then b
    else if m.opcode == OPCODE_CREATE then Holding(Rebuilt(Padded(m.filters)))
    else if b.Idle? then b
    else
      match Finalize(b.st, m, MessageBits(m))
      case Done(st) => Holding(st)
      case Refused(st, _) => Holding(st)
      case Aborted => Bearer.Aborted
  }

  /** One message, as section 10.5.6.12 intends: append, replace in place, or filter out. */
  ghost function IntendedStep(b: Bearer, m: Message): (b': Bearer)
    requires Sized(b)
    ensures Sized(b')
  {
    if !Accepted(b, m) then b
    else if m.opcode == OPCODE_CREATE then Holding(Rebuilt(Padded(m.filters)))
    else if m.opcode == OPCODE_ADD then Holding(Rebuilt(Placed(b.st.slots, m.filters)))
    else if m.opcode == OPCODE_REPLACE then Holding(Rebuilt(Replaced(b.st.slots, m.filters)))
    else if m.opcode == OPCODE_DELETE then Holding(Rebuilt(Cleared(b.st.slots, m.deletions)))
    else b
  }

  ghost function Run(ms: seq<Message>): (b: Bearer)
    ensures Sized(b)
  {
    if ms == [] then Idle else Step(Run(ms[..|ms| - 1]), ms[|ms| - 1])
  }

  ghost function IntendedRun(ms: seq<Message>): (b: Bearer)
    ensures Sized(b)
  {
    if ms == [] then Idle else IntendedStep(IntendedRun(ms[..|ms| - 1]), ms[|ms| - 1])
  }

  /** What every bearer should keep. */
  ghost predicate Sound(b: Bearer) {
    b.Idle? || (b.Holding? && WellFormed(b.st) && 1 <= LiveCount(b.st.slots) <= MAX_FILTERS)
  }

  /**
   * Deleted identifiers stay within the shift, and an accepted replace or delete that names filter
   * 0 meets no free slot before it.
   */
  ghost predicate Safe(b: Bearer, m: Message)
    requires Sized(b)
  {
    b.Holding? ==>
      && (m.opcode == OPCODE_DELETE ==> ShiftsDefined(m.deletions))
      && (Accepted(b, m) && m.opcode == OPCODE_REPLACE && HasId(m.filters, 0) ==> GapFree(b.st.slots, []))
      && (Accepted(b, m) && m.opcode == OPCODE_DELETE ==> ZeroReachable(b.st.slots, m.deletions))
  }

  // ---------------------------------------------------------------------------
  // One step

  lemma PaddedGood(fs: seq<PacketFilter>)
    requires AllLive(fs) && Distinct(fs) && |fs| <= MAX_FILTERS
    ensures GoodSlots(Padded(fs)) && LiveCount(Padded(fs)) == |fs|
    ensures LiveSet(Padded(fs)) == LiveSet(fs)
  {
    var rest := seq(MAX_FILTERS - |fs|, i => ZERO_FILTER);
    AllLiveCount(fs);
    AppendedCount(fs, rest);
    NoneLive(rest);
    AppendedLiveSet(fs, rest);
    assert LiveSet(rest) == {};
  }

  lemma {:induction false} NoneLive(fs: seq<PacketFilter>)
    requires forall i :: 0 <= i < |fs| ==> !Live(fs[i])
    ensures LiveCount(fs) == 0
  {
    if fs != [] {
      NoneLive(fs[..|fs| - 1]);
    }
  }

  lemma CreateSound(b: Bearer, m: Message)
    requires Sized(b) && Countable(m) && m.opcode == OPCODE_CREATE && Accepted(b, m)
    ensures b.Idle? && Sound(Holding(Rebuilt(Padded(m.filters))))
    ensures LiveSet(Padded(m.filters)) == LiveSet(m.filters)
  {
    CreateAccepted(m.filters);
    PaddedGood(m.filters);
    WellFormedIsRebuilt(Rebuilt(Padded(m.filters)));
  }

  lemma {:induction false} SomeLive(fs: seq<PacketFilter>, i: nat)
    requires i < |fs| && Live(fs[i])
    ensures LiveCount(fs) >= 1
  {
    if i < |fs| - 1 {
      SomeLive(fs[..|fs| - 1], i);
    }
  }

  lemma DeleteLeavesSome(st: Store, m: Message)
    requires WellFormed(st) && AcceptedDelete(st, m)
    ensures LiveCount(Cleared(st.slots, m.deletions)) >= 1
  {
    DeleteAcceptedExactly(st, m);
    var i :| 0 <= i < |st.slots| && Live(st.slots[i]) && st.slots[i].identifier !in m.deletions;
    SomeLive(Cleared(st.slots, m.deletions), i);
  }

  /** The intended step keeps every sound bearer sound, whatever the message. */
  lemma IntendedStepSound(b: Bearer, m: Message)
    requires Sound(b) && Countable(m)
    ensures Sound(IntendedStep(b, m))
  {
    if Accepted(b, m) {
      if m.opcode == OPCODE_CREATE {
        CreateSound(b, m);
      } else if m.opcode == OPCODE_ADD {
        AddApplies(b.st, m);
      } else if m.opcode == OPCODE_REPLACE {
        ReplaceFacts(b.st, m);
        ReplacedKeepsIds(b.st.slots, m.filters);
        SameLiveCount(b.st.slots, Replaced(b.st.slots, m.filters));
        WellFormedIsRebuilt(Rebuilt(Replaced(b.st.slots, m.filters)));
      } else if m.opcode == OPCODE_DELETE {
        DeleteLeavesSome(b.st, m);
        WellFormedIsRebuilt(b.st);
        ClearedGood(b.st.slots, m.deletions);
        WellFormedIsRebuilt(Rebuilt(Cleared(b.st.slots, m.deletions)));
      }
    }
  }

  /** The program's step is the intended one, and keeps the bearer sound, exactly when it is safe. */
  lemma StepExact(b: Bearer, m: Message)
    requires Sound(b) && Countable(m)
    ensures Step(b, m) == IntendedStep(b, m) <==> Safe(b, m)
    ensures Sound(Step(b, m)) <==> Safe(b, m)
  {
    IntendedStepSound(b, m);
    UndefinedExactly(m, Original(b));
    hide VerifyCause;
    if Accepted(b, m) && b.Holding? {
      if m.opcode == OPCODE_ADD {
        AddApplies(b.st, m);
      } else if m.opcode == OPCODE_REPLACE {
        ReplaceAppliesExactly(b.st, m, MessageBits(m));
      } else if m.opcode == OPCODE_DELETE {
        DeleteAppliesExactly(b.st, m);
      }
    }
  }

  /** From a sound bearer, a message ends the process exactly when it is an accepted replace that collides. */
  lemma StepAbortsExactly(b: Bearer, m: Message)
    requires Sound(b) && Countable(m)
    ensures Step(b, m).Aborted? <==>
      b.Holding? && Accepted(b, m) && m.opcode == OPCODE_REPLACE && Collides(b.st.slots, m.filters)
  {
    hide VerifyCause, Collides;
    if Accepted(b, m) && b.Holding? {
      if m.opcode == OPCODE_ADD {
        AddApplies(b.st, m);
      } else if m.opcode == OPCODE_REPLACE {
        ReplaceAbortsExactly(b.st, m, MessageBits(m));
      } else if m.opcode == OPCODE_DELETE {
        DeleteNeverAborts(b.st, m);
      }
    }
  }

  // ---------------------------------------------------------------------------
  // Whole runs

  /** Every intended run is sound: distinct filters, 1 to 16 of them, and indices that agree. */
  lemma {:induction false} IntendedRunsSound(ms: seq<Message>)
    requires forall i :: 0 <= i < |ms| ==> Countable(ms[i])
    ensures Sound(IntendedRun(ms))
  {
    if ms != [] {
      IntendedRunsSound(ms[..|ms| - 1]);
      IntendedStepSound(IntendedRun(ms[..|ms| - 1]), ms[|ms| - 1]);
    }
  }

  /** Every step of the run was safe when it was taken. */
  ghost predicate SafeRun(ms: seq<Message>) {
    ms != [] ==> SafeRun(ms[..|ms| - 1]) && Safe(Run(ms[..|ms| - 1]), ms[|ms| - 1])
  }

  /** The bearer was sound at the start and after every message of the run. */
  ghost predicate SoundThroughout(ms: seq<Message>) {
    Sound(Run(ms)) && (ms != [] ==> SoundThroughout(ms[..|ms| - 1]))
  }

  /** The program keeps its templates sound throughout a run exactly when every step of the run is safe. */
  lemma {:induction false} RunsSoundExactly(ms: seq<Message>)
    requires forall i :: 0 <= i < |ms| ==> Countable(ms[i])
    ensures SoundThroughout(ms) <==> SafeRun(ms)
    ensures SafeRun(ms) ==> Run(ms) == IntendedRun(ms)
  {
    hide Step, IntendedStep, Safe, Countable, WellFormed;
    if ms != [] {
      var init, m := ms[..|ms| - 1], ms[|ms| - 1];
      RunsSoundExactly(init);
      if SafeRun(init) {
        StepExact(Run(init), m);
      }
    }
  }

  /** After safe messages, a run ends in a failed assertion exactly when the next one collides. */
  lemma RunAbortsExactly(ms: seq<Message>, m: Message)
    requires SafeRun(ms) && Countable(m) && forall i :: 0 <= i < |ms| ==> Countable(ms[i])
    ensures var b := Run(ms);
      Run(ms + [m]).Aborted? <==>
        b.Holding? && Accepted(b, m) && m.opcode == OPCODE_REPLACE && Collides(b.st.slots, m.filters)
  {
    hide Step, Collides, Accepted, WellFormed, Countable;
    RunsSoundExactly(ms);
    RunExtends(ms, m);
    StepAbortsExactly(Run(ms), m);
  }

  /** A message that never names identifier 0, nor deletes one beyond the shift. */
  ghost predicate AvoidsZero(m: Message) {
    0 !in m.deletions && ShiftsDefined(m.deletions) && forall i :: 0 <= i < |m.filters| ==> m.filters[i].identifier != 0
  }

  lemma RunsWithoutZeroSound(ms: seq<Message>)
    requires forall i :: 0 <= i < |ms| ==> Countable(ms[i]) && AvoidsZero(ms[i])
    ensures SoundThroughout(ms) && Run(ms) == IntendedRun(ms)
  {
    AvoidingZeroSafe(ms);
    RunsSoundExactly(ms);
  }

  lemma {:induction false} AvoidingZeroSafe(ms: seq<Message>)
    requires forall i :: 0 <= i < |ms| ==> AvoidsZero(ms[i])
    ensures SafeRun(ms)
  {
    hide Step, GapFree;
    if ms != [] {
      AvoidingZeroSafe(ms[..|ms| - 1]);
    }
  }

  // ---------------------------------------------------------------------------
  // Short runs that go wrong

  /** A filter on the next header field alone: its length counts one component of two octets. */
  function Sample(identifier: bits4, precedence: octet): PacketFilter {
    PacketFilter(1, identifier, precedence, 2, ZERO_CONTENTS.(flags := {2}, nextHeader := 17))
  }

  const CREATE_1_0_2 := Message(OPCODE_CREATE, [Sample(1, 10), Sample(0, 20), Sample(2, 30)], [])
  const DELETE_1 := Message(OPCODE_DELETE, [], [1])
  const REPLACE_0 := Message(OPCODE_REPLACE, [Sample(0, 40)], [])
  const RENEW_0 := Message(OPCODE_REPLACE, [Sample(0, 20)], [])

  const CREATE_1_TO_4 := Message(OPCODE_CREATE, [Sample(1, 10), Sample(2, 20), Sample(3, 30), Sample(4, 40)], [])
  const DELETE_1_2 := Message(OPCODE_DELETE, [], [1, 2])
  const DELETE_3 := Message(OPCODE_DELETE, [], [3])

  lemma RunExtends(ms: seq<Message>, m: Message)
    ensures Run(ms + [m]) == Step(Run(ms), m)
  {
    hide Step;
    assert (ms + [m])[..|ms|] == ms;
  }

  lemma CreateStep(m: Message)
    requires Countable(m) && m.opcode == OPCODE_CREATE && m.filters != [] && AllLive(m.filters) && Distinct(m.filters)
    ensures var b := Holding(Rebuilt(Padded(m.filters))); Run([m]) == b && Sound(b) && SafeRun([m])
    ensures LiveCount(Padded(m.filters)) == |m.filters|
  {
    hide Distinct, AllLive, WellFormed, Padded;
    CreateAccepted(m.filters);
    CreateSound(Idle, m);
    PaddedGood(m.filters);
    RunExtends([], m);
    assert [] + [m] == [m] && [m][..0] == [];
  }

  lemma DeleteIsSafe(st: Store, m: Message, i: nat)
    requires WellFormed(st)
    requires ValidDelete(st, m) && AllDirected(st.slots) && ZeroReachable(st.slots, m.deletions)
    requires i < st.count && Live(st.slots[i]) && st.slots[i].identifier - 1 !in m.deletions
    ensures Safe(Holding(st), m) && IntendedStep(Holding(st), m) == Holding(Rebuilt(Cleared(st.slots, m.deletions)))
  {
    hide VerifyCause, Rebuilt, ZeroReachable, Indexed, Distinct, LiveCount, Cleared;
    DeleteAcceptedWhenDirected(st, m);
    PresentShiftsDefined(st.slots, m.deletions);
  }

  lemma DeleteStep(ms: seq<Message>, st: Store, m: Message, i: nat)
    requires Run(ms) == Holding(st) && Sound(Holding(st)) && SafeRun(ms) && Countable(m)
    requires ValidDelete(st, m) && AllDirected(st.slots) && ZeroReachable(st.slots, m.deletions)
    requires i < st.count && Live(st.slots[i]) && st.slots[i].identifier - 1 !in m.deletions
    ensures var b := Holding(Rebuilt(Cleared(st.slots, m.deletions)));
      Run(ms + [m]) == b && Sound(b) && SafeRun(ms + [m])
  {
    DeleteIsSafe(st, m, i);
    hide Run, Step, IntendedStep, Safe, Sound, WellFormed, Countable;
    hide ValidDelete, AllDirected, ZeroReachable, Rebuilt, Cleared;
    StepExact(Holding(st), m);
    RunExtends(ms, m);
    SafeExtends(ms, m);
  }

  lemma SafeExtends(ms: seq<Message>, m: Message)
    ensures SafeRun(ms + [m]) <==> SafeRun(ms) && Safe(Run(ms), m)
  {
    hide Run, Safe;
    assert (ms + [m])[..|ms|] == ms;
  }

  lemma PaddedAt(fs: seq<PacketFilter>)
    requires |fs| <= MAX_FILTERS
    ensures |Padded(fs)| == MAX_FILTERS
    ensures forall i :: 0 <= i < MAX_FILTERS ==> Padded(fs)[i] == if i < |fs| then fs[i] else ZERO_FILTER
  {
  }

  /** The slots after filter 1 is gone: filter 0 stands behind a free one. */
  ghost predicate Gap(slots: seq<PacketFilter>) {
    && |slots| == MAX_FILTERS && slots[1] == Sample(0, 20) && slots[2] == Sample(2, 30)
    && forall i :: 0 <= i < MAX_FILTERS && i != 1 && i != 2 ==> slots[i] == ZERO_FILTER
  }

  lemma DeletesOne(slots: seq<PacketFilter>)
    requires slots == Padded(CREATE_1_0_2.filters)
    ensures var st := Rebuilt(slots);
      && ValidDelete(st, DELETE_1) && AllDirected(slots) && ZeroReachable(slots, [1])
      && Live(slots[0]) && slots[0].identifier == 1
    ensures Gap(Cleared(slots, [1]))
  {
    hide Padded, TableFor, IdBits, LiveCount;
    var fs := CREATE_1_0_2.filters;
    PaddedAt(fs);
    assert slots[0] == fs[0] && slots[1] == fs[1] && slots[2] == fs[2];
    assert HasId(slots, 1);
    assert slots[2].identifier !in [1];
  }

  lemma GapRun() returns (slots: seq<PacketFilter>)
    ensures Gap(slots) && Run([CREATE_1_0_2, DELETE_1]) == Holding(Rebuilt(slots)) && Sound(Holding(Rebuilt(slots)))
    ensures SafeRun([CREATE_1_0_2, DELETE_1])
  {
    hide Run, SafeRun, WellFormed, Padded, TableFor, IdBits, Gap, ValidDelete, AllDirected, ZeroReachable;
    CreateStep(CREATE_1_0_2);
    var before := Padded(CREATE_1_0_2.filters);
    DeletesOne(before);
    DeleteStep([CREATE_1_0_2], Rebuilt(before), DELETE_1, 0);
    slots := Cleared(before, [1]);
    assert [CREATE_1_0_2] + [DELETE_1] == [CREATE_1_0_2, DELETE_1];
  }

  lemma GapAccepts(slots: seq<PacketFilter>, m: Message)
    requires Gap(slots) && WellFormed(Rebuilt(slots)) && (m == REPLACE_0 || m == RENEW_0)
    ensures Accepted(Holding(Rebuilt(slots)), m)
    ensures HasId(m.filters, 0) && HasId(slots, 0) && !GapFree(slots, []) && slots[WithId(slots, 0)] == Sample(0, 20)
  {
    hide TableFor, IdBits, LiveCount, WellFormed;
    var fs := m.filters;
    assert slots[1].identifier == 0 && !Live(slots[0]);
    assert HasId(slots, 0) && fs[..0] == [] && fs[0].identifier == 0;
    assert WithId(slots, 0) == 1;
    assert ReplaceCause(slots, fs, 0) == Success by {
      assert forall j :: 0 <= j < |slots| && Live(slots[j]) && slots[j].precedence == fs[0].precedence ==>
        slots[j].identifier == 0;
    }
    CauseOnFilters(m, Rebuilt(slots));
  }

  /** Three accepted operations: the slot that the delete frees hides filter 0 from the replace. */
  lemma UnsafeRunBreaks()
    ensures Sound(IntendedRun([CREATE_1_0_2, DELETE_1, REPLACE_0]))
    ensures !Sound(Run([CREATE_1_0_2, DELETE_1, REPLACE_0])) && !Run([CREATE_1_0_2, DELETE_1, REPLACE_0]).Aborted?
  {
    hide Run, IntendedRun, Step, SafeRun, WellFormed, GapFree, TableFor, IdBits, LiveCount, VerifyCause;
    IntendedRunsSound([CREATE_1_0_2, DELETE_1, REPLACE_0]);
    var slots := GapRun();
    GapAccepts(slots, REPLACE_0);
    StepExact(Holding(Rebuilt(slots)), REPLACE_0);
    StepAbortsExactly(Holding(Rebuilt(slots)), REPLACE_0);
    RunExtends([CREATE_1_0_2, DELETE_1], REPLACE_0);
    assert [CREATE_1_0_2, DELETE_1] + [REPLACE_0] == [CREATE_1_0_2, DELETE_1, REPLACE_0];
  }

  /** The same run with filter 0 keeping its precedence ends the process. */
  lemma UnsafeRunAborts()
    ensures Run([CREATE_1_0_2, DELETE_1, RENEW_0]).Aborted?
  {
    hide Run, Step, SafeRun, WellFormed, GapFree, TableFor, IdBits, LiveCount, VerifyCause;
    var slots := GapRun();
    GapAccepts(slots, RENEW_0);
    assert RENEW_0.filters[0].precedence == 20;
    StepAbortsExactly(Holding(Rebuilt(slots)), RENEW_0);
    RunExtends([CREATE_1_0_2, DELETE_1], RENEW_0);
    assert [CREATE_1_0_2, DELETE_1] + [RENEW_0] == [CREATE_1_0_2, DELETE_1, RENEW_0];
  }

  /** Two filters, behind as many free slots. */
  ghost predicate PairBehind(slots: seq<PacketFilter>) {
    && |slots| == MAX_FILTERS && slots[2] == Sample(3, 30) && slots[3] == Sample(4, 40)
    && forall i :: 0 <= i < MAX_FILTERS && i != 2 && i != 3 ==> slots[i] == ZERO_FILTER
  }

  lemma PairCount(slots: seq<PacketFilter>)
    requires PairBehind(slots)
    ensures LiveCount(slots) == 2
  {
    var zeros := seq(MAX_FILTERS, _ => ZERO_FILTER);
    var one := zeros[2 := slots[2]];
    NoneLive(zeros);
    UpdatedCount(zeros, 2, slots[2]);
    UpdatedCount(one, 3, slots[3]);
    assert one[3 := slots[3]] == slots;
  }

  lemma DeletesTwo(slots: seq<PacketFilter>)
    requires slots == Padded(CREATE_1_TO_4.filters)
    ensures var st := Rebuilt(slots);
      && ValidDelete(st, DELETE_1_2) && AllDirected(slots) && ZeroReachable(slots, [1, 2])
      && Live(slots[0]) && slots[0].identifier == 1
    ensures PairBehind(Cleared(slots, [1, 2]))
  {
    hide Padded, TableFor, IdBits, LiveCount;
    var fs := CREATE_1_TO_4.filters;
    PaddedAt(fs);
    assert slots[0] == fs[0] && slots[1] == fs[1] && slots[2] == fs[2] && slots[3] == fs[3];
    assert HasId(slots, 1) && HasId(slots, 2);
    assert slots[2].identifier !in [1, 2];
  }

  /** A safe run whose last operation is refused, though it names one filter of the template and leaves another. */
  lemma ValidDeleteRefused() returns (st: Store)
    ensures SafeRun([CREATE_1_TO_4, DELETE_1_2, DELETE_3])
    ensures Run([CREATE_1_TO_4, DELETE_1_2]) == Holding(st) && WellFormed(st)
    ensures AllDirected(st.slots) && ValidDelete(st, DELETE_3)
    ensures VerifyCause(DELETE_3, Some(st)) == SemanticErrorInTft
    ensures Run([CREATE_1_TO_4, DELETE_1_2, DELETE_3]) == Holding(st)
  {
    hide Run, SafeRun, WellFormed, Padded, TableFor, IdBits, PairBehind;
    hide ValidDelete, AllDirected, ZeroReachable, VerifyCause;
    CreateStep(CREATE_1_TO_4);
    var before := Padded(CREATE_1_TO_4.filters);
    DeletesTwo(before);
    DeleteStep([CREATE_1_TO_4], Rebuilt(before), DELETE_1_2, 0);
    assert [CREATE_1_TO_4] + [DELETE_1_2] == [CREATE_1_TO_4, DELETE_1_2];
    st := Rebuilt(Cleared(before, [1, 2]));
    RefusesLast(st, [CREATE_1_TO_4, DELETE_1_2]);
    assert [CREATE_1_TO_4, DELETE_1_2] + [DELETE_3] == [CREATE_1_TO_4, DELETE_1_2, DELETE_3];
  }

  lemma RefusesLast(st: Store, ms: seq<Message>)
    requires SafeRun(ms) && Run(ms) == Holding(st) && WellFormed(st) && PairBehind(st.slots)
    ensures AllDirected(st.slots) && ValidDelete(st, DELETE_3) && VerifyCause(DELETE_3, Some(st)) == SemanticErrorInTft
    ensures Run(ms + [DELETE_3]) == Holding(st) && SafeRun(ms + [DELETE_3])
  {
    hide Indexed, Distinct, LiveCount, Finalize, ZeroReachable;
    PairCount(st.slots);
    assert st.slots[2].identifier == 3 && st.slots[3].identifier == 4;
    assert HasId(st.slots, 3);
    CauseOnFilters(DELETE_3, st);
    assert !KeepsDirected(st.slots, 2, [3]);
    RunExtends(ms, DELETE_3);
    assert (ms + [DELETE_3])[..|ms|] == ms;
  }

  // ---------------------------------------------------------------------------
  // A run that fills the template

  /** As many filters as a message can carry, with identifiers and precedences 0 to 14. */
  function Fifteen(): (fs: seq<PacketFilter>)
    ensures |fs| == 15 && forall i :: 0 <= i < 15 ==> fs[i] == Sample(i, i)
  {
    seq(15, i requires 0 <= i < 15 => Sample(i, i))
  }

  function CreateFifteen(): Message {
    Message(OPCODE_CREATE, Fifteen(), [])
  }

  function DeleteOnly(id: bits4): Message {
    Message(OPCODE_DELETE, [], [id])
  }

  const ADD_15 := Message(OPCODE_ADD, [Sample(15, 15)], [])

  lemma FifteenDistinct()
    ensures AllLive(Fifteen()) && Distinct(Fifteen())
    ensures Distinct(Padded(Fifteen()) + [Sample(15, 15)])
  {
    hide Padded;
    PaddedAt(Fifteen());
    var all := Padded(Fifteen()) + [Sample(15, 15)];
    assert forall i :: 0 <= i < |all| && Live(all[i]) ==>
      (i < 15 && all[i] == Sample(i, i)) || (i == 16 && all[i] == Sample(15, 15));
  }

  /** Every identifier is in use, so any single filter can be deleted in principle. */
  lemma SixteenValid(st: Store, id: bits4)
    requires LiveSet(st.slots) == LiveSet(Padded(Fifteen()) + [Sample(15, 15)])
    ensures ValidDelete(st, DeleteOnly(id))
  {
    hide Padded, LiveSet;
    PaddedAt(Fifteen());
    var all, other: bits4 := Padded(Fifteen()) + [Sample(15, 15)], if id == 0 then 1 else 0;
    assert HasId(all, id) by {
      assert all[if id == 15 then 16 else id] == Sample(id, id);
    }
    assert HasId(all, other) by {
      assert all[other] == Sample(other, other);
    }
    SameFiltersHave(st.slots, all, id);
    SameFiltersHave(st.slots, all, other);
  }

  lemma FillsUp() returns (st: Store)
    ensures SafeRun([CreateFifteen(), ADD_15]) && Run([CreateFifteen(), ADD_15]) == Holding(st)
    ensures WellFormed(st) && LiveCount(st.slots) == MAX_FILTERS
    ensures LiveSet(st.slots) == LiveSet(Padded(Fifteen()) + [Sample(15, 15)])
  {
    hide Run, Step, SafeRun, WellFormed, Padded, Rebuilt, VerifyCause, AddCause, Distinct, AllLive, LiveCount, LiveSet;
    var m := CreateFifteen();
    FifteenDistinct();
    CreateStep(m);
    var slots := Padded(Fifteen());
    var before := Rebuilt(slots);
    RebuiltSlots(slots);
    AcceptsLast(before);
    AddApplies(before, ADD_15);
    StepExact(Holding(before), ADD_15);
    RunExtends([m], ADD_15);
    SafeExtends([m], ADD_15);
    assert [m] + [ADD_15] == [m, ADD_15];
    AppendedLiveSet(slots, ADD_15.filters);
    st := Rebuilt(Placed(slots, ADD_15.filters));
    RebuiltSlots(Placed(slots, ADD_15.filters));
  }

  lemma RebuiltSlots(slots: seq<PacketFilter>)
    ensures Rebuilt(slots).slots == slots
  {
  }

  lemma AcceptsLast(st: Store)
    requires WellFormed(st) && Distinct(st.slots + ADD_15.filters)
    ensures AcceptedAdd(st, ADD_15)
  {
    hide Distinct, VerifyCause, AddCause;
    assert AllLive(ADD_15.filters);
    CauseOnFilters(ADD_15, st);
    AddAccepted(st.slots, st.count, ADD_15.filters);
  }

  /** A safe run to sixteen filters, after which no filter can be deleted, whichever it is. */
  lemma FullRunRefuses() returns (st: Store)
    ensures Run([CreateFifteen(), ADD_15]) == Holding(st) && WellFormed(st) && LiveCount(st.slots) == MAX_FILTERS
    ensures forall id: bits4 :: FullRefuses(st, id)
  {
    hide Run, Step, SafeRun, WellFormed, Padded, LiveCount, LiveSet, FullRefuses;
    st := FillsUp();
    forall id: bits4 ensures FullRefuses(st, id) {
      FullRefusesOne(st, id);
    }
  }

  /** The run goes on safely with a valid delete of filter `id`, which is refused. */
  ghost predicate FullRefuses(st: Store, id: bits4)
    requires |st.table| == TABLE_SIZE
  {
    var m := DeleteOnly(id);
    && ValidDelete(st, m) && VerifyCause(m, Some(st)) == SemanticErrorInTft
    && SafeRun([CreateFifteen(), ADD_15, m]) && Run([CreateFifteen(), ADD_15, m]) == Holding(st)
  }

  lemma FullRefusesOne(st: Store, id: bits4)
    requires SafeRun([CreateFifteen(), ADD_15]) && Run([CreateFifteen(), ADD_15]) == Holding(st)
    requires WellFormed(st) && LiveCount(st.slots) == MAX_FILTERS
    requires LiveSet(st.slots) == LiveSet(Padded(Fifteen()) + [Sample(15, 15)])
    ensures FullRefuses(st, id)
  {
    hide Run, SafeRun, Padded, LiveCount, LiveSet, Distinct, Indexed, VerifyCause, ValidDelete, Finalize, ZeroReachable;
    var ms, m := [CreateFifteen(), ADD_15], DeleteOnly(id);
    SixteenValid(st, id);
    FullTftKeepsAll(st, m);
    RunExtends(ms, m);
    SafeExtends(ms, m);
    assert ms + [m] == [CreateFifteen(), ADD_15, m];
  }
}
