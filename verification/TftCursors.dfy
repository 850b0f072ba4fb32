/**
 * Where the cursor of the template encoder goes. The encoder checks its room only before a filter,
 * and only whether any is left: when the length given ends exactly where a filter starts, the filter
 * is refused, the negative answer is added to the unsigned cursor, and later filters are written over
 * what is there.
 */
module TftCursors {
  import opened Octets
  import opened PacketFilters
  import opened Tlv
  import opened FilterCodec
  import opened FilterCoder
  import opened TftRules
  import opened TftCodec

  function CursorAfter(f: PacketFilter, len: u32, cursor: u32): u32 {
    Word(cursor + if cursor == len then TLV_VALUE_DOESNT_MATCH else |FilterOctets(f)|)
  }

  /** Where the cursor stands after all of them. */
  function EndCursor(fs: seq<PacketFilter>, len: u32, cursor: u32): u32 {
    if fs == [] then cursor else EndCursor(fs[1..], len, CursorAfter(fs[0], len, cursor))
  }

  /** All that is written, from the cursor on, lies within the room. */
  ghost predicate Reaches(fs: seq<PacketFilter>, len: u32, cursor: u32, room: int) {
    fs != [] ==>
      && (cursor == len || cursor + |FilterOctets(fs[0])| + Slack(fs[0].contents.flags) <= room)
      && Reaches(fs[1..], len, CursorAfter(fs[0], len, cursor), room)
  }

  /** The octets of one filter are written, unless it is refused. */
  ghost predicate EmitsOne(before: seq<octet>, after: seq<octet>, at: nat, f: PacketFilter, refused: bool) {
    if refused then after == before else Wrote(before, after, at, FilterOctets(f), Slack(f.contents.flags))
  }

  /** The filters are written one after the other into a template that starts at `base`. */
  ghost predicate Emits(
      before: seq<octet>, after: seq<octet>, base: nat, fs: seq<PacketFilter>, len: u32, cursor: u32)
    decreases |fs|
  {
    if fs == [] then after == before
    else
      exists mid :: EmitsOne(before, mid, base + cursor, fs[0], cursor == len)
        && Emits(mid, after, base, fs[1..], len, CursorAfter(fs[0], len, cursor))
  }

  /** No filter, of those laid out from `at` on, starts exactly where the length given ends. */
  ghost predicate StartsClear(fs: seq<PacketFilter>, len: u32, at: nat) {
    forall i :: 0 <= i < |fs| ==> at + |FiltersOctets(fs[..i])| != len
  }

  function LostOne(f: PacketFilter, refused: bool): (n: nat)
    ensures n <= 79
  {
    if refused then |FilterOctets(f)| - TLV_VALUE_DOESNT_MATCH else 0
  }

  /** What the answers of refused filters, and the filters themselves, take from the cursor. */
  function Lost(fs: seq<PacketFilter>, len: u32, cursor: u32): (n: nat)
    ensures n <= 79 * |fs|
  {
    if fs == [] then 0 else LostOne(fs[0], cursor == len) + Lost(fs[1..], len, CursorAfter(fs[0], len, cursor))
  }

  lemma ClearFirst(fs: seq<PacketFilter>, len: u32, at: nat)
    requires fs != []
    ensures StartsClear(fs, len, at) <==> at != len && StartsClear(fs[1..], len, at + |FilterOctets(fs[0])|)
  {
    hide FilterOctets;
    assert fs[..0] == [];
    var n, rest := |FilterOctets(fs[0])|, fs[1..];
    forall i | 0 <= i < |rest| ensures |FiltersOctets(fs[..i + 1])| == n + |FiltersOctets(rest[..i])| {
      assert fs[..i + 1][0] == fs[0] && fs[..i + 1][1..] == rest[..i];
    }
    if StartsClear(fs, len, at) {
      forall i | 0 <= i < |rest| ensures at + n + |FiltersOctets(rest[..i])| != len {
        assert at + |FiltersOctets(fs[..i + 1])| != len;
      }
    }
    if at != len && StartsClear(rest, len, at + n) {
      forall i | 0 <= i < |fs| ensures at + |FiltersOctets(fs[..i])| != len {
        if i > 0 {
          assert at + n + |FiltersOctets(rest[..i - 1])| != len;
        }
      }
    }
  }

  lemma WordOfSum(x: int, y: int)
    ensures Word(Word(x) + y) == Word(x + y)
  {
  }

  lemma SmallWord(x: u32)
    ensures Word(x) == x
  {
  }

  lemma NoOctets()
    ensures FiltersOctets([]) == [] && ListSlack([]) == 0
  {
  }

  lemma FirstSize(fs: seq<PacketFilter>, len: u32, cursor: u32)
    requires fs != []
    ensures |FiltersOctets(fs)| == |FilterOctets(fs[0])| + |FiltersOctets(fs[1..])|
    ensures cursor != len && cursor + |FiltersOctets(fs)| < 0x1_0000_0000 ==>
      CursorAfter(fs[0], len, cursor) == cursor + |FilterOctets(fs[0])|
  {
    hide FilterOctets, Word;
    assert |FiltersOctets(fs)| == |FilterOctets(fs[0])| + |FiltersOctets(fs[1..])|;
    if cursor + |FiltersOctets(fs)| < 0x1_0000_0000 {
      SmallWord(cursor + |FilterOctets(fs[0])|);
    }
  }

  /** The cursor ends after all the filters, less what was lost. */
  lemma {:induction false} EndsShort(fs: seq<PacketFilter>, len: u32, cursor: u32)
    ensures EndCursor(fs, len, cursor) == Word(cursor + |FiltersOctets(fs)| - Lost(fs, len, cursor))
  {
    hide FilterOctets, FiltersOctets, Word;
    if fs == [] {
      NoOctets();
      SmallWord(cursor);
    } else {
      FirstSize(fs, len, cursor);
      var next, lost := CursorAfter(fs[0], len, cursor), Lost(fs[1..], len, CursorAfter(fs[0], len, cursor));
      EndsShort(fs[1..], len, next);
      WordOfSum(cursor + if cursor == len then TLV_VALUE_DOESNT_MATCH else |FilterOctets(fs[0])|,
                |FiltersOctets(fs[1..])| - lost);
    }
  }

  /** Nothing is lost exactly when every filter starts clear of the length given. */
  lemma {:induction false} LostExactly(fs: seq<PacketFilter>, len: u32, cursor: u32)
    requires cursor + |FiltersOctets(fs)| < 0x1_0000_0000
    ensures Lost(fs, len, cursor) == 0 <==> StartsClear(fs, len, cursor)
  {
    hide FilterOctets, FiltersOctets, StartsClear, CursorAfter;
    if fs == [] {
      NoneClear(len, cursor);
    } else {
      ClearFirst(fs, len, cursor);
      FirstSize(fs, len, cursor);
      if cursor != len {
        LostExactly(fs[1..], len, cursor + |FilterOctets(fs[0])|);
      }
    }
  }

  lemma NoneClear(len: u32, at: nat)
    ensures StartsClear([], len, at)
  {
  }

  /**
   * The cursor counts the octets of the template exactly when every filter starts clear of the length
   * given, and otherwise falls short by what was lost.
   */
  lemma AnswerExactly(fs: seq<PacketFilter>, len: u32)
    requires |fs| < 16
    ensures Signed(EndCursor(fs, len, 1)) == 1 + |FiltersOctets(fs)| - Lost(fs, len, 1)
    ensures Signed(EndCursor(fs, len, 1)) == 1 + |FiltersOctets(fs)| <==> StartsClear(fs, len, 1)
  {
    hide StartsClear, EndCursor, Lost, Word, Signed, FiltersOctets;
    FiltersSize(fs);
    EndsShort(fs, len, 1);
    LostExactly(fs, len, 1);
    SignedWord(1 + |FiltersOctets(fs)| - Lost(fs, len, 1));
  }

  lemma SignedWord(x: int)
    requires -0x8000_0000 <= x < 0x8000_0000
    ensures Signed(Word(x)) == x
  {
  }

  lemma WordDiffers(len: u32, d: int)
    requires d != 0 && -0x1_0000_0000 < d < 0x1_0000_0000
    ensures Word(len + d) != len
  {
  }

  /** A filter that starts elsewhere is not refused. */
  lemma LosesNone(fs: seq<PacketFilter>, len: u32, d: int)
    requires fs != [] && d != 0 && -0x1_0000_0000 < d < 0x1_0000_0000
    ensures Lost(fs, len, Word(len + d)) == Lost(fs[1..], len, Word(len + (d + |FilterOctets(fs[0])|)))
  {
    hide FilterOctets, Word;
    WordDiffers(len, d);
    WordOfSum(len + d, |FilterOctets(fs[0])|);
  }

  /** Beyond the length given, no filter is refused. */
  lemma {:induction false} PastLength(fs: seq<PacketFilter>, len: u32, d: nat)
    requires 0 < d && d + 75 * |fs| < 0x1_0000_0000
    ensures Lost(fs, len, Word(len + d)) == 0
  {
    hide FilterOctets, Word;
    if fs != [] {
      LosesNone(fs, len, d);
      PastLength(fs[1..], len, d + |FilterOctets(fs[0])|);
    }
  }

  lemma {:induction false} NeverOne(flags: set<nat>, k: nat)
    requires k <= KINDS
    ensures TotalSize(flags, k) != 1
    decreases KINDS - k
  {
    if k < KINDS {
      NeverOne(flags, k + 1);
    }
  }

  /** Four octets back, no filter ends where the refused one started: none has four octets, or one. */
  lemma AfterRefusal(fs: seq<PacketFilter>, len: u32)
    requires |fs| < 16
    ensures Lost(fs, len, Word(len + TLV_VALUE_DOESNT_MATCH)) == 0
  {
    hide FilterOctets, Word, TotalSize, Lost;
    NoneLost(len, Word(len + TLV_VALUE_DOESNT_MATCH));
    NoneLost(len, Word(len - 1));
    if fs != [] {
      var n := |FilterOctets(fs[0])|;
      NeverOne(fs[0].contents.flags, 0);
      LosesNone(fs, len, TLV_VALUE_DOESNT_MATCH);
      if n > 4 {
        PastLength(fs[1..], len, n - 4);
      } else if |fs| > 1 {
        LosesNone(fs[1..], len, -1);
        PastLength(fs[1..][1..], len, |FilterOctets(fs[1])| - 1);
      }
    }
  }

  lemma NoneLost(len: u32, cursor: u32)
    ensures Lost([], len, cursor) == 0
  {
  }

  /** So at most one filter is refused: the one that starts there. */
  lemma {:induction false} LostOnce(fs: seq<PacketFilter>, len: u32, cursor: u32, i: nat)
    requires i < |fs| < 16 && cursor + |FiltersOctets(fs)| < 0x1_0000_0000
    requires cursor + |FiltersOctets(fs[..i])| == len
    ensures Lost(fs, len, cursor) == |FilterOctets(fs[i])| - TLV_VALUE_DOESNT_MATCH
  {
    hide FilterOctets, FiltersOctets, Word, CursorAfter;
    FirstSize(fs, len, cursor);
    if i == 0 {
      FirstRefused(fs, len);
      AfterRefusal(fs[1..], len);
    } else {
      assert fs[..i][0] == fs[0] && fs[..i][1..] == fs[1..][..i - 1];
      FirstSize(fs[..i], len, cursor);
      LostOnce(fs[1..], len, cursor + |FilterOctets(fs[0])|, i - 1);
    }
  }

  lemma FirstRefused(fs: seq<PacketFilter>, len: u32)
    requires fs != []
    ensures |FiltersOctets(fs[..0])| == 0
    ensures Lost(fs, len, len) ==
      |FilterOctets(fs[0])| - TLV_VALUE_DOESNT_MATCH + Lost(fs[1..], len, Word(len + TLV_VALUE_DOESNT_MATCH))
  {
    hide FilterOctets;
    assert fs[..0] == [];
  }

  /** The room a template needs is enough for an encoder that is given as much. */
  lemma {:induction false} RoomyClear(fs: seq<PacketFilter>, len: u32, at: nat)
    requires at + |FiltersOctets(fs)| <= len
    ensures StartsClear(fs, len, at)
  {
    hide FilterOctets, StartsClear;
    if fs == [] {
      NoneClear(len, at);
    } else {
      ClearFirst(fs, len, at);
      RoomyClear(fs[1..], len, at + |FilterOctets(fs[0])|);
    }
  }

  lemma SlackAfter(fs: seq<PacketFilter>)
    requires fs != []
    ensures Slack(fs[0].contents.flags) <= |FiltersOctets(fs[1..])| + ListSlack(fs)
    ensures ListSlack(fs[1..]) <= ListSlack(fs)
  {
    hide FilterOctets, FiltersOctets;
    FiltersSize(fs[1..]);
  }

  lemma {:induction false} ClearReaches(fs: seq<PacketFilter>, len: u32, cursor: u32, room: int)
    requires StartsClear(fs, len, cursor)
    requires cursor + |FiltersOctets(fs)| + ListSlack(fs) <= room && cursor + |FiltersOctets(fs)| < 0x1_0000_0000
    ensures Reaches(fs, len, cursor, room)
  {
    hide FilterOctets, FiltersOctets, StartsClear, CursorAfter, Slack;
    if fs != [] {
      ClearFirst(fs, len, cursor);
      FirstSize(fs, len, cursor);
      SlackAfter(fs);
      ClearReaches(fs[1..], len, cursor + |FilterOctets(fs[0])|, room);
    }
  }

  /** Filters that start clear are laid out one after the other. */
  lemma {:induction false} ClearWrites(
      before: seq<octet>, after: seq<octet>, base: nat, fs: seq<PacketFilter>, len: u32, cursor: u32)
    requires Emits(before, after, base, fs, len, cursor) && StartsClear(fs, len, cursor)
    requires cursor + |FiltersOctets(fs)| < 0x1_0000_0000 && base + cursor <= |before|
    ensures Wrote(before, after, base + cursor, FiltersOctets(fs), ListSlack(fs))
    decreases |fs|
  {
    hide FilterOctets, FiltersOctets, StartsClear, Wrote, Slack, ListSlack, CursorAfter;
    if fs == [] {
      NoOctets();
      WroteNothing(before, base + cursor);
    } else {
      ClearFirst(fs, len, cursor);
      FirstSize(fs, len, cursor);
      var first, next := FilterOctets(fs[0]), cursor + |FilterOctets(fs[0])|;
      var mid :| EmitsOne(before, mid, base + cursor, fs[0], cursor == len)
        && Emits(mid, after, base, fs[1..], len, next);
      WroteBounds(before, mid, base + cursor, first, Slack(fs[0].contents.flags));
      LaidOut(fs);
      if |fs| > 1 {
        ClearWrites(mid, after, base, fs[1..], len, next);
        WroteMore(before, mid, after, base + cursor, first, FiltersOctets(fs[1..]),
                  Slack(fs[0].contents.flags), ListSlack(fs[1..]));
      }
    }
  }

  lemma LaidOut(fs: seq<PacketFilter>)
    requires fs != []
    ensures FiltersOctets(fs) == FilterOctets(fs[0]) + FiltersOctets(fs[1..])
    ensures |fs| == 1 ==>
      fs[1..] == [] && FiltersOctets(fs) == FilterOctets(fs[0]) && ListSlack(fs) == Slack(fs[0].contents.flags)
    ensures |fs| > 1 ==>
      Slack(fs[0].contents.flags) <= 1 <= |FiltersOctets(fs[1..])| && ListSlack(fs) == ListSlack(fs[1..])
  {
    hide *;
    FirstLaid(fs);
    FiltersSize(fs[1..]);
    NoOctets();
    SlackFirst(fs);
    var first := FilterOctets(fs[0]);
    assert first + [] == first;
  }

  lemma FirstLaid(fs: seq<PacketFilter>)
    requires fs != []
    ensures FiltersOctets(fs) == FilterOctets(fs[0]) + FiltersOctets(fs[1..])
  {
    hide FilterOctets;
  }

  lemma SlackFirst(fs: seq<PacketFilter>)
    requires fs != []
    ensures Slack(fs[0].contents.flags) <= 1
    ensures ListSlack(fs) == if |fs| == 1 then Slack(fs[0].contents.flags) else ListSlack(fs[1..])
  {
  }

  /** Writing some filters and then the others. */
  lemma {:induction false} EmitsSplit(
      before: seq<octet>, after: seq<octet>, base: nat, fs: seq<PacketFilter>, len: u32, cursor: u32, i: nat)
      returns (mid: seq<octet>)
    requires i <= |fs| && Emits(before, after, base, fs, len, cursor)
    ensures Emits(before, mid, base, fs[..i], len, cursor)
    ensures Emits(mid, after, base, fs[i..], len, EndCursor(fs[..i], len, cursor))
    decreases i
  {
    hide EmitsOne, CursorAfter;
    if i == 0 {
      mid := before;
      assert fs[..0] == [] && fs[0..] == fs;
    } else {
      var next := CursorAfter(fs[0], len, cursor);
      var one :| EmitsOne(before, one, base + cursor, fs[0], cursor == len)
        && Emits(one, after, base, fs[1..], len, next);
      mid := EmitsSplit(one, after, base, fs[1..], len, next, i - 1);
      assert fs[..i][0] == fs[0] && fs[..i][1..] == fs[1..][..i - 1] && fs[1..][i - 1..] == fs[i..];
      EmitsMore(before, one, base, fs[..i], len, cursor);
    }
  }

  lemma PrefixClear(fs: seq<PacketFilter>, len: u32, i: nat)
    requires i < |fs| < 16 && 1 + |FiltersOctets(fs[..i])| == len
    ensures StartsClear(fs[..i], len, 1) && EndCursor(fs[..i], len, 1) == len
    ensures Lost(fs[..i], len, 1) == 0
  {
    hide FiltersOctets, EndCursor, Lost;
    var first := fs[..i];
    forall j | 0 <= j < i ensures 1 + |FiltersOctets(first[..j])| != len {
      assert first[..j] == fs[..j];
      PrefixShorter(first, j);
    }
    FiltersSize(first);
    LostExactly(first, len, 1);
    EndsShort(first, len, 1);
    SmallWord(len);
  }

  lemma {:induction false} PrefixShorter(fs: seq<PacketFilter>, j: nat)
    requires j < |fs|
    ensures |FiltersOctets(fs[..j])| < |FiltersOctets(fs)|
  {
    hide FilterOctets, FiltersOctets;
    LaidOut(fs);
    if j == 0 {
      assert fs[..0] == [];
      NoOctets();
    } else {
      LaidOut(fs[..j]);
      assert fs[..j][0] == fs[0] && fs[..j][1..] == fs[1..][..j - 1];
      PrefixShorter(fs[1..], j - 1);
    }
  }

  /**
   * Where filter i starts exactly at the length given, the filters before it are written, and those
   * after it are written over the last four octets of these.
   */
  lemma RefusalOverwrites(
      before: seq<octet>, after: seq<octet>, base: nat, fs: seq<PacketFilter>, len: u32, i: nat)
      returns (mid: seq<octet>)
    requires Emits(before, after, base, fs, len, 1) && i < |fs| < 16 && base + len <= |before|
    requires 1 + |FiltersOctets(fs[..i])| == len && len >= 4
    ensures Wrote(before, mid, base + 1, FiltersOctets(fs[..i]), ListSlack(fs[..i]))
    ensures Wrote(mid, after, base + len - 4, FiltersOctets(fs[i + 1..]), ListSlack(fs[i + 1..]))
  {
    hide FiltersOctets, StartsClear, EndCursor, Lost, Wrote, ListSlack, Emits;
    var first, later := fs[..i], fs[i + 1..];
    mid := EmitsSplit(before, after, base, fs, len, 1, i);
    PrefixClear(fs, len, i);
    ClearWrites(before, mid, base, first, len, 1);
    WroteBounds(before, mid, base + 1, FiltersOctets(first), ListSlack(first));
    assert fs[i..][1..] == later;
    RefusedFirst(mid, after, base, fs[i..], len);
    FiltersSize(first);
    LaterOverwrite(mid, after, base, later, len);
  }

  lemma LaterOverwrite(
      before: seq<octet>, after: seq<octet>, base: nat, fs: seq<PacketFilter>, len: u32)
    requires Emits(before, after, base, fs, len, Word(len - 4)) && |fs| < 16
    requires 4 <= len <= 0x1_0000 && base + len <= |before|
    ensures Wrote(before, after, base + len - 4, FiltersOctets(fs), ListSlack(fs))
  {
    hide FiltersOctets, StartsClear, Lost, Wrote, ListSlack, Emits, Word;
    FiltersSize(fs);
    AfterRefusal(fs, len);
    SmallWord(len - 4);
    LostExactly(fs, len, len - 4);
    ClearWrites(before, after, base, fs, len, len - 4);
  }

  lemma RefusedFirst(before: seq<octet>, after: seq<octet>, base: nat, fs: seq<PacketFilter>, len: u32)
    requires fs != [] && Emits(before, after, base, fs, len, len)
    ensures Emits(before, after, base, fs[1..], len, Word(len - 4))
  {
    hide FilterOctets;
  }

  /** One more filter written. */
  lemma EmitsMore(before: seq<octet>, mid: seq<octet>, base: nat, fs: seq<PacketFilter>, len: u32, cursor: u32)
    requires fs != [] && EmitsOne(before, mid, base + cursor, fs[0], cursor == len)
    ensures forall after :: Emits(mid, after, base, fs[1..], len, CursorAfter(fs[0], len, cursor)) ==>
      Emits(before, after, base, fs, len, cursor)
  {
    hide EmitsOne, CursorAfter;
  }

  // ---------------------------------------------------------------------------
  // Templates

  ghost predicate TftReaches(d: Fields, len: u32, room: int)
    requires Full(d)
  {
    && 1 <= room
    && if CarriesFilters(d.opcode) then Reaches(d.filters[..d.count], len, 1, room) else |TftOctets(d)| <= room
  }

  ghost predicate TftClear(d: Fields, len: u32)
    requires Full(d)
  {
    CarriesFilters(d.opcode) ==> StartsClear(d.filters[..d.count], len, 1)
  }

  /** What the encoder answers. */
  function TftAnswer(d: Fields, len: u32): int
    requires |d.filters| == |d.deletions| == MAX_FILTERS
  {
    if CarriesFilters(d.opcode) then Signed(EndCursor(d.filters[..d.count], len, 1)) else |TftOctets(d)|
  }

  /** What the encoder does to the buffer. */
  ghost predicate TftEmits(before: seq<octet>, after: seq<octet>, base: nat, d: Fields, len: u32)
    requires Full(d) && base < |before|
  {
    if CarriesFilters(d.opcode) then Emits(before[base := TftHeader(d)], after, base, d.filters[..d.count], len, 1)
    else Wrote(before, after, base, TftOctets(d), 0)
  }

  /** The answer is the size of the template exactly when every filter starts clear of the length given. */
  lemma TftAnswerExactly(d: Fields, len: u32)
    requires Full(d)
    ensures TftAnswer(d, len) == |TftOctets(d)| <==> TftClear(d, len)
  {
    hide StartsClear, FiltersOctets, EndCursor, Signed, Lost;
    AnswerExactly(d.filters[..d.count], len);
  }

  /** One filter is refused, the one that starts there, and the answer falls short by it and four more. */
  lemma RefusalCosts(d: Fields, len: u32, i: nat)
    requires Full(d) && CarriesFilters(d.opcode) && i < d.count
    requires 1 + |FiltersOctets(d.filters[..i])| == len
    ensures TftAnswer(d, len) == |TftOctets(d)| - |FilterOctets(d.filters[i])| - 4
  {
    hide FilterOctets, FiltersOctets, EndCursor, Signed, Lost, StartsClear;
    var fs := d.filters[..d.count];
    assert fs[..i] == d.filters[..i];
    FiltersSize(fs);
    AnswerExactly(fs, len);
    LostOnce(fs, len, 1, i);
  }

  /** A length that covers the template is clear, and clear needs no more memory than the template. */
  lemma RoomyTft(d: Fields, len: u32, room: int)
    requires Full(d)
    ensures |TftOctets(d)| <= len ==> TftClear(d, len)
    ensures TftClear(d, len) && |TftOctets(d)| + TftSlack(d) <= room ==> TftReaches(d, len, room)
  {
    hide StartsClear, FiltersOctets, Reaches, ListSlack;
    var fs := d.filters[..d.count];
    if CarriesFilters(d.opcode) {
      if |TftOctets(d)| <= len {
        RoomyClear(fs, len, 1);
      }
      if TftClear(d, len) && |TftOctets(d)| + TftSlack(d) <= room {
        FiltersSize(fs);
        ClearReaches(fs, len, 1, room);
      }
    }
  }

  /** When every filter starts clear, the encoder writes the octets of the template. */
  lemma ClearTftWritten(before: seq<octet>, after: seq<octet>, base: nat, d: Fields, len: u32)
    requires Full(d) && base < |before| && TftEmits(before, after, base, d, len) && TftClear(d, len)
    ensures Wrote(before, after, base, TftOctets(d), TftSlack(d))
  {
    hide StartsClear, FiltersOctets, Emits, ListSlack, Wrote, TftHeader;
    if CarriesFilters(d.opcode) {
      var fs, headed := d.filters[..d.count], before[base := TftHeader(d)];
      FiltersSize(fs);
      ClearWrites(headed, after, base, fs, len, 1);
      HeaderWritten(before, base, d);
      WroteMore(before, headed, after, base, [TftHeader(d)], FiltersOctets(fs), 0, ListSlack(fs));
    }
  }

  lemma HeaderWritten(before: seq<octet>, base: nat, d: Fields)
    requires base < |before|
    ensures Wrote(before, before[base := TftHeader(d)], base, [TftHeader(d)], 0)
  {
  }
}
