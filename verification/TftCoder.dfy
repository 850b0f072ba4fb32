/** The traffic flow template encoder and decoder, working on a template record and a buffer. */
module TftCoder {
  import opened Octets
  import opened PacketFilters
  import opened TftStores
  import opened TrafficFlowTemplates
  import opened Tlv
  import opened FilterCodec
  import opened FilterCoder
  import opened TftCodec
  import opened TftCursors

  ghost function FieldsOf(tft: Tft): Fields
    requires tft.Valid()
    reads tft, tft.filters, tft.deletions
  {
    Fields(tft.opcode, tft.ebit, tft.count, tft.filters[..], tft.deletions[..])
  }

  // ---------------------------------------------------------------------------
  // Encoding

  /** The filters, from the second octet of a template on; the cursor is an unsigned word. */
  method EncodeFilters(tft: Tft, buffer: array<octet>, base: nat, len: u32) returns (cursor: u32)
    requires tft.Valid() && buffer != tft.deletions
    requires Reaches(tft.filters[..tft.count], len, 1, buffer.Length - base)
    modifies buffer
    ensures cursor == EndCursor(tft.filters[..tft.count], len, 1)
    ensures Emits(old(buffer[..]), buffer[..], base, tft.filters[..tft.count], len, 1)
  {
    hide FilterOctets, Emits, EmitsOne, Reaches, EndCursor, CursorAfter, Slack;
    ghost var fs, before, room := tft.filters[..tft.count], buffer[..], buffer.Length - base;
    cursor := 1;
    assert fs[0..] == fs;
    for i := 0 to tft.count
      invariant EndCursor(fs[i..], len, cursor) == EndCursor(fs, len, 1)
      invariant Reaches(fs[i..], len, cursor, room)
      invariant forall after :: Emits(buffer[..], after, base, fs[i..], len, cursor) ==>
        Emits(before, after, base, fs, len, 1)
    {
      var f := tft.filters[i];
      ghost var now := buffer[..];
      assert fs[i..][0] == f && fs[i..][1..] == fs[i + 1..];
      ReachesFirst(fs[i..], len, cursor, room);
      var next := EncodeOne(f, buffer, base, len, cursor);
      EmitsMore(now, buffer[..], base, fs[i..], len, cursor);
      cursor := next;
    }
    assert fs[tft.count..] == [];
    EmitsNone(buffer[..], base, len, cursor);
  }

  /** One filter at the cursor, which then moves by the answer, even if that is negative. */
  method EncodeOne(f: PacketFilter, buffer: array<octet>, base: nat, len: u32, cursor: u32) returns (next: u32)
    requires cursor == len || base + cursor + |FilterOctets(f)| + Slack(f.contents.flags) <= buffer.Length
    modifies buffer
    ensures next == CursorAfter(f, len, cursor)
    ensures EmitsOne(old(buffer[..]), buffer[..], base + cursor, f, cursor == len)
  {
    hide FilterOctets, Wrote, Slack;
    RoomEmpty(len, cursor);
    var n := EncodePacketFilter(f, buffer, base + cursor, Room(len, cursor));
    next := Word(cursor + n);
  }

  lemma RoomEmpty(len: u32, cursor: u32)
    ensures Room(len, cursor) == 0 <==> cursor == len
  {
  }

  lemma ReachesFirst(fs: seq<PacketFilter>, len: u32, cursor: u32, room: int)
    requires fs != [] && Reaches(fs, len, cursor, room)
    ensures cursor == len || cursor + |FilterOctets(fs[0])| + Slack(fs[0].contents.flags) <= room
    ensures Reaches(fs[1..], len, CursorAfter(fs[0], len, cursor), room)
    ensures EndCursor(fs, len, cursor) == EndCursor(fs[1..], len, CursorAfter(fs[0], len, cursor))
  {
    hide FilterOctets;
  }

  lemma EmitsNone(s: seq<octet>, base: nat, len: u32, cursor: u32)
    ensures Emits(s, s, base, [], len, cursor) && EndCursor([], len, cursor) == cursor
  {
  }

  method EncodeDeletions(tft: Tft, buffer: array<octet>, base: nat) returns (encoded: int)
    requires tft.Valid() && buffer != tft.deletions && base + tft.count <= buffer.Length
    modifies buffer
    ensures encoded == tft.count
    ensures Wrote(old(buffer[..]), buffer[..], base, tft.deletions[..tft.count], 0)
  {
    encoded := 0;
    for i := 0 to tft.count
      invariant encoded == i && Wrote(old(buffer[..]), buffer[..], base, tft.deletions[..i], 0)
    {
      ghost var now := buffer[..];
      PutU8(buffer, base + encoded, tft.deletions[i]);
      WroteMore(old(buffer[..]), now, buffer[..], base, tft.deletions[..i], [tft.deletions[i]], 0, 0);
      assert tft.deletions[..i + 1] == tft.deletions[..i] + [tft.deletions[i]];
      encoded := encoded + 1;
    }
  }

  /**
   * The template, and what becomes of it where the length given ends exactly at the start of a filter.
   * The memory must cover what is written; nothing else is asked of the caller.
   */
  method EncodeTft(tft: Tft, buffer: array<octet>, base: nat, len: u32) returns (encoded: int)
    requires tft.Valid() && buffer != tft.deletions
    requires TftReaches(FieldsOf(tft), len, buffer.Length - base)
    modifies buffer
    ensures encoded == TftAnswer(FieldsOf(tft), len)
    ensures encoded == |TftOctets(FieldsOf(tft))| <==> TftClear(FieldsOf(tft), len)
    ensures TftEmits(old(buffer[..]), buffer[..], base, FieldsOf(tft), len)
    ensures TftClear(FieldsOf(tft), len) ==>
      Wrote(old(buffer[..]), buffer[..], base, TftOctets(FieldsOf(tft)), TftSlack(FieldsOf(tft)))
  {
    hide FiltersOctets, Wrote, Reaches, Emits, EndCursor, TftClear;
    ghost var d, before := FieldsOf(tft), buffer[..];
    assert d.filters[..d.count] == tft.filters[..tft.count];
    assert d.deletions[..d.count] == tft.deletions[..tft.count];
    PutU8(buffer, base, tft.opcode * 32 + tft.ebit * 16 + tft.count);
    ghost var headed := buffer[..];
    if tft.opcode == OPCODE_DELETE {
      var n := EncodeDeletions(tft, buffer, base + 1);
      WroteMore(before, headed, buffer[..], base, [TftHeader(d)], ListOctets(d), 0, 0);
      encoded := 1 + n;
    } else if tft.opcode in {OPCODE_CREATE, OPCODE_ADD, OPCODE_REPLACE} {
      HeaderPut(before, headed, base, d);
      var cursor := EncodeFilters(tft, buffer, base, len);
      encoded := Signed(cursor);
    } else {
      assert TftOctets(d) == [TftHeader(d)];
      encoded := 1;
    }
    TftAnswerExactly(d, len);
    if TftClear(d, len) {
      ClearTftWritten(before, buffer[..], base, d, len);
    }
  }

  lemma HeaderPut(before: seq<octet>, headed: seq<octet>, base: nat, d: Fields)
    requires Wrote(before, headed, base, [TftHeader(d)], 0)
    ensures base < |before| && headed == before[base := TftHeader(d)]
  {
    assert headed[base] == headed[base..base + 1][0];
    forall i | 0 <= i < |before| && i != base ensures headed[i] == before[i] {
      if i < base {
        assert headed[i] == headed[..base][i] == before[..base][i];
      } else {
        assert headed[i] == headed[base + 1..][i - base - 1] == before[base + 1..][i - base - 1];
      }
    }
  }

  /** What encoding the element does to the buffer: the length octet is written back last. */
  ghost predicate IeEmits(before: seq<octet>, after: seq<octet>, base: nat, d: Fields, len: u32)
    requires Full(d) && base + 1 < |before|
  {
    exists full :: |full| == |before| && TftEmits(before, full, base + 1, d, len)
      && after == full[base := LowOctet(TftAnswer(d, len))]
  }

  /** The information element, without its identifier. */
  method EncodeTftIe(tft: Tft, buffer: array<octet>, base: nat, len: u32) returns (encoded: int)
    requires tft.Valid() && buffer != tft.deletions
    requires len >= MINIMUM_LENGTH - 1 ==> TftReaches(FieldsOf(tft), len - 1, buffer.Length - base - 1)
    modifies buffer
    ensures len < MINIMUM_LENGTH - 1 ==> encoded == TLV_BUFFER_TOO_SHORT && buffer[..] == old(buffer[..])
    ensures len >= MINIMUM_LENGTH - 1 ==>
      var d := FieldsOf(tft);
      && encoded == 1 + TftAnswer(d, len - 1)
      && (encoded == |IeOctets(d)| <==> TftClear(d, len - 1))
      && IeEmits(old(buffer[..]), buffer[..], base, d, len - 1)
      && (TftClear(d, len - 1) ==> Wrote(old(buffer[..]), buffer[..], base, IeOctets(d), TftSlack(d)))
  {
    hide TftOctets, TftSlack, TftAnswer, TftEmits, TftClear, Wrote, TftReaches, IeEmits, LowOctet, IeOctets;
    if len < MINIMUM_LENGTH - 1 {
      return TLV_BUFFER_TOO_SHORT;
    }
    ghost var before, d := buffer[..], FieldsOf(tft);
    RoomForHeader(d, len - 1, buffer.Length - base - 1);
    var n := EncodeTft(tft, buffer, base + 1, len - 1);
    ghost var full := buffer[..];
    buffer[base] := LowOctet(n);
    assert buffer[..] == full[base := LowOctet(n)];
    IeEmitted(before, full, base, d, len - 1);
    encoded := 1 + n;
  }

  lemma RoomForHeader(d: Fields, len: u32, room: int)
    requires Full(d) && TftReaches(d, len, room)
    ensures room >= 1
  {
  }

  lemma IeEmitted(before: seq<octet>, full: seq<octet>, base: nat, d: Fields, len: u32)
    requires Full(d) && base + 1 < |before| == |full| && TftEmits(before, full, base + 1, d, len)
    requires TftClear(d, len) ==> Wrote(before, full, base + 1, TftOctets(d), TftSlack(d))
    ensures var after := full[base := LowOctet(TftAnswer(d, len))];
      && IeEmits(before, after, base, d, len)
      && (TftClear(d, len) ==> Wrote(before, after, base, IeOctets(d), TftSlack(d)))
    ensures 1 + TftAnswer(d, len) == |IeOctets(d)| <==> TftClear(d, len)
  {
    hide TftOctets, TftSlack, TftAnswer, TftEmits, TftClear, Wrote;
    TftAnswerExactly(d, len);
    if TftClear(d, len) {
      LengthBefore(before, full, base, LowOctet(TftAnswer(d, len)), TftOctets(d), TftSlack(d));
    }
  }

  // ---------------------------------------------------------------------------
  // Decoding

  method DecodeFilters(tft: Tft, buffer: array<octet>, base: nat, len: nat) returns (decoded: int)
    requires tft.Valid() && buffer != tft.deletions && base + 1 <= buffer.Length
    requires LoadFilters(buffer[base..], len, 1, tft.filters[..], 0, tft.count) != Overrun
    modifies tft.filters
    ensures match LoadFilters(buffer[base..], len, 1, old(tft.filters[..]), 0, tft.count)
      case Ok(fs, size) => decoded == size && tft.filters[..] == fs
      case Error(code) => decoded == code < 0
      case Overrun => false
    ensures tft.filters[..] == FiltersLeft(buffer[base..], len, 1, old(tft.filters[..]), 0, tft.count)
  {
    hide LoadFilter, FilterLeft;
    ghost var s := buffer[base..];
    ghost var outcome := LoadFilters(s, len, 1, tft.filters[..], 0, tft.count);
    ghost var left := FiltersLeft(s, len, 1, tft.filters[..], 0, tft.count);
    decoded := 1;
    var i := 0;
    while i < tft.count
      invariant i <= tft.count && decoded >= 1 && buffer[base..] == s
      invariant LoadFilters(s, len, decoded, tft.filters[..], i, tft.count) == outcome
      invariant FiltersLeft(s, len, decoded, tft.filters[..], i, tft.count) == left
    {
      assert s[decoded..] == buffer[base + decoded..];
      var n, f := DecodePacketFilter(buffer, base + decoded, len - decoded, tft.filters[i]);
      tft.filters[i] := f;
      if n < 0 {
        return n;
      }
      decoded := decoded + n;
      i := i + 1;
    }
  }

  method DecodeDeletions(tft: Tft, buffer: array<octet>, base: nat) returns (decoded: int)
    requires tft.Valid() && buffer != tft.deletions && base + 1 + tft.count <= buffer.Length
    modifies tft.deletions
    ensures decoded == 1 + tft.count
    ensures tft.deletions[..] == buffer[base + 1..base + 1 + tft.count] + old(tft.deletions[tft.count..])
  {
    decoded := 1;
    for i := 0 to tft.count
      invariant decoded == 1 + i
      invariant tft.deletions[..i] == buffer[base + 1..base + 1 + i]
      invariant tft.deletions[i..] == old(tft.deletions[i..])
    {
      tft.deletions[i] := buffer[base + decoded];
      assert tft.deletions[..i + 1] == buffer[base + 1..base + 1 + i] + [buffer[base + 1 + i]];
      decoded := decoded + 1;
    }
    assert tft.deletions[..] == tft.deletions[..tft.count] + tft.deletions[tft.count..];
  }

  lemma SliceAfter(buffer: array<octet>, base: nat, n: nat)
    requires base < buffer.Length
    ensures |buffer[base..]| >= 1 + n ==> buffer[base..][1..1 + n] == buffer[base + 1..base + 1 + n]
  {
  }

  method DecodeTft(tft: Tft, buffer: array<octet>, base: nat, len: nat) returns (decoded: int)
    requires tft.Valid() && buffer != tft.deletions && base <= buffer.Length
    requires LoadTft(buffer[base..], len, FieldsOf(tft)) != Overrun
    modifies tft`opcode, tft`ebit, tft`count, tft.filters, tft.deletions
    ensures match LoadTft(buffer[base..], len, old(FieldsOf(tft)))
      case Ok(d, size) => decoded == size && FieldsOf(tft) == d
      case Error(code) => decoded == code < 0
      case Overrun => false
    ensures FieldsOf(tft) == FieldsLeft(buffer[base..], len, old(FieldsOf(tft)))
  {
    hide LoadFilters, FiltersLeft;
    ghost var s := buffer[base..];
    assert s[0] == buffer[base];
    tft.opcode := buffer[base] / 32;
    tft.ebit := buffer[base] / 16 % 2;
    tft.count := buffer[base] % 16;
    if tft.opcode == OPCODE_DELETE {
      SliceAfter(buffer, base, tft.count);
      decoded := DecodeDeletions(tft, buffer, base);
    } else if tft.opcode in {OPCODE_CREATE, OPCODE_ADD, OPCODE_REPLACE} {
      decoded := DecodeFilters(tft, buffer, base, len);
    } else {
      decoded := 1;
    }
  }

  method DecodeTftIe(tft: Tft, buffer: array<octet>, base: nat, len: nat) returns (decoded: int)
    requires tft.Valid() && buffer != tft.deletions && base <= buffer.Length
    requires LoadIe(buffer[base..], len, FieldsOf(tft)) != Overrun
    modifies tft`opcode, tft`ebit, tft`count, tft.filters, tft.deletions
    ensures match LoadIe(buffer[base..], len, old(FieldsOf(tft)))
      case Ok(d, size) => decoded == size && FieldsOf(tft) == d
      case Error(code) => decoded == code < 0
      case Overrun => false
    ensures FieldsOf(tft) == IeLeft(buffer[base..], len, old(FieldsOf(tft)))
  {
    hide LoadTft, FieldsLeft;
    if len < MINIMUM_LENGTH - 1 {
      return TLV_BUFFER_TOO_SHORT;
    }
    assert buffer[base..][1..] == buffer[base + 1..];
    if len - 1 < buffer[base] as int {
      return TLV_BUFFER_TOO_SHORT;
    }
    var n := DecodeTft(tft, buffer, base + 1, len - 1);
    decoded := if n < 0 then n else 1 + n;
  }
}
