/** Results of the type-length-value coders, and the writing of octets into a buffer. */
module Tlv {
  import opened Octets

  const TLV_BUFFER_TOO_SHORT := -12
  const TLV_VALUE_DOESNT_MATCH := -4
  const TLV_UNEXPECTED_IEI := -2

  /**
   * What a decoder makes of the octets in memory: a value and the number of octets consumed, a
   * negative error code, or a read past the octets that exist, which the decoders do not guard.
   */
  datatype Decoded<+T> = Ok(value: T, size: nat) | Error(code: int) | Overrun

  /** A number kept in 32 unsigned bits. */
  function Word(n: int): u32 {
    n % 0x1_0000_0000
  }

  /** The same bits read as a signed number. */
  function Signed(w: u32): int {
    if w < 0x8000_0000 then w else w - 0x1_0000_0000
  }

  /** The room left is an unsigned number: past the end it is seen as very large. */
  function Room(len: u32, at: nat): u32 {
    Word(len - at)
  }

  /**
   * Between two states of a buffer, `octets` was written at `base`, and possibly the `slack`
   * octets that follow; nothing else changed.
   */
  ghost predicate Wrote(before: seq<octet>, after: seq<octet>, base: nat, octets: seq<octet>, slack: nat) {
    && |before| == |after|
    && base + |octets| + slack <= |after|
    && after[..base] == before[..base]
    && after[base..base + |octets|] == octets
    && after[base + |octets| + slack..] == before[base + |octets| + slack..]
  }

  /** Octet by octet. */
  lemma WroteExactly(before: seq<octet>, after: seq<octet>, base: nat, octets: seq<octet>, slack: nat)
    requires base + |octets| + slack <= |before| == |after|
    ensures Wrote(before, after, base, octets, slack) <==>
      forall i :: 0 <= i < |after| ==>
        if base <= i < base + |octets| then after[i] == octets[i - base]
        else base + |octets| <= i < base + |octets| + slack || after[i] == before[i]
  {
    var end := base + |octets|;
    if Wrote(before, after, base, octets, slack) {
      forall i | 0 <= i < |after|
        ensures if base <= i < end then after[i] == octets[i - base]
          else end <= i < end + slack || after[i] == before[i]
      {
        if i < base {
          assert after[i] == after[..base][i] == before[..base][i];
        } else if i < end {
          assert after[i] == after[base..end][i - base];
        } else if i >= end + slack {
          assert after[i] == after[end + slack..][i - (end + slack)] == before[end + slack..][i - (end + slack)];
        }
      }
    }
  }

  lemma WroteMore(a: seq<octet>, b: seq<octet>, c: seq<octet>, base: nat, x: seq<octet>, y: seq<octet>, s: nat, t: nat)
    requires Wrote(a, b, base, x, s) && Wrote(b, c, base + |x|, y, t) && |y| + t >= s
    ensures Wrote(a, c, base, x + y, t)
  {
    assert c[..base] == c[..base + |x|][..base] == a[..base];
    assert c[base..base + |x|] == c[..base + |x|][base..] == b[..base + |x|][base..] == x;
    var n := base + |x| + |y| + t;
    assert c[n..] == b[n..] == b[base + |x| + s..][n - (base + |x| + s)..] == a[n..];
  }

  lemma WroteNothing(a: seq<octet>, base: nat)
    requires base <= |a|
    ensures Wrote(a, a, base, [], 0)
  {
  }

  /** A length octet written back in front of what it measures. */
  lemma LengthBefore(a: seq<octet>, b: seq<octet>, base: nat, v: octet, x: seq<octet>, s: nat)
    requires Wrote(a, b, base + 1, x, s)
    ensures Wrote(a, b[base := v], base, [v] + x, s)
  {
    var c := b[base := v];
    var end := base + 1 + |x|;
    assert c[..base] == b[..base + 1][..base] == a[..base];
    assert c[base..end] == [v] + b[base + 1..end];
    assert c[end + s..] == b[end + s..];
  }

  /** encode_bstring, once it found the room. */
  method PutOctets(buffer: array<octet>, at: nat, octets: seq<octet>)
    requires at + |octets| <= buffer.Length
    modifies buffer
    ensures Wrote(old(buffer[..]), buffer[..], at, octets, 0)
  {
    for i := 0 to |octets|
      invariant buffer[..at] == old(buffer[..at])
      invariant buffer[at..at + i] == octets[..i]
      invariant buffer[at + |octets|..] == old(buffer[at + |octets|..])
    {
      buffer[at + i] := octets[i];
    }
  }

  method PutU8(buffer: array<octet>, at: nat, v: octet)
    requires at < buffer.Length
    modifies buffer
    ensures Wrote(old(buffer[..]), buffer[..], at, [v], 0)
  {
    buffer[at] := v;
  }

  /** The optional identifier in front of an information element. */
  method PutIei(buffer: array<octet>, iei: octet, present: bool) returns (at: nat)
    requires buffer.Length >= 1
    modifies buffer
    ensures at == if present then 1 else 0
    ensures Wrote(old(buffer[..]), buffer[..], 0, if present then [iei] else [], 0)
  {
    at := 0;
    if present {
      PutU8(buffer, 0, iei);
      at := 1;
    }
  }

  /** An information element: its optional identifier, then its length written after its contents. */
  lemma IeWrote(a: seq<octet>, b: seq<octet>, c: seq<octet>, iei: seq<octet>, v: octet, x: seq<octet>)
    requires Wrote(a, b, 0, iei, 0) && Wrote(b, c, |iei| + 1, x, 0)
    ensures Wrote(a, c[|iei| := v], 0, iei + [v] + x, 0)
  {
    hide Wrote;
    assert |iei| < |c| by {
      WroteBounds(b, c, |iei| + 1, x, 0);
    }
    LengthBefore(b, c, |iei|, v, x, 0);
    WroteMore(a, b, c[|iei| := v], 0, iei, [v] + x, 0, 0);
    AppendAssociates(iei, [v], x);
  }

  lemma WroteBounds(a: seq<octet>, b: seq<octet>, base: nat, x: seq<octet>, s: nat)
    requires Wrote(a, b, base, x, s)
    ensures |a| == |b| && base + |x| + s <= |b|
  {
  }

  method PutU16(buffer: array<octet>, at: nat, v: u16)
    requires at + 2 <= buffer.Length
    modifies buffer
    ensures Wrote(old(buffer[..]), buffer[..], at, Octets2(v), 0)
  {
    buffer[at], buffer[at + 1] := v / 0x100, v % 0x100;
  }

  method PutU32(buffer: array<octet>, at: nat, v: u32)
    requires at + 4 <= buffer.Length
    modifies buffer
    ensures Wrote(old(buffer[..]), buffer[..], at, Octets4(v), 0)
  {
    buffer[at], buffer[at + 1] := v / 0x100_0000, v / 0x1_0000 % 0x100;
    buffer[at + 2], buffer[at + 3] := v / 0x100 % 0x100, v % 0x100;
  }

  /** ENCODE_U24 stores four octets and counts three, so the three counted ones hold v / 256. */
  method PutU24(buffer: array<octet>, at: nat, v: u32)
    requires at + 4 <= buffer.Length
    modifies buffer
    ensures Wrote(old(buffer[..]), buffer[..], at, Octets4(v)[..3], 1)
  {
    PutU32(buffer, at, v);
    assert buffer[at..at + 3] == buffer[at..at + 4][..3];
  }
}
