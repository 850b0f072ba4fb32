/** Fixed-width unsigned integers, and the big-endian octet order used on the wire. */
module Octets {
  type bit = x: int | 0 <= x < 2
  type bits2 = x: int | 0 <= x < 4
  type bits3 = x: int | 0 <= x < 8
  type bits4 = x: int | 0 <= x < 16
  type octet = x: int | 0 <= x < 0x100
  type u16 = x: int | 0 <= x < 0x1_0000
  type u24 = x: int | 0 <= x < 0x100_0000
  type u32 = x: int | 0 <= x < 0x1_0000_0000

  type octets4 = s: seq<octet> | |s| == 4 witness [0, 0, 0, 0]
  type octets16 = s: seq<octet> | |s| == 16 witness [0, 0, 0, 0, 0, 0, 0, 0, 0, 0, 0, 0, 0, 0, 0, 0]

  /** What storing a number into an octet keeps of it. */
  function LowOctet(n: int): octet {
    n % 0x100
  }

  lemma LowOctetSmall(n: octet)
    ensures LowOctet(n) == n
  {
  }

  /** The octets that htons / htonl leave in memory. */
  function Octets2(v: u16): (s: seq<octet>) {
    [v / 0x100, v % 0x100]
  }

  function Octets4(v: u32): (s: seq<octet>) {
    [v / 0x100_0000, v / 0x1_0000 % 0x100, v / 0x100 % 0x100, v % 0x100]
  }

  /** What ntohs / ntohl read back. */
  function Value2(s: seq<octet>): u16
    requires |s| >= 2
  {
    s[0] as int * 0x100 + s[1] as int
  }

  function Value3(s: seq<octet>): u24
    requires |s| >= 3
  {
    s[0] as int * 0x1_0000 + s[1] as int * 0x100 + s[2] as int
  }

  function Value4(s: seq<octet>): u32
    requires |s| >= 4
  {
    s[0] as int * 0x100_0000 + s[1] as int * 0x1_0000 + s[2] as int * 0x100 + s[3] as int
  }

  lemma Places(v: u32)
    ensures v == v / 0x100_0000 * 0x100_0000 + v / 0x1_0000 % 0x100 * 0x1_0000 + v / 0x100 % 0x100 * 0x100 + v % 0x100
    ensures v / 0x100 == v / 0x100_0000 * 0x1_0000 + v / 0x1_0000 % 0x100 * 0x100 + v / 0x100 % 0x100
  {
    var a, b, c := v / 0x100, v / 0x1_0000, v / 0x100_0000;
    assert v == a * 0x100 + v % 0x100;
    assert a == b * 0x100 + a % 0x100;
    assert b == c * 0x100 + b % 0x100;
  }

  /** Reading a word back. */
  lemma Value4Octets(v: u32, p: seq<octet>)
    requires Octets4(v) <= p
    ensures Value4(p) == v
  {
    Places(v);
    assert p[..4] == Octets4(v);
  }

  /** The first three of the four octets of a word hold all but its lowest eight bits. */
  lemma Value3Octets(v: u32)
    ensures Value3(Octets4(v)[..3]) == v / 0x100
  {
    Places(v);
  }

  lemma AppendAssociates<T>(a: seq<T>, b: seq<T>, c: seq<T>)
    ensures (a + b) + c == a + (b + c)
  {
  }
}
