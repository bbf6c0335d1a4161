/** Numbers as bytes, and big-endian words of them. */
module Octets {
  import opened Bytes

  function ByteOf(k: nat): byte
    requires k < 0x100
  {
    if k == 0 then 0 else Next(ByteOf(k - 1))
  }

  function Next(b: byte): byte {
    b + 1
  }

  function Value(b: byte): nat {
    b as int
  }

  lemma NextValue(b: byte)
    requires b != 0xFF
    ensures Value(Next(b)) == Value(b) + 1
  {
  }

  lemma Below(b: byte)
    requires Value(b) < 0xFF
    ensures b != 0xFF
  {
  }

  lemma {:induction false} ByteValue(k: nat)
    requires k < 0x100
    ensures Value(ByteOf(k)) == k
  {
    if k > 0 {
      ByteValue(k - 1);
      Below(ByteOf(k - 1));
      NextValue(ByteOf(k - 1));
    } else {
      ZeroValue();
    }
  }

  lemma ZeroValue()
    ensures Value(0) == 0
  {
  }

  /** The low eight bits. */
  function Octet(n: nat): byte {
    ByteOf(n % 0x100)
  }

  lemma OctetValue(n: nat)
    ensures Value(Octet(n)) == n % 0x100
  {
    ByteValue(n % 0x100);
  }

  lemma Digits(n: nat)
    requires n < 0x10000
    ensures n % 0x100 + 0x100 * (n / 0x100 % 0x100) == n
  {
  }

  function Be16(n: nat): (r: seq<byte>)
    ensures |r| == 2
  {
    [Octet(n / 0x100), Octet(n)]
  }

  /** `struct.pack(">I", n)` */
  function Be32(n: nat): (r: seq<byte>)
    ensures |r| == 4
  {
    Be16(n / 0x10000) + Be16(n % 0x10000)
  }

  function FromBe16(high: byte, low: byte): nat {
    Value(high) * 0x100 + Value(low)
  }

  function BeWord(a: byte, b: byte, c: byte, d: byte): nat {
    FromBe16(a, b) * 0x10000 + FromBe16(c, d)
  }

  function FromBe32(b: seq<byte>): nat
    requires |b| == 4
  {
    BeWord(b[0], b[1], b[2], b[3])
  }

  lemma Be16RoundTrip(n: nat)
    requires n < 0x10000
    ensures FromBe16(Octet(n / 0x100), Octet(n)) == n
  {
    OctetValue(n / 0x100);
    OctetValue(n);
    Digits(n);
  }

  lemma Be32RoundTrip(n: nat)
    requires n < 0x1_0000_0000
    ensures FromBe32(Be32(n)) == n
  {
    Be16RoundTrip(n / 0x10000);
    Be16RoundTrip(n % 0x10000);
    FromHalves(Be16(n / 0x10000), Be16(n % 0x10000));
  }

  lemma FromHalves(h: seq<byte>, l: seq<byte>)
    requires |h| == 2 && |l| == 2
    ensures FromBe32(h + l) == FromBe16(h[0], h[1]) * 0x10000 + FromBe16(l[0], l[1])
  {
  }
}
