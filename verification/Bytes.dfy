/** Octets, fixed-width unsigned integers and their big-endian encodings. */
module Bytes {
  const UINT8_MAX := 0xff
  const UINT16_MAX := 0xffff
  const UINT32_MAX := 0xffff_ffff

  type byte = b: int | 0 <= b < 0x100
  type u16 = n: int | 0 <= n < 0x1_0000
  type u32 = n: int | 0 <= n < 0x1_0000_0000

  type Bytes = seq<byte>

  function Be16(n: u16): (s: Bytes)
    ensures |s| == 2
  {
    [n / 0x100, n % 0x100]
  }

  function Be32(n: u32): (s: Bytes)
    ensures |s| == 4
  {
    Be16(n / 0x1_0000) + Be16(n % 0x1_0000)
  }

  lemma Be32LaidOut(n: u32)
    ensures Be32(n) == [n / 0x100_0000, n / 0x1_0000 % 0x100, n / 0x100 % 0x100, n % 0x100]
  {
    Digits(n, n / 0x1_0000 / 0x100, n / 0x1_0000 % 0x100, n % 0x1_0000 / 0x100, n % 0x1_0000 % 0x100);
  }

  lemma Digits(n: nat, a: nat, b: nat, c: nat, d: nat)
    requires b < 0x100 && c < 0x100 && d < 0x100 && n == 0x1_0000 * (0x100 * a + b) + (0x100 * c + d)
    ensures n / 0x100_0000 == a && n / 0x1_0000 % 0x100 == b && n / 0x100 % 0x100 == c && n % 0x100 == d
  {
    ByHigh(n, a, 0x1_0000 * b + 0x100 * c + d);
    ByWord(n, 0x100 * a + b, 0x100 * c + d);
    ByOctet(0x100 * a + b, a, b);
    ByOctet(n, 0x1_0000 * a + 0x100 * b + c, d);
    ByOctet(0x1_0000 * a + 0x100 * b + c, 0x100 * a + b, c);
  }

  lemma ByOctet(n: nat, q: nat, r: nat)
    requires r < 0x100 && n == 0x100 * q + r
    ensures n / 0x100 == q && n % 0x100 == r
  {
  }

  lemma ByWord(n: nat, q: nat, r: nat)
    requires r < 0x1_0000 && n == 0x1_0000 * q + r
    ensures n / 0x1_0000 == q
  {
  }

  lemma ByHigh(n: nat, q: nat, r: nat)
    requires r < 0x100_0000 && n == 0x100_0000 * q + r
    ensures n / 0x100_0000 == q
  {
  }

  function ReadBe16(s: Bytes, at: nat): u16
    requires at + 2 <= |s|
  {
    s[at] as int * 0x100 + s[at + 1] as int
  }

  function ReadBe32(s: Bytes, at: nat): u32
    requires at + 4 <= |s|
  {
    ReadBe16(s, at) as int * 0x1_0000 + ReadBe16(s, at + 2) as int
  }

  /** Reading a big-endian field back gives the number that was written, wherever it lies. */
  lemma ReadBe16Inverts(s: Bytes, at: nat, n: u16)
    requires at + 2 <= |s| && s[at..at + 2] == Be16(n)
    ensures ReadBe16(s, at) == n
  {
    assert s[at] == s[at..at + 2][0] && s[at + 1] == s[at..at + 2][1];
  }

  lemma ReadBe32Inverts(s: Bytes, at: nat, n: u32)
    requires at + 4 <= |s| && s[at..at + 4] == Be32(n)
    ensures ReadBe32(s, at) == n
  {
    assert s[at..at + 2] == s[at..at + 4][..2] == Be16(n / 0x1_0000);
    assert s[at + 2..at + 4] == s[at..at + 4][2..] == Be16(n % 0x1_0000);
    ReadBe16Inverts(s, at, n / 0x1_0000);
    ReadBe16Inverts(s, at + 2, n % 0x1_0000);
  }
}
