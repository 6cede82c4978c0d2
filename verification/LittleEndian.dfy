// The integers of on-disk and in-memory records, least significant byte first.
module LittleEndian {
  import opened Common

  function U16(s: seq<Byte>, at: nat): (n: nat)
    requires at + 2 <= |s|
    ensures n < 0x1_0000
  {
    s[at] as int + 0x100 * s[at + 1] as int
  }

  function U32(s: seq<Byte>, at: nat): (n: nat)
    requires at + 4 <= |s|
    ensures n < WORD
  {
    s[at] as int + 0x100 * s[at + 1] as int + 0x1_0000 * s[at + 2] as int + 0x100_0000 * s[at + 3] as int
  }

  // The bytes 78 56 34 12 are the word 0x12345678.
  lemma LeastFirst(s: seq<Byte>)
    ensures s == [0x78, 0x56, 0x34, 0x12] ==> U32(s, 0) == 0x1234_5678 && U16(s, 0) == 0x5678 && Bytes32(0x1234_5678) == s
  {
    assert Bytes32(0x1234_5678) == [0x78, 0x56, 0x34, 0x12];
  }

  function Bytes16(n: nat): (s: seq<Byte>)
    requires n < 0x1_0000
    ensures |s| == 2 && U16(s, 0) == n
  {
    [n % 0x100, n / 0x100]
  }

  function Bytes32(n: nat): (s: seq<Byte>)
    requires n < WORD
    ensures |s| == 4 && U32(s, 0) == n
  {
    Split32(n);
    [n % 0x100, n / 0x100 % 0x100, n / 0x1_0000 % 0x100, n / 0x100_0000]
  }

  lemma Split32(n: nat)
    requires n < WORD
    ensures n / 0x100_0000 < 0x100
    ensures n == n % 0x100 + 0x100 * (n / 0x100 % 0x100) + 0x1_0000 * (n / 0x1_0000 % 0x100) + 0x100_0000 * (n / 0x100_0000)
  {
    var a := n / 0x100;
    var b := a / 0x100;
    assert n / 0x1_0000 == b && n / 0x100_0000 == b / 0x100;
  }
}
