/** Bytes and the little-endian numbers made of them. */
module Bytes {
  type Byte = b: int | 0 <= b < 0x100
  type U16 = n: int | 0 <= n < 0x1_0000
  type U32 = n: int | 0 <= n < 0x1_0000_0000

  function Rd16(s: seq<Byte>): U16
    requires |s| >= 2
  {
    var low: int, high: int := s[0], s[1];
    low + 0x100 * high
  }

  function Rd32(s: seq<Byte>): U32
    requires |s| >= 4
  {
    Rd16(s) + 0x1_0000 * Rd16(s[2..])
  }

  function Le16(n: U16): (s: seq<Byte>)
    ensures |s| == 2
  {
    [n % 0x100, n / 0x100]
  }

  function Le32(n: U32): (s: seq<Byte>)
    ensures |s| == 4
  {
    Le16(n % 0x1_0000) + Le16(n / 0x1_0000)
  }

  lemma Read16(n: U16, rest: seq<Byte>)
    ensures Rd16(Le16(n) + rest) == n
  {
  }

  lemma Written16(s: seq<Byte>)
    requires |s| >= 2
    ensures Le16(Rd16(s)) == s[..2]
  {
  }

  lemma Written32(s: seq<Byte>)
    requires |s| >= 4
    ensures Le32(Rd32(s)) == s[..4]
  {
  }
}
