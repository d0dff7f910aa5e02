/** Bytes, big-endian integers and the C bit operators on non-negative integers. */
module Bytes {
  type Byte = b: int | 0 <= b < 256

  datatype Option<+T> = None | Some(value: T)

  const B: int := 0x100
  const U16: int := 0x1_0000
  const U24: int := 0x100_0000
  const U32: int := 0x1_0000_0000
  const U64: int := 0x1_0000_0000_0000_0000

  function Min(a: int, b: int): int {
    if a <= b then a else b
  }

  // CBB_add_u16 and CBB_add_u24.
  function U16Bytes(n: nat): (s: seq<Byte>)
    requires n < U16
    ensures |s| == 2
  {
    [n / 0x100, n % 0x100]
  }

  function U24Bytes(n: nat): (s: seq<Byte>)
    requires n < U24
    ensures |s| == 3
  {
    [n / 0x1_0000, n / 0x100 % 0x100, n % 0x100]
  }

  // CBS_get_u16 and CBS_get_u24 on the front of a byte string.
  function GetU16(s: seq<Byte>): (n: nat)
    requires |s| >= 2
    ensures n < U16
  {
    s[0] * B + s[1]
  }

  function GetU24(s: seq<Byte>): (n: nat)
    requires |s| >= 3
    ensures n < U24
  {
    (s[0] * B + s[1]) * B + s[2]
  }

  lemma {:induction false} U24RoundTrip(n: nat)
    requires n < U24
    ensures GetU24(U24Bytes(n)) == n
  {
    assert n / 0x100 / 0x100 == n / 0x1_0000;
    assert n / 0x100 == n / 0x1_0000 * 0x100 + n / 0x100 % 0x100;
  }

  lemma {:induction false} U24Inverse(s: seq<Byte>)
    requires |s| >= 3
    ensures U24Bytes(GetU24(s)) == s[..3]
  {
    var q, n := s[0] * B + s[1], GetU24(s);
    assert n == q * 0x100 + s[2];
    assert n / 0x100 == q && n % 0x100 == s[2];
    assert n / 0x100 / 0x100 == n / 0x1_0000;
    assert q / 0x100 == s[0] && q % 0x100 == s[1];
  }
}
