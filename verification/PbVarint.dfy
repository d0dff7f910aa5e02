/** Base 128 varints, zigzag and little-endian integers of the Protocol Buffers wire format. */
module PbVarint {
  import opened Bits
  import opened Bytes

  // The result of reading from the front of a byte string: the value and how many bytes it took.
  datatype Dec<+T> = Err | Ok(value: T, used: nat)

  // pb_encode_varint.
  function VarintBytes(n: nat): (s: seq<Byte>)
    ensures |s| >= 1
  {
    if n < 0x80 then [n] else [n % 0x80 + 0x80] + VarintBytes(n / 0x80)
  }

  // What one byte does to a varint being read: the bits gathered and the next bit position.
  datatype Group = Bad | More(result: nat, bitpos: nat) | Last(result: nat)

  // One iteration of the loop of pb_decode_varint.
  function ReadGroup(b: Byte, bitpos: nat, result: nat): Group {
    if bitpos >= 64 then Bad
    else
      var result' := BitOr(result, Shl(b % 0x80, bitpos, 64));
      if b >= 0x80 then More(result', bitpos + 7) else Last(result')
  }

  function VarintLoop(s: seq<Byte>, bitpos: nat, result: nat): (r: Dec<nat>)
    ensures r.Ok? ==> 1 <= r.used <= |s|
    decreases |s|
  {
    if s == [] then Err
    else
      match ReadGroup(s[0], bitpos, result)
      case Bad => Err
      case Last(v) => Ok(v, 1)
      case More(result', bitpos') =>
        match VarintLoop(s[1..], bitpos', result')
        case Err => Err
        case Ok(v, used) => Ok(v, used + 1)
  }

  function DecodeVarint(s: seq<Byte>): (r: Dec<nat>)
    ensures r.Ok? ==> 1 <= r.used <= |s|
  {
    VarintLoop(s, 0, 0)
  }

  // One iteration of the loop of pb_decode_varint32_eof. The bit position is an 8-bit counter.
  function ReadGroup32(b: Byte, bitpos: nat, result: nat): Group {
    var low := b % 0x80;
    if bitpos >= 32 && low != 0 && (result / 0x8000_0000 == 0 || b != if bitpos < 63 then 0xff else 0x01) then Bad
    else
      var result' := if bitpos >= 32 then result else BitOr(result, Shl(low, bitpos, 32));
      var bitpos' := (bitpos + 7) % 0x100;
      if b >= 0x80 then More(result', bitpos')
      else if bitpos' == 35 && b / 0x10 != 0 then Bad
      else Last(result')
  }

  function Varint32Loop(s: seq<Byte>, bitpos: nat, result: nat): (r: Dec<nat>)
    ensures r.Ok? ==> 1 <= r.used <= |s|
    decreases |s|
  {
    if s == [] then Err
    else
      match ReadGroup32(s[0], bitpos, result)
      case Bad => Err
      case Last(v) => Ok(v, 1)
      case More(result', bitpos') =>
        match Varint32Loop(s[1..], bitpos', result')
        case Err => Err
        case Ok(v, used) => Ok(v, used + 1)
  }

  // pb_decode_varint32.
  function DecodeVarint32(s: seq<Byte>): (r: Dec<nat>)
    ensures r.Ok? ==> 1 <= r.used <= |s|
  {
    if s == [] then Err
    else if s[0] < 0x80 then Ok(s[0], 1)
    else
      match Varint32Loop(s[1..], 7, s[0] % 0x80)
      case Err => Err
      case Ok(v, used) => Ok(v, used + 1)
  }

  // The first byte of a varint, and what follows it.
  function FirstByte(n: nat): Byte {
    if n < 0x80 then n else n % 0x80 + 0x80
  }

  lemma {:induction false} VarintUnfold(n: nat, rest: seq<Byte>)
    ensures (VarintBytes(n) + rest)[0] == FirstByte(n)
    ensures n >= 0x80 ==> (VarintBytes(n) + rest)[1..] == VarintBytes(n / 0x80) + rest
    ensures |VarintBytes(n)| == if n < 0x80 then 1 else 1 + |VarintBytes(n / 0x80)|
  {
  }

  // A number below 2^(7k) takes at most k bytes.
  lemma {:induction false} VarintLength(n: nat, k: nat)
    requires k >= 1 && n < Pow2(7 * k)
    ensures |VarintBytes(n)| <= k
    decreases k
  {
    if n >= 0x80 {
      Pow2Literals();
      Pow2Add(7, 7 * (k - 1));
      VarintLength(n / 0x80, k - 1);
    }
  }

  lemma {:induction false} VarintAtMostTen(n: nat)
    requires n < U64
    ensures |VarintBytes(n)| <= 10
  {
    Pow2Literals();
    Pow2Mono(64, 70);
    VarintLength(n, 10);
  }

  // Adding seven bits above the bits gathered so far.
  lemma {:induction false} GatherBits(result: nat, low: nat, bitpos: nat, width: nat)
    requires result < Pow2(bitpos) && result + low * Pow2(bitpos) < Pow2(width)
    ensures BitOr(result, Shl(low, bitpos, width)) == result + low * Pow2(bitpos)
  {
    DivMod(low * Pow2(bitpos), Pow2(width), 0, low * Pow2(bitpos));
    OrAbove(result, low, bitpos);
  }

  lemma {:induction false} Regroup(p: nat, k: nat, q: nat, low: nat, r: nat, n: nat)
    requires n == k * q + low
    ensures p * n + r == p * k * q + (p * low + r)
  {
    assert p * n == p * (k * q) + p * low;
    assert p * (k * q) == p * k * q;
  }

  lemma {:induction false} Remains(p: nat, k: nat, low: nat, r: nat)
    requires low < k && r < p
    ensures 0 <= p * low + r < p * k
  {
    MulMono(p, low, k - 1);
    MulMono(p, k, k);
    MulMono(p, 0, low);
  }

  // One more group of seven bits: n == n % 128 + 128 * (n / 128), scaled by 2^bitpos.
  lemma {:induction false} SplitGroup(n: nat, bitpos: nat, result: nat)
    requires result < Pow2(bitpos)
    ensures result + n % 0x80 * Pow2(bitpos) < Pow2(bitpos + 7)
    ensures result + n % 0x80 * Pow2(bitpos) + n / 0x80 * Pow2(bitpos + 7) == result + n * Pow2(bitpos)
    ensures n % 0x80 * Pow2(bitpos) <= n * Pow2(bitpos)
  {
    var p, q, r := Pow2(bitpos), n / 0x80, n % 0x80;
    Pow2Add(bitpos, 7);
    assert Pow2(7) == 0x80 by { Pow2Literals(); }
    hide Pow2;
    Regroup(p, 0x80, q, r, result, n);
    Remains(p, 0x80, r, result);
    MulMono(p, r, n);
  }

  // The number that the loop is to return: the bits gathered, and n above them.
  ghost predicate Gathered(total: nat, result: nat, n: nat, bitpos: nat) {
    result < Pow2(bitpos) && total == result + n * Pow2(bitpos)
  }

  lemma {:induction false} RoomForMore(total: nat, low: nat, q: nat, bitpos: nat, width: nat)
    requires total == low + q * Pow2(bitpos) && total < Pow2(width) && q >= 1
    ensures bitpos < width
  {
    MulMono(Pow2(bitpos), 1, q);
    if bitpos >= width { Pow2Mono(width, bitpos); }
  }

  lemma {:induction false} NextGroup(total: nat, result: nat, n: nat, bitpos: nat, width: nat)
    requires Gathered(total, result, n, bitpos) && total < Pow2(width)
    ensures var result' := BitOr(result, Shl(n % 0x80, bitpos, width));
            Gathered(total, result', n / 0x80, bitpos + 7) && (n < 0x80 ==> result' == total)
    ensures n >= 0x80 ==> bitpos + 7 < width
  {
    SplitGroup(n, bitpos, result);
    var q, r := n / 0x80, n % 0x80;
    hide BitOr, Shl, Pow2;
    GatherBits(result, r, bitpos, width);
    if q == 0 {
      assert n == r;
    } else {
      RoomForMore(total, result + r * Pow2(bitpos), q, bitpos + 7, width);
    }
  }

  lemma {:induction false} ReadGroupIs(result': nat, total: nat, result: nat, n: nat, bitpos: nat)
    requires bitpos < 64 && result' == BitOr(result, Shl(n % 0x80, bitpos, 64)) && (n < 0x80 ==> result' == total)
    ensures ReadGroup(FirstByte(n), bitpos, result) == if n < 0x80 then Last(total) else More(result', bitpos + 7)
  {
    hide BitOr, Shl;
  }

  lemma {:induction false} ReadGroupGathers(total: nat, result: nat, n: nat, bitpos: nat)
    requires Gathered(total, result, n, bitpos) && total < Pow2(64) && bitpos < 64
    ensures var g := ReadGroup(FirstByte(n), bitpos, result);
            if n < 0x80 then g == Last(total)
            else g.More? && g.bitpos == bitpos + 7 < 64 && Gathered(total, g.result, n / 0x80, bitpos + 7)
  {
    hide ReadGroup, BitOr, Shl, Pow2;
    NextGroup(total, result, n, bitpos, 64);
    ReadGroupIs(BitOr(result, Shl(n % 0x80, bitpos, 64)), total, result, n, bitpos);
  }

  lemma {:induction false} Loop64Unfold(s: seq<Byte>, bitpos: nat, result: nat)
    requires s != []
    ensures VarintLoop(s, bitpos, result) ==
      match ReadGroup(s[0], bitpos, result)
      case Bad => Err
      case Last(v) => Ok(v, 1)
      case More(result', bitpos') =>
        match VarintLoop(s[1..], bitpos', result')
        case Err => Err
        case Ok(v, used) => Ok(v, used + 1)
  {
    hide ReadGroup;
  }

  lemma {:induction false} VarintLoopInverts(total: nat, n: nat, rest: seq<Byte>, bitpos: nat, result: nat)
    requires Gathered(total, result, n, bitpos) && total < Pow2(64) && bitpos < 64
    ensures VarintLoop(VarintBytes(n) + rest, bitpos, result) == Ok(total, |VarintBytes(n)|)
    decreases n
  {
    hide ReadGroup, VarintBytes, VarintLoop, Pow2, Gathered;
    ReadGroupGathers(total, result, n, bitpos);
    VarintUnfold(n, rest);
    Loop64Unfold(VarintBytes(n) + rest, bitpos, result);
    if n >= 0x80 {
      VarintLoopInverts(total, n / 0x80, rest, bitpos + 7, ReadGroup(FirstByte(n), bitpos, result).result);
    }
  }

  // Every 64-bit number is recovered, whatever follows it, and exactly its bytes are consumed.
  lemma {:induction false} VarintRoundTrip(n: nat, rest: seq<Byte>)
    requires n < U64
    ensures DecodeVarint(VarintBytes(n) + rest) == Ok(n, |VarintBytes(n)|)
  {
    Pow2Literals();
    VarintLoopInverts(n, n, rest, 0, 0);
  }

  lemma {:induction false} LastGroupFits(total: nat, result: nat, n: nat, bitpos: nat)
    requires Gathered(total, result, n, bitpos) && total < Pow2(32)
    ensures bitpos == 28 ==> n < 0x10
  {
    if bitpos == 28 {
      Pow2Add(28, 4);
      Pow2Literals();
    }
  }

  lemma {:induction false} ReadGroup32Is(result': nat, total: nat, result: nat, n: nat, bitpos: nat)
    requires 7 <= bitpos <= 28 && bitpos % 7 == 0
    requires result' == BitOr(result, Shl(n % 0x80, bitpos, 32))
    requires n < 0x80 ==> result' == total
    requires bitpos == 28 ==> n < 0x10
    ensures ReadGroup32(FirstByte(n), bitpos, result) == if n < 0x80 then Last(total) else More(result', bitpos + 7)
  {
    hide BitOr, Shl;
  }

  lemma {:induction false} ReadGroup32Gathers(total: nat, result: nat, n: nat, bitpos: nat)
    requires Gathered(total, result, n, bitpos) && total < Pow2(32) && 7 <= bitpos <= 28 && bitpos % 7 == 0
    ensures var g := ReadGroup32(FirstByte(n), bitpos, result);
            if n < 0x80 then g == Last(total)
            else g.More? && g.bitpos == bitpos + 7 <= 28 && Gathered(total, g.result, n / 0x80, bitpos + 7)
  {
    hide ReadGroup32, BitOr, Shl, Pow2;
    NextGroup(total, result, n, bitpos, 32);
    LastGroupFits(total, result, n, bitpos);
    ReadGroup32Is(BitOr(result, Shl(n % 0x80, bitpos, 32)), total, result, n, bitpos);
  }

  lemma {:induction false} Loop32Unfold(s: seq<Byte>, bitpos: nat, result: nat)
    requires s != []
    ensures Varint32Loop(s, bitpos, result) ==
      match ReadGroup32(s[0], bitpos, result)
      case Bad => Err
      case Last(v) => Ok(v, 1)
      case More(result', bitpos') =>
        match Varint32Loop(s[1..], bitpos', result')
        case Err => Err
        case Ok(v, used) => Ok(v, used + 1)
  {
    hide ReadGroup32;
  }

  lemma {:induction false} Varint32LoopInverts(total: nat, n: nat, rest: seq<Byte>, bitpos: nat, result: nat)
    requires Gathered(total, result, n, bitpos) && total < Pow2(32) && 7 <= bitpos <= 28 && bitpos % 7 == 0
    ensures Varint32Loop(VarintBytes(n) + rest, bitpos, result) == Ok(total, |VarintBytes(n)|)
    decreases n
  {
    hide ReadGroup32, VarintBytes, Varint32Loop, Pow2, Gathered;
    ReadGroup32Gathers(total, result, n, bitpos);
    VarintUnfold(n, rest);
    Loop32Unfold(VarintBytes(n) + rest, bitpos, result);
    if n >= 0x80 {
      Varint32LoopInverts(total, n / 0x80, rest, bitpos + 7, ReadGroup32(FirstByte(n), bitpos, result).result);
    }
  }

  lemma {:induction false} Decode32Unfold(n: nat, rest: seq<Byte>)
    requires n >= 0x80
    ensures |VarintBytes(n)| == 1 + |VarintBytes(n / 0x80)|
    ensures DecodeVarint32(VarintBytes(n) + rest) ==
      match Varint32Loop(VarintBytes(n / 0x80) + rest, 7, n % 0x80)
      case Err => Err
      case Ok(v, used) => Ok(v, used + 1)
  {
    VarintUnfold(n, rest);
    hide VarintBytes, Varint32Loop;
    assert FirstByte(n) % 0x80 == n % 0x80;
  }

  // Every 32-bit number is recovered by the 32-bit decoder.
  lemma {:induction false} Varint32RoundTrip(n: nat, rest: seq<Byte>)
    requires n < U32
    ensures DecodeVarint32(VarintBytes(n) + rest) == Ok(n, |VarintBytes(n)|)
  {
    Pow2Literals();
    VarintUnfold(n, rest);
    hide Pow2, VarintBytes, Varint32Loop;
    if n >= 0x80 {
      Decode32Unfold(n, rest);
      Varint32LoopInverts(n, n / 0x80, rest, 7, n % 0x80);
    }
  }

  // The position of the sign-extended number u in the 32-bit loop: bits up to bitpos have been read.
  ghost predicate SignExtended(u: nat, n: nat, bitpos: nat, result: nat) {
    && U64 - 0x8000_0000 <= u < U64
    && n == u / Pow2(bitpos)
    && result == if bitpos <= 28 then u % Pow2(bitpos) else u % U32
  }

  lemma {:induction false} DivTwice(u: nat, p: nat, k: nat)
    requires p > 0 && k > 0
    ensures p * k > 0
    ensures u / p / k == u / (p * k)
    ensures u % (p * k) == u % p + u / p % k * p
  {
    var n, r := u / p, u % p;
    var q, low := n / k, n % k;
    Regroup(p, k, q, low, r, n);
    Remains(p, k, low, r);
    DivMod(u, p * k, q, p * low + r);
  }

  lemma {:induction false} SplitSign(u: nat, bitpos: nat)
    requires bitpos <= 21
    ensures BitOr(u % Pow2(bitpos), Shl(u / Pow2(bitpos) % 0x80, bitpos, 32)) == u % Pow2(bitpos + 7)
  {
    Pow2Literals();
    Pow2Add(bitpos, 7);
    Pow2Mono(bitpos + 7, 32);
    DivTwice(u, Pow2(bitpos), 0x80);
    hide BitOr, Shl, Pow2;
    GatherBits(u % Pow2(bitpos), u / Pow2(bitpos) % 0x80, bitpos, 32);
  }

  lemma {:induction false} Pow2Of32()
    ensures Pow2(28) * 0x10 == U32
  {
    Pow2Literals();
    Pow2Add(28, 4);
    assert Pow2(4) == 0x10;
  }

  lemma {:induction false} SplitSignLast(u: nat)
    ensures BitOr(u % Pow2(28), Shl(u / Pow2(28) % 0x80, 28, 32)) == u % U32
  {
    hide BitOr, Shl, Pow2;
    var p := Pow2(28);
    Pow2Of32();
    DivTwice(u, p, 0x10);
    var low := u / p % 0x80;
    LowNibble(u / p);
    ShlPastEnd(low);
    OrAbove(u % p, low % 0x10, 28);
  }

  lemma {:induction false} LowNibble(n: nat)
    ensures n % 0x80 % 0x10 == n % 0x10
  {
  }

  lemma {:induction false} ShlPastEnd(low: nat)
    ensures Shl(low, 28, 32) == low % 0x10 * Pow2(28)
  {
    Pow2Of32();
    assert Pow2(32) == U32 by { Pow2Literals(); }
    hide Pow2;
    var p := Pow2(28);
    ScaledMod(low, 0x10, p);
  }

  lemma {:induction false} ScaledMod(x: nat, k: nat, p: nat)
    requires k > 0 && p > 0
    ensures p * k > 0 && x * p % (p * k) == x % k * p
  {
    var q, r := x / k, x % k;
    Regroup(p, k, q, r, 0, x);
    Remains(p, k, r, 0);
    DivMod(x * p, p * k, q, p * r);
  }

  lemma {:induction false} QuotientOfOnes(u: nat, p: nat, k: nat)
    requires k >= 1 && p >= 0x8000_0000 && p * k == U64 && U64 - 0x8000_0000 <= u < U64
    ensures u / p == k - 1
  {
    MulMono(p, k - 1, k);
    DivMod(u, p, k - 1, u - p * (k - 1));
  }

  // Above bit 31 a sign-extended number has only ones.
  lemma {:induction false} AllOnes(u: nat, bitpos: nat)
    requires U64 - 0x8000_0000 <= u < U64 && 31 <= bitpos <= 64
    ensures u / Pow2(bitpos) == Pow2(64 - bitpos) - 1
  {
    Pow2Add(bitpos, 64 - bitpos);
    Pow2Literals();
    Pow2Mono(31, bitpos);
    QuotientOfOnes(u, Pow2(bitpos), Pow2(64 - bitpos));
  }

  lemma {:induction false} OnesGroup(n: nat, bitpos: nat)
    requires bitpos in [35, 42, 49, 56, 63] && n == Pow2(64 - bitpos) - 1
    ensures FirstByte(n) == if bitpos == 63 then 1 else 0xff
    ensures bitpos < 63 ==> n >= 0x80
  {
    if bitpos < 63 {
      Pow2Add(57 - bitpos, 7);
      Pow2Literals();
    }
  }

  lemma {:induction false} SignGroupHigh(u: nat, n: nat, bitpos: nat)
    requires SignExtended(u, n, bitpos, u % U32) && bitpos in [35, 42, 49, 56, 63]
    ensures ReadGroup32(FirstByte(n), bitpos, u % U32)
         == if bitpos == 63 then Last(u % U32) else More(u % U32, bitpos + 7)
    ensures bitpos < 63 ==> n >= 0x80
  {
    AllOnes(u, bitpos);
    OnesGroup(n, bitpos);
    hide Pow2, BitOr, Shl;
    assert u % U32 / 0x8000_0000 == 1;
  }

  lemma {:induction false} NextQuotient(u: nat, bitpos: nat)
    ensures u / Pow2(bitpos) / 0x80 == u / Pow2(bitpos + 7)
  {
    Pow2Add(bitpos, 7);
    Pow2Literals();
    DivTwice(u, Pow2(bitpos), 0x80);
  }

  lemma {:induction false} ReadMore(b: Byte, n: nat, bitpos: nat, result: nat, result': nat)
    requires n >= 0x80 && b == FirstByte(n) && bitpos < 32
    requires result' == BitOr(result, Shl(n % 0x80, bitpos, 32))
    ensures ReadGroup32(b, bitpos, result) == More(result', bitpos + 7)
  {
    hide BitOr, Shl;
  }

  lemma {:induction false} SignGroupLow(u: nat, n: nat, bitpos: nat, result: nat)
    requires SignExtended(u, n, bitpos, result) && bitpos in [7, 14, 21, 28]
    ensures var r' := if bitpos == 28 then u % U32 else u % Pow2(bitpos + 7);
            ReadGroup32(FirstByte(n), bitpos, result) == More(r', bitpos + 7)
    ensures n >= 0x80
  {
    hide BitOr, Shl, Pow2, ReadGroup32;
    BigQuotient(u, bitpos);
    if bitpos == 28 { SplitSignLast(u); } else { SplitSign(u, bitpos); }
    ReadMore(FirstByte(n), n, bitpos, result, if bitpos == 28 then u % U32 else u % Pow2(bitpos + 7));
  }

  lemma {:induction false} BigQuotient(u: nat, bitpos: nat)
    requires U64 - 0x8000_0000 <= u && bitpos <= 28
    ensures u / Pow2(bitpos) >= 0x80
  {
    hide Pow2;
    Pow2Literals();
    Pow2Mono(bitpos, 31);
    var p := Pow2(bitpos);
    if u / p < 0x80 {
      MulMono(p, u / p, 0x7f);
    }
  }

  lemma {:induction false} SignLoop(u: nat, n: nat, rest: seq<Byte>, bitpos: nat, result: nat)
    requires SignExtended(u, n, bitpos, result) && bitpos in [7, 14, 21, 28, 35, 42, 49, 56, 63]
    ensures Varint32Loop(VarintBytes(n) + rest, bitpos, result) == Ok(u % U32, |VarintBytes(n)|)
    decreases 64 - bitpos
  {
    hide ReadGroup32, VarintBytes, Varint32Loop, Pow2;
    if bitpos <= 28 { SignGroupLow(u, n, bitpos, result); } else { SignGroupHigh(u, n, bitpos); }
    VarintUnfold(n, rest);
    Loop32Unfold(VarintBytes(n) + rest, bitpos, result);
    if bitpos == 63 {
      AllOnes(u, 63);
      Pow2Literals();
    } else {
      NextQuotient(u, bitpos);
      SignLoop(u, n / 0x80, rest, bitpos + 7, ReadGroup32(FirstByte(n), bitpos, result).result);
    }
  }

  // The 32-bit decoder recovers the low 32 bits of every sign-extended negative number.
  lemma {:induction false} NegativeVarint32(v: int, rest: seq<Byte>)
    requires -0x8000_0000 <= v < 0
    ensures DecodeVarint32(VarintBytes(v + U64) + rest) == Ok(v + U32, |VarintBytes(v + U64)|)
  {
    var u := v + U64;
    hide VarintBytes, Varint32Loop, Pow2;
    Pow2Literals();
    Decode32Unfold(u, rest);
    SignLoop(u, u / 0x80, rest, 7, u % 0x80);
    LowHalf(v);
  }

  lemma {:induction false} LowHalf(v: int)
    requires -0x8000_0000 <= v < 0
    ensures (v + U64) % U32 == v + U32
  {
  }

  // Reinterpreting the low bits of an unsigned number as a signed one.
  function Signed(u: nat, width: nat): int
    requires width >= 1
  {
    var x := u % Pow2(width);
    if x >= Pow2(width - 1) then x - Pow2(width) else x
  }

  // pb_encode_svarint: the zigzag number of a 64-bit integer.
  function ZigZag(v: int): nat {
    var doubled := Shl(v % Pow2(64), 1, 64);
    if v < 0 then Not(doubled, 64) else doubled
  }

  // pb_decode_svarint.
  function UnZigZag(u: nat): int
    requires u < Pow2(64)
  {
    Signed(if u % 2 == 1 then Not(u / 2, 64) else u / 2, 64)
  }

  lemma {:induction false} ZigZagValue(v: int)
    requires -0x8000_0000_0000_0000 <= v < 0x8000_0000_0000_0000
    ensures ZigZag(v) == (if v < 0 then -2 * v - 1 else 2 * v) < U64
  {
    Pow2Literals();
    assert Pow2(1) == 2;
  }

  lemma {:induction false} SignedSmall(x: nat, width: nat)
    requires width >= 1 && x < Pow2(width)
    ensures Signed(x, width) == if x >= Pow2(width - 1) then x - Pow2(width) else x
  {
    DivMod(x, Pow2(width), 0, x);
  }

  lemma {:induction false} UnZigZagValue(u: nat)
    requires u < U64
    ensures u < Pow2(64) && UnZigZag(u) == if u % 2 == 1 then -(u / 2) - 1 else u / 2
  {
    Pow2Literals();
    hide Pow2, Signed;
    SignedSmall(u / 2, 64);
    SignedSmall(Not(u / 2, 64), 64);
  }

  // Zigzag numbers and signed 64-bit integers are in bijection.
  lemma {:induction false} ZigZagRoundTrip(v: int)
    requires -0x8000_0000_0000_0000 <= v < 0x8000_0000_0000_0000
    ensures ZigZag(v) < U64 == Pow2(64) && UnZigZag(ZigZag(v)) == v
  {
    ZigZagValue(v);
    UnZigZagValue(ZigZag(v));
    hide ZigZag, UnZigZag, Pow2;
    Pow2Literals();
  }

  lemma {:induction false} UnZigZagRoundTrip(u: nat)
    requires u < U64
    ensures u < Pow2(64)
    ensures -0x8000_0000_0000_0000 <= UnZigZag(u) < 0x8000_0000_0000_0000 && ZigZag(UnZigZag(u)) == u
  {
    UnZigZagValue(u);
    hide ZigZag, UnZigZag, Pow2;
    ZigZagValue(UnZigZag(u));
  }

  // pb_encode_fixed32 and pb_encode_fixed64: k bytes, least significant first.
  function LittleEndian(n: nat, k: nat): (s: seq<Byte>)
    ensures |s| == k
  {
    if k == 0 then [] else [n % 0x100] + LittleEndian(n / 0x100, k - 1)
  }

  function FromLittleEndian(s: seq<Byte>): nat {
    if s == [] then 0 else s[0] + B * FromLittleEndian(s[1..])
  }

  lemma {:induction false} LittleEndianRoundTrip(n: nat, k: nat)
    requires n < Pow2(8 * k)
    ensures FromLittleEndian(LittleEndian(n, k)) == n
    decreases k
  {
    if k > 0 {
      Pow2Add(8, 8 * (k - 1));
      Pow2Literals();
      LittleEndianRoundTrip(n / 0x100, k - 1);
      assert LittleEndian(n, k)[1..] == LittleEndian(n / 0x100, k - 1);
    }
  }

  // Reading depends on no byte beyond those it consumes.
  ghost predicate SameFront(s: seq<Byte>, t: seq<Byte>, n: nat) {
    n <= |s| && n <= |t| && s[..n] == t[..n]
  }

  lemma {:induction false} SameFrontTail(s: seq<Byte>, t: seq<Byte>, n: nat, k: nat)
    requires SameFront(s, t, n) && k <= n
    ensures SameFront(s[k..], t[k..], n - k)
    ensures forall i | 0 <= i < n :: s[i] == t[i]
  {
    forall i | 0 <= i < n ensures s[i] == t[i] { assert s[..n][i] == t[..n][i]; }
  }

  lemma {:induction false} VarintLocal(s: seq<Byte>, t: seq<Byte>, bitpos: nat, result: nat)
    requires VarintLoop(s, bitpos, result).Ok? && SameFront(s, t, VarintLoop(s, bitpos, result).used)
    ensures VarintLoop(t, bitpos, result) == VarintLoop(s, bitpos, result)
    decreases |s|
  {
    hide ReadGroup;
    var n := VarintLoop(s, bitpos, result).used;
    SameFrontTail(s, t, n, 1);
    var g := ReadGroup(s[0], bitpos, result);
    if g.More? { VarintLocal(s[1..], t[1..], g.bitpos, g.result); }
  }

  lemma {:induction false} Varint32LoopLocal(s: seq<Byte>, t: seq<Byte>, bitpos: nat, result: nat)
    requires Varint32Loop(s, bitpos, result).Ok? && SameFront(s, t, Varint32Loop(s, bitpos, result).used)
    ensures Varint32Loop(t, bitpos, result) == Varint32Loop(s, bitpos, result)
    decreases |s|
  {
    hide ReadGroup32;
    var n := Varint32Loop(s, bitpos, result).used;
    SameFrontTail(s, t, n, 1);
    var g := ReadGroup32(s[0], bitpos, result);
    if g.More? { Varint32LoopLocal(s[1..], t[1..], g.bitpos, g.result); }
  }

  lemma {:induction false} Varint32Local(s: seq<Byte>, t: seq<Byte>)
    requires DecodeVarint32(s).Ok? && SameFront(s, t, DecodeVarint32(s).used)
    ensures DecodeVarint32(t) == DecodeVarint32(s)
  {
    SameFrontTail(s, t, DecodeVarint32(s).used, 1);
    if s[0] >= 0x80 { Varint32LoopLocal(s[1..], t[1..], 7, s[0] % 0x80); }
  }
}
