/** What the decoders make of any input at all, and what the encoder leaves out or refuses. */
module PbExact {
  import opened Bits
  import opened Bytes
  import opened PbVarint
  import opened PbSpec
  import opened PbScalars
  import opened PbRoundTrip
  import opened PbWire
  import opened PbDecoded

  // ---- Varints ----

  // The number that groups of seven bits stand for, the lowest first.
  ghost function Base128(b: seq<Byte>): nat {
    if b == [] then 0 else b[0] % 0x80 + 0x80 * Base128(b[1..])
  }

  lemma {:induction false} Base128First(s: seq<Byte>, n: nat)
    requires 0 < n <= |s|
    ensures Base128(s[..n]) == s[0] % 0x80 + 0x80 * Base128(s[1..][..n - 1])
    ensures IsVarint(s[..n]) <==> if s[0] < 0x80 then n == 1 else IsVarint(s[1..][..n - 1])
  {
    var t, u := s[..n], s[1..][..n - 1];
    assert t[1..] == u;
    if n > 1 {
      assert (forall i | 0 <= i < |t| - 1 :: t[i] >= 0x80)
             <==> t[0] >= 0x80 && forall i | 0 <= i < |u| - 1 :: u[i] >= 0x80
      by {
        assert forall i | 0 < i < |t| :: t[i] == u[i - 1];
      }
    }
  }

  lemma {:induction false} AboveFirst(s: seq<Byte>, n: nat, result: nat, bitpos: nat)
    requires 0 < n <= |s|
    ensures result + Pow2(bitpos) * Base128(s[..n])
         == (result + s[0] % 0x80 * Pow2(bitpos)) + Pow2(bitpos + 7) * Base128(s[1..][..n - 1])
  {
    hide Pow2, Base128, IsVarint;
    Base128First(s, n);
    Pow2Add(bitpos, 7);
    assert Pow2(7) == 0x80 by { Pow2Literals(); }
    Scaled(Pow2(bitpos), s[0] % 0x80, Base128(s[1..][..n - 1]));
  }

  lemma {:induction false} Scaled(p: nat, low: nat, q: nat)
    ensures p * (low + 0x80 * q) == low * p + p * 0x80 * q
  {
  }

  // The last group that has room: at bit 63 only its lowest bit is kept.
  lemma {:induction false} GroupAt63(result: nat, low: nat)
    requires result < Pow2(63)
    ensures BitOr(result, Shl(low, 63, 64)) == (result + low * Pow2(63)) % Pow2(64)
  {
    hide Pow2, BitOr;
    Pow2Literals();
    var p, bit := Pow2(63), low % 2;
    TopBit(p, low);
    DivMod(low * p, Pow2(64), low / 2, bit * p);
    OrAbove(result, bit, 63);
    DivMod(result + low * p, Pow2(64), low / 2, result + bit * p);
  }

  lemma {:induction false} TopBit(p: nat, low: nat)
    ensures low * p == 2 * p * (low / 2) + low % 2 * p
    ensures low % 2 * p == if low % 2 == 0 then 0 else p
  {
    assert low == 2 * (low / 2) + low % 2;
    assert low * p == 2 * (low / 2) * p + low % 2 * p;
  }

  lemma {:induction false} GroupBelow63(result: nat, low: nat, bitpos: nat)
    requires result < Pow2(bitpos) && bitpos <= 56 && low < 0x80
    ensures BitOr(result, Shl(low, bitpos, 64)) == result + low * Pow2(bitpos) < Pow2(bitpos + 7) <= Pow2(63)
  {
    hide Pow2, BitOr, Shl;
    SplitGroup(low, bitpos, result);
    Pow2Mono(bitpos + 7, 63);
    Pow2Mono(63, 64);
    GatherBits(result, low, bitpos, 64);
  }

  // The first n bytes are one varint that ends before bit 70, and u is its number above the result so far.
  ghost predicate Completes(s: seq<Byte>, bitpos: nat, result: nat, u: nat, n: nat) {
    && n <= |s| && bitpos + 7 * n <= 70 && IsVarint(s[..n])
    && u == (result + Pow2(bitpos) * Base128(s[..n])) % Pow2(64)
  }

  lemma {:induction false} LastCompletes(s: seq<Byte>, bitpos: nat, result: nat, u: nat, n: nat)
    requires s != [] && s[0] < 0x80 && bitpos <= 63
    ensures Completes(s, bitpos, result, u, n) <==> n == 1 && u == (result + s[0] % 0x80 * Pow2(bitpos)) % Pow2(64)
  {
    hide Pow2;
    if 0 < n <= |s| { Base128First(s, n); }
    OneGroup(s, result, bitpos);
  }

  lemma {:induction false} MoreCompletes(s: seq<Byte>, bitpos: nat, result: nat, u: nat, n: nat)
    requires s != [] && s[0] >= 0x80 && n > 0
    ensures Completes(s, bitpos, result, u, n) <==>
      bitpos + 7 <= 70 && Completes(s[1..], bitpos + 7, result + s[0] % 0x80 * Pow2(bitpos), u, n - 1)
  {
    hide Pow2, Base128, IsVarint;
    if n <= |s| {
      Base128First(s, n);
      AboveFirst(s, n, result, bitpos);
    }
  }

  lemma {:induction false} NoneCompletes(s: seq<Byte>, bitpos: nat, result: nat, u: nat, n: nat)
    requires s == [] || n == 0 || bitpos >= 70
    ensures !Completes(s, bitpos, result, u, n)
  {
    hide Pow2, Base128;
  }

  lemma {:induction false} LoopExactly(s: seq<Byte>, bitpos: nat, result: nat, u: nat, n: nat)
    requires bitpos % 7 == 0 && bitpos <= 63 && result < Pow2(bitpos)
    ensures VarintLoop(s, bitpos, result) == Ok(u, n) <==> Completes(s, bitpos, result, u, n)
    decreases |s|
  {
    hide Pow2, BitOr, Shl, VarintLoop, Completes;
    if s == [] || n == 0 {
      LoopNeedsByte(s, bitpos, result, u, n);
      NoneCompletes(s, bitpos, result, u, n);
    } else {
      Loop64Unfold(s, bitpos, result);
      var next := result + s[0] % 0x80 * Pow2(bitpos);
      if bitpos == 63 {
        GroupAt63(result, s[0] % 0x80);
      } else {
        GroupBelow63(result, s[0] % 0x80, bitpos);
        Small(next);
      }
      if s[0] < 0x80 {
        LastCompletes(s, bitpos, result, u, n);
      } else {
        MoreCompletes(s, bitpos, result, u, n);
        if bitpos == 63 {
          LoopEnds(s[1..], BitOr(result, Shl(s[0] % 0x80, 63, 64)));
          NoneCompletes(s[1..], 70, next, u, n - 1);
        } else {
          LoopExactly(s[1..], bitpos + 7, next, u, n - 1);
        }
      }
    }
  }

  lemma {:induction false} Small(n: nat)
    requires n < Pow2(63)
    ensures n % Pow2(64) == n
  {
    hide Pow2;
    Pow2Mono(63, 64);
    DivMod(n, Pow2(64), 0, n);
  }

  lemma {:induction false} LoopNeedsByte(s: seq<Byte>, bitpos: nat, result: nat, u: nat, n: nat)
    requires s == [] || n == 0
    ensures VarintLoop(s, bitpos, result) != Ok(u, n)
  {
    hide ReadGroup;
  }

  lemma {:induction false} LoopEnds(s: seq<Byte>, result: nat)
    ensures VarintLoop(s, 70, result) == Err
  {
  }

  lemma {:induction false} OneGroup(s: seq<Byte>, result: nat, bitpos: nat)
    requires s != []
    ensures result + Pow2(bitpos) * Base128(s[..1]) == result + s[0] % 0x80 * Pow2(bitpos)
  {
    assert s[..1][1..] == [];
  }

  // The 64-bit decoder takes exactly the varints of at most ten bytes, and gives their number modulo 2^64.
  lemma {:induction false} VarintExactly(s: seq<Byte>, u: nat, n: nat)
    ensures DecodeVarint(s) == Ok(u, n) <==> n <= |s| && n <= 10 && IsVarint(s[..n]) && u == Base128(s[..n]) % U64
  {
    Pow2Literals();
    assert Pow2(0) == 1;
    hide Pow2, Base128, IsVarint;
    LoopExactly(s, 0, 0, u, n);
  }

  // ---- Varints in the 32-bit decoder ----

  lemma {:induction false} GroupBelow28(result: nat, low: nat, bitpos: nat)
    requires result < Pow2(bitpos) && bitpos <= 21 && low < 0x80
    ensures BitOr(result, Shl(low, bitpos, 32)) == result + low * Pow2(bitpos) < Pow2(bitpos + 7) <= Pow2(28)
  {
    hide Pow2, BitOr, Shl;
    SplitGroup(low, bitpos, result);
    Pow2Mono(bitpos + 7, 28);
    Pow2Mono(28, 32);
    GatherBits(result, low, bitpos, 32);
  }

  // At bit 28 only the four lowest bits are kept.
  lemma {:induction false} GroupAt28(result: nat, low: nat)
    requires result < Pow2(28) && low < 0x80
    ensures Pow2(28) == 0x1000_0000 && Pow2(32) == U32
    ensures BitOr(result, Shl(low, 28, 32)) == (result + low * Pow2(28)) % U32
    ensures low < 0x10 <==> result + low * Pow2(28) < U32
  {
    hide Pow2, BitOr;
    Pow2Literals();
    Pow2Add(28, 4);
    var bits := low % 0x10;
    DivMod(low * Pow2(28), U32, low / 0x10, bits * Pow2(28));
    OrAbove(result, bits, 28);
    DivMod(result + low * Pow2(28), U32, low / 0x10, result + bits * Pow2(28));
  }

  // From bit 35 on nothing is gathered any more.
  lemma {:induction false} Loop32High(s: seq<Byte>, bitpos: nat, result: nat, u: nat, n: nat)
    requires bitpos >= 35 && bitpos + 7 * n <= 70 && Varint32Loop(s, bitpos, result) == Ok(u, n)
    ensures n <= |s| && IsVarint(s[..n]) && u == result
    decreases |s|
  {
    hide BitOr, Shl, IsVarint, Varint32Loop;
    Loop32Empty(bitpos, result);
    Loop32Unfold(s, bitpos, result);
    if s[0] < 0x80 {
      assert n == 1;
    } else {
      Loop32High(s[1..], bitpos + 7, result, u, n - 1);
    }
    Base128First(s, n);
  }

  lemma {:induction false} Loop32Empty(bitpos: nat, result: nat)
    ensures Varint32Loop([], bitpos, result) == Err
  {
  }

  ghost function Total(s: seq<Byte>, bitpos: nat, result: nat, n: nat): nat
    requires n <= |s|
  {
    result + Pow2(bitpos) * Base128(s[..n])
  }

  // What the 32-bit decoder accepts as n bytes is one varint, and its value is the number modulo 2^32; up to five bytes
  // are accepted exactly if the number is below 2^32.
  ghost predicate Decodes32(s: seq<Byte>, bitpos: nat, result: nat, u: nat, n: nat, ok: bool) {
    && (ok ==> n <= |s| && IsVarint(s[..n]) && u == Total(s, bitpos, result, n) % U32)
    && (bitpos + 7 * n <= 35 ==> (ok <==> n <= |s| && IsVarint(s[..n]) && u == Total(s, bitpos, result, n) < U32))
  }

  lemma {:induction false} TotalFirst(s: seq<Byte>, bitpos: nat, result: nat, n: nat)
    requires 0 < n <= |s|
    ensures Total(s, bitpos, result, n) == Total(s[1..], bitpos + 7, result + s[0] % 0x80 * Pow2(bitpos), n - 1)
    ensures n == 1 ==> Total(s, bitpos, result, n) == result + s[0] % 0x80 * Pow2(bitpos)
  {
    AboveFirst(s, n, result, bitpos);
    OneGroup(s, result, bitpos);
  }

  lemma {:induction false} Last32(s: seq<Byte>, bitpos: nat, result: nat, u: nat, n: nat)
    requires s != [] && s[0] < 0x80 && 7 <= bitpos <= 28 && n > 0
    requires var next := result + s[0] % 0x80 * Pow2(bitpos);
             && (bitpos < 28 ==> next < U32)
             && (bitpos == 28 ==> (s[0] < 0x10 <==> next < U32))
    ensures var next := result + s[0] % 0x80 * Pow2(bitpos);
            Decodes32(s, bitpos, result, u, n, n == 1 && u == next < U32)
  {
    hide Pow2, IsVarint, Total;
    if n <= |s| {
      Base128First(s, n);
      TotalFirst(s, bitpos, result, n);
    }
    if n == 1 && u < U32 { DivMod(u, U32, 0, u); }
  }

  lemma {:induction false} More32(s: seq<Byte>, bitpos: nat, result: nat, u: nat, n: nat, ok: bool)
    requires s != [] && s[0] >= 0x80 && n > 0
    requires Decodes32(s[1..], bitpos + 7, result + s[0] % 0x80 * Pow2(bitpos), u, n - 1, ok)
    ensures Decodes32(s, bitpos, result, u, n, ok)
  {
    hide Pow2, IsVarint, Total;
    if n <= |s| {
      Base128First(s, n);
      TotalFirst(s, bitpos, result, n);
    }
  }

  // Above bit 32 nothing changes the number modulo 2^32.
  lemma {:induction false} High32(s: seq<Byte>, x: nat, u: nat, n: nat, ok: bool)
    requires if n == 0 then !ok else ok ==> n <= |s| && IsVarint(s[..n]) && u == x % U32
    ensures Decodes32(s, 35, x, u, n, ok)
  {
    hide Base128, Pow2;
    if n == 0 { NotVarint(s, n); }
    Pow35();
    if n <= |s| {
      var b := Base128(s[..n]);
      DivMod(x + U32 * (8 * b), U32, x / U32 + 8 * b, x % U32);
      assert Pow2(35) * b == U32 * (8 * b);
    }
  }

  lemma {:induction false} Pow35()
    ensures Pow2(35) == 8 * U32
  {
    hide Pow2;
    Pow2Literals();
    Pow2Add(3, 32);
  }

  lemma {:induction false} Loop32Exactly(s: seq<Byte>, bitpos: nat, result: nat, u: nat, n: nat)
    requires 7 <= bitpos <= 28 && bitpos % 7 == 0 && result < Pow2(bitpos) && bitpos + 7 * n <= 70
    ensures Decodes32(s, bitpos, result, u, n, Varint32Loop(s, bitpos, result) == Ok(u, n))
    decreases |s|
  {
    hide Pow2, BitOr, Shl, Varint32Loop, Decodes32, IsVarint, ReadGroup32;
    if s == [] || n == 0 {
      Nothing32(s, bitpos, result, u, n);
    } else if bitpos == 28 {
      Loop32At28(s, result, u, n);
    } else {
      Loop32Unfold(s, bitpos, result);
      var low := s[0] % 0x80;
      var next := result + low * Pow2(bitpos);
      GroupBelow28(result, low, bitpos);
      Below32(next);
      Group32Below28(s[0], bitpos, result);
      if s[0] < 0x80 {
        Last32(s, bitpos, result, u, n);
      } else {
        Loop32Exactly(s[1..], bitpos + 7, next, u, n - 1);
        More32(s, bitpos, result, u, n, Varint32Loop(s, bitpos, result) == Ok(u, n));
      }
    }
  }

  lemma {:induction false} Loop32At28(s: seq<Byte>, result: nat, u: nat, n: nat)
    requires s != [] && n > 0 && result < Pow2(28) && 28 + 7 * n <= 70
    ensures Decodes32(s, 28, result, u, n, Varint32Loop(s, 28, result) == Ok(u, n))
  {
    hide Pow2, BitOr, Shl, Varint32Loop, Decodes32, IsVarint, ReadGroup32;
    Loop32Unfold(s, 28, result);
    var low := s[0] % 0x80;
    var next := result + low * Pow2(28);
    GroupAt28(result, low);
    Group32At28(s[0], result);
    if s[0] < 0x80 {
      if next < U32 { DivMod(next, U32, 0, next); }
      Last32(s, 28, result, u, n);
    } else {
      var ok := Varint32Loop(s, 28, result) == Ok(u, n);
      if ok { Loop32High(s[1..], 35, next % U32, u, n - 1); }
      if n == 1 { Nothing32(s[1..], 35, next % U32, u, 0); }
      High32(s[1..], next, u, n - 1, ok);
      More32(s, 28, result, u, n, ok);
    }
  }

  lemma {:induction false} Below32(n: nat)
    requires n < Pow2(28)
    ensures n < U32
  {
    hide Pow2;
    Pow2Mono(28, 32);
    Pow2Is32();
  }

  lemma {:induction false} Pow2Is32()
    ensures Pow2(32) == U32
  {
    Pow2Literals();
  }

  lemma {:induction false} Nothing32(s: seq<Byte>, bitpos: nat, result: nat, u: nat, n: nat)
    requires s == [] || n == 0
    ensures Decodes32(s, bitpos, result, u, n, Varint32Loop(s, bitpos, result) == Ok(u, n))
  {
    hide ReadGroup32, Pow2;
  }

  lemma {:induction false} Group32Below28(b: Byte, bitpos: nat, result: nat)
    requires 7 <= bitpos <= 21 && bitpos % 7 == 0
    ensures var next := BitOr(result, Shl(b % 0x80, bitpos, 32));
            ReadGroup32(b, bitpos, result) == if b >= 0x80 then More(next, bitpos + 7) else Last(next)
  {
    hide BitOr, Shl;
  }

  lemma {:induction false} Group32At28(b: Byte, result: nat)
    ensures var next := BitOr(result, Shl(b % 0x80, 28, 32));
            ReadGroup32(b, 28, result) == if b >= 0x80 then More(next, 35) else if b >= 0x10 then Bad else Last(next)
  {
    hide BitOr, Shl;
  }

  // The 32-bit decoder: what it accepts in up to ten bytes is one varint, read modulo 2^32, and up to five bytes are
  // accepted exactly if their number is below 2^32.
  lemma {:induction false} Varint32Exactly(s: seq<Byte>, u: nat, n: nat)
    requires n <= 10
    ensures DecodeVarint32(s) == Ok(u, n) ==> n <= |s| && IsVarint(s[..n]) && u == Base128(s[..n]) % U32
    ensures n <= 5 ==>
      (DecodeVarint32(s) == Ok(u, n) <==> n <= |s| && IsVarint(s[..n]) && u == Base128(s[..n]) < U32)
  {
    hide Pow2, Varint32Loop, Decodes32, IsVarint;
    if s == [] || n == 0 {
      NotVarint(s, n);
    } else {
      if n <= |s| { Base128First(s, n); }
      if s[0] < 0x80 {
        Zero128();
      } else {
        assert Pow2(7) == 0x80 by { Pow2Literals(); }
        Loop32Exactly(s[1..], 7, s[0] % 0x80, u, n - 1);
        assert Decodes32(s[1..], 7, s[0] % 0x80, u, n - 1, DecodeVarint32(s) == Ok(u, n));
        From32(s, u, n, DecodeVarint32(s) == Ok(u, n));
      }
    }
  }

  lemma {:induction false} Zero128()
    ensures Base128([]) == 0
  {
  }

  lemma {:induction false} NotVarint(s: seq<Byte>, n: nat)
    requires s == [] || n == 0
    ensures n <= |s| ==> !IsVarint(s[..n])
  {
  }

  lemma {:induction false} From32(s: seq<Byte>, u: nat, n: nat, ok: bool)
    requires s != [] && s[0] >= 0x80 && 0 < n <= 10 && Decodes32(s[1..], 7, s[0] % 0x80, u, n - 1, ok)
    ensures ok ==> n <= |s| && IsVarint(s[..n]) && u == Base128(s[..n]) % U32
    ensures n <= 5 ==> (ok <==> n <= |s| && IsVarint(s[..n]) && u == Base128(s[..n]) < U32)
  {
    hide Base128, IsVarint;
    if n <= |s| { Base128First(s, n); }
    assert Pow2(7) == 0x80 by { Pow2Literals(); }
    hide Pow2;
  }

  // ---- Scalars: exactly what is accepted, and as what ----

  // A decoded integer is the number on the wire: for signed fields of less than 64 bits the upper 32 bits are dropped
  // first; unsigned fields and zigzag take it as it is; and a number that the field cannot hold is refused.
  ghost predicate Reads64(f: Field, u: nat, n: int) {
    match f.l
    case Varint => FitsSigned(n, f.dataSize) && (n - u) % (if f.dataSize == 8 then U64 else U32) == 0
    case UVarint => IntSize(f.dataSize) && 0 <= n < Pow2(8 * f.dataSize) && n == u
    case _ => FitsSigned(n, f.dataSize) && ZigZag(n) == u
  }

  lemma {:induction false} IntExactly(f: Field, s: seq<Byte>, n: int, k: nat)
    requires f.l.Varint? || f.l.UVarint? || f.l.SVarint?
    ensures DecodeScalar(f, s) == Ok(Num(n), k) <==>
      DecodeVarint(s).Ok? && DecodeVarint(s).used == k && Reads64(f, DecodeVarint(s).value, n)
  {
    hide DecodeVarint;
    var d := DecodeVarint(s);
    if d.Ok? {
      DecodedBound(s);
      CastExactly(f, d.value, n);
    }
  }

  lemma {:induction false} DecodedBound(s: seq<Byte>)
    requires DecodeVarint(s).Ok?
    ensures DecodeVarint(s).value < U64
  {
    hide Base128, IsVarint, DecodeVarint;
    var d := DecodeVarint(s);
    VarintExactly(s, d.value, d.used);
  }

  lemma {:induction false} NarrowExactly(v: int, size: nat, n: int)
    ensures NarrowSigned(v, size) == Some(n) <==> n == v && FitsSigned(v, size)
  {
    hide Pow2, Signed;
    if IntSize(size) {
      SignedRange(v % U64, size);
      if FitsSigned(v, size) { SignedRecovers(v, size); }
    }
  }

  // Reading the lowest 32 or 64 bits as a signed number.
  lemma {:induction false} SignedExactly(u: nat, size: nat, n: int)
    requires size == 4 || size == 8
    ensures Signed(u, 8 * size) == n <==> FitsSigned(n, size) && (n - u) % (if size == 8 then U64 else U32) == 0
  {
    IntSizePow(size);
    hide Pow2;
    Residue(u, Pow2(8 * size), n);
  }

  lemma {:induction false} Residue(u: nat, d: nat, n: int)
    requires d > 0 && d % 2 == 0
    ensures n == (if u % d >= d / 2 then u % d - d else u % d) <==> 0 <= n + d / 2 < d && (n - u) % d == 0
  {
    var x := u % d;
    SameResidue(u / d, x, d, n);
    assert u == d * (u / d) + x;
    if n == x { DivMod(n - x, d, 0, 0); }
    if n == x - d { DivMod(n - x, d, -1, 0); }
    if x < n < x + d { DivMod(n - x, d, 0, n - x); }
    if x - d < n < x { DivMod(n - x, d, -1, n - x + d); }
    if x - 2 * d < n < x - d { DivMod(n - x, d, -2, n - x + 2 * d); }
  }

  lemma {:induction false} SameResidue(q: int, x: int, d: nat, n: int)
    requires d > 0
    ensures (n - (d * q + x)) % d == (n - x) % d
  {
    var k, r := (n - x) / d, (n - x) % d;
    assert n - x == d * k + r;
    assert d * (k - q) == d * k - d * q;
    DivMod(n - (d * q + x), d, k - q, r);
  }

  lemma {:induction false} CastExactly(f: Field, u: nat, n: int)
    requires u < U64 && (f.l.Varint? || f.l.UVarint? || f.l.SVarint?)
    ensures IntOf(f, u) == Some(n) <==> Reads64(f, u, n)
  {
    Pow64();
    hide Pow2, Signed, NarrowSigned, ZigZag, UnZigZag;
    match f.l
    case Varint =>
      var size := if f.dataSize == 8 then 8 else 4;
      NarrowExactly(Signed(u, 8 * size), f.dataSize, n);
      SignedExactly(u, size, n);
      if FitsSigned(n, f.dataSize) { WideFits(n, f.dataSize); }
    case UVarint =>
      if IntSize(f.dataSize) { FitsUnsigned(u, f.dataSize); }
    case SVarint =>
      UnZigZagRoundTrip(u);
      NarrowExactly(UnZigZag(u), f.dataSize, n);
      if FitsSigned(n, f.dataSize) {
        WideFits(n, f.dataSize);
        IntSizePow(8);
        ZigZagRoundTrip(n);
      }
  }

  lemma {:induction false} Pow64()
    ensures Pow2(64) == U64
  {
    Pow2Literals();
  }

  lemma {:induction false} FitsUnsigned(u: nat, size: nat)
    ensures u % Pow2(8 * size) == u <==> u < Pow2(8 * size)
  {
    hide Pow2;
    if u < Pow2(8 * size) { DivMod(u, Pow2(8 * size), 0, u); }
  }

  // Four or eight bytes, the least significant first.
  lemma {:induction false} FixedExactly(s: seq<Byte>, size: nat, n: nat, k: nat)
    ensures DecodeFixed(s, size) == Ok(Num(n), k) <==>
      k == size <= |s| && n < Pow2(8 * size) && s[..size] == LittleEndian(n, size)
  {
    hide Pow2, LittleEndian, FromLittleEndian;
    if size <= |s| {
      LittleEndianOf(s[..size]);
      LittleEndianBound(s[..size]);
      if n < Pow2(8 * size) { LittleEndianRoundTrip(n, size); }
    }
  }

  lemma {:induction false} LittleEndianOf(b: seq<Byte>)
    ensures LittleEndian(FromLittleEndian(b), |b|) == b
  {
    if b != [] {
      var n := FromLittleEndian(b[1..]);
      LittleEndianOf(b[1..]);
      DivMod(b[0] + 0x100 * n, 0x100, n, b[0]);
      assert [b[0]] + b[1..] == b;
    }
  }

  // c is the text in b: all of it, or what stands before the first zero byte.
  ghost predicate IsText(b: seq<Byte>, c: seq<Byte>) {
    c <= b && 0 !in c && (|c| < |b| ==> b[|c|] == 0)
  }

  lemma {:induction false} TextIs(b: seq<Byte>, c: seq<Byte>)
    ensures IsText(b, c) <==> c == Text(b)
  {
    if b != [] && b[0] != 0 {
      TextIs(b[1..], if c == [] then [] else c[1..]);
      assert [b[0]] + b[1..] == b;
      if c != [] { assert [c[0]] + c[1..] == c; }
    }
  }

  // What a field can hold of a delimited payload, and what refuses it: bytes and strings need room for their length and
  // terminator, and a field of fixed length takes that many bytes or none, which stands for zeros.
  ghost predicate Holds(f: Field, payload: seq<Byte>, c: seq<Byte>) {
    match f.l
    case BytesField => c == payload && |payload| + 4 <= f.dataSize
    case StringField => IsText(payload, c) && |payload| < f.dataSize && |payload| + 1 != U32
    case _ => |c| == f.dataSize && (c == payload || (payload == [] && forall i | 0 <= i < |c| :: c[i] == 0))
  }

  lemma {:induction false} BlobExactly(f: Field, s: seq<Byte>, c: seq<Byte>, k: nat)
    requires f.l.BytesField? || f.l.StringField? || f.l.FixedLengthBytes?
    ensures DecodeScalar(f, s) == Ok(Blob(c), k) <==>
      TakeDelimited(s).Ok? && TakeDelimited(s).used == k && Holds(f, TakeDelimited(s).value, c)
  {
    hide TakeDelimited, IsText, Text;
    var d := TakeDelimited(s);
    if d.Ok? {
      TextIs(d.value, c);
      if |c| == f.dataSize && forall i | 0 <= i < |c| :: c[i] == 0 { assert c == Zeros(f.dataSize); }
    }
  }

  // ---- What the encoder leaves out, and what it refuses ----

  lemma {:induction false} SlotZero(f: Field, s: Slot)
    requires EncodeSlot(f, s).Some?
    ensures EncodeSlot(f, s) == Some([]) <==> IsZero(f, s)
  {
    hide EncodeValue, Delimited;
    match s
    case Many(vs) => if vs != [] && f.h.Repeated? { KeyNotEmpty(f.tag, WireType(f.l)); KeyNotEmpty(f.tag, WT_STRING); }
    case One(v) => KeyNotEmpty(f.tag, WireType(f.l));
    case Absent =>
  }

  lemma {:induction false} KeyNotEmpty(tag: nat, wireType: nat)
    ensures TagBytes(tag, wireType) != []
  {
  }

  lemma {:induction false} MessageZero(fs: seq<Field>, m: seq<Slot>)
    requires EncodeMessage(fs, m).Some?
    ensures EncodeMessage(fs, m) == Some([]) <==> AllZero(fs, m)
    decreases |fs|
  {
    hide EncodeSlot, IsZero;
    if fs != [] {
      SlotZero(fs[0], m[0]);
      MessageZero(fs[1..], m[1..]);
    }
  }

  // A slot takes no bytes exactly if it is absent, an empty array or, without a has_ flag, zero; and a submessage is
  // zero exactly if none of its fields takes any bytes.
  lemma {:induction false} OmittedExactly(f: Field, s: Slot)
    requires EncodeSlot(f, s).Some? && (s.One? ==> EncodeValue(f, s.v).Some?)
    ensures EncodeSlot(f, s) == Some([]) <==>
      || s.Absent? || s == Many([])
      || (f.h.Singular? && s.One? &&
          match s.v
          case Num(n) => n == 0
          case Blob(b) => if f.l.FixedLengthBytes? then f.dataSize == 0 else b == []
          case Msg(slots) => EncodeMessage(f.sub, slots) == Some([]))
  {
    SlotZero(f, s);
    hide EncodeSlot, EncodeMessage, AllZero;
    if s.One? && s.v.Msg? { MessageZero(f.sub, s.v.slots); }
    if s.Many? && s.vs == [] {} else { SlotShape(f, s); }
  }

  lemma {:induction false} SlotShape(f: Field, s: Slot)
    requires EncodeSlot(f, s).Some?
    ensures s.Many? <==> f.h.Repeated?
    ensures s.Absent? ==> f.h.Optional? || f.h.Oneof?
  {
    hide EncodeValue, EncodeItems;
  }

  // What can be encoded: integers of 1, 2, 4 or 8 bytes, bytes within their buffer, arrays within theirs.
  ghost predicate Encodable(f: Field, v: Value)
    decreases f, 0
  {
    match v
    case Num(_) => f.l.Fixed32? || f.l.Fixed64? || f.dataSize in {1, 2, 4, 8}
    case Blob(b) => f.l.BytesField? ==> |b| + 4 <= f.dataSize
    case Msg(slots) => EncodableMessage(f.sub, slots)
  }

  ghost predicate EncodableSlot(f: Field, s: Slot)
    decreases f, 1
  {
    match s
    case Absent => true
    case One(v) => (f.h.Singular? && IsZero(f, s)) || Encodable(f, v)
    case Many(vs) => |vs| <= f.arraySize && forall v | v in vs :: Encodable(f, v)
  }

  ghost predicate EncodableMessage(fs: seq<Field>, m: seq<Slot>)
    decreases fs, 2
  {
    |fs| == |m| && forall i | 0 <= i < |fs| :: EncodableSlot(fs[i], m[i])
  }

  lemma {:induction false} ValueEncodes(f: Field, v: Value)
    requires ShapedValue(f, v)
    ensures EncodeValue(f, v).Some? <==> Encodable(f, v)
    decreases f, 0
  {
    if f.l.Submessage? { MessageEncodes(f.sub, v.slots); }
    hide EncodeMessage, EncodableMessage, VarintBytes, LittleEndian, Delimited, Shaped, FitsBytes, ZigZag;
  }

  lemma {:induction false} ItemsEncode(f: Field, vs: seq<Value>, packed: bool)
    requires forall v | v in vs :: ShapedValue(f, v)
    ensures EncodeItems(f, vs, packed).Some? <==> forall v | v in vs :: Encodable(f, v)
    decreases f, 1, |vs|
  {
    hide EncodeValue, ShapedValue, Encodable, TagBytes;
    if vs != [] {
      assert vs[0] in vs && (forall v | v in vs[1..] :: v in vs) && forall v | v in vs :: v == vs[0] || v in vs[1..];
      ValueEncodes(f, vs[0]);
      ItemsEncode(f, vs[1..], packed);
    }
  }

  lemma {:induction false} SlotEncodes(f: Field, s: Slot)
    requires ShapedSlot(f, s)
    ensures EncodeSlot(f, s).Some? <==> EncodableSlot(f, s)
    decreases f, 2
  {
    match s
    case Absent =>
    case One(v) =>
      ValueEncodes(f, v);
      hide EncodeValue, ShapedValue, Encodable, TagBytes, IsZero;
    case Many(vs) =>
      ItemsEncode(f, vs, Packable(f.l));
      hide EncodeItems, ShapedValue, Encodable, TagBytes, Delimited;
  }

  // A struct that matches its descriptor is encoded exactly if every value in it is encodable.
  lemma {:induction false} MessageEncodes(fs: seq<Field>, m: seq<Slot>)
    requires Shaped(fs, m)
    ensures EncodeMessage(fs, m).Some? <==> EncodableMessage(fs, m)
    decreases fs, 3
  {
    if fs != [] {
      SlotEncodes(fs[0], m[0]);
      forall i | 0 <= i < |fs| - 1 ensures ShapedSlot(fs[1..][i], m[1..][i]) { assert ShapedSlot(fs[i + 1], m[i + 1]); }
      MessageEncodes(fs[1..], m[1..]);
      hide EncodeSlot, EncodableSlot, ShapedSlot;
      assert (forall i | 0 < i < |fs| :: EncodableSlot(fs[i], m[i])) <==>
             forall i | 0 <= i < |fs| - 1 :: EncodableSlot(fs[1..][i], m[1..][i]) by {
        assert forall i | 0 < i < |fs| :: fs[i] == fs[1..][i - 1] && m[i] == m[1..][i - 1];
      }
    }
  }

  // Arrays of numbers go out packed, under one key of wire type 2.
  lemma {:induction false} NumbersArePacked(f: Field, vs: seq<Value>)
    requires f.h.Repeated? && 0 < |vs| <= f.arraySize && EncodeItems(f, vs, true).Some?
    requires f.l.Varint? || f.l.UVarint? || f.l.SVarint? || f.l.Fixed32? || f.l.Fixed64?
    ensures EncodeSlot(f, Many(vs)) == Some(TagBytes(f.tag, 2) + Delimited(EncodeItems(f, vs, true).value))
  {
    hide EncodeItems, TagBytes, Delimited;
  }
}
