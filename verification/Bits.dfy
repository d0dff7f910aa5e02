/** The C operators |, &, ~ and << on unsigned integers, as functions on natural numbers. */
module Bits {

  function Pow2(n: nat): (p: nat)
    ensures p >= 1
  {
    if n == 0 then 1 else 2 * Pow2(n - 1)
  }

  // Bit i of n.
  predicate Bit(n: nat, i: nat) {
    if i == 0 then n % 2 == 1 else Bit(n / 2, i - 1)
  }

  function BitOr(a: nat, b: nat): nat {
    if a == 0 then b
    else (if a % 2 == 1 || b % 2 == 1 then 1 else 0) + 2 * BitOr(a / 2, b / 2)
  }

  function BitAnd(a: nat, b: nat): nat {
    if a == 0 then 0
    else (if a % 2 == 1 && b % 2 == 1 then 1 else 0) + 2 * BitAnd(a / 2, b / 2)
  }

  // x << s in an unsigned integer type of the given width.
  function Shl(x: nat, s: nat, width: nat): (r: nat)
    ensures r < Pow2(width)
  {
    x * Pow2(s) % Pow2(width)
  }

  // ~x in an unsigned integer type of the given width.
  function Not(x: nat, width: nat): nat
    requires x < Pow2(width)
  {
    Pow2(width) - 1 - x
  }

  lemma {:induction false} Pow2Add(a: nat, b: nat)
    ensures Pow2(a + b) == Pow2(a) * Pow2(b)
  {
    if a > 0 {
      Pow2Add(a - 1, b);
      assert Pow2(a + b) == 2 * Pow2(a - 1 + b);
    }
  }

  lemma {:induction false} Pow2Mono(a: nat, b: nat)
    requires a <= b
    ensures Pow2(a) <= Pow2(b)
    ensures a < b ==> 2 * Pow2(a) <= Pow2(b)
  {
    if a < b { Pow2Mono(a, b - 1); }
  }

  lemma {:induction false} Pow2Literals()
    ensures Pow2(3) == 8 && Pow2(4) == 16 && Pow2(7) == 128 && Pow2(8) == 0x100
    ensures Pow2(31) == 0x8000_0000 && Pow2(32) == 0x1_0000_0000
    ensures Pow2(63) == 0x8000_0000_0000_0000 && Pow2(64) == 0x1_0000_0000_0000_0000
  {
    Pow2Small();
    hide Pow2;
    Pow2Add(8, 8);
    Pow2Add(16, 16);
    Pow2Add(32, 32);
    Pow2Add(1, 31);
    Pow2Add(1, 63);
  }

  lemma {:induction false} Pow2Small()
    ensures Pow2(1) == 2 && Pow2(3) == 8 && Pow2(4) == 16 && Pow2(7) == 128 && Pow2(8) == 0x100
  {
    assert Pow2(2) == 4 && Pow2(3) == 8 && Pow2(4) == 16 && Pow2(5) == 32 && Pow2(6) == 64;
  }

  lemma {:induction false} MulMono(d: nat, a: int, b: int)
    requires a <= b
    ensures d * a <= d * b
    ensures d * (a - 1) == d * a - d
  {
  }

  lemma {:induction false} DivMod(n: int, d: int, q: int, r: int)
    requires 0 <= r < d && n == d * q + r
    ensures n / d == q && n % d == r
  {
    var q', r' := n / d, n % d;
    if q' > q {
      MulMono(d, q + 1, q');
    } else if q' < q {
      MulMono(d, q' + 1, q);
    }
  }

  lemma {:induction false} OrBit(a: nat, b: nat, i: nat)
    ensures Bit(BitOr(a, b), i) <==> (Bit(a, i) || Bit(b, i))
    decreases i
  {
    if a == 0 {
      ZeroBit(i);
    } else if i > 0 {
      OrBit(a / 2, b / 2, i - 1);
    }
  }

  lemma {:induction false} AndBit(a: nat, b: nat, i: nat)
    ensures Bit(BitAnd(a, b), i) <==> (Bit(a, i) && Bit(b, i))
    decreases i
  {
    if a == 0 {
      ZeroBit(i);
    } else if i > 0 {
      AndBit(a / 2, b / 2, i - 1);
    }
  }

  lemma {:induction false} ZeroBit(i: nat)
    ensures !Bit(0, i)
  {
    if i > 0 { ZeroBit(i - 1); }
  }

  lemma {:induction false} NotBit(x: nat, width: nat, i: nat)
    requires x < Pow2(width) && i < width
    ensures Bit(Not(x, width), i) <==> !Bit(x, i)
    decreases i
  {
    if i > 0 {
      assert Not(x, width) / 2 == Not(x / 2, width - 1);
      NotBit(x / 2, width - 1, i - 1);
    }
  }

  lemma {:induction false} ScaledBit(x: nat, s: nat, i: nat)
    ensures Bit(x * Pow2(s), i) <==> (i >= s && Bit(x, i - s))
    decreases s
  {
    if s > 0 {
      var y := x * Pow2(s - 1);
      assert x * Pow2(s) == 2 * y;
      if i > 0 { ScaledBit(x, s - 1, i - 1); }
    }
  }

  lemma {:induction false} LowBit(x: nat, width: nat, i: nat)
    ensures Bit(x % Pow2(width), i) <==> (i < width && Bit(x, i))
    decreases width
  {
    if width == 0 {
      ZeroBit(i);
    } else {
      var p := Pow2(width - 1);
      var q, r := x / (2 * p), x % (2 * p);
      assert x == 2 * (p * q) + r;
      DivMod(x / 2, p, q, r / 2);
      if i > 0 { LowBit(x / 2, width - 1, i - 1); }
    }
  }

  lemma {:induction false} ShlBit(x: nat, s: nat, width: nat, i: nat)
    ensures Bit(Shl(x, s, width), i) <==> (s <= i < width && Bit(x, i - s))
  {
    LowBit(x * Pow2(s), width, i);
    ScaledBit(x, s, i);
  }

  lemma {:induction false} OneBit(i: nat)
    ensures Bit(1, i) <==> i == 0
  {
    if i > 0 { ZeroBit(i - 1); }
  }

  // 1 << s, without overflow.
  lemma {:induction false} ShlOne(s: nat, width: nat)
    requires s < width
    ensures Shl(1, s, width) == Pow2(s)
  {
    Pow2Mono(s, width);
    DivMod(Pow2(s), Pow2(width), 0, Pow2(s));
  }

  lemma {:induction false} Pow2Bit(s: nat, i: nat)
    ensures Bit(Pow2(s), i) <==> i == s
  {
    ScaledBit(1, s, i);
    if i >= s { OneBit(i - s); }
  }

  // (1 << n) - 1 has exactly its n lowest bits set.
  lemma {:induction false} MaskBit(n: nat, i: nat)
    ensures Bit(Pow2(n) - 1, i) <==> i < n
    decreases n
  {
    if n == 0 {
      ZeroBit(i);
    } else if i > 0 {
      assert (Pow2(n) - 1) / 2 == Pow2(n - 1) - 1;
      MaskBit(n - 1, i - 1);
    }
  }

  lemma {:induction false} OrBound(a: nat, b: nat, width: nat)
    requires a < Pow2(width) && b < Pow2(width)
    ensures BitOr(a, b) < Pow2(width)
    decreases width
  {
    if a != 0 { OrBound(a / 2, b / 2, width - 1); }
  }

  lemma {:induction false} BitsEqual(a: nat, b: nat)
    requires forall i: nat :: Bit(a, i) <==> Bit(b, i)
    ensures a == b
    decreases a + b
  {
    if a + b > 0 {
      assert Bit(a, 0) <==> Bit(b, 0);
      forall i: nat ensures Bit(a / 2, i) <==> Bit(b / 2, i) {
        assert Bit(a, i + 1) <==> Bit(b, i + 1);
      }
      BitsEqual(a / 2, b / 2);
    }
  }

  // Or-ing a shifted value above the bits already present is addition.
  lemma {:induction false} OrAbove(a: nat, b: nat, s: nat)
    requires a < Pow2(s)
    ensures BitOr(a, b * Pow2(s)) == a + b * Pow2(s)
    decreases s
  {
    if a != 0 {
      var y := b * Pow2(s - 1);
      assert b * Pow2(s) == 2 * y;
      OrAbove(a / 2, b, s - 1);
    }
  }

  lemma {:induction false} OrZero(a: nat)
    ensures BitOr(a, 0) == a
  {
    if a != 0 { OrZero(a / 2); }
  }

  lemma {:induction false} OrCommutes(a: nat, b: nat)
    ensures BitOr(a, b) == BitOr(b, a)
    decreases a + b
  {
    if a != 0 && b != 0 {
      OrCommutes(a / 2, b / 2);
    } else if a != 0 {
      OrZero(a);
    } else if b != 0 {
      OrZero(b);
    }
  }
}
