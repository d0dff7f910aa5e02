/** The required fields seen so far, as the words of bits that pb_decode_noinit keeps. */
module PbRequired {
  import opened Bits
  import opened Bytes
  import opened PbSpec
  import opened PbIter

  const ALLBITS: nat := U32 - 1
  const WORDS: nat := 2

  // Bit i of the word says whether field base + i was seen.
  ghost predicate WordIs(w: nat, base: nat, seen: set<nat>) {
    w < U32 && forall i: nat | i < 32 :: Bit(w, i) <==> base + i in seen
  }

  ghost predicate BitsAre(words: seq<nat>, seen: set<nat>) {
    && |words| == WORDS
    && (forall r | r in seen :: r < MAX_REQUIRED_FIELDS)
    && WordIs(words[0], 0, seen) && WordIs(words[1], 32, seen)
  }

  lemma {:induction false} NothingSeen()
    ensures BitsAre([0, 0], {})
  {
    forall i: nat | i < 32 ensures !Bit(0, i) { ZeroBit(i); }
  }

  lemma {:induction false} WordMark(w: nat, base: nat, seen: set<nat>, j: nat)
    requires WordIs(w, base, seen) && j < 32
    ensures WordIs(BitOr(w, Shl(1, j, 32)), base, seen + {base + j})
  {
    var v := Shl(1, j, 32);
    Pow2Literals();
    OrBound(w, v, 32);
    forall i: nat | i < 32 ensures Bit(BitOr(w, v), i) <==> base + i in seen + {base + j} {
      OrBit(w, v, i);
      ShlOne(j, 32);
      Pow2Bit(j, i);
    }
  }

  // A word equals the mask of its n lowest bits exactly when all of those fields were seen and no others.
  lemma {:induction false} WordIsMask(w: nat, base: nat, seen: set<nat>, n: nat)
    requires WordIs(w, base, seen) && n <= 32
    requires forall r: nat | base + n <= r < base + 32 :: r !in seen
    ensures w == Pow2(n) - 1 <==> forall r: nat | base <= r < base + n :: r in seen
  {
    hide Bit, Pow2;
    Pow2Literals();
    Pow2Mono(n, 32);
    if w == Pow2(n) - 1 {
      forall r: nat | base <= r < base + n ensures r in seen {
        MaskBit(n, r - base);
        assert base + (r - base) == r;
      }
    }
    if forall r: nat | base <= r < base + n :: r in seen {
      forall i: nat ensures Bit(w, i) <==> Bit(Pow2(n) - 1, i) {
        MaskBit(n, i);
        LowBit(w, 32, i);
        DivMod(w, Pow2(32), 0, w);
      }
      BitsEqual(w, Pow2(n) - 1);
    }
  }

  // allbits >> (32 - n).
  lemma {:induction false} ShiftedOnes(n: nat)
    requires 0 < n < 32
    ensures ALLBITS / Pow2(32 - n) == Pow2(n) - 1
  {
    assert Pow2(32) == U32 by { Pow2Literals(); }
    Pow2Add(n, 32 - n);
    hide Pow2;
    OnesQuotient(Pow2(n), Pow2(32 - n));
  }

  lemma {:induction false} OnesQuotient(p: nat, q: nat)
    requires p >= 1 && q >= 1
    ensures (p * q - 1) / q == p - 1
  {
    assert p * q == (p - 1) * q + q;
    DivMod(p * q - 1, q, p - 1, q - 1);
  }

  // fields_seen[index >> 5] |= 1 << (index & 31).
  method Mark(words: array<nat>, index: nat, ghost seen: set<nat>)
    requires BitsAre(words[..], seen) && index < MAX_REQUIRED_FIELDS
    modifies words
    ensures BitsAre(words[..], seen + {index})
  {
    hide Bit, Shl, BitOr;
    ghost var w := words[index / 32];
    assert w == words[..][index / 32];
    words[index / 32] := BitOr(words[index / 32], Shl(1, index % 32, 32));
    WordMark(w, index / 32 * 32, seen, index % 32);
    assert index == index / 32 * 32 + index % 32;
  }

  // The final check: whole words first, then the remaining bits. It passes exactly when every one of the first
  // count required fields was seen.
  method AllSeen(words: array<nat>, count: nat, ghost seen: set<nat>) returns (ok: bool)
    requires BitsAre(words[..], seen) && count <= MAX_REQUIRED_FIELDS && forall r | r in seen :: r < count
    ensures ok <==> forall r: nat | r < count :: r in seen
  {
    hide Bit, Pow2, WordIs;
    assert words[0] == words[..][0] && words[1] == words[..][1];
    Pow2Literals();
    var i := 0;
    while i < count / 32
      invariant i <= count / 32
      invariant forall r: nat | r < i * 32 :: r in seen
    {
      WordIsMask(words[i], i * 32, seen, 32);
      if words[i] != ALLBITS {
        return false;
      }
      i := i + 1;
    }
    if count % 32 != 0 {
      ShiftedOnes(count % 32);
      WordIsMask(words[count / 32], count / 32 * 32, seen, count % 32);
      if words[count / 32] != ALLBITS / Pow2(32 - count % 32) {
        return false;
      }
    }
    return true;
  }

  lemma {:induction false} RequiredMono(fs: seq<Field>, i: nat, j: nat)
    requires i <= j <= |fs|
    ensures RequiredBefore(fs, i) <= RequiredBefore(fs, j)
    decreases j
  {
    if i < j { RequiredMono(fs, i, j - 1); }
  }

  // Seeking the end of the descriptor from wherever the iterator stands counts the required fields.
  method CountRequired(iter: FieldIter) returns (count: nat)
    requires iter.Valid() && forall f | f in iter.start :: f.tag != 0
    modifies iter
    ensures iter.Valid()
    ensures count == RequiredBefore(iter.start, |iter.start|)
  {
    // The terminator of a descriptor has the type of a required field, but tag 0.
    var last := false;
    count := 0;
    var more := true;
    while more
      invariant iter.Valid()
      invariant !more && iter.start != [] ==> iter.pos == 0
      invariant !more && iter.start != [] ==>
        count == RequiredBefore(iter.start, |iter.start| - 1) && last == iter.start[|iter.start| - 1].h.Required?
      invariant !more && iter.start == [] ==> count == 0
      decreases more, |iter.start| - iter.pos
    {
      count := iter.requiredFieldIndex;
      last := iter.start == [] || iter.start[iter.pos].h.Required?;
      more := iter.Next();
    }
    var tag := if iter.start == [] then 0 else iter.start[iter.pos].tag;
    if last && tag != 0 { count := count + 1; }
  }
}
