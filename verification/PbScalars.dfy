/** Round trips of the values inside one nanopb field. */
module PbScalars {
  import opened Bits
  import opened Bytes
  import opened PbVarint
  import opened PbSpec

  ghost predicate FitsSigned(n: int, size: nat) {
    IntSize(size) && 0 <= n + Pow2(8 * size - 1) < Pow2(8 * size)
  }

  // A value that a C field of this type can hold and that the field can carry: strings are terminated inside
  // their buffers.
  ghost predicate ValidScalar(f: Field, v: Value) {
    match (f.l, v)
    case (Varint, Num(n)) => FitsSigned(n, f.dataSize)
    case (SVarint, Num(n)) => FitsSigned(n, f.dataSize)
    case (UVarint, Num(n)) => IntSize(f.dataSize) && 0 <= n < Pow2(8 * f.dataSize)
    case (Fixed32, Num(n)) => 0 <= n < U32
    case (Fixed64, Num(n)) => 0 <= n < U64
    case (BytesField, Blob(b)) => |b| + BYTES_OFFSET <= f.dataSize
    case (StringField, Blob(b)) => |b| < f.dataSize && 0 !in b
    case (FixedLengthBytes, Blob(b)) => |b| == f.dataSize
    case _ => false
  }

  lemma {:induction false} IntSizePow(size: nat)
    requires IntSize(size)
    ensures size == 1 ==> Pow2(8 * size) == 0x100 && Pow2(8 * size - 1) == 0x80
    ensures size == 2 ==> Pow2(8 * size) == U16 && Pow2(8 * size - 1) == 0x8000
    ensures size == 4 ==> Pow2(8 * size) == U32 && Pow2(8 * size - 1) == 0x8000_0000
    ensures size == 8 ==> Pow2(8 * size) == U64 && Pow2(8 * size - 1) == 0x8000_0000_0000_0000
  {
    Pow2Literals();
    Pow2Add(8, 8);
    Pow2Add(8, 7);
  }

  lemma {:induction false} WrapsTo(n: int, m: int)
    requires m in [0x100, U16, U32, U64] && -m <= n < m
    ensures n % U64 % m == if n < 0 then n + m else n
  {
  }

  // Sign extension to 64 bits followed by a cast to the low bits loses nothing that fits.
  lemma {:induction false} SignedRecovers(n: int, size: nat)
    requires FitsSigned(n, size)
    ensures Signed(n % U64, 8 * size) == n
  {
    IntSizePow(size);
    hide Pow2;
    WrapsTo(n, Pow2(8 * size));
  }

  lemma {:induction false} WideFits(n: int, size: nat)
    requires FitsSigned(n, size)
    ensures size <= 4 ==> FitsSigned(n, 4)
    ensures FitsSigned(n, 8)
  {
    IntSizePow(size);
    IntSizePow(4);
    IntSizePow(8);
    hide Pow2;
  }

  lemma {:induction false} IntRoundTrip(f: Field, n: int)
    requires f.l.Varint? && FitsSigned(n, f.dataSize)
    ensures IntOf(f, n % U64) == Some(n)
  {
    WideFits(n, f.dataSize);
    hide Pow2, Signed;
    SignedRecovers(n, f.dataSize);
    SignedRecovers(n, if f.dataSize == 8 then 8 else 4);
  }

  lemma {:induction false} SIntRoundTrip(f: Field, n: int)
    requires f.l.SVarint? && FitsSigned(n, f.dataSize)
    ensures ZigZag(n) < U64 && IntOf(f, ZigZag(n)) == Some(n)
  {
    WideFits(n, f.dataSize);
    IntSizePow(8);
    hide Pow2, Signed, ZigZag, UnZigZag;
    SignedRecovers(n, f.dataSize);
    ZigZagRoundTrip(n);
    assert ZigZag(n) % Pow2(64) == ZigZag(n);
  }

  lemma {:induction false} UIntRoundTrip(f: Field, n: int)
    requires f.l.UVarint? && IntSize(f.dataSize) && 0 <= n < Pow2(8 * f.dataSize)
    ensures n < U64 && IntOf(f, n % U64) == Some(n)
  {
    IntSizePow(f.dataSize);
    hide Pow2;
  }

  lemma {:induction false} DelimitedRoundTrip(b: seq<Byte>, rest: seq<Byte>)
    requires |b| < U32
    ensures TakeDelimited(Delimited(b) + rest) == Ok(b, |Delimited(b)|)
  {
    assert |b| % U64 == |b|;
    var head := VarintBytes(|b|);
    Varint32RoundTrip(|b|, b + rest);
    hide VarintBytes, DecodeVarint32;
    var s := Delimited(b) + rest;
    assert s == head + (b + rest);
    assert s[|head|..|head| + |b|] == b;
  }

  // A payload of 2^32 bytes or more is written but cannot be read back: lengths are read as 32-bit numbers.
  lemma {:induction false} DelimitedReadableExactly(b: seq<Byte>, rest: seq<Byte>)
    requires |b| < U64
    ensures TakeDelimited(Delimited(b) + rest) == Ok(b, |Delimited(b)|) <==> |b| < U32
  {
    if |b| < U32 {
      DelimitedRoundTrip(b, rest);
    } else {
      Decoded32Small(Delimited(b) + rest);
    }
  }

  lemma {:induction false} Decoded32Small(s: seq<Byte>)
    ensures DecodeVarint32(s).Ok? ==> DecodeVarint32(s).value < U32
  {
    Pow2Literals();
    if s != [] && s[0] >= 0x80 { Loop32Small(s[1..], 7, s[0] % 0x80); }
  }

  lemma {:induction false} Loop32Small(s: seq<Byte>, bitpos: nat, result: nat)
    requires result < Pow2(32)
    ensures Varint32Loop(s, bitpos, result).Ok? ==> Varint32Loop(s, bitpos, result).value < Pow2(32)
    decreases |s|
  {
    if s != [] {
      Group32Small(s[0], bitpos, result);
      hide ReadGroup32, Pow2;
      var g := ReadGroup32(s[0], bitpos, result);
      if g.More? { Loop32Small(s[1..], g.bitpos, g.result); }
    }
  }

  lemma {:induction false} Group32Small(b: Byte, bitpos: nat, result: nat)
    requires result < Pow2(32)
    ensures var g := ReadGroup32(b, bitpos, result); (g.More? || g.Last?) ==> g.result < Pow2(32)
  {
    hide BitOr, Shl, Pow2;
    OrBound(result, Shl(b % 0x80, bitpos, 32), 32);
  }

  lemma {:induction false} TextOfText(b: seq<Byte>)
    requires 0 !in b
    ensures Text(b) == b
  {
    if b != [] { TextOfText(b[1..]); }
  }

  lemma {:induction false} BlobRoundTrip(f: Field, b: seq<Byte>, rest: seq<Byte>)
    requires ValidScalar(f, Blob(b)) && |b| < U32 - 1
    ensures DecodeBlob(f, Delimited(b) + rest) == Ok(Blob(b), |Delimited(b)|)
  {
    DelimitedRoundTrip(b, rest);
    if f.l.StringField? { TextOfText(b); }
    assert Zeros(0) == [];
    assert BlobOf(f, b) == Some(b);
  }

  lemma {:induction false} FixedRoundTrip(n: nat, size: nat, rest: seq<Byte>)
    requires n < Pow2(8 * size)
    ensures DecodeFixed(LittleEndian(n, size) + rest, size) == Ok(Num(n), size)
  {
    LittleEndianRoundTrip(n, size);
    assert (LittleEndian(n, size) + rest)[..size] == LittleEndian(n, size);
  }

  // Every valid scalar is read back, whatever follows it, and exactly its bytes are consumed.
  lemma {:induction false} ScalarRoundTrip(f: Field, v: Value, rest: seq<Byte>)
    requires ValidScalar(f, v)
    ensures EncodeValue(f, v).Some?
    ensures var b := EncodeValue(f, v).value; |b| < U32 ==> DecodeScalar(f, b + rest) == Ok(v, |b|)
  {
    hide IntOf, BlobOf, DecodeVarint, VarintBytes, LittleEndian, FromLittleEndian, Pow2, ZigZag;
    match f.l
    case Varint =>
      IntRoundTrip(f, v.n);
      VarintRoundTrip(v.n % U64, rest);
    case UVarint =>
      UIntRoundTrip(f, v.n);
      VarintRoundTrip(v.n % U64, rest);
    case SVarint =>
      SIntRoundTrip(f, v.n);
      VarintRoundTrip(ZigZag(v.n), rest);
    case Fixed32 =>
      Pow2Literals();
      FixedRoundTrip(v.n, 4, rest);
    case Fixed64 =>
      Pow2Literals();
      FixedRoundTrip(v.n, 8, rest);
    case Submessage =>
    case BytesField | StringField | FixedLengthBytes =>
      if |Delimited(v.b)| < U32 { BlobRoundTrip(f, v.b, rest); }
  }

  // A string read from the wire is read back exactly when it leaves room for its terminator.
  lemma {:induction false} StringReadableExactly(f: Field, b: seq<Byte>, rest: seq<Byte>)
    requires f.l.StringField? && |b| <= f.dataSize && 0 !in b && |b| < U32 - 1
    ensures EncodeValue(f, Blob(b)) == Some(Delimited(b))
    ensures DecodeScalar(f, Delimited(b) + rest) == Ok(Blob(b), |Delimited(b)|) <==> |b| < f.dataSize
  {
    DelimitedRoundTrip(b, rest);
    TextOfText(b);
  }

  lemma {:induction false} PackedUnfold(f: Field, vs: seq<Value>)
    requires vs != []
    ensures EncodeItems(f, vs, true) == Append(EncodeValue(f, vs[0]), EncodeItems(f, vs[1..], true))
  {
    hide EncodeValue;
    var e := EncodeValue(f, vs[0]);
    if e.Some? { assert [] + e.value == e.value; }
  }

  lemma {:induction false} ItemsUnfold(f: Field, vs: seq<Value>)
    requires vs != []
    ensures EncodeItems(f, vs, false) ==
      Append(Append(Some(TagBytes(f.tag, WireType(f.l))), EncodeValue(f, vs[0])), EncodeItems(f, vs[1..], false))
  {
  }

  lemma {:induction false} PackedStep(f: Field, first: seq<Byte>, others: seq<Byte>, done: seq<Value>, v: Value)
    requires DecodeScalar(f, first + others) == Ok(v, |first|) && |done| < f.arraySize
    ensures DecodePacked(f, first + others, done) == DecodePacked(f, others, done + [v])
  {
    hide DecodeScalar;
    assert (first + others)[|first|..] == others;
  }

  lemma {:induction false} PackedCons(f: Field, vs: seq<Value>, done: seq<Value>, first: seq<Byte>, others: seq<Byte>)
    requires vs != [] && |done| < f.arraySize
    requires EncodeValue(f, vs[0]) == Some(first) && EncodeItems(f, vs[1..], true) == Some(others)
    requires |first + others| < U32 ==>
      && DecodeScalar(f, first + others) == Ok(vs[0], |first|)
      && DecodePacked(f, others, done + [vs[0]]) == Some(done + [vs[0]] + vs[1..])
    ensures EncodeItems(f, vs, true) == Some(first + others)
    ensures |first + others| < U32 ==> DecodePacked(f, first + others, done) == Some(done + vs)
  {
    hide EncodeItems, EncodeValue, DecodeScalar, DecodePacked;
    PackedUnfold(f, vs);
    if |first + others| < U32 {
      PackedStep(f, first, others, done, vs[0]);
      assert done + [vs[0]] + vs[1..] == done + vs;
    }
  }

  ghost predicate ValidScalars(f: Field, vs: seq<Value>) {
    forall v | v in vs :: ValidScalar(f, v)
  }

  // Packed array elements are read back in order until the payload is used up.
  lemma {:induction false} PackedRoundTrip(f: Field, vs: seq<Value>, done: seq<Value>)
    requires Packable(f.l) && ValidScalars(f, vs) && |done| + |vs| <= f.arraySize
    ensures EncodeItems(f, vs, true).Some?
    ensures |EncodeItems(f, vs, true).value| < U32 ==>
              DecodePacked(f, EncodeItems(f, vs, true).value, done) == Some(done + vs)
    decreases |vs|
  {
    if vs == [] {
      assert done + vs == done;
    } else {
      hide EncodeItems, EncodeValue, DecodeScalar, DecodePacked, ValidScalar;
      assert vs[0] in vs && forall v | v in vs[1..] :: v in vs;
      ScalarRoundTrip(f, vs[0], []);
      PackedRoundTrip(f, vs[1..], done + [vs[0]]);
      var first, others := EncodeValue(f, vs[0]).value, EncodeItems(f, vs[1..], true).value;
      ScalarRoundTrip(f, vs[0], others);
      PackedCons(f, vs, done, first, others);
    }
  }
}
