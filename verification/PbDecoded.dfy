/** Whatever bytes arrive, a decoded message fits its struct, and encoding it again is lossless. */
module PbDecoded {
  import opened Bits
  import opened Bytes
  import opened PbVarint
  import opened PbSpec
  import opened PbScalars
  import opened PbRoundTrip

  // The field sizes the generator emits: integers of 1, 2, 4 or 8 bytes, room for a length or a terminator.
  ghost predicate Sized(fs: seq<Field>)
    decreases fs
  {
    forall i | 0 <= i < |fs| ::
      var f := fs[i];
      && (f.l.Varint? || f.l.UVarint? || f.l.SVarint? ==> IntSize(f.dataSize))
      && (f.l.BytesField? ==> f.dataSize >= BYTES_OFFSET)
      && (f.l.StringField? ==> f.dataSize >= 1)
      && (f.l.Submessage? ==> Sized(f.sub))
  }

  lemma {:induction false} ZeroValid(fs: seq<Field>, i: nat)
    requires Sized(fs) && i < |fs|
    ensures ValidValue(fs[i], Zero(fs[i]))
    decreases fs, 0, i
  {
    var f := fs[i];
    if f.l.Submessage? {
      DefaultsValid(f.sub);
    } else if f.l.Varint? || f.l.UVarint? || f.l.SVarint? {
      IntSizePow(f.dataSize);
      hide Pow2;
    }
  }

  lemma {:induction false} DefaultsValid(fs: seq<Field>)
    requires Sized(fs)
    ensures ValidMessage(fs, Defaults(fs))
    decreases fs, 1
  {
    hide ValidValue, Zero, Sized, Defaults, ValidSlot;
    forall i | 0 <= i < |fs| ensures ValidSlot(fs[i], Defaults(fs)[i]) {
      ZeroValid(fs, i);
      DefaultSlotValid(fs, i);
    }
    DefaultsExclusive(fs);
  }

  lemma {:induction false} DefaultSlotValid(fs: seq<Field>, i: nat)
    requires i < |fs| && ValidValue(fs[i], Zero(fs[i]))
    ensures |Defaults(fs)| == |fs| && ValidSlot(fs[i], Defaults(fs)[i])
  {
    hide ValidValue, Zero;
    assert Defaults(fs)[i] == DefaultSlot(fs[i]);
  }

  lemma {:induction false} DefaultsExclusive(fs: seq<Field>)
    ensures |Defaults(fs)| == |fs| && OneofsExclusive(fs, Defaults(fs))
  {
    hide Zero;
    forall i | 0 <= i < |fs| ensures Defaults(fs)[i] == DefaultSlot(fs[i]) {}
  }

  lemma {:induction false} SignedRange(u: nat, size: nat)
    requires IntSize(size)
    ensures FitsSigned(Signed(u, 8 * size), size)
  {
    Pow2Add(1, 8 * size - 1);
  }

  lemma {:induction false} IntValid(f: Field, u: nat)
    requires IntOf(f, u).Some? && (f.l.Varint? || f.l.UVarint? || f.l.SVarint?)
    ensures ValidScalar(f, Num(IntOf(f, u).value))
  {
    hide Signed, Pow2, UnZigZag;
    var n := IntOf(f, u).value;
    if !f.l.UVarint? { SignedRange(n % U64, f.dataSize); }
  }

  lemma {:induction false} LittleEndianBound(s: seq<Byte>)
    ensures FromLittleEndian(s) < Pow2(8 * |s|)
    decreases |s|
  {
    if s != [] {
      LittleEndianBound(s[1..]);
      Pow2Add(8, 8 * (|s| - 1));
      Pow2Literals();
    }
  }

  lemma {:induction false} TextClean(b: seq<Byte>)
    ensures 0 !in Text(b) && |Text(b)| <= |b|
  {
    if b != [] && b[0] != 0 { TextClean(b[1..]); }
  }

  lemma {:induction false} ScalarValid(f: Field, s: seq<Byte>)
    requires DecodeScalar(f, s).Ok? && !f.l.Submessage?
    ensures ValidScalar(f, DecodeScalar(f, s).value)
  {
    hide DecodeVarint, IntOf, Pow2, FromLittleEndian, TakeDelimited, Text;
    match f.l
    case Varint | UVarint | SVarint => IntValid(f, DecodeVarint(s).value);
    case Fixed32 => Pow2Literals(); LittleEndianBound(s[..4]);
    case Fixed64 => Pow2Literals(); LittleEndianBound(s[..8]);
    case StringField => TextClean(TakeDelimited(s).value);
    case BytesField | FixedLengthBytes =>
    case Submessage =>
  }

  lemma {:induction false} PackedValid(f: Field, payload: seq<Byte>, vs: seq<Value>)
    requires Packable(f.l) && |vs| <= f.arraySize && (forall v | v in vs :: ValidValue(f, v))
    requires DecodePacked(f, payload, vs).Some?
    ensures var r := DecodePacked(f, payload, vs).value;
            |r| <= f.arraySize && forall v | v in r :: ValidValue(f, v)
    decreases |payload|
  {
    hide DecodeScalar, ValidScalar;
    if payload != [] {
      ScalarValid(f, payload);
      var d := DecodeScalar(f, payload);
      PackedValid(f, payload[d.used..], vs + [d.value]);
    }
  }

  lemma {:induction false} ValueValid(fs: seq<Field>, i: nat, s: seq<Byte>, current: Value)
    requires Sized(fs) && i < |fs| && ValidValue(fs[i], current)
    requires DecodeValue(fs[i], s, current).Ok?
    ensures ValidValue(fs[i], DecodeValue(fs[i], s, current).value)
    decreases |s|, 2
  {
    var f := fs[i];
    if f.l.Submessage? {
      NoInitValid(f.sub, TakeDelimited(s).value, current.slots);
    } else {
      ScalarValid(f, s);
    }
  }

  lemma {:induction false} FieldValid(fs: seq<Field>, i: nat, wireType: nat, s: seq<Byte>, m: seq<Slot>)
    requires Sized(fs) && ValidMessage(fs, m) && i < |fs|
    requires DecodeField(fs, i, wireType, s, m).Ok?
    ensures ValidMessage(fs, DecodeField(fs, i, wireType, s, m).value)
    decreases |s|, 3
  {
    var f := fs[i];
    assert ValidSlot(f, m[i]);
    ZeroValid(fs, i);
    hide TakeDelimited;
    if f.h.Repeated? && wireType == WT_STRING && Packable(f.l) {
      PackedValid(f, TakeDelimited(s).value, m[i].vs);
      SlotSet(fs, m, i, Many(DecodePacked(f, TakeDelimited(s).value, m[i].vs).value));
    } else if f.h.Repeated? {
      ValueValid(fs, i, s, Zero(f));
      SlotSet(fs, m, i, Many(m[i].vs + [DecodeValue(f, s, Zero(f)).value]));
    } else {
      ValueValid(fs, i, s, Current(f, m[i]));
      var v := DecodeValue(f, s, Current(f, m[i])).value;
      if f.h.Oneof? { OneofSet(fs, m, i, v); } else { SlotSet(fs, m, i, One(v)); }
    }
  }

  lemma {:induction false} SlotSet(fs: seq<Field>, m: seq<Slot>, i: nat, s: Slot)
    requires ValidMessage(fs, m) && i < |fs| && !fs[i].h.Oneof? && ValidSlot(fs[i], s)
    ensures ValidMessage(fs, m[i := s])
  {
    hide ValidSlot;
  }

  lemma {:induction false} OneofSet(fs: seq<Field>, m: seq<Slot>, i: nat, v: Value)
    requires ValidMessage(fs, m) && i < |fs| && fs[i].h.Oneof? && ValidValue(fs[i], v)
    ensures ValidMessage(fs, SetOneof(fs, m, i, v))
  {
    hide ValidValue;
    var m' := SetOneof(fs, m, i, v);
    forall j | 0 <= j < |fs| ensures ValidSlot(fs[j], m'[j]) { assert ValidSlot(fs[j], m[j]); }
  }

  lemma {:induction false} LoopValid(fs: seq<Field>, s: seq<Byte>, st: State)
    requires Sized(fs) && StateOf(fs, st) && ValidMessage(fs, st.m) && DecodeLoop(fs, s, st).Some?
    ensures ValidMessage(fs, DecodeLoop(fs, s, st).value.m)
    decreases |s|, 0
  {
    hide ValidMessage, Sized, DecodeVarint32, SkipField, Find, DecodeField;
    if s != [] {
      var r := DecodeStep(fs, s, st);
      if r.Next? {
        var k := DecodeVarint32(s).used;
        var key := DecodeVarint32(s).value;
        var i := Find(fs, st.pos, key / 8);
        if i.Some? { FieldValid(fs, i.value, key % 8, s[k..], st.m); }
        LoopValid(fs, s[r.used..], r.st);
      }
    }
  }

  lemma {:induction false} NoInitValid(fs: seq<Field>, s: seq<Byte>, m: seq<Slot>)
    requires Sized(fs) && ValidMessage(fs, m) && DecodeNoInit(fs, s, m).Some?
    ensures ValidMessage(fs, DecodeNoInit(fs, s, m).value)
    decreases |s|, 1
  {
    LoopValid(fs, s, InitialState(fs, m));
  }

  // No input overruns the struct: counts stay within their arrays, byte strings within their buffers, strings
  // are terminated, integers fit their fields and at most one member of a oneof is set.
  lemma {:induction false} DecodedFits(fs: seq<Field>, s: seq<Byte>)
    requires Sized(fs) && Decode(fs, s).Some?
    ensures ValidMessage(fs, Decode(fs, s).value)
  {
    DefaultsValid(fs);
    NoInitValid(fs, s, Defaults(fs));
  }

  // Encoding what was decoded, and decoding that, gives the same message: the first encoding need not be
  // canonical, the second one is.
  lemma {:induction false} DecodedSurvivesEncoding(fs: seq<Field>, s: seq<Byte>)
    requires Sized(fs) && GoodFields(fs) && Decode(fs, s).Some?
    ensures EncodeMessage(fs, Decode(fs, s).value).Some?
    ensures var b := EncodeMessage(fs, Decode(fs, s).value).value; |b| < U32 ==> Decode(fs, b) == Decode(fs, s)
  {
    DecodedFits(fs, s);
    MessageRoundTrip(fs, Decode(fs, s).value);
  }
}
