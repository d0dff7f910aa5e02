/** The wire format by itself: what a payload of each wire type looks like, and that exactly such payloads are
    skipped. */
module PbWire {
  import opened Bits
  import opened Bytes
  import opened PbVarint
  import opened PbSpec
  import opened PbRoundTrip

  // Groups of seven bits: all bytes but the last have their highest bit set.
  ghost predicate IsVarint(b: seq<Byte>) {
    b != [] && b[|b| - 1] < 0x80 && forall i | 0 <= i < |b| - 1 :: b[i] >= 0x80
  }

  // A length in front of that many bytes.
  ghost predicate LengthPrefixed(b: seq<Byte>) {
    match DecodeVarint32(b)
    case Err => false
    case Ok(len, used) => used + len == |b|
  }

  // A payload of this wire type; there is none of any other type.
  ghost predicate WellFormed(wireType: nat, payload: seq<Byte>) {
    if wireType == 0 then IsVarint(payload)
    else if wireType == 1 then |payload| == 8
    else if wireType == 2 then LengthPrefixed(payload)
    else if wireType == 5 then |payload| == 4
    else false
  }

  // Skipping takes n bytes exactly if the first n bytes are one well-formed payload; so a payload is skipped whole,
  // whatever follows, and anything else is refused.
  lemma {:induction false} SkipsExactly(s: seq<Byte>, wireType: nat, n: nat)
    ensures SkipField(s, wireType) == Ok((), n) <==> n <= |s| && WellFormed(wireType, s[..n])
  {
    if wireType == 0 {
      SkipsVarint(s, n);
    } else if wireType == 2 {
      SkipsDelimited(s, n);
    }
  }

  lemma {:induction false} SkipsVarint(s: seq<Byte>, n: nat)
    ensures SkipVarint(s) == Ok((), n) <==> n <= |s| && IsVarint(s[..n])
    decreases |s|
  {
    if s != [] && s[0] >= 0x80 && 0 < n {
      SkipsVarint(s[1..], n - 1);
      if n <= |s| {
        var t, u := s[..n], s[1..][..n - 1];
        assert t[1..] == u;
        assert (forall i | 0 <= i < |t| - 1 :: t[i] >= 0x80) <==> (forall i | 0 <= i < |u| - 1 :: u[i] >= 0x80) by {
          assert forall i | 0 < i < |t| :: t[i] == u[i - 1];
        }
      }
    }
  }

  lemma {:induction false} SkipsDelimited(s: seq<Byte>, n: nat)
    ensures SkipField(s, 2) == Ok((), n) <==> n <= |s| && LengthPrefixed(s[..n])
  {
    hide DecodeVarint32;
    var d := DecodeVarint32(s);
    if d.Ok? && d.used + d.value == n <= |s| {
      assert s[..n][..d.used] == s[..d.used];
      Varint32Local(s, s[..n]);
    }
    if n <= |s| && LengthPrefixed(s[..n]) {
      var k := DecodeVarint32(s[..n]).used;
      assert s[..n][..k] == s[..k];
      Varint32Local(s[..n], s);
    }
  }

  // ---- What the encoder sends ----

  lemma {:induction false} VarintIsVarint(n: nat)
    ensures IsVarint(VarintBytes(n))
    decreases n
  {
    if n >= 0x80 {
      VarintIsVarint(n / 0x80);
      var t, u := VarintBytes(n), VarintBytes(n / 0x80);
      assert t == [n % 0x80 + 0x80] + u;
      assert forall i | 0 < i < |t| :: t[i] == u[i - 1];
    }
  }

  lemma {:induction false} DelimitedIsPrefixed(b: seq<Byte>)
    requires |b| < U32
    ensures LengthPrefixed(Delimited(b))
  {
    hide VarintBytes, DecodeVarint32;
    var d := VarintBytes(|b|) + b;
    assert Delimited(b) == d by { assert |b| % U64 == |b|; }
    hide Delimited;
    Varint32RoundTrip(|b|, b);
  }

  // The payload of a value is one of the wire type that its key announces: 0 for varints, 5 and 1 for four and eight
  // bytes, 2 for everything with a length.
  lemma {:induction false} PayloadMatchesKey(f: Field, v: Value)
    requires EncodeValue(f, v).Some? && |EncodeValue(f, v).value| < U32
    ensures WellFormed(WireType(f.l), EncodeValue(f, v).value)
  {
    hide VarintBytes, LittleEndian, ZigZag, Delimited, EncodeMessage, LengthPrefixed;
    match (f.l, v)
    case (Varint, Num(n)) => VarintIsVarint(n % U64);
    case (UVarint, Num(n)) => VarintIsVarint(n % U64);
    case (SVarint, Num(n)) => VarintIsVarint(ZigZag(n));
    case (BytesField, Blob(b)) => DelimitedLength(b); DelimitedIsPrefixed(b);
    case (StringField, Blob(b)) => DelimitedLength(b); DelimitedIsPrefixed(b);
    case (FixedLengthBytes, Blob(b)) => DelimitedLength(b); DelimitedIsPrefixed(b);
    case (Submessage, Msg(slots)) =>
      var b := EncodeMessage(f.sub, slots).value;
      DelimitedLength(b);
      DelimitedIsPrefixed(b);
    case _ =>
  }

  lemma {:induction false} DelimitedLength(b: seq<Byte>)
    ensures |Delimited(b)| > |b|
  {
  }

  // The key of a field whose tag is below 16 is one byte: the tag and, in its lowest three bits, the wire type.
  lemma {:induction false} KeyByte(f: Field)
    requires 0 < f.tag < 16
    ensures TagBytes(f.tag, WireType(f.l)) ==
      [f.tag * 8 + match f.l
                   case Varint | UVarint | SVarint => 0
                   case Fixed64 => 1
                   case BytesField | StringField | Submessage | FixedLengthBytes => 2
                   case Fixed32 => 5]
  {
    KeyValue(f.tag, WireType(f.l));
    hide BitOr, Shl;
  }
}
