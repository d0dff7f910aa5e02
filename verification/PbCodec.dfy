/** Encoding into a buffer and decoding from it, by the streams themselves. */
module PbCodec {
  import opened Bits
  import opened Bytes
  import opened PbVarint
  import opened PbSpec
  import opened PbScalars
  import opened PbRoundTrip
  import opened PbEncode
  import opened PbDecode

  // A valid message has the shape that the encoder demands.
  lemma {:induction false} ValidIsShaped(fs: seq<Field>, m: seq<Slot>)
    requires ValidMessage(fs, m)
    ensures Shaped(fs, m)
    decreases fs, 2
  {
    forall i | 0 <= i < |fs| ensures ShapedSlot(fs[i], m[i]) { ValidSlotIsShaped(fs[i], m[i]); }
  }

  lemma {:induction false} ValidSlotIsShaped(f: Field, s: Slot)
    requires ValidSlot(f, s)
    ensures ShapedSlot(f, s)
    decreases f, 1
  {
    match s
    case Absent =>
    case One(v) => ValidValueIsShaped(f, v);
    case Many(vs) => forall v | v in vs ensures ShapedValue(f, v) { ValidValueIsShaped(f, v); }
  }

  lemma {:induction false} ValidValueIsShaped(f: Field, v: Value)
    requires ValidValue(f, v)
    ensures ShapedValue(f, v)
    decreases f, 0
  {
    if f.l.Submessage? {
      ValidIsShaped(f.sub, v.slots);
    } else if Packable(f.l) {
      ScalarFits(f, v);
    }
  }

  lemma {:induction false} ScalarFits(f: Field, v: Value)
    requires ValidScalar(f, v) && Packable(f.l)
    ensures v.Num? && FitsBytes(v.n, Width(f))
  {
    hide Pow2;
    Pow2Literals();
    if f.l.Varint? || f.l.SVarint? { Pow2Mono(8 * f.dataSize - 1, 8 * f.dataSize); }
  }

  lemma {:induction false} GoodIsTagged(fs: seq<Field>)
    requires GoodFields(fs)
    ensures Tagged(fs)
    decreases fs
  {
    forall f | f in fs ensures f.tag != 0 && (f.l.Submessage? ==> Tagged(f.sub)) {
      var i :| 0 <= i < |fs| && fs[i] == f;
      if f.l.Submessage? { GoodIsTagged(f.sub); }
    }
  }

  // pb_decode of all bytes of a buffer into a struct, whatever the struct holds.
  method Load(fs: seq<Field>, bytes: seq<Byte>) returns (loaded: Option<seq<Slot>>)
    requires GoodFields(fs)
    ensures loaded == Decode(fs, bytes)
  {
    GoodIsTagged(fs);
    hide GoodFields, Tagged, DecodeNoInit;
    var input := new IStream(bytes, 0, |bytes|);
    assert input.Rest() == bytes;
    var dest := new Struct(seq(|fs|, _ => Absent));
    var ok := input.Decode(fs, dest);
    return if ok then Some(dest.slots) else None;
  }

  // pb_encode into a buffer: it succeeds exactly when there is room, and touches no byte beyond the message.
  method Store(fs: seq<Field>, m: seq<Slot>, buf: array<Byte>) returns (size: nat, stored: bool)
    requires Shaped(fs, m) && EncodeMessage(fs, m).Some?
    modifies buf
    ensures stored <==> |EncodeMessage(fs, m).value| <= buf.Length
    ensures stored ==>
      size <= buf.Length && buf[..size] == EncodeMessage(fs, m).value && buf[size..] == old(buf[..])[size..]
  {
    ghost var before := buf[..];
    var out := new OStream.FromBuffer(buf, 0, buf.Length);
    ghost var s := out.Snap();
    hide EncodeMessage, Shaped, Emits, Kept, Sound;
    stored := out.Encode(fs, m);
    size := out.bytesWritten;
    FromStart(s, out.Snap(), stored, EncodeMessage(fs, m));
  }

  lemma {:induction false} FromStart(s: Snapshot, t: Snapshot, ok: bool, e: Option<seq<Byte>>)
    requires Emits(s, t, ok, e) && e.Some? && s.memory.Some?
    requires s.state == s.bytesWritten == 0 && s.out == [] && s.maxSize == |s.memory.value|
    ensures ok <==> |e.value| <= |s.memory.value|
    ensures t.memory.Some?
    ensures ok ==>
      var n, memory := t.bytesWritten, t.memory.value;
      n <= |memory| == |s.memory.value| && memory[..n] == e.value && memory[n..] == s.memory.value[n..]
  {
  }

  // Every valid message is stored if there is room for its counted size, and then the decoder, reading what the
  // encoder wrote, fills in the same message.
  method StoreAndLoad(fs: seq<Field>, m: seq<Slot>, buf: array<Byte>) returns (loaded: Option<seq<Slot>>)
    requires GoodFields(fs) && ValidMessage(fs, m)
    modifies buf
    ensures EncodeMessage(fs, m).Some?
    ensures |EncodeMessage(fs, m).value| > buf.Length ==> loaded == None
    ensures |EncodeMessage(fs, m).value| <= buf.Length < U32 ==> loaded == Some(m)
  {
    ValidIsShaped(fs, m);
    MessageRoundTrip(fs, m);
    hide EncodeMessage, Decode, GoodFields, ValidMessage, Shaped;
    var size, stored := Store(fs, m, buf);
    if !stored { return None; }
    loaded := Load(fs, buf[..size]);
  }
}
