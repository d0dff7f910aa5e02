/** The encoder of nanopb: an output stream that writes to a buffer, or only counts. */
module PbEncode {
  import opened Bits
  import opened Bytes
  import opened PbVarint
  import opened PbSpec
  import opened PbIter

  // ---- What the loops compute ----

  // The loop of pb_encode_varint, over its ten bytes of buffer.
  method VarintBuffer(value: nat) returns (buffer: array<Byte>, i: nat)
    requires 0 < value < U64
    ensures i <= buffer.Length == 10 && buffer[..i] == VarintBytes(value)
  {
    VarintAtMostTen(value);
    buffer := new Byte[10](_ => 0);
    var v := value;
    i := 0;
    ghost var done: seq<Byte> := [];
    hide VarintBytes;
    while v != 0
      invariant i <= 10 && |done| == i && buffer[..i] == done && BufferHolds(value, done, v)
      decreases v
    {
      BufferStep(value, done, v);
      done := done + [v % 0x80 + 0x80];
      buffer[i] := v % 0x80 + 0x80;
      v := v / 0x80;
      i := i + 1;
      assert buffer[..i] == done;
    }
    buffer[i - 1] := buffer[i - 1] % 0x80;
    assert buffer[..i] == done[..i - 1] + [done[i - 1] % 0x80];
  }

  // The bytes in the buffer so far, all with their top bit set, and the part v of the value still to come.
  ghost predicate BufferHolds(value: nat, done: seq<Byte>, v: nat) {
    if v != 0 then VarintBytes(value) == done + VarintBytes(v) && |done| + |VarintBytes(v)| <= 10
    else done != [] && VarintBytes(value) == done[..|done| - 1] + [done[|done| - 1] % 0x80]
  }

  lemma {:induction false} BufferStep(value: nat, done: seq<Byte>, v: nat)
    requires v != 0 && BufferHolds(value, done, v)
    ensures |done| < 10 && BufferHolds(value, done + [v % 0x80 + 0x80], v / 0x80)
  {
    var next := done + [v % 0x80 + 0x80];
    if v >= 0x80 {
      assert done + ([v % 0x80 + 0x80] + VarintBytes(v / 0x80)) == next + VarintBytes(v / 0x80);
    } else {
      assert VarintBytes(v) == [v] && (v % 0x80 + 0x80) % 0x80 == v;
      assert next[..|next| - 1] == done;
    }
  }

  lemma {:induction false} TagFits(tag: nat, wireType: nat)
    requires wireType < 8
    ensures BitOr(Shl(tag, 3, 64), wireType) < U64
  {
    Pow2Literals();
    OrBound(Shl(tag, 3, 64), wireType, 64);
  }

  lemma {:induction false} ZigZagFits(v: int)
    ensures ZigZag(v) < U64
  {
    Pow2Literals();
  }

  lemma {:induction false} FourBytes(n: nat)
    requires n < U32
    ensures LittleEndian(n, 4) == [n % 0x100, n / 0x100 % 0x100, n / 0x1_0000 % 0x100, n / 0x100_0000 % 0x100]
  {
    assert n / 0x100 / 0x100 == n / 0x1_0000 && n / 0x1_0000 / 0x100 == n / 0x100_0000;
    assert LittleEndian(n / 0x1_0000, 2) == [n / 0x1_0000 % 0x100, n / 0x100_0000 % 0x100];
  }

  lemma {:induction false} EightBytes(n: nat)
    requires n < U64
    ensures LittleEndian(n, 8)
      == [n % 0x100, n / 0x100 % 0x100, n / 0x1_0000 % 0x100, n / 0x100_0000 % 0x100, n / U32 % 0x100,
          n / 0x100_0000_0000 % 0x100, n / 0x1_0000_0000_0000 % 0x100, n / 0x100_0000_0000_0000 % 0x100]
  {
    hide LittleEndian;
    var a, b, c := n / 0x1_0000, n / U32, n / 0x1_0000_0000_0000;
    DivTwice(n, 0x1_0000, 0x1_0000);
    DivTwice(n, U32, 0x1_0000);
    DivTwice(n, 0x1_0000, 0x100);
    DivTwice(n, U32, 0x100);
    DivTwice(n, 0x1_0000_0000_0000, 0x100);
    TwoBytes(n, 6);
    TwoBytes(a, 4);
    TwoBytes(b, 2);
    TwoBytes(c, 0);
    NoBytes(c / 0x1_0000);
  }

  lemma {:induction false} NoBytes(n: nat)
    ensures LittleEndian(n, 0) == []
  {
  }

  lemma {:induction false} TwoBytes(n: nat, k: nat)
    ensures LittleEndian(n, k + 2) == [n % 0x100, n / 0x100 % 0x100] + LittleEndian(n / 0x1_0000, k)
  {
    assert n / 0x100 / 0x100 == n / 0x1_0000;
  }

  lemma {:induction false} FixedItems(f: Field, vs: seq<Value>, size: nat)
    requires (f.l.Fixed32? && size == 4) || (f.l.Fixed64? && size == 8)
    requires forall v | v in vs :: v.Num?
    ensures EncodeItems(f, vs, true).Some? && |EncodeItems(f, vs, true).value| == size * |vs|
    decreases |vs|
  {
    if vs != [] {
      assert vs[0] in vs && forall v | v in vs[1..] :: v in vs;
      FixedItems(f, vs[1..], size);
    }
  }

  // One array element: with its own tag, or packed without.
  ghost function ElementBytes(f: Field, v: Value, packed: bool): Option<seq<Byte>> {
    Append(Some(if packed then [] else TagBytes(f.tag, WireType(f.l))), EncodeValue(f, v))
  }

  // The elements of an array from position i on, after those before it have been written as done.
  ghost predicate ItemsFrom(f: Field, vs: seq<Value>, packed: bool, i: nat, done: seq<Byte>) {
    i <= |vs| && EncodeItems(f, vs, packed) == Append(Some(done), EncodeItems(f, vs[i..], packed))
  }

  lemma {:induction false} NextItem(f: Field, vs: seq<Value>, packed: bool, i: nat, done: seq<Byte>)
    requires ItemsFrom(f, vs, packed, i, done) && i < |vs|
    ensures var e := ElementBytes(f, vs[i], packed);
            if e.None? then EncodeItems(f, vs, packed).None?
            else
              && ItemsFrom(f, vs, packed, i + 1, done + e.value)
              && (EncodeItems(f, vs, packed).Some? ==> |EncodeItems(f, vs, packed).value| >= |done| + |e.value|)
  {
    hide EncodeValue, TagBytes;
    assert vs[i..][1..] == vs[i + 1..] && vs[i..][0] == vs[i];
    var tag := if packed then [] else TagBytes(f.tag, WireType(f.l));
    var e, others := EncodeValue(f, vs[i]), EncodeItems(f, vs[i + 1..], packed);
    if e.Some? && others.Some? {
      assert done + (tag + e.value + others.value) == done + (tag + e.value) + others.value;
    }
  }

  ghost predicate FieldsFrom(fs: seq<Field>, m: seq<Slot>, i: nat, done: seq<Byte>)
    requires |m| == |fs|
  {
    i <= |fs| && EncodeMessage(fs, m) == Append(Some(done), EncodeMessage(fs[i..], m[i..]))
  }

  lemma {:induction false} NextField(fs: seq<Field>, m: seq<Slot>, i: nat, done: seq<Byte>)
    requires |m| == |fs| && FieldsFrom(fs, m, i, done) && i < |fs|
    ensures var e := EncodeSlot(fs[i], m[i]);
            if e.None? then EncodeMessage(fs, m).None?
            else
              && FieldsFrom(fs, m, i + 1, done + e.value)
              && (EncodeMessage(fs, m).Some? ==> |EncodeMessage(fs, m).value| >= |done| + |e.value|)
  {
    hide EncodeSlot;
    assert fs[i..][1..] == fs[i + 1..] && m[i..][1..] == m[i + 1..];
    var e, others := EncodeSlot(fs[i], m[i]), EncodeMessage(fs[i + 1..], m[i + 1..]);
    if e.Some? && others.Some? { assert done + (e.value + others.value) == done + e.value + others.value; }
  }

  lemma {:induction false} AllItems(f: Field, vs: seq<Value>, packed: bool, done: seq<Byte>)
    requires ItemsFrom(f, vs, packed, |vs|, done)
    ensures EncodeItems(f, vs, packed) == Some(done)
  {
    assert done + [] == done;
  }

  lemma {:induction false} AllFields(fs: seq<Field>, m: seq<Slot>, done: seq<Byte>)
    requires |m| == |fs| && FieldsFrom(fs, m, |fs|, done)
    ensures EncodeMessage(fs, m) == Some(done)
  {
    assert done + [] == done;
  }

  lemma {:induction false} ItemsStart(f: Field, vs: seq<Value>, packed: bool)
    ensures ItemsFrom(f, vs, packed, 0, [])
  {
    hide EncodeItems;
    assert vs[0..] == vs;
    var e := EncodeItems(f, vs, packed);
    if e.Some? { assert [] + e.value == e.value; }
  }

  lemma {:induction false} FieldsStart(fs: seq<Field>, m: seq<Slot>)
    requires |m| == |fs|
    ensures FieldsFrom(fs, m, 0, [])
    ensures fs == [] ==> EncodeMessage(fs, m) == Some([])
  {
    assert fs[0..] == fs && m[0..] == m;
    var e := EncodeMessage(fs, m);
    if e.Some? { assert [] + e.value == e.value; }
  }

  ghost function PackedBody(f: Field, vs: seq<Value>): Option<seq<Byte>> {
    match EncodeItems(f, vs, true)
    case None => None
    case Some(b) => Some(Delimited(b))
  }

  ghost function DelimitedMessage(fs: seq<Field>, m: seq<Slot>): Option<seq<Byte>> {
    match EncodeMessage(fs, m)
    case None => None
    case Some(b) => Some(Delimited(b))
  }

  // The character at position i of a string buffer that holds the text b.
  function CharAt(b: seq<Byte>, i: nat): Byte {
    if i < |b| then b[i] else 0
  }

  // ---- The proto3 zero check ----

  lemma {:induction false} AllZeroMeans(fs: seq<Field>, m: seq<Slot>)
    requires |m| == |fs|
    ensures AllZero(fs, m) <==> forall i | 0 <= i < |fs| :: IsZero(fs[i], m[i])
    decreases |fs|
  {
    hide IsZero;
    if fs != [] {
      AllZeroMeans(fs[1..], m[1..]);
      forall i | 0 < i < |fs| ensures fs[i] == fs[1..][i - 1] && m[i] == m[1..][i - 1] {}
      if forall i | 0 <= i < |fs| - 1 :: IsZero(fs[1..][i], m[1..][i]) {
        forall i | 0 < i < |fs| ensures IsZero(fs[i], m[i]) { assert IsZero(fs[1..][i - 1], m[1..][i - 1]); }
      }
    }
  }

  // pb_check_proto3_default_value for field i of a message.
  method CheckDefault(fs: seq<Field>, m: seq<Slot>, i: nat) returns (zero: bool)
    requires Shaped(fs, m) && i < |fs|
    ensures zero ==> IsZero(fs[i], m[i])
    ensures AllZero(fs, m) ==> zero
    ensures !fs[i].h.Oneof? ==> zero == IsZero(fs[i], m[i])
    decreases fs, 0
  {
    var f, s := fs[i], m[i];
    assert ShapedSlot(f, s);
    AllZeroMeans(fs, m);
    match f.h
    case Required => zero := false;
    case Repeated => zero := s.vs == [];
    case Optional => zero := s.Absent?;
    case Oneof(_) =>
      var j := 0;
      while j < |fs|
        invariant j <= |fs| && forall k | 0 <= k < j && fs[k].h == f.h :: m[k].Absent?
      {
        if fs[j].h == f.h && !m[j].Absent? {
          assert !IsZero(fs[j], m[j]);
          return false;
        }
        j := j + 1;
      }
      zero := true;
    case Singular =>
      match f.l
      case FixedLengthBytes => zero := f.dataSize == 0;
      case Submessage => zero := CheckMessage(f.sub, s.v.slots);
      case BytesField | StringField => zero := s.v.b == [];
      case _ =>
        NumberIsZero(s.v.n, Width(f));
        zero := AllBytesZero(IntBytes(s.v.n, Width(f)));
  }

  // The bytes of a C integer of k bytes.
  function IntBytes(n: int, k: nat): seq<Byte> {
    LittleEndian(n % Pow2(8 * k), k)
  }

  lemma {:induction false} NumberIsZero(n: int, k: nat)
    requires FitsBytes(n, k)
    ensures (forall i | 0 <= i < k :: IntBytes(n, k)[i] == 0) <==> n == 0
  {
    hide Pow2, LittleEndian, FromLittleEndian;
    var p := Pow2(8 * k);
    DivMod(n, p, if n < 0 then -1 else 0, if n < 0 then n + p else n);
    LittleEndianRoundTrip(n % p, k);
    ZeroBytes(IntBytes(n, k));
  }

  lemma {:induction false} ZeroBytes(s: seq<Byte>)
    ensures (forall i | 0 <= i < |s| :: s[i] == 0) <==> FromLittleEndian(s) == 0
  {
    if s != [] {
      ZeroBytes(s[1..]);
      assert (forall i | 0 < i < |s| :: s[i] == 0) <==> forall i | 0 <= i < |s| - 1 :: s[1..][i] == 0 by {
        assert forall i | 0 < i < |s| :: s[i] == s[1..][i - 1];
      }
    }
  }

  // The byte-by-byte comparison of pb_check_proto3_default_value.
  method AllBytesZero(p: seq<Byte>) returns (zero: bool)
    ensures zero <==> forall i | 0 <= i < |p| :: p[i] == 0
  {
    var i := 0;
    while i < |p|
      invariant i <= |p| && forall j | 0 <= j < i :: p[j] == 0
    {
      if p[i] != 0 { return false; }
      i := i + 1;
    }
    return true;
  }

  method CheckMessage(fs: seq<Field>, m: seq<Slot>) returns (zero: bool)
    requires Shaped(fs, m)
    ensures zero == AllZero(fs, m)
    decreases fs, 1
  {
    AllZeroMeans(fs, m);
    if fs == [] { return true; }
    var iter := new FieldIter(fs, 0);
    var more := true;
    while more
      invariant fresh(iter) && iter.Valid() && iter.start == fs
      invariant more ==> forall k | 0 <= k < iter.pos :: IsZero(fs[k], m[k])
      invariant !more ==> forall k | 0 <= k < |fs| :: IsZero(fs[k], m[k])
      decreases more, |fs| - iter.pos
    {
      var ok := CheckDefault(fs, m, iter.pos);
      if !ok { return false; }
      more := iter.Next();
    }
    return true;
  }

  // ---- What a call does to a stream ----

  // A stream as a value: the memory it writes to, if any, and its fields. out is everything it was given so far.
  datatype Snapshot = Snapshot(memory: Option<seq<Byte>>, maxSize: nat, state: nat, bytesWritten: nat, out: seq<Byte>)

  ghost predicate Sound(s: Snapshot) {
    && |s.out| == s.bytesWritten
    && (s.memory.Some? ==>
          && s.bytesWritten <= s.maxSize && s.bytesWritten <= s.state
          && s.state + (s.maxSize - s.bytesWritten) <= |s.memory.value|
          && s.memory.value[s.state - s.bytesWritten..s.state] == s.out)
  }

  ghost predicate Fits(s: Snapshot, n: nat) {
    s.memory.None? || s.bytesWritten + n <= s.maxSize
  }

  // No byte of memory changed but those from the old position to the new one.
  ghost predicate Kept(s: Snapshot, t: Snapshot) {
    && s.memory.Some? == t.memory.Some? && s.maxSize == t.maxSize
    && s.bytesWritten <= t.bytesWritten
    && (s.memory.Some? ==>
          && t.state - s.state == t.bytesWritten - s.bytesWritten
          && |t.memory.value| == |s.memory.value|
          && forall i | 0 <= i < |s.memory.value|
              && !(s.state <= i < t.state) :: t.memory.value[i] == s.memory.value[i])
  }

  // The call succeeded exactly when there was something to write and room for it, and then wrote exactly that.
  ghost predicate Emits(s: Snapshot, t: Snapshot, ok: bool, e: Option<seq<Byte>>) {
    && Sound(t) && Kept(s, t)
    && (ok <==> e.Some? && Fits(s, |e.value|))
    && (ok ==> t.out == s.out + e.value)
  }

  lemma {:induction false} KeptThen(s: Snapshot, t: Snapshot, u: Snapshot)
    requires Kept(s, t) && Kept(t, u)
    ensures Kept(s, u)
  {
  }

  lemma {:induction false} EmitsThen(s: Snapshot, t: Snapshot, u: Snapshot, a: seq<Byte>, ok: bool,
                                     b: Option<seq<Byte>>)
    requires Emits(s, t, true, Some(a)) && Emits(t, u, ok, b) && Sound(s)
    ensures Emits(s, u, ok, Append(Some(a), b))
  {
    KeptThen(s, t, u);
    if ok { assert s.out + a + b.value == s.out + (a + b.value); }
  }

  lemma {:induction false} EmitsFails(s: Snapshot, t: Snapshot, a: Option<seq<Byte>>, e: Option<seq<Byte>>)
    requires Emits(s, t, false, a)
    requires e.Some? ==> a.Some? && |a.value| <= |e.value|
    ensures Emits(s, t, false, e)
  {
  }

  lemma {:induction false} EmitsSound(s: Snapshot, t: Snapshot, ok: bool, e: Option<seq<Byte>>)
    requires Emits(s, t, ok, e)
    ensures Sound(t) && (ok <==> e.Some? && Fits(s, |e.value|))
  {
  }

  lemma {:induction false} EmitsNothing(s: Snapshot)
    requires Sound(s)
    ensures Emits(s, s, true, Some([]))
  {
  }

  // One more part e of a whole: either all that was done so far and e is written, or the whole fails.
  lemma {:induction false} EmitsPart(s: Snapshot, t: Snapshot, u: Snapshot, done: seq<Byte>, ok: bool,
                                     e: Option<seq<Byte>>,
                                     whole: Option<seq<Byte>>)
    requires Sound(s) && Emits(s, t, true, Some(done)) && Emits(t, u, ok, e)
    requires whole.Some? ==> e.Some? && |whole.value| >= |done| + |e.value|
    ensures Sound(u) && (ok ==> e.Some? && Emits(s, u, true, Some(done + e.value)))
             && (!ok ==> Emits(s, u, false, whole))
  {
    EmitsThen(s, t, u, done, ok, e);
    EmitsSound(t, u, ok, e);
    hide Kept, Sound;
    if !ok { EmitsFails(s, u, Append(Some(done), e), whole); }
  }

  // A substream that was given exactly the room it needed: the parent takes over where it stopped.
  lemma {:induction false} SubstreamEmits(s: Snapshot, sub: Snapshot, sub': Snapshot, e: seq<Byte>)
    requires Sound(s) && s.memory.Some? && s.bytesWritten + |e| <= s.maxSize
    requires sub == Snapshot(s.memory, |e|, s.state, 0, [])
    requires Emits(sub, sub', true, Some(e))
    ensures sub'.bytesWritten == |e|
    ensures Emits(s, Snapshot(sub'.memory, s.maxSize, sub'.state, s.bytesWritten + |e|, s.out + e), true, Some(e))
  {
    var before, after := s.memory.value, sub'.memory.value;
    var start := s.state - s.bytesWritten;
    assert sub'.out == e && sub'.state == s.state + |e|;
    JoinSlices(before, after, start, s.state, sub'.state);
  }

  lemma {:induction false} JoinSlices(before: seq<Byte>, after: seq<Byte>, a: nat, b: nat, c: nat)
    requires a <= b <= c <= |after| == |before| && forall i | 0 <= i < b :: after[i] == before[i]
    ensures after[a..c] == before[a..b] + after[b..c]
  {
  }

  // Sizing equals writing: the same data fits a buffer exactly when the size counted for it does, and then takes
  // exactly that many bytes of it.
  lemma {:induction false} SizingEqualsWriting(s: Snapshot, t: Snapshot, counted: bool, u: Snapshot, v: Snapshot,
                                          ok: bool,
                                               e: Option<seq<Byte>>)
    requires Sound(s) && s.memory.None? && Emits(s, t, counted, e)
    requires Sound(u) && u.memory.Some? && Emits(u, v, ok, e)
    ensures ok <==> counted && t.bytesWritten - s.bytesWritten <= u.maxSize - u.bytesWritten
    ensures ok ==> v.bytesWritten - u.bytesWritten == t.bytesWritten - s.bytesWritten
    ensures ok ==> v.memory.value[u.state..v.state] == t.out[s.bytesWritten..]
  {
    if ok {
      var all := v.memory.value[v.state - v.bytesWritten..v.state];
      assert all == u.out + e.value && t.out == s.out + e.value;
      assert all[u.bytesWritten..] == v.memory.value[u.state..v.state];
    }
  }

  /** pb_ostream_t. A stream without memory only counts the bytes. */
  class OStream {
    const mem: array?<Byte>
    const maxSize: nat
    var state: nat
    var bytesWritten: nat
    ghost var out: seq<Byte>

    ghost function Snap(): Snapshot
      reads this, mem
    {
      Snapshot(if mem == null then None else Some(mem[..]), maxSize, state, bytesWritten, out)
    }

    ghost predicate Valid()
      reads this, mem
    {
      Sound(Snap())
    }

    // PB_OSTREAM_SIZING.
    constructor Sizing()
      ensures Valid() && mem == null && out == []
    {
      mem, maxSize, state, bytesWritten, out := null, 0, 0, 0, [];
    }

    // pb_ostream_from_buffer.
    constructor FromBuffer(buf: array<Byte>, start: nat, size: nat)
      requires start + size <= buf.Length
      ensures Valid() && mem == buf && maxSize == size && state == start && out == []
    {
      mem, maxSize, state, bytesWritten, out := buf, size, start, 0, [];
    }

    // pb_write.
    method Write(buf: seq<Byte>) returns (ok: bool)
      requires Valid()
      modifies this, mem
      ensures Emits(old(Snap()), Snap(), ok, Some(buf))
    {
      if mem != null {
        if bytesWritten + |buf| > maxSize { return false; }
        var dest := state;
        state := dest + |buf|;
        CopyTo(dest, buf);
        assert mem[dest - bytesWritten..dest] == old(mem[state - bytesWritten..state]);
        assert mem[dest - bytesWritten..state] == mem[dest - bytesWritten..dest] + mem[dest..state];
      }
      bytesWritten, out := bytesWritten + |buf|, out + buf;
      return true;
    }

    // The memcpy of buf_write.
    method CopyTo(dest: nat, buf: seq<Byte>)
      requires mem != null && dest + |buf| <= mem.Length
      modifies mem
      ensures mem[dest..dest + |buf|] == buf
      ensures forall k | 0 <= k < mem.Length && !(dest <= k < dest + |buf|) :: mem[k] == old(mem[k])
    {
      var i := 0;
      while i < |buf|
        invariant i <= |buf| && mem[dest..dest + i] == buf[..i]
        invariant forall k | 0 <= k < mem.Length && !(dest <= k < dest + i) :: mem[k] == old(mem[k])
      {
        mem[dest + i] := buf[i];
        i := i + 1;
      }
    }

    // pb_write of a size without data, when only counting.
    method Count(size: nat, ghost buf: seq<Byte>) returns (ok: bool)
      requires Valid() && mem == null && |buf| == size
      modifies this
      ensures Emits(old(Snap()), Snap(), ok, Some(buf))
    {
      bytesWritten, out := bytesWritten + size, out + buf;
      return true;
    }

    // pb_encode_varint.
    method EncodeVarint(value: nat) returns (ok: bool)
      requires Valid() && value < U64
      modifies this, mem
      ensures Emits(old(Snap()), Snap(), ok, Some(VarintBytes(value)))
    {
      if value <= 0x7f {
        ok := Write([value]);
        return;
      }
      var buffer, i := VarintBuffer(value);
      ok := Write(buffer[..i]);
    }

    // pb_encode_svarint.
    method EncodeSvarint(value: int) returns (ok: bool)
      requires Valid()
      modifies this, mem
      ensures Emits(old(Snap()), Snap(), ok, Some(VarintBytes(ZigZag(value))))
    {
      ZigZagFits(value);
      var doubled := Shl(value % Pow2(64), 1, 64);
      ok := EncodeVarint(if value < 0 then Not(doubled, 64) else doubled);
    }

    // pb_encode_fixed32.
    method EncodeFixed32(val: nat) returns (ok: bool)
      requires Valid() && val < U32
      modifies this, mem
      ensures Emits(old(Snap()), Snap(), ok, Some(LittleEndian(val, 4)))
    {
      FourBytes(val);
      ok := Write([val % 0x100, val / 0x100 % 0x100, val / 0x1_0000 % 0x100, val / 0x100_0000 % 0x100]);
    }

    // pb_encode_fixed64.
    method EncodeFixed64(val: nat) returns (ok: bool)
      requires Valid() && val < U64
      modifies this, mem
      ensures Emits(old(Snap()), Snap(), ok, Some(LittleEndian(val, 8)))
    {
      EightBytes(val);
      hide LittleEndian;
      ok := Write([val % 0x100, val / 0x100 % 0x100, val / 0x1_0000 % 0x100, val / 0x100_0000 % 0x100,
          val / U32 % 0x100,
                   val / 0x100_0000_0000 % 0x100, val / 0x1_0000_0000_0000 % 0x100,
                       val / 0x100_0000_0000_0000 % 0x100]);
    }

    // pb_encode_tag.
    method EncodeTag(wireType: nat, tag: nat) returns (ok: bool)
      requires Valid() && wireType < 8
      modifies this, mem
      ensures Emits(old(Snap()), Snap(), ok, Some(TagBytes(tag, wireType)))
    {
      TagFits(tag, wireType);
      ok := EncodeVarint(BitOr(Shl(tag, 3, 64), wireType));
    }

    // pb_encode_string.
    method EncodeString(buffer: seq<Byte>) returns (ok: bool)
      requires Valid()
      modifies this, mem
      ensures Emits(old(Snap()), Snap(), ok, Some(Delimited(buffer)))
    {
      ghost var s, head := Snap(), VarintBytes(|buffer| % U64);
      hide VarintBytes, Emits, Kept;
      ok := EncodeVarint(|buffer| % U64);
      ghost var t := Snap();
      if !ok {
        EmitsFails(s, t, Some(head), Some(Delimited(buffer)));
        return;
      }
      EmitsSound(s, t, ok, Some(head));
      ok := Write(buffer);
      EmitsThen(s, t, Snap(), head, ok, Some(buffer));
    }

    // The encoders pb_enc_varint, pb_enc_uvarint and pb_enc_svarint.
    method EncodeInt(f: Field, n: int) returns (ok: bool)
      requires Valid() && (f.l.Varint? || f.l.UVarint? || f.l.SVarint?)
      modifies this, mem
      ensures Emits(old(Snap()), Snap(), ok, EncodeValue(f, Num(n)))
    {
      hide VarintBytes, ZigZag;
      if !IntSize(f.dataSize) { return false; }
      if f.l.SVarint? {
        ok := EncodeSvarint(n);
      } else {
        ok := EncodeVarint(n % U64);
      }
    }

    // pb_enc_bytes, pb_enc_string and pb_enc_fixed_length_bytes.
    method EncodeBlob(f: Field, b: seq<Byte>) returns (ok: bool)
      requires Valid() && ShapedValue(f, Blob(b)) && WireType(f.l) == WT_STRING
      modifies this, mem
      ensures Emits(old(Snap()), Snap(), ok, EncodeValue(f, Blob(b)))
    {
      hide Delimited;
      if f.l.BytesField? {
        if |b| + BYTES_OFFSET > f.dataSize { return false; }
        ok := EncodeString(b);
      } else if f.l.StringField? {
        var size := 0;
        while size < f.dataSize && CharAt(b, size) != 0
          invariant size <= |b|
        {
          size := size + 1;
        }
        assert b[..size] == b;
        ok := EncodeString(b[..size]);
      } else {
        ok := EncodeString(b);
      }
    }

    // A field encoder.
    method EncodeOne(f: Field, v: Value) returns (ok: bool)
      requires Valid() && ShapedValue(f, v)
      modifies this, mem
      ensures Emits(old(Snap()), Snap(), ok, EncodeValue(f, v))
      decreases f, 0, 0
    {
      hide Delimited, LittleEndian, EncodeMessage;
      match f.l {
        case Varint | UVarint | SVarint => ok := EncodeInt(f, v.n);
        case Fixed32 => ok := EncodeFixed32(v.n % U32);
        case Fixed64 => ok := EncodeFixed64(v.n % U64);
        case Submessage => ok := EncodeSubmessage(f.sub, v.slots);
        case _ => ok := EncodeBlob(f, v.b);
      }
    }

    // pb_encode_submessage: the message is encoded twice, first only to learn its size.
    method EncodeSubmessage(fs: seq<Field>, m: seq<Slot>) returns (ok: bool)
      requires Valid() && Shaped(fs, m)
      modifies this, mem
      ensures Emits(old(Snap()), Snap(), ok, DelimitedMessage(fs, m))
      decreases fs, 4
    {
      var sizing := new OStream.Sizing();
      var fine := sizing.Encode(fs, m);
      if !fine { return false; }
      var size := sizing.bytesWritten;
      ghost var e := EncodeMessage(fs, m).value;
      ghost var s, head := Snap(), VarintBytes(size % U64);
      assert size == |e|;
      hide EncodeMessage, VarintBytes, Emits, Kept;
      ok := EncodeVarint(size % U64);
      ghost var t := Snap();
      if !ok {
        EmitsFails(s, t, Some(head), Some(head + e));
        return;
      }
      EmitsSound(s, t, ok, Some(head));
      if mem == null {
        ok := Count(size, e);
      } else {
        ok := EncodeAgain(fs, m, size);
      }
      EmitsThen(s, t, Snap(), head, ok, Some(e));
    }

    // The second pass of pb_encode_submessage, in a substream that ends where the first pass says.
    method EncodeAgain(fs: seq<Field>, m: seq<Slot>, size: nat) returns (ok: bool)
      requires Valid() && mem != null && Shaped(fs, m)
      requires EncodeMessage(fs, m).Some? && size == |EncodeMessage(fs, m).value|
      modifies this, mem
      ensures Emits(old(Snap()), Snap(), ok, EncodeMessage(fs, m))
      decreases fs, 3, 1
    {
      if bytesWritten + size > maxSize { return false; }
      ghost var s, e := Snap(), EncodeMessage(fs, m).value;
      var substream := new OStream.FromBuffer(mem, state, size);
      ghost var sub := substream.Snap();
      hide EncodeMessage, Emits, Kept, Sound;
      var status := substream.Encode(fs, m);
      EmitsSound(sub, substream.Snap(), status, EncodeMessage(fs, m));
      SubstreamEmits(s, sub, substream.Snap(), e);
      bytesWritten := bytesWritten + substream.bytesWritten;
      state := substream.state;
      out := out + e;
      if substream.bytesWritten != size {
        assert false;
        return false;
      }
      return status;
    }

    // pb_encode.
    method Encode(fs: seq<Field>, m: seq<Slot>) returns (ok: bool)
      requires Valid() && Shaped(fs, m)
      modifies this, mem
      ensures Emits(old(Snap()), Snap(), ok, EncodeMessage(fs, m))
      decreases fs, 3, 0
    {
      hide EncodeSlot, FieldsFrom, EncodeMessage, Emits, Kept, ShapedSlot, Sound, PlaceAt, RequiredBefore;
      ghost var s := Snap();
      ghost var done: seq<Byte> := [];
      FieldsStart(fs, m);
      EmitsNothing(s);
      if fs == [] { return true; }
      var iter := new FieldIter(fs, 0);
      var more := true;
      while more
        invariant fresh(iter) && iter.Valid() && iter.start == fs
        invariant Valid() && Emits(s, Snap(), true, Some(done))
        invariant FieldsFrom(fs, m, if more then iter.pos else |fs|, done)
        decreases more, |fs| - iter.pos
      {
        NextField(fs, m, iter.pos, done);
        ghost var t, e := Snap(), EncodeSlot(fs[iter.pos], m[iter.pos]);
        var fine := EncodeBasicField(fs[iter.pos], m[iter.pos]);
        EmitsPart(s, t, Snap(), done, fine, e, EncodeMessage(fs, m));
        if !fine { return false; }
        done := done + e.value;
        more := iter.Next();
      }
      AllFields(fs, m, done);
      return true;
    }

    // encode_basic_field.
    method EncodeBasicField(f: Field, s: Slot) returns (ok: bool)
      requires Valid() && ShapedSlot(f, s)
      modifies this, mem
      ensures Emits(old(Snap()), Snap(), ok, EncodeSlot(f, s))
      decreases f, 2
    {
      if f.h.Repeated? {
        ok := EncodeArray(f, s.vs);
        return;
      }
      var has := s.One?;
      if f.h.Singular? {
        var zero := CheckDefault([f], [s], 0);
        has := !zero;
      }
      if !has {
        EmitsNothing(Snap());
        return true;
      }
      assert EncodeSlot(f, s) == Append(Some(TagBytes(f.tag, WireType(f.l))), EncodeValue(f, s.v));
      ok := EncodeTagged(f, s.v);
    }

    // A tag, then a value.
    method EncodeTagged(f: Field, v: Value) returns (ok: bool)
      requires Valid() && ShapedValue(f, v)
      modifies this, mem
      ensures Emits(old(Snap()), Snap(), ok, Append(Some(TagBytes(f.tag, WireType(f.l))), EncodeValue(f, v)))
      decreases f, 0, 1
    {
      ghost var s, tag, e := Snap(), TagBytes(f.tag, WireType(f.l)), EncodeValue(f, v);
      hide EncodeValue, TagBytes, Emits, Kept, ShapedValue;
      ok := EncodeTag(WireType(f.l), f.tag);
      ghost var t := Snap();
      if !ok {
        EmitsFails(s, t, Some(tag), Append(Some(tag), e));
        return;
      }
      EmitsSound(s, t, ok, Some(tag));
      ok := EncodeOne(f, v);
      EmitsThen(s, t, Snap(), tag, ok, e);
    }

    // encode_array.
    method EncodeArray(f: Field, vs: seq<Value>) returns (ok: bool)
      requires Valid() && f.h.Repeated? && forall v | v in vs :: ShapedValue(f, v)
      modifies this, mem
      ensures Emits(old(Snap()), Snap(), ok, EncodeSlot(f, Many(vs)))
      decreases f, 1, 1
    {
      hide EncodeItems, TagBytes, Delimited;
      if vs == [] {
        EmitsNothing(Snap());
        return true;
      }
      if |vs| > f.arraySize { return false; }
      if !Packable(f.l) {
        ok := EncodeEach(f, vs, false);
        return;
      }
      ghost var s, tag, body := Snap(), TagBytes(f.tag, WT_STRING), PackedBody(f, vs);
      assert EncodeSlot(f, Many(vs)) == Append(Some(tag), body);
      hide EncodeSlot, Emits, Kept, PackedBody;
      ok := EncodeTag(WT_STRING, f.tag);
      ghost var t := Snap();
      if !ok {
        EmitsFails(s, t, Some(tag), Append(Some(tag), body));
        return;
      }
      EmitsSound(s, t, ok, Some(tag));
      ok := EncodePacked(f, vs);
      EmitsThen(s, t, Snap(), tag, ok, body);
    }

    // The total size of a packed array.
    static method PackedSize(f: Field, vs: seq<Value>) returns (size: Option<nat>)
      requires Packable(f.l) && forall v | v in vs :: ShapedValue(f, v)
      ensures size == match EncodeItems(f, vs, true) case None => None case Some(e) => Some(|e|)
      decreases f, 0, 4
    {
      if f.l.Fixed32? {
        FixedItems(f, vs, 4);
        return Some(4 * |vs|);
      } else if f.l.Fixed64? {
        FixedItems(f, vs, 8);
        return Some(8 * |vs|);
      }
      var sizing := new OStream.Sizing();
      var ok := sizing.EncodeEach(f, vs, true);
      return if ok then Some(sizing.bytesWritten) else None;
    }

    // The length and the elements of a packed array.
    method EncodePacked(f: Field, vs: seq<Value>) returns (ok: bool)
      requires Valid() && Packable(f.l) && forall v | v in vs :: ShapedValue(f, v)
      modifies this, mem
      ensures Emits(old(Snap()), Snap(), ok, PackedBody(f, vs))
      decreases f, 1, 0
    {
      var packedSize := PackedSize(f, vs);
      if packedSize.None? { return false; }
      var size := packedSize.value;
      ghost var e := EncodeItems(f, vs, true).value;
      ghost var s, head := Snap(), VarintBytes(size % U64);
      hide EncodeItems, VarintBytes, Emits, Kept, ShapedValue, Sound;
      ok := EncodeVarint(size % U64);
      ghost var t := Snap();
      if !ok {
        EmitsFails(s, t, Some(head), Some(head + e));
        return;
      }
      EmitsSound(s, t, ok, Some(head));
      if mem == null {
        ok := Count(size, e);
      } else {
        ok := EncodeEach(f, vs, true);
      }
      EmitsThen(s, t, Snap(), head, ok, Some(e));
    }

    method EncodeElement(f: Field, v: Value, packed: bool) returns (ok: bool)
      requires Valid() && ShapedValue(f, v)
      modifies this, mem
      ensures Emits(old(Snap()), Snap(), ok, ElementBytes(f, v, packed))
      decreases f, 0, 2
    {
      hide EncodeValue;
      if packed {
        if EncodeValue(f, v).Some? { assert [] + EncodeValue(f, v).value == EncodeValue(f, v).value; }
        ok := EncodeOne(f, v);
      } else {
        ok := EncodeTagged(f, v);
      }
    }

    // The loops of encode_array.
    method EncodeEach(f: Field, vs: seq<Value>, packed: bool) returns (ok: bool)
      requires Valid() && forall v | v in vs :: ShapedValue(f, v)
      modifies this, mem
      ensures Emits(old(Snap()), Snap(), ok, EncodeItems(f, vs, packed))
      decreases f, 0, 3
    {
      ghost var s := Snap();
      ghost var done: seq<Byte> := [];
      ItemsStart(f, vs, packed);
      EmitsNothing(s);
      hide EncodeItems, ItemsFrom, ElementBytes, Emits, Kept, ShapedValue, Sound;
      var i := 0;
      while i < |vs|
        invariant i <= |vs| && Valid() && Emits(s, Snap(), true, Some(done)) && ItemsFrom(f, vs, packed, i, done)
      {
        NextItem(f, vs, packed, i, done);
        ghost var t := Snap();
        ghost var e := ElementBytes(f, vs[i], packed);
        ok := EncodeElement(f, vs[i], packed);
        EmitsPart(s, t, Snap(), done, ok, e, EncodeItems(f, vs, packed));
        if !ok { return; }
        done := done + e.value;
        i := i + 1;
      }
      AllItems(f, vs, packed, done);
      return true;
    }
  }

  // pb_get_encoded_size.
  method GetEncodedSize(fs: seq<Field>, m: seq<Slot>) returns (size: Option<nat>)
    requires Shaped(fs, m)
    ensures size == match EncodeMessage(fs, m) case None => None case Some(e) => Some(|e|)
  {
    var stream := new OStream.Sizing();
    var ok := stream.Encode(fs, m);
    return if ok then Some(stream.bytesWritten) else None;
  }
}
