/** The decoder of nanopb: an input stream over a buffer, and the struct that it fills in. */
module PbDecode {
  import opened Bits
  import opened Bytes
  import opened PbVarint
  import opened PbSpec
  import opened PbIter
  import opened PbRequired

  // Tags are not zero, as a zero tag ends a descriptor.
  ghost predicate Tagged(fs: seq<Field>)
    decreases fs
  {
    forall f | f in fs :: f.tag != 0 && (f.l.Submessage? ==> Tagged(f.sub))
  }

  /** The struct that a message is decoded into. */
  class Struct {
    var slots: seq<Slot>

    constructor (slots: seq<Slot>)
      ensures this.slots == slots
    {
      this.slots := slots;
    }
  }

  // The result of a longer read, after n bytes of it.
  function After<T>(n: nat, d: Dec<T>): Dec<T> {
    match d
    case Err => Err
    case Ok(v, used) => Ok(v, used + n)
  }

  // The loops of the varint decoders, after n bytes of all.
  ghost predicate VarintAt(all: seq<Byte>, n: nat, bitpos: nat, result: nat) {
    n <= |all| && result < U64 && DecodeVarint(all) == After(n, VarintLoop(all[n..], bitpos, result))
  }

  lemma {:induction false} VarintStep(all: seq<Byte>, n: nat, bitpos: nat, result: nat)
    requires VarintAt(all, n, bitpos, result)
    ensures bitpos >= 64 || n == |all| ==> DecodeVarint(all).Err?
    ensures bitpos < 64 && n < |all| ==>
      var result' := BitOr(result, Shl(all[n] % 0x80, bitpos, 64));
      if all[n] >= 0x80 then VarintAt(all, n + 1, bitpos + 7, result')
      else DecodeVarint(all) == Ok(result', n + 1) && result' < U64
  {
    hide BitOr, Shl, Pow2, DecodeVarint;
    if n < |all| {
      assert Pow2(64) == U64 by { Pow2Literals(); }
      OrBound(result, Shl(all[n] % 0x80, bitpos, 64), 64);
      assert all[n..][0] == all[n] && all[n..][1..] == all[n + 1..];
    }
  }

  ghost predicate Varint32At(all: seq<Byte>, n: nat, bitpos: nat, result: nat) {
    n <= |all| && DecodeVarint32(all) == After(n, Varint32Loop(all[n..], bitpos, result))
  }

  lemma {:induction false} Varint32Step(all: seq<Byte>, n: nat, bitpos: nat, result: nat)
    requires Varint32At(all, n, bitpos, result)
    ensures n == |all| ==> DecodeVarint32(all).Err?
    ensures n < |all| ==>
      var b := all[n];
      var bad := bitpos >= 32 && b % 0x80 != 0
          && (result / 0x8000_0000 == 0 || b != if bitpos < 63 then 0xff else 0x01);
      var result' := if bitpos >= 32 then result else BitOr(result, Shl(b % 0x80, bitpos, 32));
      var bitpos' := (bitpos + 7) % 0x100;
      if bad then DecodeVarint32(all).Err?
      else if b >= 0x80 then Varint32At(all, n + 1, bitpos', result')
      else DecodeVarint32(all) == if bitpos' == 35 && b / 0x10 != 0 then Err else Ok(result', n + 1)
  {
    hide BitOr, Shl, DecodeVarint32;
    if n < |all| {
      assert all[n..][0] == all[n] && all[n..][1..] == all[n + 1..];
    }
  }

  datatype Outcome = Failed | Ended | Continued

  // The state of the decoder in memory is st, but for the required fields seen.
  ghost predicate At(fs: seq<Field>, iter: FieldIter, dest: Struct, st: State)
    reads iter, dest
  {
    StateOf(fs, st) && dest.slots == st.m && (fs != [] ==> iter.pos == st.pos)
  }

  ghost predicate SeenBelow(fs: seq<Field>, seen: set<nat>) {
    forall r | r in seen :: r < RequiredBefore(fs, |fs|)
  }

  lemma {:induction false} StepSeen(fs: seq<Field>, s: seq<Byte>, st: State)
    requires StateOf(fs, st) && s != [] && SeenBelow(fs, st.seen)
    ensures match DecodeStep(fs, s, st) case Next(st', _) => SeenBelow(fs, st'.seen) case _ => true
  {
    hide DecodeField, SkipField, DecodeVarint32;
    match DecodeStep(fs, s, st)
    case Next(st', _) =>
      if st'.seen != st.seen {
        var i := st'.pos;
        RequiredMono(fs, i + 1, |fs|);
      }
    case _ =>
  }

  /** pb_istream_t over a buffer. */
  class IStream {
    const src: seq<Byte>
    var state: nat
    var bytesLeft: nat
    // Where the stream ends; nothing is read at or beyond it.
    ghost const end: nat

    ghost predicate Valid()
      reads this
    {
      state + bytesLeft <= end <= |src|
    }

    ghost function Rest(): (s: seq<Byte>)
      requires Valid()
      reads this
      ensures |s| == bytesLeft
    {
      src[state..state + bytesLeft]
    }

    // Exactly used bytes were consumed: position and bytes left still add up.
    twostate predicate Took(used: nat)
      requires old(Valid())
      reads this
      ensures Took(used) ==> used <= old(bytesLeft) && Valid() && Rest() == old(Rest())[used..]
    {
      used <= old(bytesLeft) && state == old(state) + used && bytesLeft == old(bytesLeft) - used
    }

    // pb_istream_from_buffer.
    constructor (buf: seq<Byte>, start: nat, size: nat)
      requires start + size <= |buf|
      ensures Valid() && src == buf && state == start && bytesLeft == size && end == start + size
    {
      src, state, bytesLeft, end := buf, start, size, start + size;
    }

    // pb_readbyte.
    method ReadByte() returns (ok: bool, b: Byte)
      requires Valid()
      modifies this
      ensures Valid()
      ensures ok <==> old(Rest()) != []
      ensures ok ==> Took(1) && b == old(Rest())[0]
      ensures !ok ==> Took(0)
    {
      if bytesLeft == 0 { return false, 0; }
      b := src[state];
      state := state + 1;
      bytesLeft := bytesLeft - 1;
      ok := true;
    }

    // pb_read into a buffer.
    method Read(count: nat) returns (ok: bool, buf: seq<Byte>)
      requires Valid()
      modifies this
      ensures Valid()
      ensures ok <==> count <= old(bytesLeft)
      ensures ok ==> Took(count) && buf == old(Rest())[..count]
      ensures !ok ==> Took(0)
    {
      buf := [];
      if bytesLeft < count { return false, buf; }
      var source := state;
      state := state + count;
      var i := 0;
      while i < count
        invariant i <= count && buf == src[source..source + i]
      {
        buf := buf + [src[source + i]];
        i := i + 1;
      }
      bytesLeft := bytesLeft - count;
      ok := true;
    }

    // pb_read without a buffer: skip.
    method Skip(count: nat) returns (ok: bool)
      requires Valid()
      modifies this
      ensures Valid()
      ensures ok <==> count <= old(bytesLeft)
      ensures ok ==> Took(count)
      ensures !ok ==> Took(0)
    {
      if bytesLeft < count { return false; }
      state := state + count;
      bytesLeft := bytesLeft - count;
      return true;
    }

    // pb_decode_varint32_eof.
    method DecodeVarint32Eof() returns (ok: bool, value: nat, eof: bool)
      requires Valid()
      modifies this
      ensures Valid()
      ensures ok <==> DecodeVarint32(old(Rest())).Ok?
      ensures ok ==> var d := DecodeVarint32(old(Rest())); Took(d.used) && value == d.value
      ensures state + bytesLeft == old(state + bytesLeft)
      ensures eof <==> old(Rest()) == []
    {
      ghost var all := Rest();
      var b;
      value, eof := 0, false;
      ok, b := ReadByte();
      if !ok {
        eof := bytesLeft == 0;
        return;
      }
      if b < 0x80 {
        value := b;
        return;
      }
      var bitpos: nat, result: nat := 7, b % 0x80;
      ghost var n := 1;
      assert Varint32At(all, n, bitpos, result);
      hide Varint32At, DecodeVarint32, BitOr, Shl;
      while b >= 0x80
        invariant n <= |all| && Took(n)
        invariant b >= 0x80 ==> Varint32At(all, n, bitpos, result)
        invariant b < 0x80 ==>
          DecodeVarint32(all) == if bitpos == 35 && b / 0x10 != 0 then Err else Ok(result, n)
        decreases b >= 0x80, bytesLeft
      {
        Varint32Step(all, n, bitpos, result);
        ok, b := ReadByte();
        if !ok { return; }
        n := n + 1;
        if bitpos >= 32 {
          var signExtension := if bitpos < 63 then 0xff else 0x01;
          if b % 0x80 != 0 && (result / 0x8000_0000 == 0 || b != signExtension) {
            return false, 0, false;
          }
        } else {
          result := BitOr(result, Shl(b % 0x80, bitpos, 32));
        }
        bitpos := (bitpos + 7) % 0x100;
      }
      if bitpos == 35 && b / 0x10 != 0 {
        return false, 0, false;
      }
      value := result;
    }

    // pb_decode_varint.
    method ReadVarint() returns (ok: bool, value: nat)
      requires Valid()
      modifies this
      ensures Valid()
      ensures ok <==> DecodeVarint(old(Rest())).Ok?
      ensures ok ==> var d := DecodeVarint(old(Rest())); Took(d.used) && value == d.value < U64
    {
      ghost var all := Rest();
      var b := 0x80;
      var bitpos: nat, result: nat := 0, 0;
      value := 0;
      ghost var n := 0;
      assert VarintAt(all, n, bitpos, result) by { Pow2Literals(); }
      hide VarintAt, DecodeVarint, BitOr, Shl;
      while b >= 0x80
        invariant n <= |all| && Took(n)
        invariant b >= 0x80 ==> VarintAt(all, n, bitpos, result)
        invariant b < 0x80 ==> DecodeVarint(all) == Ok(result, n) && result < U64
        decreases b >= 0x80, bytesLeft
      {
        VarintStep(all, n, bitpos, result);
        if bitpos >= 64 { return false, 0; }
        ok, b := ReadByte();
        if !ok { return; }
        n := n + 1;
        result := BitOr(result, Shl(b % 0x80, bitpos, 64));
        bitpos := bitpos + 7;
      }
      return true, result;
    }

    // pb_skip_varint.
    method SkipOneVarint() returns (ok: bool)
      requires Valid()
      modifies this
      ensures Valid()
      ensures ok <==> SkipVarint(old(Rest())).Ok?
      ensures ok ==> Took(SkipVarint(old(Rest())).used)
    {
      ghost var all, n := Rest(), 0;
      var b := [0x80];
      while b[0] >= 0x80
        invariant n <= |all| && Took(n) && |b| == 1
        invariant SkipVarint(all) == if b[0] >= 0x80 then After(n, SkipVarint(all[n..])) else Ok((), n)
        decreases b[0] >= 0x80, bytesLeft
      {
        ok, b := Read(1);
        if !ok { return; }
        assert b[0] == all[n..][0] && all[n..][1..] == all[n + 1..];
        n := n + 1;
      }
      return true;
    }

    // pb_skip_string.
    method SkipString() returns (ok: bool)
      requires Valid()
      modifies this
      ensures Valid()
      ensures ok <==> TakeDelimited(old(Rest())).Ok?
      ensures ok ==> Took(TakeDelimited(old(Rest())).used)
    {
      hide DecodeVarint32;
      var length, eof;
      ok, length, eof := DecodeVarint32Eof();
      if !ok { return; }
      ok := Skip(length);
    }

    // pb_skip_field.
    method SkipOneField(wireType: nat) returns (ok: bool)
      requires Valid()
      modifies this
      ensures Valid()
      ensures ok <==> SkipField(old(Rest()), wireType).Ok?
      ensures ok ==> Took(SkipField(old(Rest()), wireType).used)
    {
      hide SkipVarint, TakeDelimited;
      if wireType == WT_VARINT {
        ok := SkipOneVarint();
      } else if wireType == WT_64BIT {
        ok := Skip(8);
      } else if wireType == WT_STRING {
        ok := SkipString();
      } else if wireType == WT_32BIT {
        ok := Skip(4);
      } else {
        ok := false;
      }
    }

    // pb_decode_tag.
    method DecodeTag() returns (ok: bool, wireType: nat, tag: nat, eof: bool)
      requires Valid()
      modifies this
      ensures Valid()
      ensures ok <==> DecodeVarint32(old(Rest())).Ok? && DecodeVarint32(old(Rest())).value != 0
      ensures ok ==>
        var d := DecodeVarint32(old(Rest())); Took(d.used) && tag == d.value / 8 && wireType == d.value % 8
      ensures !ok ==> (eof <==> old(Rest()) == [] || DecodeVarint32(old(Rest())).Ok?)
      ensures state + bytesLeft == old(state + bytesLeft)
    {
      hide DecodeVarint32;
      var temp;
      wireType, tag := 0, 0;
      ok, temp, eof := DecodeVarint32Eof();
      if !ok { return; }
      if temp == 0 { return false, 0, 0, true; }
      tag, wireType := temp / 8, temp % 8;
    }

    // pb_make_string_substream: parent and substream share what was left.
    method MakeSubstream() returns (ok: bool, substream: IStream?)
      requires Valid()
      modifies this
      ensures Valid()
      ensures ok <==> TakeDelimited(old(Rest())).Ok?
      ensures ok ==>
        && substream != null && fresh(substream) && substream.Valid() && substream.src == src
        && substream.state == state && substream.Rest() == TakeDelimited(old(Rest())).value
        && state + substream.bytesLeft == old(state) + TakeDelimited(old(Rest())).used
        && state + substream.bytesLeft + bytesLeft == old(state) + old(bytesLeft)
        && substream.end == state + substream.bytesLeft
    {
      hide DecodeVarint32;
      ghost var all := Rest();
      var size, eof;
      substream := null;
      ok, size, eof := DecodeVarint32Eof();
      if !ok { return; }
      if bytesLeft < size { return false, null; }
      ghost var used := DecodeVarint32(all).used;
      assert src[state..state + size] == Rest()[..size] && all[used..][..size] == all[used..used + size];
      substream := new IStream(src, state, size);
      bytesLeft := bytesLeft - size;
    }

    // pb_close_string_substream: what the substream has not read is skipped.
    method CloseSubstream(substream: IStream) returns (ok: bool)
      requires Valid() && substream != this && substream.Valid() && substream.src == src
      requires substream.end + bytesLeft <= end
      modifies this, substream
      ensures ok && Valid()
      ensures state == old(substream.state + substream.bytesLeft) && bytesLeft == old(bytesLeft)
    {
      if substream.bytesLeft != 0 {
        ok := substream.Skip(substream.bytesLeft);
        if !ok { return; }
      }
      state := substream.state;
      return true;
    }

    // pb_dec_varint, pb_dec_uvarint and pb_dec_svarint.
    method ReadInt(f: Field) returns (ok: bool, v: Value)
      requires Valid() && (f.l.Varint? || f.l.UVarint? || f.l.SVarint?)
      modifies this
      ensures Valid()
      ensures ok <==> DecodeInt(f, old(Rest())).Ok?
      ensures ok ==> var d := DecodeInt(f, old(Rest())); Took(d.used) && v == d.value
    {
      hide DecodeVarint, IntOf;
      var value, clamped;
      v := Num(0);
      ok, value := ReadVarint();
      if !ok { return; }
      clamped := CastToField(f, value);
      if clamped.None? { return false, v; }
      v := Num(clamped.value);
    }

    // The casts of these decoders, which check that the value survives them.
    static method CastToField(f: Field, value: nat) returns (n: Option<int>)
      requires value < U64 && (f.l.Varint? || f.l.UVarint? || f.l.SVarint?)
      ensures n == IntOf(f, value)
    {
      hide Signed, Pow2;
      assert Pow2(64) == U64 by { Pow2Literals(); }
      assert value % Pow2(64) == value;
      var svalue, clamped;
      if f.l.UVarint? {
        svalue := value;
      } else if f.l.Varint? {
        svalue := if f.dataSize == 8 then Signed(value, 64) else Signed(value, 32);
      } else {
        svalue := Signed(if value % 2 == 1 then Not(value / 2, 64) else value / 2, 64);
      }
      if !IntSize(f.dataSize) { return None; }
      clamped := if f.l.UVarint? then value % Pow2(8 * f.dataSize) else Signed(svalue % U64, 8 * f.dataSize);
      return if clamped == svalue then Some(svalue) else None;
    }

    // pb_decode_fixed32 and pb_decode_fixed64.
    method ReadFixed(size: nat) returns (ok: bool, v: Value)
      requires Valid()
      modifies this
      ensures Valid()
      ensures ok <==> DecodeFixed(old(Rest()), size).Ok?
      ensures ok ==> var d := DecodeFixed(old(Rest()), size); Took(d.used) && v == d.value
    {
      var bytes;
      v := Num(0);
      ok, bytes := Read(size);
      if !ok { return; }
      var i, n := size, 0;
      assert bytes[size..] == [];
      while i > 0
        invariant 0 <= i <= size && n == FromLittleEndian(bytes[i..])
      {
        i := i - 1;
        assert bytes[i..][1..] == bytes[i + 1..];
        n := bytes[i] + B * n;
      }
      assert bytes[0..] == bytes;
      v := Num(n);
    }

    // pb_dec_bytes, pb_dec_string and pb_dec_fixed_length_bytes.
    method ReadBlob(f: Field) returns (ok: bool, v: Value)
      requires Valid() && (f.l.BytesField? || f.l.StringField? || f.l.FixedLengthBytes?)
      modifies this
      ensures Valid()
      ensures ok <==> DecodeBlob(f, old(Rest())).Ok?
      ensures ok ==> var d := DecodeBlob(f, old(Rest())); Took(d.used) && v == d.value
    {
      hide DecodeVarint32;
      ghost var all := Rest();
      var size, eof, bytes;
      v := Num(0);
      ok, size, eof := DecodeVarint32Eof();
      if !ok { return; }
      ghost var used := DecodeVarint32(all).used;
      if f.l.BytesField? && size + BYTES_OFFSET > f.dataSize { return false, v; }
      if f.l.StringField? && (size + 1 == U32 || size + 1 > f.dataSize) { return false, v; }
      if f.l.FixedLengthBytes? {
        if size == 0 {
          v := Blob(Zeros(f.dataSize));
          return;
        }
        if size != f.dataSize { return false, v; }
      }
      ok, bytes := Read(size);
      if !ok { return; }
      assert bytes == all[used..used + size];
      if f.l.StringField? {
        v := Blob(Text(bytes));
      } else {
        v := Blob(bytes);
      }
    }

    // The field decoders, except for submessages.
    method ReadScalar(f: Field) returns (ok: bool, v: Value)
      requires Valid() && !f.l.Submessage?
      modifies this
      ensures Valid()
      ensures ok <==> DecodeScalar(f, old(Rest())).Ok?
      ensures ok ==> var d := DecodeScalar(f, old(Rest())); Took(d.used) && v == d.value
    {
      hide DecodeInt, DecodeFixed, DecodeBlob;
      if f.l.Varint? || f.l.UVarint? || f.l.SVarint? {
        ok, v := ReadInt(f);
      } else if f.l.Fixed32? {
        ok, v := ReadFixed(4);
      } else if f.l.Fixed64? {
        ok, v := ReadFixed(8);
      } else {
        ok, v := ReadBlob(f);
      }
    }

    // A field decoder; pb_dec_submessage starts from defaults only for new array entries.
    method ReadValue(f: Field, current: Value) returns (ok: bool, v: Value)
      requires Valid() && (f.l.Submessage? ==> Tagged(f.sub)) && (f.h.Repeated? ==> current == Zero(f))
      modifies this
      ensures Valid()
      ensures ok <==> DecodeValue(f, old(Rest()), current).Ok?
      ensures ok ==> var d := DecodeValue(f, old(Rest()), current); Took(d.used) && v == d.value
      decreases bytesLeft, 1
    {
      hide DecodeScalar, TakeDelimited, PbSpec.DecodeNoInit;
      v := current;
      if !f.l.Submessage? {
        ok, v := ReadScalar(f);
        return;
      }
      var substream, status;
      ghost var s := Rest();
      ok, substream := MakeSubstream();
      if !ok { return; }
      var dest := new Struct(if current.Msg? && |current.slots| == |f.sub| then current.slots else Defaults(f.sub));
      if f.h.Repeated? {
        status := substream.Decode(f.sub, dest);
      } else {
        status := substream.DecodeNoInit(f.sub, dest);
      }
      ok := CloseSubstream(substream);
      ok := status;
      v := Msg(dest.slots);
    }

    // The packed array of decode_static_field, with the count of the array kept up to date in the struct.
    method ReadPacked(fs: seq<Field>, i: nat, dest: Struct) returns (ok: bool)
      requires Valid() && |dest.slots| == |fs| && i < |fs| && fs[i].h.Repeated? && Packable(fs[i].l)
      modifies this, dest
      ensures Valid() && |dest.slots| == |fs|
      ensures ok <==> DecodeField(fs, i, WT_STRING, old(Rest()), old(dest.slots)).Ok?
      ensures ok ==> var d := DecodeField(fs, i, WT_STRING, old(Rest()), old(dest.slots));
                     Took(d.used) && dest.slots == d.value
    {
      hide DecodeScalar, TakeDelimited;
      ghost var m0 := dest.slots;
      var f := fs[i];
      var status := true;
      var substream;
      ok, substream := MakeSubstream();
      if !ok { return; }
      ghost var payload := substream.Rest();
      var vs := if dest.slots[i].Many? then dest.slots[i].vs else [];
      dest.slots := dest.slots[i := Many(vs)];
      ghost var vs0 := vs;
      while substream.bytesLeft > 0 && |vs| < f.arraySize && status
        modifies dest, substream
        invariant substream.Valid() && (status ==> substream.state + substream.bytesLeft == substream.end)
        invariant dest.slots == m0[i := Many(vs)]
        invariant DecodePacked(f, payload, vs0) == if status then DecodePacked(f, substream.Rest(), vs) else None
        decreases status, substream.bytesLeft
      {
        var v;
        status, v := substream.ReadScalar(f);
        if status {
          vs := vs + [v];
          dest.slots := dest.slots[i := Many(vs)];
        }
      }
      if substream.bytesLeft != 0 { return false; }
      ok := CloseSubstream(substream);
      ok := status;
    }

    // decode_static_field.
    method DecodeStaticField(fs: seq<Field>, i: nat, wireType: nat, dest: Struct) returns (ok: bool)
      requires Valid() && Tagged(fs) && |dest.slots| == |fs| && i < |fs|
      modifies this, dest
      ensures Valid() && |dest.slots| == |fs|
      ensures ok <==> DecodeField(fs, i, wireType, old(Rest()), old(dest.slots)).Ok?
      ensures ok ==> var d := DecodeField(fs, i, wireType, old(Rest()), old(dest.slots));
                     Took(d.used) && dest.slots == d.value
      decreases bytesLeft, 2
    {
      hide DecodeValue, DecodePacked, TakeDelimited, Zero;
      var f, m := fs[i], dest.slots;
      var v;
      if f.h.Repeated? && wireType == WT_STRING && Packable(f.l) {
        ok := ReadPacked(fs, i, dest);
      } else if f.h.Repeated? {
        var vs := if m[i].Many? then m[i].vs else [];
        if |vs| >= f.arraySize { return false; }
        ok, v := ReadValue(f, Zero(f));
        dest.slots := m[i := Many(vs + [v])];
      } else {
        ok, v := ReadValue(f, Current(f, m[i]));
        dest.slots := if f.h.Oneof? then SetOneof(fs, m, i, v) else m[i := One(v)];
      }
    }

    // The body of the loop of pb_decode_noinit: one field.
    method ReadField(fs: seq<Field>, iter: FieldIter, fieldsSeen: array<nat>, dest: Struct, ghost st: State)
      returns (outcome: Outcome, ghost st': State)
      requires Valid() && Tagged(fs) && bytesLeft != 0 && iter.Valid() && iter.start == fs && At(fs, iter, dest, st)
      requires BitsAre(fieldsSeen[..], st.seen)
      modifies this, iter, fieldsSeen, dest
      ensures Valid() && iter.Valid() && |dest.slots| == |fs|
      ensures match DecodeStep(fs, old(Rest()), st)
              case Fail => outcome == Failed
              case Stop => outcome == Ended && state + bytesLeft == old(state + bytesLeft)
                           && st' == st && At(fs, iter, dest, st') && BitsAre(fieldsSeen[..], st'.seen)
              case Next(next, used) => outcome == Continued && Took(used)
                                       && st' == next && At(fs, iter, dest, st') && BitsAre(fieldsSeen[..], st'.seen)
      decreases bytesLeft, 2
    {
      hide DecodeField, SkipField, Find, DecodeVarint32, RequiredBefore, BitsAre;
      var ok, wireType, tag, eof, found;
      st' := st;
      ok, wireType, tag, eof := DecodeTag();
      if !ok { return if eof then Ended else Failed, st; }
      found := iter.FindTag(tag);
      if !found {
        ok := SkipOneField(wireType);
        return if ok then Continued else Failed, st;
      }
      // The terminator of an empty descriptor is not a field that can be decoded.
      if fs == [] { return Failed, st; }
      var i := iter.pos;
      if fs[i].h.Required? && iter.requiredFieldIndex < MAX_REQUIRED_FIELDS {
        Mark(fieldsSeen, iter.requiredFieldIndex, st.seen);
      }
      ok := DecodeStaticField(fs, i, wireType, dest);
      st' := State(dest.slots, MarkSeen(fs, i, st.seen), i);
      return if ok then Continued else Failed, st';
    }

    // The loop of pb_decode_noinit.
    method ReadFields(fs: seq<Field>, iter: FieldIter, fieldsSeen: array<nat>, dest: Struct, ghost start: State)
      returns (ok: bool, ghost st: State)
      requires Valid() && Tagged(fs) && iter.Valid() && iter.start == fs && At(fs, iter, dest, start)
      requires BitsAre(fieldsSeen[..], start.seen) && SeenBelow(fs, start.seen)
      modifies this, iter, fieldsSeen, dest
      ensures Valid() && iter.Valid() && |dest.slots| == |fs|
      ensures ok <==> DecodeLoop(fs, old(Rest()), start).Some?
      ensures ok ==> state + bytesLeft == old(state + bytesLeft)
                     && DecodeLoop(fs, old(Rest()), start) == Some(st) && At(fs, iter, dest, st)
                     && BitsAre(fieldsSeen[..], st.seen) && SeenBelow(fs, st.seen)
      decreases bytesLeft, 3
    {
      hide DecodeStep, DecodeLoop, BitsAre, SeenBelow;
      ghost var all := Rest();
      st := start;
      while bytesLeft != 0
        invariant Valid() && state + bytesLeft == old(state + bytesLeft) && bytesLeft <= old(bytesLeft)
        invariant iter.Valid() && At(fs, iter, dest, st)
        invariant BitsAre(fieldsSeen[..], st.seen) && SeenBelow(fs, st.seen)
        invariant DecodeLoop(fs, all, start) == DecodeLoop(fs, Rest(), st)
        decreases bytesLeft
      {
        ghost var s := Rest();
        StepSeen(fs, s, st);
        LoopUnfold(fs, s, st);
        var outcome;
        outcome, st := ReadField(fs, iter, fieldsSeen, dest, st);
        if outcome == Failed { return false, st; }
        if outcome == Ended { return true, st; }
      }
      LoopUnfold(fs, Rest(), st);
      ok := true;
    }

    // pb_decode_noinit.
    method DecodeNoInit(fs: seq<Field>, dest: Struct) returns (ok: bool)
      requires Valid() && Tagged(fs) && |dest.slots| == |fs|
      modifies this, dest
      ensures Valid() && |dest.slots| == |fs|
      ensures ok <==> PbSpec.DecodeNoInit(fs, old(Rest()), old(dest.slots)).Some?
      ensures ok ==> Some(dest.slots) == PbSpec.DecodeNoInit(fs, old(Rest()), old(dest.slots))
                     && state + bytesLeft == old(state + bytesLeft)
      decreases bytesLeft, 4
    {
      var fieldsSeen := new nat[2](_ => 0);
      NothingSeen();
      assert fieldsSeen[..] == [0, 0];
      var iter := new FieldIter(fs, 0);
      hide DecodeLoop, BitsAre, RequiredBefore;
      ghost var st;
      ok, st := ReadFields(fs, iter, fieldsSeen, dest, InitialState(fs, dest.slots));
      if !ok { return; }
      ok := CheckRequired(iter, fieldsSeen, st.seen);
    }

    // pb_decode.
    method Decode(fs: seq<Field>, dest: Struct) returns (ok: bool)
      requires Valid() && Tagged(fs) && |dest.slots| == |fs|
      modifies this, dest
      ensures Valid() && |dest.slots| == |fs|
      ensures ok <==> PbSpec.Decode(fs, old(Rest())).Some?
      ensures ok ==> Some(dest.slots) == PbSpec.Decode(fs, old(Rest())) && state + bytesLeft == old(state + bytesLeft)
      decreases bytesLeft, 5
    {
      SetToDefaults(fs, dest);
      ok := DecodeNoInit(fs, dest);
    }
  }

  // The check at the end of pb_decode_noinit.
  method CheckRequired(iter: FieldIter, fieldsSeen: array<nat>, ghost seen: set<nat>) returns (ok: bool)
    requires iter.Valid() && Tagged(iter.start) && BitsAre(fieldsSeen[..], seen) && SeenBelow(iter.start, seen)
    modifies iter
    ensures iter.Valid()
    ensures ok <==> AllRequiredSeen(iter.start, seen)
  {
    var count := CountRequired(iter);
    ok := AllSeen(fieldsSeen, if count > MAX_REQUIRED_FIELDS then MAX_REQUIRED_FIELDS else count, seen);
  }

  // pb_field_set_to_default.
  method FieldDefault(f: Field) returns (s: Slot)
    ensures s == DefaultSlot(f)
    decreases f, 0
  {
    match f.h
    case Optional | Oneof(_) => s := Absent;
    case Repeated => s := Many([]);
    case Required | Singular =>
      if f.l.Submessage? {
        var sub := new Struct(seq(|f.sub|, _ => Absent));
        SetToDefaults(f.sub, sub);
        s := One(Msg(sub.slots));
      } else {
        s := One(Zero(f));
      }
  }

  // pb_message_set_to_defaults.
  method SetToDefaults(fs: seq<Field>, dest: Struct)
    requires |dest.slots| == |fs|
    modifies dest
    ensures dest.slots == Defaults(fs)
    decreases fs, 1
  {
    if fs == [] { return; }
    hide DefaultSlot;
    var iter := new FieldIter(fs, 0);
    var more := true;
    while more
      modifies dest, iter
      invariant iter.Valid() && |dest.slots| == |fs|
      invariant forall i | 0 <= i < if more then iter.pos else |fs| :: dest.slots[i] == DefaultSlot(fs[i])
      decreases more, |fs| - iter.pos
    {
      var s := FieldDefault(fs[iter.pos]);
      dest.slots := dest.slots[iter.pos := s];
      more := iter.Next();
    }
  }
}
