/** Handshake message headers and the reassembly of one fragmented message (section 4.2.3 of RFC 6347). */
module Reassembly {
  import opened Bits
  import opened Bytes

  const HEADER_LENGTH := 12

  datatype Header = Header(typ: Byte, msgLen: nat, seqno: nat, fragOff: nat, fragLen: nat)

  ghost predicate ValidHeader(h: Header) {
    h.msgLen < U24 && h.seqno < U16 && h.fragOff < U24 && h.fragLen < U24
  }

  function HeaderBytes(h: Header): (s: seq<Byte>)
    requires ValidHeader(h)
    ensures |s| == HEADER_LENGTH
  {
    [h.typ] + U24Bytes(h.msgLen) + U16Bytes(h.seqno) + U24Bytes(h.fragOff) + U24Bytes(h.fragLen)
  }

  datatype Parsed = Malformed | Parsed(header: Header, body: seq<Byte>, rest: seq<Byte>)

  // dtls1_parse_fragment.
  function ParseFragment(s: seq<Byte>): (r: Parsed)
    ensures r.Parsed? ==>
      ValidHeader(r.header) && r.header.fragLen == |r.body| && |s| == HEADER_LENGTH + |r.body| + |r.rest|
  {
    if |s| < HEADER_LENGTH then Malformed
    else
      var h := Header(s[0], GetU24(s[1..]), GetU16(s[4..]), GetU24(s[6..]), GetU24(s[9..]));
      if |s| - HEADER_LENGTH < h.fragLen then Malformed
      else Parsed(h, s[HEADER_LENGTH..HEADER_LENGTH + h.fragLen], s[HEADER_LENGTH + h.fragLen..])
  }

  lemma {:induction false} ParseInvertsHeader(h: Header, body: seq<Byte>, rest: seq<Byte>)
    requires ValidHeader(h) && h.fragLen == |body|
    ensures ParseFragment(HeaderBytes(h) + body + rest) == Parsed(h, body, rest)
  {
    var s := HeaderBytes(h) + body + rest;
    assert s[1..4] == U24Bytes(h.msgLen) && s[4..6] == U16Bytes(h.seqno);
    assert s[6..9] == U24Bytes(h.fragOff) && s[9..12] == U24Bytes(h.fragLen);
    U24RoundTrip(h.msgLen);
    U24RoundTrip(h.fragOff);
    U24RoundTrip(h.fragLen);
    assert GetU24(s[1..]) == GetU24(s[1..4]) && GetU16(s[4..]) == GetU16(s[4..6]);
    assert GetU24(s[6..]) == GetU24(s[6..9]) && GetU24(s[9..]) == GetU24(s[9..12]);
    assert s[12..12 + |body|] == body && s[12 + |body|..] == rest;
  }

  // bit_range: a byte with bits start, inclusive, to end, exclusive, set.
  function BitRange(start: nat, end: nat): Byte
    requires start <= 8 && end <= 8
  {
    BitRangeFits(start, end);
    BitAnd(Not(Shl(1, start, 32) - 1, 32), Shl(1, end, 32) - 1) % 0x100
  }

  lemma {:induction false} BitRangeFits(start: nat, end: nat)
    requires start <= 8 && end <= 8
    ensures 1 <= Shl(1, start, 32) && 1 <= Shl(1, end, 32) && Shl(1, start, 32) - 1 < Pow2(32)
  {
    hide Pow2, Shl;
    ShlOne(start, 32);
    ShlOne(end, 32);
  }

  lemma {:induction false} BitRangeBits(start: nat, end: nat, i: nat)
    requires start <= 8 && end <= 8
    ensures Bit(BitRange(start, end), i) <==> start <= i < end
  {
    ShlOne(start, 32);
    ShlOne(end, 32);
    Pow2Literals();
    var n := BitAnd(Not(Pow2(start) - 1, 32), Pow2(end) - 1);
    LowBit(n, 8, i);
    AndBit(Not(Pow2(start) - 1, 32), Pow2(end) - 1, i);
    MaskBit(end, i);
    MaskBit(start, i);
    if i < 32 { NotBit(Pow2(start) - 1, 32, i); }
  }

  lemma {:induction false} HighBit(b: Byte, i: nat)
    requires i >= 8
    ensures !Bit(b, i)
  {
    Pow2Literals();
    hide Pow2, Bit;
    LowBit(b, 8, i);
  }

  // A byte is determined by its eight bits.
  lemma {:induction false} ByteEqual(a: Byte, b: Byte)
    requires forall i | 0 <= i < 8 :: Bit(a, i) <==> Bit(b, i)
    ensures a == b
  {
    forall i: nat ensures Bit(a, i) <==> Bit(b, i) {
      if i >= 8 { HighBit(a, i); HighBit(b, i); }
    }
    BitsEqual(a, b);
  }

  lemma {:induction false} OrByteBits(b: Byte, start: nat, end: nat)
    requires start <= 8 && end <= 8
    ensures BitOr(b, BitRange(start, end)) < 0x100
    ensures forall i | 0 <= i < 8 :: Bit(BitOr(b, BitRange(start, end)), i) <==> (Bit(b, i) || start <= i < end)
  {
    Pow2Literals();
    OrBound(b, BitRange(start, end), 8);
    forall i | 0 <= i < 8
      ensures Bit(BitOr(b, BitRange(start, end)), i) <==> (Bit(b, i) || start <= i < end)
    {
      OrBit(b, BitRange(start, end), i);
      BitRangeBits(start, end, i);
    }
  }

  ghost predicate LowSet(b: nat, m: nat) {
    forall i | 0 <= i < m :: Bit(b, i)
  }

  lemma {:induction false} EqualIffLow(b: Byte, low: Byte, m: nat)
    requires m <= 8 && forall i | m <= i < 8 :: !Bit(b, i)
    requires forall i | 0 <= i < 8 :: Bit(low, i) <==> i < m
    ensures b == low <==> LowSet(b, m)
  {
    if LowSet(b, m) { ByteEqual(b, low); }
  }

  lemma {:induction false} FullByte(b: Byte)
    ensures b == 0xff <==> LowSet(b, 8)
  {
    Pow2Literals();
    var full := Pow2(8) - 1;
    forall i | 0 <= i < 8 ensures Bit(full, i) { MaskBit(8, i); }
    EqualIffLow(b, full, 8);
  }

  // Bit k of a bit mask stored in bytes.
  predicate Marked(mask: seq<Byte>, k: nat)
    requires k < 8 * |mask|
  {
    Bit(mask[k / 8], k % 8)
  }

  // What marking [start, end) must do to every bit of the mask.
  ghost predicate MarksRange(was: seq<Byte>, now: seq<Byte>, start: nat, end: nat) {
    |now| == |was| &&
    forall j, i | 0 <= j < |was| && 0 <= i < 8 :: Bit(now[j], i) <==> (Bit(was[j], i) || start <= 8 * j + i < end)
  }

  // The marking half of dtls1_hm_fragment_mark.
  method MarkRange(mask: array<Byte>, start: nat, end: nat)
    requires start < end <= 8 * mask.Length
    modifies mask
    ensures MarksRange(old(mask[..]), mask[..], start, end)
  {
    var first, last := start / 8, end / 8;
    if first == last {
      OrByteBits(mask[first], start % 8, end % 8);
      mask[first] := BitOr(mask[first], BitRange(start % 8, end % 8));
    } else {
      OrByteBits(mask[first], start % 8, 8);
      mask[first] := BitOr(mask[first], BitRange(start % 8, 8));
      for i := first + 1 to last
        invariant forall j | 0 <= j < mask.Length && j != first && !(first < j < i) :: mask[j] == old(mask[j])
        invariant forall j | first < j < i :: mask[j] == 0xff
        invariant mask[first] == BitOr(old(mask[first]), BitRange(start % 8, 8))
      {
        mask[i] := 0xff;
      }
      FullByte(0xff);
      if end % 8 != 0 {
        OrByteBits(mask[last], 0, end % 8);
        mask[last] := BitOr(mask[last], BitRange(0, end % 8));
      }
    }
  }

  // No bit at or beyond msgLen is set.
  ghost predicate NoStrayBits(mask: seq<Byte>, msgLen: nat) {
    |mask| == (msgLen + 7) / 8 &&
    forall j, i | 0 <= j < |mask| && 0 <= i < 8 && 8 * j + i >= msgLen :: !Bit(mask[j], i)
  }

  ghost predicate AllMarked(mask: seq<Byte>, msgLen: nat) {
    forall j, i | 0 <= j < |mask| && 0 <= i < 8 && 8 * j + i < msgLen :: Bit(mask[j], i)
  }

  ghost predicate BytesComplete(mask: seq<Byte>, msgLen: nat)
    requires |mask| == (msgLen + 7) / 8
  {
    && (forall j | 0 <= j < msgLen / 8 :: mask[j] == 0xff)
    && (msgLen % 8 != 0 ==> mask[msgLen / 8] == BitRange(0, msgLen % 8))
  }

  lemma {:induction false} CompleteMeans(mask: seq<Byte>, msgLen: nat)
    requires NoStrayBits(mask, msgLen)
    ensures AllMarked(mask, msgLen) <==> BytesComplete(mask, msgLen)
  {
    forall j | 0 <= j < msgLen / 8 ensures mask[j] == 0xff <==> LowSet(mask[j], 8) {
      FullByte(mask[j]);
    }
    var m, last := msgLen % 8, msgLen / 8;
    assert msgLen == 8 * last + m;
    if m != 0 {
      forall i | 0 <= i < 8 ensures Bit(BitRange(0, m), i) <==> i < m { BitRangeBits(0, m, i); }
      EqualIffLow(mask[last], BitRange(0, m), m);
    }
  }

  // The completeness check of dtls1_hm_fragment_mark.
  method CheckComplete(mask: array<Byte>, msgLen: nat) returns (complete: bool)
    requires NoStrayBits(mask[..], msgLen)
    ensures complete <==> AllMarked(mask[..], msgLen)
  {
    CompleteMeans(mask[..], msgLen);
    for i := 0 to msgLen / 8
      invariant forall j | 0 <= j < i :: mask[j] == 0xff
    {
      if mask[i] != 0xff {
        return false;
      }
    }
    if msgLen % 8 != 0 && mask[msgLen / 8] != BitRange(0, msgLen % 8) {
      return false;
    }
    return true;
  }

  // A message being reassembled: each body byte, if it has been received.
  datatype Frag = Frag(typ: Byte, seqno: nat, body: seq<Option<Byte>>) {
    ghost predicate Complete() {
      forall k | 0 <= k < |body| :: body[k].Some?
    }
  }

  ghost function NewFrag(h: Header): Frag {
    Frag(h.typ, h.seqno, seq(h.msgLen, _ => None))
  }

  ghost function Overlay(body: seq<Option<Byte>>, off: nat, bytes: seq<Byte>): seq<Option<Byte>> {
    seq(|body|, k requires 0 <= k < |body| => if off <= k < off + |bytes| then Some(bytes[k - off]) else body[k])
  }

  /** hm_fragment. */
  class HmFragment {
    const typ: Byte
    const seqno: nat
    const msgLen: nat
    const data: array<Byte>
    var reassembly: array?<Byte>

    ghost predicate Valid()
      reads this, data, reassembly
    {
      && msgLen < U24 && seqno < U16
      && data.Length == HEADER_LENGTH + msgLen
      && data[..HEADER_LENGTH] == HeaderBytes(Header(typ, msgLen, seqno, 0, msgLen))
      && (reassembly != null ==>
            && reassembly != data
            && NoStrayBits(reassembly[..], msgLen)
            && !AllMarked(reassembly[..], msgLen))
    }

    ghost predicate Has(k: nat)
      reads this, reassembly
    {
      k < msgLen && (reassembly != null ==> k < 8 * reassembly.Length && Marked(reassembly[..], k))
    }

    ghost function Abs(): Frag
      reads this, data, reassembly
      requires Valid()
    {
      Frag(typ, seqno, seq(msgLen, k requires 0 <= k < msgLen reads this, data, reassembly =>
                             if Has(k) then Some(data[HEADER_LENGTH + k]) else None))
    }

    // dtls1_hm_fragment_new.
    constructor (h: Header)
      requires ValidHeader(h)
      ensures Valid() && fresh(data) && (reassembly != null ==> fresh(reassembly))
      ensures typ == h.typ && seqno == h.seqno && msgLen == h.msgLen
      ensures Abs() == NewFrag(h)
      ensures reassembly == null <==> h.msgLen == 0
    {
      typ, seqno, msgLen := h.typ, h.seqno, h.msgLen;
      var hb := HeaderBytes(Header(h.typ, h.msgLen, h.seqno, 0, h.msgLen));
      var d := new Byte[HEADER_LENGTH + h.msgLen];
      forall i | 0 <= i < HEADER_LENGTH { d[i] := hb[i]; }
      assert d[..HEADER_LENGTH] == hb;
      data := d;
      var mask: array?<Byte> := null;
      if h.msgLen > 0 {
        mask := new Byte[(h.msgLen + 7) / 8](_ => 0);
        forall i: nat ensures !Bit(0, i) { ZeroBit(i); }
        assert !Bit(mask[0], 0);
      }
      reassembly := mask;
      new;
      forall k: nat | k < msgLen ensures !Has(k) { ZeroBit(k % 8); }
    }

    // dtls1_hm_fragment_mark.
    method Mark(start: nat, end: nat)
      requires Valid()
      modifies this`reassembly, reassembly
      ensures Valid()
      ensures old(reassembly) == null || start > end || end > msgLen ==>
        reassembly == old(reassembly) && forall k: nat :: Has(k) <==> old(Has(k))
      ensures old(reassembly) != null && start <= end <= msgLen ==>
        forall k: nat :: Has(k) <==> (old(Has(k)) || start <= k < end)
      // The mask is released exactly when every byte has been marked.
      ensures reassembly == null || reassembly == old(reassembly)
      ensures reassembly == null <==> forall k: nat | k < msgLen :: Has(k)
    {
      if reassembly == null || start > end || end > msgLen {
        NotAllHad();
        return;
      }
      if start == end {
        NotAllHad();
        return;
      }
      ghost var was := reassembly[..];
      MarkRange(reassembly, start, end);
      MarkedRange(was, reassembly[..], start, end, msgLen);
      var complete := CheckComplete(reassembly, msgLen);
      if complete {
        AllMarkedMeans(reassembly[..], msgLen);
        reassembly := null;
      } else {
        NotAllHad();
      }
    }

    lemma {:induction false} NotAllHad()
      requires Valid()
      ensures reassembly == null <==> forall k: nat | k < msgLen :: Has(k)
    {
      if reassembly != null {
        AllMarkedMeans(reassembly[..], msgLen);
        var k: nat :| k < msgLen && !Marked(reassembly[..], k);
        assert !Has(k);
      }
    }

    lemma {:induction false} NullIffComplete()
      requires Valid()
      ensures reassembly == null <==> Abs().Complete()
    {
      NotAllHad();
      assert forall k | 0 <= k < msgLen :: Abs().body[k].Some? <==> Has(k);
    }

    // The copy into the message buffer together with the marking.
    method Store(off: nat, bytes: seq<Byte>)
      requires Valid() && reassembly != null && off + |bytes| <= msgLen
      modifies this`reassembly, reassembly, data
      ensures Valid() && Abs() == old(Abs()).(body := Overlay(old(Abs().body), off, bytes))
      ensures reassembly == null || reassembly == old(reassembly)
      ensures reassembly == null <==> Abs().Complete()
    {
      forall i | 0 <= i < |bytes| { data[HEADER_LENGTH + off + i] := bytes[i]; }
      assert data[..HEADER_LENGTH] == old(data[..HEADER_LENGTH]);
      assert reassembly[..] == old(reassembly[..]);
      Mark(off, off + |bytes|);
      assert forall k | 0 <= k < msgLen :: Abs().body[k].Some? <==> Has(k);
    }
  }

  lemma {:induction false} MarkedRange(was: seq<Byte>, now: seq<Byte>, start: nat, end: nat, msgLen: nat)
    requires MarksRange(was, now, start, end) && NoStrayBits(was, msgLen) && end <= msgLen
    ensures NoStrayBits(now, msgLen)
    ensures forall k: nat | k < msgLen :: Marked(now, k) <==> (Marked(was, k) || start <= k < end)
  {
    forall k: nat | k < msgLen
      ensures Marked(now, k) <==> (Marked(was, k) || start <= k < end)
    {
      assert k == 8 * (k / 8) + k % 8;
    }
  }

  lemma {:induction false} AllMarkedMeans(mask: seq<Byte>, msgLen: nat)
    requires |mask| == (msgLen + 7) / 8
    ensures AllMarked(mask, msgLen) <==> forall k: nat | k < msgLen :: Marked(mask, k)
  {
    if forall k: nat | k < msgLen :: Marked(mask, k) {
      forall j, i | 0 <= j < |mask| && 0 <= i < 8 && 8 * j + i < msgLen ensures Bit(mask[j], i) {
        assert Marked(mask, 8 * j + i);
      }
    }
  }
}
