/** The DTLS anti-replay window (section 4.1.2.6 of RFC 6347) and the epoch check in front of it. */
module ReplayWindow {
  import opened Bits
  import opened Bytes

  const WINDOW := 64

  // The two fields of DTLS1_BITMAP, as a value.
  datatype Window = Window(bits: nat, maxSeqNum: nat)

  const EmptyWindow := Window(0, 0)

  // dtls1_bitmap_should_discard.
  predicate Discards(w: Window, s: nat) {
    s <= w.maxSeqNum && (w.maxSeqNum - s >= WINDOW || Bit(w.bits, w.maxSeqNum - s))
  }

  // dtls1_bitmap_record: slide the window if s is the new maximum, then mark s.
  function Slid(w: Window, s: nat): (r: Window)
    ensures s <= r.maxSeqNum
  {
    if s > w.maxSeqNum then
      var shift := s - w.maxSeqNum;
      Window(if shift >= WINDOW then 0 else Shl(w.bits, shift, WINDOW), s)
    else w
  }

  function Recorded(w: Window, s: nat): Window {
    var slid := Slid(w, s);
    var idx := slid.maxSeqNum - s;
    if idx < WINDOW then slid.(bits := BitOr(slid.bits, Shl(1, idx, WINDOW))) else slid
  }

  // The window represents exactly the recent part of a set of record numbers.
  ghost predicate Refines(w: Window, seen: set<nat>) {
    && w.bits < Pow2(WINDOW)
    && (forall s | s in seen :: s <= w.maxSeqNum)
    && (forall i: nat | i < WINDOW :: Bit(w.bits, i) <==> (i <= w.maxSeqNum && w.maxSeqNum - i in seen))
  }

  lemma {:induction false} SlidBit(w: Window, seen: set<nat>, s: nat, i: nat)
    requires Refines(w, seen) && i < WINDOW
    ensures var r := Slid(w, s);
            Bit(r.bits, i) <==> (i <= r.maxSeqNum && r.maxSeqNum - i in seen)
  {
    if s > w.maxSeqNum {
      var shift := s - w.maxSeqNum;
      if shift < WINDOW {
        ShlBit(w.bits, shift, WINDOW, i);
        if i >= shift { assert Bit(w.bits, i - shift) <==> (i - shift <= w.maxSeqNum && s - i in seen); }
      } else {
        ZeroBit(i);
      }
    }
  }

  lemma {:induction false} RecordedBit(w: Window, seen: set<nat>, s: nat, i: nat)
    requires Refines(w, seen) && i < WINDOW
    ensures var r := Recorded(w, s);
            Bit(r.bits, i) <==> (i <= r.maxSeqNum && r.maxSeqNum - i in seen + {s})
  {
    hide Refines;
    SlidBit(w, seen, s, i);
    var slid := Slid(w, s);
    var idx := slid.maxSeqNum - s;
    if idx < WINDOW {
      ShlOne(idx, WINDOW);
      Pow2Bit(idx, i);
      OrBit(slid.bits, Pow2(idx), i);
    }
  }

  lemma {:induction false} RecordedBound(w: Window, seen: set<nat>, s: nat)
    requires Refines(w, seen)
    ensures Recorded(w, s).bits < Pow2(WINDOW)
  {
    hide Bit, BitOr, Pow2, Shl;
    var slid := Slid(w, s);
    var idx := slid.maxSeqNum - s;
    if idx < WINDOW { OrBound(slid.bits, Shl(1, idx, WINDOW), WINDOW); }
  }

  lemma {:induction false} RecordRefines(w: Window, seen: set<nat>, s: nat)
    requires Refines(w, seen)
    ensures Refines(Recorded(w, s), seen + {s})
  {
    RecordedBound(w, seen, s);
    var r := Recorded(w, s);
    assert r.maxSeqNum == if s > w.maxSeqNum then s else w.maxSeqNum;
    hide Recorded, Slid, Bit;
    forall i: nat | i < WINDOW
      ensures Bit(r.bits, i) <==> (i <= r.maxSeqNum && r.maxSeqNum - i in seen + {s})
    {
      RecordedBit(w, seen, s, i);
    }
  }

  lemma {:induction false} EmptyRefines()
    ensures Refines(EmptyWindow, {})
  {
    forall i: nat | i < WINDOW ensures !Bit(0, i) { ZeroBit(i); }
  }

  // A number is discarded exactly when it was recorded or has left the window.
  lemma {:induction false} DiscardsExactly(w: Window, seen: set<nat>, s: nat)
    requires Refines(w, seen)
    ensures Discards(w, s) <==> (s in seen || s + WINDOW <= w.maxSeqNum)
  {
    if s <= w.maxSeqNum && w.maxSeqNum - s < WINDOW {
      var i := w.maxSeqNum - s;
      assert Bit(w.bits, i) <==> (i <= w.maxSeqNum && w.maxSeqNum - i in seen);
    }
  }

  // The window after a run of arrivals: seen holds the numbers recorded, heard those and the discarded ones.
  ghost predicate Tracks(w: Window, seen: set<nat>, heard: set<nat>) {
    && Refines(w, seen) && seen <= heard
    && (w.maxSeqNum == 0 || w.maxSeqNum in seen)
    && forall n | n in heard :: n in seen || n + WINDOW <= w.maxSeqNum
  }

  // A number is discarded exactly when it arrived before, or one at least 64 higher did.
  lemma {:induction false} DropsExactly(w: Window, seen: set<nat>, heard: set<nat>, s: nat)
    requires Tracks(w, seen, heard)
    ensures Discards(w, s) <==> (s in heard || exists m | m in heard :: s + WINDOW <= m)
  {
    hide Discards, Bit;
    DiscardsExactly(w, seen, s);
  }

  lemma {:induction false} HearKeepsTrack(w: Window, seen: set<nat>, heard: set<nat>, s: nat)
    requires Tracks(w, seen, heard)
    ensures Discards(w, s) ==> Tracks(w, seen, heard + {s})
    ensures !Discards(w, s) ==> Tracks(Recorded(w, s), seen + {s}, heard + {s})
  {
    hide Bit, Refines;
    RecordRefines(w, seen, s);
    DiscardsExactly(w, seen, s);
  }

  // The numbers accepted by a run that records every number it does not discard.
  function Accepted(w: Window, nums: seq<nat>): seq<nat>
    decreases |nums|
  {
    if nums == [] then []
    else if Discards(w, nums[0]) then Accepted(w, nums[1..])
    else [nums[0]] + Accepted(Recorded(w, nums[0]), nums[1..])
  }

  ghost predicate FreshAndDistinct(a: seq<nat>, seen: set<nat>) {
    && (forall i | 0 <= i < |a| :: a[i] !in seen)
    && (forall i, j | 0 <= i < j < |a| :: a[i] != a[j])
  }

  lemma {:induction false} PrependFresh(n: nat, a: seq<nat>, seen: set<nat>)
    requires n !in seen && FreshAndDistinct(a, seen + {n})
    ensures FreshAndDistinct([n] + a, seen)
  {
    assert forall i | 0 <= i < |a| :: a[i] !in seen + {n};
  }

  // Over any run no number is accepted twice, nor one that was recorded before the run.
  lemma {:induction false} NeverAcceptedTwice(w: Window, seen: set<nat>, nums: seq<nat>)
    requires Refines(w, seen)
    ensures FreshAndDistinct(Accepted(w, nums), seen)
    decreases |nums|
  {
    if nums != [] {
      DiscardsExactly(w, seen, nums[0]);
      if Discards(w, nums[0]) {
        NeverAcceptedTwice(w, seen, nums[1..]);
      } else {
        RecordRefines(w, seen, nums[0]);
        NeverAcceptedTwice(Recorded(w, nums[0]), seen + {nums[0]}, nums[1..]);
        PrependFresh(nums[0], Accepted(Recorded(w, nums[0]), nums[1..]), seen);
      }
    }
  }

  // The value of a big-endian byte string.
  function BigEndian(s: seq<Byte>): nat {
    if s == [] then 0 else BigEndian(s[..|s| - 1]) * B + s[|s| - 1]
  }

  lemma {:induction false} BigEndianInjective(s: seq<Byte>, t: seq<Byte>)
    requires |s| == |t| && BigEndian(s) == BigEndian(t)
    ensures s == t
    decreases |s|
  {
    if s != [] {
      var n := |s| - 1;
      DivMod(BigEndian(s), 0x100, BigEndian(s[..n]), s[n]);
      DivMod(BigEndian(t), 0x100, BigEndian(t[..n]), t[n]);
      BigEndianInjective(s[..n], t[..n]);
      assert s == s[..n] + [s[n]] && t == t[..n] + [t[n]];
    }
  }

  lemma {:induction false} BigEndianBound(s: seq<Byte>)
    ensures BigEndian(s) < Pow2(8 * |s|)
    decreases |s|
  {
    if s != [] {
      BigEndianBound(s[..|s| - 1]);
      Pow2Add(8 * (|s| - 1), 8);
      Pow2Literals();
    }
  }

  // to_u64_be.
  method ToU64Be(in_: seq<Byte>) returns (ret: nat)
    requires |in_| == 8
    ensures ret == BigEndian(in_) < Pow2(64)
  {
    ret := 0;
    for i := 0 to 8
      invariant ret == BigEndian(in_[..i])
    {
      assert in_[..i + 1][..i] == in_[..i];
      ShiftInByte(ret, in_[..i], in_[i]);
      ret := Shl(ret, 8, 64);
      ret := BitOr(ret, in_[i]);
    }
    assert in_[..8] == in_;
    BigEndianBound(in_);
  }

  lemma {:induction false} ShiftInByte(ret: nat, done: seq<Byte>, b: Byte)
    requires |done| < 8 && ret == BigEndian(done)
    ensures BitOr(Shl(ret, 8, 64), b) == ret * 0x100 + b
  {
    BigEndianBound(done);
    Pow2Literals();
    Pow2Mono(8 * |done|, 56);
    Pow2Add(56, 8);
    DivMod(ret * 0x100, Pow2(64), 0, ret * 0x100);
    OrAbove(b, ret, 8);
    OrCommutes(b, ret * 0x100);
  }

  class Bitmap {
    var bits: nat
    var maxSeqNum: nat
    ghost var seen: set<nat>

    ghost predicate Valid()
      reads this
    {
      Refines(AsWindow(), seen)
    }

    function AsWindow(): Window
      reads this
    {
      Window(bits, maxSeqNum)
    }

    constructor ()
      ensures Valid() && seen == {} && AsWindow() == EmptyWindow
    {
      bits, maxSeqNum, seen := 0, 0, {};
      new;
      EmptyRefines();
    }

    method ShouldDiscard(seqNum: nat) returns (r: bool)
      requires Valid()
      ensures r <==> Discards(AsWindow(), seqNum)
      ensures r <==> (seqNum in seen || seqNum + WINDOW <= maxSeqNum)
    {
      DiscardsExactly(AsWindow(), seen, seqNum);
      if seqNum > maxSeqNum {
        return false;
      }
      var idx := maxSeqNum - seqNum;
      r := idx >= WINDOW || Bit(bits, idx);
    }

    method Record(seqNum: nat)
      requires Valid()
      modifies this
      ensures Valid() && seen == old(seen) + {seqNum}
      ensures AsWindow() == Recorded(old(AsWindow()), seqNum)
    {
      RecordRefines(AsWindow(), seen, seqNum);
      if seqNum > maxSeqNum {
        var shift := seqNum - maxSeqNum;
        if shift >= WINDOW {
          bits := 0;
        } else {
          bits := Shl(bits, shift, WINDOW);
        }
        maxSeqNum := seqNum;
      }
      var idx := maxSeqNum - seqNum;
      if idx < WINDOW {
        bits := BitOr(bits, Shl(1, idx, WINDOW));
      }
      seen := seen + {seqNum};
    }

    method Reset()
      modifies this
      ensures Valid() && seen == {} && AsWindow() == EmptyWindow
    {
      bits, maxSeqNum, seen := 0, 0, {};
      EmptyRefines();
    }
  }

  const SEQ48: int := 0x1_0000_0000_0000
  const MAX_PLAIN_LENGTH := 16384

  datatype OpenResult = Closed | Discard | TooLong | Opened

  // SSL3_RT_MAX_ENCRYPTED_LENGTH: a longer record body is dropped with the header.
  const MAX_ENCRYPTED_LENGTH := MAX_PLAIN_LENGTH + 320

  // What dtls_open_record does with the record numbered id while reading is open. authentic says that its header
  // parses, that its version is accepted and that it decrypts; plainLen is the length of the plaintext.
  function Judge(rEpoch: nat, w: Window, id: nat, bodyLen: nat, authentic: bool, plainLen: nat): OpenResult {
    if bodyLen > MAX_ENCRYPTED_LENGTH || id / SEQ48 != rEpoch || Discards(w, id) || !authentic then Discard
    else if plainLen > MAX_PLAIN_LENGTH then TooLong
    else Opened
  }

  lemma {:induction false} EpochOfNumber(s: seq<Byte>)
    requires |s| == 8
    ensures BigEndian(s) / SEQ48 == s[0] * B + s[1]
  {
    assert s[..7][..6] == s[..6] && s[..6][..5] == s[..5] && s[..5][..4] == s[..4];
    assert s[..4][..3] == s[..3] && s[..3][..2] == s[..2] && s[..2][..1] == s[..1] && s[..1][..0] == [];
    var low := ((s[2] * B + s[3]) * B + s[4]) * B + s[5];
    assert BigEndian(s[..1]) == s[0];
    assert BigEndian(s[..4]) == (BigEndian(s[..2]) * 0x100 + s[2]) * 0x100 + s[3];
    assert BigEndian(s[..6]) == BigEndian(s[..2]) * 0x1_0000_0000 + low;
    assert BigEndian(s[..7]) == BigEndian(s[..6]) * B + s[6];
    assert BigEndian(s) == BigEndian(s[..7]) * B + s[7];
    DivMod(BigEndian(s), SEQ48, BigEndian(s[..2]), (low * B + s[6]) * B + s[7]);
  }

  lemma {:induction false} JudgeOpens(rEpoch: nat, w: Window, seen: set<nat>, id: nat, bodyLen: nat, authentic: bool,
                                      plainLen: nat)
    requires Refines(w, seen)
    ensures Judge(rEpoch, w, id, bodyLen, authentic, plainLen) == Opened <==>
      && id / SEQ48 == rEpoch && bodyLen <= MAX_ENCRYPTED_LENGTH && authentic && plainLen <= MAX_PLAIN_LENGTH
      && id !in seen && id + WINDOW > w.maxSeqNum
  {
    hide Discards, Refines;
    DiscardsExactly(w, seen, id);
  }

  /** dtls_open_record and dtls1_set_read_state. */
  class RecordReader {
    var rEpoch: nat
    const bitmap: Bitmap
    // Every record number ever accepted, and whether the 16-bit epoch has wrapped around.
    ghost var accepted: set<nat>
    ghost var wrapped: bool

    ghost predicate Valid()
      reads this, bitmap
    {
      && rEpoch < U16
      && bitmap.Valid()
      && bitmap.seen <= accepted
      && (forall n | n in bitmap.seen :: n / SEQ48 == rEpoch)
      && (!wrapped ==> forall n | n in accepted :: n in bitmap.seen || n / SEQ48 < rEpoch)
    }

    constructor ()
      ensures Valid() && accepted == {} && rEpoch == 0 && !wrapped && fresh(bitmap)
      ensures bitmap.seen == {} && bitmap.AsWindow() == EmptyWindow
    {
      rEpoch, accepted, wrapped := 0, {}, false;
      bitmap := new Bitmap();
    }

    // closed says that a close_notify has been received, headerOk that the header parses and the version is accepted,
    // aeadOpens that the body decrypts.
    method OpenRecord(closed: bool, headerOk: bool, sequence: seq<Byte>, bodyLen: nat, aeadOpens: bool, plainLen: nat)
      returns (r: OpenResult)
      requires Valid() && |sequence| == 8
      modifies this, bitmap
      ensures Valid() && rEpoch == old(rEpoch) && wrapped == old(wrapped)
      // No record number is accepted twice.
      ensures r == Opened && !wrapped ==> BigEndian(sequence) !in old(accepted)
      ensures accepted == if r == Opened then old(accepted) + {BigEndian(sequence)} else old(accepted)
      ensures bitmap.seen == if r == Opened then old(bitmap.seen) + {BigEndian(sequence)} else old(bitmap.seen)
      ensures bitmap.AsWindow()
           == if r == Opened then Recorded(old(bitmap.AsWindow()), BigEndian(sequence)) else old(bitmap.AsWindow())
      ensures r == if closed then Closed
                   else Judge(rEpoch, old(bitmap.AsWindow()), BigEndian(sequence), bodyLen, headerOk && aeadOpens,
                              plainLen)
      // A fresh, recent, authentic record of this epoch is accepted.
      ensures r == Opened <==>
        && !closed && headerOk && bodyLen <= MAX_ENCRYPTED_LENGTH
        && BigEndian(sequence) / SEQ48 == rEpoch && aeadOpens && plainLen <= MAX_PLAIN_LENGTH
        && BigEndian(sequence) !in old(bitmap.seen)
        && BigEndian(sequence) + WINDOW > old(bitmap.maxSeqNum)
    {
      hide Recorded, Refines, Discards, BigEndian;
      JudgeOpens(rEpoch, bitmap.AsWindow(), bitmap.seen, BigEndian(sequence), bodyLen, headerOk && aeadOpens, plainLen);
      if closed {
        return Closed;
      }
      if !headerOk || bodyLen > MAX_ENCRYPTED_LENGTH {
        return Discard;
      }
      EpochOfNumber(sequence);
      var epoch := sequence[0] * B + sequence[1];
      var n := ToU64Be(sequence);
      var stale := bitmap.ShouldDiscard(n);
      if epoch != rEpoch || stale {
        return Discard;
      }
      if !aeadOpens {
        return Discard;
      }
      if plainLen > MAX_PLAIN_LENGTH {
        return TooLong;
      }
      assert n / SEQ48 == rEpoch;
      Accept(n);
      r := Opened;
    }

    method Accept(n: nat)
      requires Valid() && n !in bitmap.seen && n / SEQ48 == rEpoch
      modifies `accepted, bitmap
      ensures Valid() && accepted == old(accepted) + {n} && bitmap.seen == old(bitmap.seen) + {n}
      ensures bitmap.AsWindow() == Recorded(old(bitmap.AsWindow()), n)
      ensures !wrapped ==> n !in old(accepted)
    {
      hide Recorded, Bitmap.Valid;
      bitmap.Record(n);
      accepted := accepted + {n};
    }

    // The cipher may not change while the current epoch has leftover handshake data.
    method SetReadState(unprocessed: bool) returns (ok: bool)
      requires Valid()
      modifies this, bitmap
      ensures Valid() && accepted == old(accepted) && (ok <==> !unprocessed)
      ensures !ok ==> unchanged(this, bitmap)
      ensures ok ==>
        && rEpoch == (old(rEpoch) + 1) % U16
        && (wrapped <==> old(wrapped) || old(rEpoch) == U16 - 1)
        && bitmap.seen == {} && bitmap.AsWindow() == EmptyWindow
    {
      if unprocessed {
        return false;
      }
      if rEpoch == U16 - 1 { wrapped := true; }
      rEpoch := (rEpoch + 1) % U16;
      bitmap.Reset();
      return true;
    }
  }
}
