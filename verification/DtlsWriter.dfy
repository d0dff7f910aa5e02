/** Sealing DTLS records: record numbers and epochs (sections 4.1 and 4.2.4 of RFC 6347). */
module DtlsWriter {
  import opened Bits
  import opened Bytes
  import opened ReplayWindow

  const RECORD_HEADER_LENGTH := 13

  // An AEAD, reduced to the lengths it adds; the payload itself is kept as it is.
  datatype Aead = Aead(nonceLen: nat, tagMax: nat, tagLen: nat -> nat) {
    ghost predicate Valid() {
      forall n: nat :: tagLen(n) <= tagMax
    }

    function MaxOverhead(): nat {
      RECORD_HEADER_LENGTH + nonceLen + tagMax
    }

    function PrefixLen(): nat {
      RECORD_HEADER_LENGTH + nonceLen
    }
  }

  datatype ContentType = CtChangeCipherSpec | CtAlert | CtHandshake | CtApplicationData | CtOther

  // A sealed record: its number, its plaintext and its length on the wire.
  datatype Record = Record(ctype: ContentType, epoch: nat, number: nat, payload: seq<Byte>, wireLen: nat)

  datatype Write = Write(epoch: nat, seqno: nat, lastSeqno: nat, aead: Aead, lastAead: Aead) {
    function AeadFor(prev: bool): Aead {
      if prev then lastAead else aead
    }

    ghost predicate Valid() {
      epoch < U16 && seqno < SEQ48 && lastSeqno < SEQ48 && aead.Valid() && lastAead.Valid()
    }
  }

  // dtls_seal_record.
  function Sealed(w: Write, prev: bool, ctype: ContentType, payload: seq<Byte>, maxOut: nat): (Write, Option<Record>)
    requires prev ==> w.epoch >= 1
  {
    var aead := w.AeadFor(prev);
    var ciphertextLen := aead.nonceLen + |payload| + aead.tagLen(|payload|);
    if maxOut < RECORD_HEADER_LENGTH || ciphertextLen > maxOut - RECORD_HEADER_LENGTH then (w, None)
    else
      var number := if prev then w.lastSeqno else w.seqno;
      var next := (number + 1) % SEQ48;
      var w' := if prev then w.(lastSeqno := next) else w.(seqno := next);
      if next == 0 || ciphertextLen >= U16 then (w', None)
      else
        (w', Some(Record(ctype, if prev then w.epoch - 1 else w.epoch, number, payload,
                         RECORD_HEADER_LENGTH + ciphertextLen)))
  }

  // Adding one to a big-endian counter: the last byte first, carrying while a byte overflows.
  function Increment(s: seq<Byte>): seq<Byte>
    decreases |s|
  {
    if s == [] then []
    else
      var n := |s| - 1;
      if s[n] < 0xff then s[..n] + [s[n] + 1] else Increment(s[..n]) + [0]
  }

  lemma {:induction false} IncrementAddsOne(s: seq<Byte>)
    ensures |Increment(s)| == |s|
    ensures BigEndian(Increment(s)) == (BigEndian(s) + 1) % Pow2(8 * |s|)
    ensures BigEndian(s) < Pow2(8 * |s|)
    decreases |s|
  {
    if s != [] {
      hide Pow2;
      var n := |s| - 1;
      IncrementAddsOne(s[..n]);
      Pow2Add(8 * n, 8);
      Pow2Literals();
      assert 8 * |s| == 8 * n + 8;
      CarryOver(BigEndian(s[..n]), Pow2(8 * n), s[n]);
      IncrementLast(s);
    }
  }

  // Adding one to k * 256 + last, where k is below p: the carry goes into k.
  lemma {:induction false} CarryOver(k: nat, p: nat, last: Byte)
    requires k < p
    ensures k * B + last < p * B
    ensures (k * B + last + 1) % (p * B) == if last < 0xff then k * B + last + 1 else (k + 1) % p * B
  {
    if last < 0xff {
      DivMod(k * B + last + 1, p * B, 0, k * B + last + 1);
    } else if k + 1 == p {
      DivMod(k + 1, p, 1, 0);
      DivMod(k * B + 0x100, p * B, 1, 0);
    } else {
      DivMod(k + 1, p, 0, k + 1);
      DivMod(k * B + 0x100, p * B, 0, k * B + 0x100);
    }
  }

  lemma {:induction false} IncrementLast(s: seq<Byte>)
    requires s != [] && |Increment(s[..|s| - 1])| == |s| - 1
    ensures |Increment(s)| == |s|
    ensures var n := |s| - 1;
            BigEndian(Increment(s)) == if s[n] < 0xff then BigEndian(s[..n]) * B + s[n] + 1
                                       else BigEndian(Increment(s[..n])) * B
    ensures BigEndian(s) == BigEndian(s[..|s| - 1]) * B + s[|s| - 1]
  {
    var n := |s| - 1;
    var t := Increment(s);
    assert t[..n] == if s[n] < 0xff then s[..n] else Increment(s[..n]);
  }

  lemma {:induction false} BigEndianZero(s: seq<Byte>)
    ensures BigEndian(s) == 0 <==> forall j | 0 <= j < |s| :: s[j] == 0
    decreases |s|
  {
    if s != [] {
      var t := s[..|s| - 1];
      BigEndianZero(t);
      assert (forall j | 0 <= j < |t| :: t[j] == 0) <==> (forall j | 0 <= j < |s| - 1 :: s[j] == 0) by {
        assert forall j | 0 <= j < |t| :: t[j] == s[j];
      }
    }
  }

  // The counter has advanced by one modulo its size; ok says that it did not wrap around to zero.
  ghost predicate Advanced(was: seq<Byte>, now: seq<Byte>, ok: bool) {
    && |now| == |was|
    && BigEndian(now) == (BigEndian(was) + 1) % Pow2(8 * |was|)
    && (ok <==> BigEndian(now) != 0)
  }

  lemma {:induction false} IncrementAdvances(was: seq<Byte>, j: nat)
    requires j < |Increment(was)| && Increment(was)[j] != 0
    ensures Advanced(was, Increment(was), true)
  {
    IncrementAddsOne(was);
    BigEndianZero(Increment(was));
  }

  lemma {:induction false} IncrementWraps(was: seq<Byte>)
    requires forall j | 0 <= j < |Increment(was)| :: Increment(was)[j] == 0
    ensures Advanced(was, Increment(was), false)
  {
    IncrementAddsOne(was);
    BigEndianZero(Increment(was));
  }

  lemma {:induction false} IncrementUnfold(s: seq<Byte>, i: nat)
    requires i < |s|
    ensures Increment(s[..i + 1]) == if s[i] < 0xff then s[..i] + [s[i] + 1] else Increment(s[..i]) + [0]
  {
    assert s[..i + 1][..i] == s[..i];
  }

  lemma {:induction false} IncrementNothing()
    ensures Increment([]) == []
  {
  }

  // ssl_record_sequence_update.
  method SequenceUpdate(s: array<Byte>) returns (ok: bool)
    modifies s
    ensures Advanced(old(s[..]), s[..], ok)
  {
    hide Advanced, Increment;
    ghost var was := s[..];
    var i := s.Length;
    assert was[..i] == was;
    while i > 0
      invariant 0 <= i <= s.Length
      invariant s[..i] == was[..i]
      invariant forall j | i <= j < s.Length :: s[j] == 0
      invariant Increment(was) == Increment(was[..i]) + s[i..]
    {
      i := i - 1;
      IncrementUnfold(was, i);
      ghost var tail := s[i + 1..];
      s[i] := (s[i] + 1) % B;
      assert s[..i] == was[..i] && s[i..] == [s[i]] + tail;
      if s[i] != 0 {
        assert Increment(was) == s[..];
        IncrementAdvances(was, i);
        return true;
      }
    }
    assert was[..0] == [];
    IncrementNothing();
    assert Increment(was) == s[..];
    IncrementWraps(was);
    return false;
  }

  // The six bytes behind the epoch count modulo 2^48.
  lemma {:induction false} AdvancedNumber(was: seq<Byte>, now: seq<Byte>, ok: bool)
    requires Advanced(was, now, ok) && |was| == 6
    ensures |now| == 6 && BigEndian(now) == (BigEndian(was) + 1) % SEQ48
    ensures ok <==> BigEndian(now) != 0
  {
    Pow2Literals();
    hide Pow2;
    Pow2Add(8, 8);
    Pow2Add(16, 32);
  }

  const ZEROS: seq<Byte> := [0, 0, 0, 0, 0, 0]

  /** The write half of the record layer: write_sequence, last_write_sequence, w_epoch and the two contexts. */
  class Writer {
    var w: Write
    // The counters as they go into the header: w.seqno and w.lastSeqno in six bytes.
    var writeSequence: seq<Byte>
    var lastWriteSequence: seq<Byte>
    // Every (epoch, number) sealed so far, and whether a counter has wrapped around.
    ghost var used: set<(nat, nat)>
    ghost var wrapped: bool

    ghost predicate Valid()
      reads this
    {
      && w.Valid()
      && |writeSequence| == 6 && BigEndian(writeSequence) == w.seqno
      && |lastWriteSequence| == 6 && BigEndian(lastWriteSequence) == w.lastSeqno
      && (!wrapped ==> forall r | r in used ::
            && r.0 <= w.epoch
            && (r.0 == w.epoch ==> r.1 < w.seqno)
            && (r.0 == w.epoch - 1 ==> r.1 < w.lastSeqno))
    }

    constructor (aead: Aead)
      requires aead.Valid()
      ensures Valid() && used == {} && !wrapped
      ensures w.epoch == 0 && w.seqno == 0 && w.aead == aead
    {
      w := Write(0, 0, 0, aead, aead);
      writeSequence, lastWriteSequence := ZEROS, ZEROS;
      used, wrapped := {}, false;
      BigEndianZero(ZEROS);
    }

    // Adds one to the counter that the record takes its number from.
    method Advance(prev: bool) returns (ok: bool)
      requires |writeSequence| == 6 && BigEndian(writeSequence) == w.seqno
      requires |lastWriteSequence| == 6 && BigEndian(lastWriteSequence) == w.lastSeqno
      modifies this`w, this`writeSequence, this`lastWriteSequence
      ensures var next := ((if prev then old(w).lastSeqno else old(w).seqno) + 1) % SEQ48;
              w == (if prev then old(w).(lastSeqno := next) else old(w).(seqno := next)) && (ok <==> next != 0)
      ensures |writeSequence| == 6 && BigEndian(writeSequence) == w.seqno
      ensures |lastWriteSequence| == 6 && BigEndian(lastWriteSequence) == w.lastSeqno
    {
      hide Advanced;
      var was := if prev then lastWriteSequence else writeSequence;
      var counter := new Byte[6](i requires 0 <= i < 6 => was[i]);
      assert counter[..] == was;
      ok := SequenceUpdate(counter);
      AdvancedNumber(was, counter[..], ok);
      if prev {
        lastWriteSequence := counter[..];
        w := w.(lastSeqno := BigEndian(lastWriteSequence));
      } else {
        writeSequence := counter[..];
        w := w.(seqno := BigEndian(writeSequence));
      }
    }

    method SealRecord(prev: bool, ctype: ContentType, payload: seq<Byte>, maxOut: nat) returns (rec: Option<Record>)
      requires Valid() && (prev ==> w.epoch >= 1)
      modifies this
      ensures Valid()
      ensures (w, rec) == Sealed(old(w), prev, ctype, payload, maxOut)
      // The record bears the next number of its epoch and counts every byte that goes out.
      ensures rec.Some? ==>
        && rec.value.epoch == (if prev then old(w).epoch - 1 else old(w).epoch)
        && rec.value.number == (if prev then old(w).lastSeqno else old(w).seqno)
        && rec.value.ctype == ctype && rec.value.payload == payload
        && var aead := if prev then old(w).lastAead else old(w).aead;
           rec.value.wireLen == RECORD_HEADER_LENGTH + aead.nonceLen + |payload| + aead.tagLen(|payload|) <= maxOut
      ensures used == if rec.Some? then old(used) + {(rec.value.epoch, rec.value.number)} else old(used)
      ensures old(wrapped) ==> wrapped
      ensures wrapped ==> old(wrapped) || (if prev then old(w).lastSeqno else old(w).seqno) == SEQ48 - 1
      // Within an epoch record numbers strictly increase, so none is reused.
      ensures rec.Some? && !wrapped ==>
        forall n | (rec.value.epoch, n) in old(used) :: n < rec.value.number
    {
      hide BigEndian;
      var aead := w.AeadFor(prev);
      rec := None;
      var ciphertextLen := aead.nonceLen + |payload| + aead.tagLen(|payload|);
      if maxOut < RECORD_HEADER_LENGTH || ciphertextLen > maxOut - RECORD_HEADER_LENGTH {
        return;
      }
      var epoch := if prev then w.epoch - 1 else w.epoch;
      var number := if prev then w.lastSeqno else w.seqno;
      var ok := Advance(prev);
      if !ok {
        wrapped := true;
        return;
      }
      if ciphertextLen >= U16 {
        return;
      }
      rec := Some(Record(ctype, epoch, number, payload, RECORD_HEADER_LENGTH + ciphertextLen));
      used := used + {(epoch, number)};
    }

    // dtls1_set_write_state.
    method SetWriteState(aead: Aead)
      requires Valid() && aead.Valid()
      modifies this
      ensures Valid() && used == old(used)
      ensures w == Write((old(w).epoch + 1) % U16, 0, old(w).seqno, aead, old(w).aead)
      ensures wrapped <==> old(wrapped) || old(w).epoch == U16 - 1
    {
      if w.epoch == U16 - 1 { wrapped := true; }
      lastWriteSequence, writeSequence := writeSequence, ZEROS;
      w := Write((w.epoch + 1) % U16, 0, w.seqno, aead, w.aead);
      BigEndianZero(ZEROS);
    }
  }
}
