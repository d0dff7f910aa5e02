/** The sender's fragments, through any transport, into the receiver. */
module DtlsEndToEnd {
  import opened Bytes
  import opened Reassembly
  import opened ReplayWindow
  import opened DtlsWriter
  import opened DtlsReceiver
  import opened DtlsSender
  import opened DtlsTransfer

  // dtls1_finish_message: the header was written with a zero message length and no offset, followed by the
  // fragment length; the message length is then copied from the fragment length.
  method FinishMessage(msg: array<Byte>, ghost typ: Byte, ghost seqno: nat, ghost body: seq<Byte>) returns (ok: bool)
    requires seqno < U16 && |body| < U24
    requires msg[..] == [typ] + U24Bytes(0) + U16Bytes(seqno) + U24Bytes(0) + U24Bytes(|body|) + body
    modifies msg
    ensures ok && msg[..] == RawMessage(typ, seqno, body)
  {
    hide U16Bytes, U24Bytes;
    ghost var was := msg[..];
    if msg.Length < HEADER_LENGTH {
      assert false;
      return false;
    }
    msg[1], msg[2], msg[3] := msg[9], msg[10], msg[11];
    assert msg[..] == was[..1] + was[9..12] + was[4..];
    HeaderFilled(was, typ, seqno, body);
    return true;
  }

  lemma {:induction false} HeaderFilled(was: seq<Byte>, typ: Byte, seqno: nat, body: seq<Byte>)
    requires seqno < U16 && |body| < U24
    requires was == [typ] + U24Bytes(0) + U16Bytes(seqno) + U24Bytes(0) + U24Bytes(|body|) + body
    ensures was[..1] + was[9..12] + was[4..] == RawMessage(typ, seqno, body)
  {
    var len := U24Bytes(|body|);
    assert was[9..12] == len && was[4..] == U16Bytes(seqno) + U24Bytes(0) + len + body && was[..1] == [typ];
  }

  ghost predicate IsMessage(flight: seq<OutMsg>, M: seq<Msg>, i: nat, s: nat)
    requires ValidMessages(M)
  {
    i < |flight| && s < |M| && !flight[i].isCcs && flight[i].epoch == M[s].epoch && flight[i].data == Raw(M, s)
  }

  ghost predicate Carried(flight: seq<OutMsg>, M: seq<Msg>, s: nat)
    requires ValidMessages(M)
  {
    exists i :: IsMessage(flight, M, i, s)
  }

  // Every message of the list is one of M, in its epoch, or a ChangeCipherSpec in epoch 0.
  ghost predicate Belongs(flight: seq<OutMsg>, M: seq<Msg>)
    requires ValidMessages(M)
  {
    && (forall i | 0 <= i < |flight| && flight[i].isCcs :: flight[i].epoch == 0)
    && (forall i | 0 <= i < |flight| && !flight[i].isCcs :: exists s :: IsMessage(flight, M, i, s))
  }

  // The flight carries the messages from number base on.
  ghost predicate Carries(flight: seq<OutMsg>, M: seq<Msg>, base: nat)
    requires ValidMessages(M)
  {
    forall s | base <= s < |M| :: Carried(flight, M, s)
  }

  lemma {:induction false} MessageParses(flight: seq<OutMsg>, M: seq<Msg>, i: nat, s: nat)
    requires ValidMessages(M) && IsMessage(flight, M, i, s)
    ensures flight[i].WellFormed() && flight[i].Body() == M[s].body
    ensures flight[i].Hdr() == PieceHeader(M, s, 0, |M[s].body|)
  {
    var h := PieceHeader(M, s, 0, |M[s].body|);
    ParseInvertsHeader(h, M[s].body, []);
    assert Raw(M, s) == HeaderBytes(h) + M[s].body + [];
  }

  lemma {:induction false} PieceOfFlight(flight: seq<OutMsg>, M: seq<Msg>, i: nat, s: nat, off: nat, len: nat)
    requires ValidMessages(M) && IsMessage(flight, M, i, s) && InMessage(M, s, off, len)
    ensures flight[i].WellFormed() && off + len <= |flight[i].Body()|
    ensures Fragment(flight[i], off, len) == PieceBytes(M, s, off, len)
  {
    MessageParses(flight, M, i, s);
  }

  // Every record the sender emitted is a genuine piece or a ChangeCipherSpec in the clear.
  lemma {:induction false} RecordGenuine(flight: seq<OutMsg>, M: seq<Msg>, r: Record)
    requires ValidMessages(M) && Belongs(flight, M) && Genuine(flight, r)
    ensures GenuineRecord(M, r) || (r.ctype == CtChangeCipherSpec && r.epoch == 0 && r.payload == [MT_CCS])
  {
    var i: nat, off: nat, len: nat :| IsPiece(flight, r, i, off, len);
    hide ParseFragment, HeaderBytes, Fragment, PieceBytes, Raw, Carried;
    if !flight[i].isCcs {
      var s :| IsMessage(flight, M, i, s);
      PieceGenuine(flight, M, i, s, off, len, r);
    }
  }

  lemma {:induction false} PieceGenuine(flight: seq<OutMsg>, M: seq<Msg>, i: nat, s: nat, off: nat, len: nat, r: Record)
    requires ValidMessages(M) && IsMessage(flight, M, i, s) && IsPiece(flight, r, i, off, len)
    ensures IsPieceOf(M, r, s, off, len)
  {
    MessageParses(flight, M, i, s);
    PieceOfFlight(flight, M, i, s, off, len);
    hide ParseFragment, HeaderBytes, Fragment, PieceBytes, Raw;
  }

  // Some record of recs carries byte k of message i of the flight (or the whole of it, if it is empty).
  ghost predicate CarriesByte(flight: seq<OutMsg>, recs: seq<Record>, i: nat, k: nat) {
    exists j, off, len :: 0 <= j < |recs| && IsPiece(flight, recs[j], i, off, len) && CoversByte(flight, i, k, off, len)
  }

  ghost predicate CoversByte(flight: seq<OutMsg>, i: nat, k: nat, off: nat, len: nat) {
    i < |flight| && !flight[i].isCcs && flight[i].WellFormed() && (off <= k < off + len || |flight[i].Body()| == 0)
  }

  lemma {:induction false} CarriesMore(flight: seq<OutMsg>, recs: seq<Record>, r: Record, i: nat, k: nat)
    requires CarriesByte(flight, recs, i, k)
    ensures CarriesByte(flight, recs + [r], i, k)
  {
    hide IsPiece, CoversByte;
    var j, off, len :| 0 <= j < |recs| && IsPiece(flight, recs[j], i, off, len) && CoversByte(flight, i, k, off, len);
    assert (recs + [r])[j] == recs[j];
  }

  // Everything behind the cursor has been carried by some record.
  ghost predicate Behind(flight: seq<OutMsg>, c: Cursor, i: nat, k: nat) {
    && i < |flight| && !flight[i].isCcs && flight[i].WellFormed()
    && (k < |flight[i].Body()| || k == 0)
    && (i < c.written || (i == c.written && k < c.offset))
  }

  lemma {:induction false} LastRecordCarries(flight: seq<OutMsg>, c: Cursor, r: Record, i: nat, k: nat)
    requires CursorValid(flight, c) && Advance(flight, c, r).Some?
    requires Behind(flight, Advance(flight, c, r).value, i, k) && !Behind(flight, c, i, k)
    ensures |r.payload| >= HEADER_LENGTH
    ensures IsPiece(flight, r, i, c.offset, |r.payload| - HEADER_LENGTH)
    ensures CoversByte(flight, i, k, c.offset, |r.payload| - HEADER_LENGTH)
  {
    hide ParseFragment, HeaderBytes;
  }

  lemma {:induction false} LastCarries(flight: seq<OutMsg>, front: seq<Record>, r: Record, c: Cursor, i: nat, k: nat)
    requires CursorValid(flight, c) && Advance(flight, c, r).Some?
    requires Behind(flight, Advance(flight, c, r).value, i, k) && !Behind(flight, c, i, k)
    ensures CarriesByte(flight, front + [r], i, k)
  {
    hide Behind, Advance, CursorValid, IsPiece, CoversByte;
    LastRecordCarries(flight, c, r, i, k);
    assert (front + [r])[|front|] == r;
  }

  lemma {:induction false} ReplayLast(flight: seq<OutMsg>, recs: seq<Record>)
    requires CursorValid(flight, Start) && recs != [] && Replay(flight, Start, recs).Some?
    ensures Replay(flight, Start, recs[..|recs| - 1]).Some?
    ensures CursorValid(flight, Replay(flight, Start, recs[..|recs| - 1]).value)
    ensures Advance(flight, Replay(flight, Start, recs[..|recs| - 1]).value, recs[|recs| - 1]) == Replay(flight,
        Start, recs)
  {
    hide Advance, CursorValid;
  }

  lemma {:induction false} ReplayCarries(flight: seq<OutMsg>, recs: seq<Record>, i: nat, k: nat)
    requires Replay(flight, Start, recs).Some? && Behind(flight, Replay(flight, Start, recs).value, i, k)
    ensures CarriesByte(flight, recs, i, k)
    decreases |recs|
  {
    assert CursorValid(flight, Start) && !Behind(flight, Start, i, k);
    if recs != [] {
      var front, last := recs[..|recs| - 1], recs[|recs| - 1];
      ReplayLast(flight, recs);
      hide Replay, Behind, Advance, CursorValid, CarriesByte;
      assert recs == front + [last];
      var c := Replay(flight, Start, front).value;
      if Behind(flight, c, i, k) {
        ReplayCarries(flight, front, i, k);
        CarriesMore(flight, front, last, i, k);
      } else {
        LastCarries(flight, front, last, c, i, k);
      }
    }
  }

  // All records that were sent, in any pass and of any flight: no two bear the same number, and none ends reading for
  // its length.
  ghost predicate Sent(M: seq<Msg>, sent: seq<Record>)
    requires ValidMessages(M)
  {
    && DistinctIds(sent)
    && forall r | r in sent ::
         && r.number < SEQ48 && Harmless(r)
         && (GenuineRecord(M, r) || (r.ctype == CtChangeCipherSpec && r.epoch == 0 && r.payload == [MT_CCS]))
  }

  // What arrives authentically was sent.
  ghost predicate Arrivals(events: seq<Event>, sent: seq<Record>) {
    forall e | e in events && e.Arrive? && e.authentic :: e.rec in sent
  }

  // r carries the byte and arrives in its epoch, before any record 64 ahead of it, and not for the second time.
  ghost predicate Brings(maxLen: nat, M: seq<Msg>, x: Session, events: seq<Event>, r: Record, s: nat, k: nat)
    requires ValidMessages(M) && Coherent(x)
  {
    Carrying(M, r, s, k) && Fits(r) && Timely(maxLen, x, events, r) && StillFresh(x, r)
  }

  ghost predicate Brought(maxLen: nat, M: seq<Msg>, x: Session, events: seq<Event>, sent: seq<Record>, s: nat, k: nat)
    requires ValidMessages(M) && Coherent(x)
  {
    exists r :: r in sent && Brings(maxLen, M, x, events, r, s, k)
  }

  lemma {:induction false} ArrivalsFriendly(M: seq<Msg>, sent: seq<Record>, events: seq<Event>)
    requires ValidMessages(M) && Sent(M, sent) && Arrivals(events, sent)
    ensures AllFriendly(M, events)
  {
    hide GenuineRecord, DistinctIds, Harmless;
  }

  // Numbers identify records, so a retransmission is never taken for a replay of the original.
  lemma {:induction false} NumbersIdentify(sent: seq<Record>, events: seq<Event>, r: Record)
    requires DistinctIds(sent) && Arrivals(events, sent) && r in sent
    ensures OnlyOne(events, r)
  {
    forall e | e in events && e.Arrive? && e.authentic && e.rec.epoch == r.epoch && e.rec.number == r.number
      ensures e.rec == r
    {
      var i :| 0 <= i < |sent| && sent[i] == e.rec;
      var j :| 0 <= j < |sent| && sent[j] == r;
      assert IdOf(sent[i]) == IdOf(sent[j]);
    }
  }

  // A missing byte is received exactly when some record brings it.
  lemma {:induction false} BroughtExactly(maxLen: nat, M: seq<Msg>, x: Session, sent: seq<Record>, events: seq<Event>,
                                          s: nat, k: nat)
    requires ValidMessages(M) && Live(maxLen, M, x) && IsByte(M, s, k) && !Got(x.st, s, k)
    requires Sent(M, sent) && Arrivals(events, sent) && Orderly(maxLen, M, x, events)
    ensures Got(Run(maxLen, x, events).st, s, k) <==> Brought(maxLen, M, x, events, sent, s, k)
  {
    hide Run, Got, Orderly, Timely, IsByte, Carrying, Live, GenuineRecord, DistinctIds, Friendly, Fits, StillFresh;
    hide Harmless;
    ArrivalsFriendly(M, sent, events);
    LiveOrDoneIsSafe(maxLen, M, x);
    if Got(Run(maxLen, x, events).st, s, k) {
      var r := GotWasTimely(maxLen, M, x, events, s, k);
      assert r in sent && Brings(maxLen, M, x, events, r, s, k);
    }
    if r :| r in sent && Brings(maxLen, M, x, events, r, s, k) {
      NumbersIdentify(sent, events, r);
      TimelyGets(maxLen, M, x, events, r, s, k);
    }
  }

  // End to end, for any number of flights and passes. Let records be lost, reordered, repeated and mixed with forgeries
  // that do not authenticate, and let the receiver change ciphers in between. What it delivers is always a prefix of
  // what was sent. After taking what is complete it has delivered everything exactly when each missing byte was
  // brought by some record: sent in any pass, arriving in its epoch, not after one 64 numbers ahead of it.
  lemma {:induction false} FlightIsTransferred(maxLen: nat, M: seq<Msg>, x: Session, sent: seq<Record>,
                                               events: seq<Event>)
    requires ValidMessages(M) && Live(maxLen, M, x)
    requires Sent(M, sent) && Arrivals(events, sent) && Orderly(maxLen, M, x, events)
    ensures Safe(M, Run(maxLen, x, events)) && Safe(M, Finish(maxLen, M, x, events))
    ensures Done(M, Finish(maxLen, M, x, events)) <==>
      forall s: nat, k: nat | IsByte(M, s, k) :: Got(x.st, s, k) || Brought(maxLen, M, x, events, sent, s, k)
  {
    hide Run, Finish, Got, Orderly, IsByte, Brought, Covered, GenuineRecord, DistinctIds, Friendly, Consistent, Raw;
    ArrivalsFriendly(M, sent, events);
    RunIsSafe(maxLen, M, x, events);
    DeliversEverythingThatArrives(maxLen, M, x, events);
    forall s: nat, k: nat | IsByte(M, s, k)
      ensures Got(x.st, s, k) || Covered(maxLen, M, x, events, s, k)
         <==> Got(x.st, s, k) || Brought(maxLen, M, x, events, sent, s, k)
    {
      RunGets(maxLen, M, x, events, s, k);
      if !Got(x.st, s, k) { BroughtExactly(maxLen, M, x, sent, events, s, k); }
    }
  }

  // What a sender has sent, over all its flights.
  lemma {:induction false} SenderSent(sender: Sender, M: seq<Msg>)
    requires sender.Valid() && !sender.writer.wrapped
    requires ValidMessages(M) && Belongs(sender.past + sender.outgoing, M)
    requires forall r | r in sender.sent :: Harmless(r)
    ensures Sent(M, sender.sent)
  {
    hide Genuine, GenuineRecord, Belongs, DistinctIds, Replay, Harmless;
    forall r | r in sender.sent
      ensures GenuineRecord(M, r) || (r.ctype == CtChangeCipherSpec && r.epoch == 0 && r.payload == [MT_CCS])
    {
      RecordGenuine(sender.past + sender.outgoing, M, r);
    }
  }

  // Safety from the sender, in every state of it and for every run: if what arrives authentically is what its transport
  // accepted at any time, the receiver delivers a prefix of the messages.
  lemma {:induction false} SenderIsSafe(sender: Sender, maxLen: nat, M: seq<Msg>, x: Session, events: seq<Event>)
    requires sender.Valid() && ValidMessages(M) && Belongs(sender.past + sender.outgoing, M)
    requires Safe(M, x) && Arrivals(events, sender.sent)
    ensures Safe(M, Run(maxLen, x, events)) && |x.delivered| <= |Run(maxLen, x, events).delivered|
  {
    hide Genuine, GenuineRecord, Belongs, DistinctIds, Replay, Consistent, Raw;
    forall e | e in events && e.Arrive? && e.authentic && e.rec.ctype == CtHandshake ensures GenuineRecord(M, e.rec) {
      RecordGenuine(sender.past + sender.outgoing, M, e.rec);
    }
    DeliversOnlyWhatWasSent(maxLen, M, x, events);
  }

  // Completeness from the sender, whatever has been lost and sealed in vain: everything is delivered exactly when each
  // missing byte was brought by some record of any pass.
  lemma {:induction false} SenderTransfers(sender: Sender, maxLen: nat, M: seq<Msg>, x: Session, events: seq<Event>)
    requires sender.Valid() && !sender.writer.wrapped
    requires ValidMessages(M) && Live(maxLen, M, x) && Belongs(sender.past + sender.outgoing, M)
    requires forall r | r in sender.sent :: Harmless(r)
    requires Arrivals(events, sender.sent) && Orderly(maxLen, M, x, events)
    ensures Done(M, Finish(maxLen, M, x, events)) <==>
      forall s: nat, k: nat | IsByte(M, s, k) :: Got(x.st, s, k) || Brought(maxLen, M, x, events, sender.sent, s, k)
  {
    hide Genuine, Belongs, DistinctIds, Replay, Consistent, Raw, Finish, Brought, Got, IsByte, Orderly, Harmless, Sent;
    SenderSent(sender, M);
    FlightIsTransferred(maxLen, M, x, sender.sent, events);
  }

  // Every byte of the flight is carried by some record of a complete pass.
  lemma {:induction false} PassCovers(M: seq<Msg>, base: nat, flight: seq<OutMsg>, pass: seq<Record>, s: nat, k: nat)
    returns (r: Record)
    requires ValidMessages(M) && Carries(flight, M, base)
    requires CursorValid(flight, Start) && Replay(flight, Start, pass) == Some(Cursor(|flight|, 0))
    requires base <= s && IsByte(M, s, k)
    ensures r in pass && r.ctype == CtHandshake && Carrying(M, r, s, k)
  {
    assert Carried(flight, M, s);
    var i :| IsMessage(flight, M, i, s);
    MessageParses(flight, M, i, s);
    ReplayCarries(flight, pass, i, k);
    var j, off, len :| 0 <= j < |pass| && IsPiece(flight, pass[j], i, off, len) && CoversByte(flight, i, k, off, len);
    r := pass[j];
    PieceOfFlight(flight, M, i, s, off, len);
    assert IsPieceOf(M, r, s, off, len) && InPiece(M, s, k, off, len);
  }

  // One pass is enough: once a call that writes the flight has returned success, and no sealing error has dropped
  // records, the flight is delivered if every handshake record of that pass arrives in its epoch and not after one 64
  // ahead of it.
  lemma {:induction false} OnePassTransfers(sender: Sender, maxLen: nat, M: seq<Msg>, x: Session, events: seq<Event>)
    requires sender.Valid() && !sender.writer.wrapped
    requires !sender.skipped && sender.Cur() == Cursor(|sender.outgoing|, 0)
    requires ValidMessages(M) && Live(maxLen, M, x)
    requires Belongs(sender.past + sender.outgoing, M) && Carries(sender.outgoing, M, |x.delivered|)
    requires forall r | r in sender.sent :: Harmless(r)
    requires Arrivals(events, sender.sent) && Orderly(maxLen, M, x, events)
    requires forall r | r in sender.pass && r.ctype == CtHandshake ::
      Fits(r) && Timely(maxLen, x, events, r) && StillFresh(x, r)
    ensures Done(M, Finish(maxLen, M, x, events))
  {
    hide Genuine, Belongs, Carries, DistinctIds, Replay, Consistent, Raw, Finish, Got, IsByte, Orderly, Harmless;
    hide Timely;
    hide StillFresh, Fits, Carrying;
    SenderTransfers(sender, maxLen, M, x, events);
    forall s: nat, k: nat | IsByte(M, s, k)
      ensures Got(x.st, s, k) || Brought(maxLen, M, x, events, sender.sent, s, k)
    {
      if s < |x.delivered| {
        DeliveredIsGot(maxLen, M, x, s, k);
      } else {
        var r := PassCovers(M, |x.delivered|, sender.outgoing, sender.pass, s, k);
        assert Brings(maxLen, M, x, events, r, s, k);
      }
    }
  }

  lemma {:induction false} DeliveredIsGot(maxLen: nat, M: seq<Msg>, x: Session, s: nat, k: nat)
    requires ValidMessages(M) && Live(maxLen, M, x) && s < |x.delivered|
    ensures Got(x.st, s, k)
  {
  }

  // A message of n bytes, sent in the clear in a packet of 20000 bytes.
  ghost function LargeSealed(n: nat): SealResult
    requires n < U24
  {
    SealNextMessage(Write(0, 0, 0, NullAead, NullAead), OutMsg(RawMessage(0, 0, Zeros(n)), 0, false), 0, 20000).2
  }

  lemma {:induction false} LargeSeals(n: nat)
    requires n < 19000
    ensures LargeSealed(n).Success?
    ensures var r := LargeSealed(n).rec;
            r.epoch == 0 && r.number == 0 && |r.payload| == BodyLen(r) == HEADER_LENGTH + n
  {
    hide ParseFragment, HeaderBytes, Fragment;
    var M := [Msg(0, Zeros(n), 0)];
    var m := OutMsg(Raw(M, 0), 0, false);
    assert IsMessage([m], M, 0, 0);
    MessageParses([m], M, 0, 0);
    FragmentLength(m, 0, n);
  }

  // 16373 bytes: the receiver stops reading. 18999 bytes: it does not even notice the record.
  lemma {:induction false} LargePacketEndsReading(maxLen: nat)
    ensures LargeSealed(16373).Success? && LargeSealed(18999).Success?
    ensures (InitialCoherent(); Step(maxLen, InitialSession, Arrive(LargeSealed(16373).rec, true)).ended)
    ensures (InitialCoherent(); Step(maxLen, InitialSession, Arrive(LargeSealed(18999).rec, true)) == InitialSession)
  {
    hide Step, LargeSealed, Tracks, Judge;
    InitialCoherent();
    LargeSeals(16373);
    LargeSeals(18999);
    OpensExactly(maxLen, InitialSession, LargeSealed(16373).rec, true);
    LongBodyDropped(maxLen, InitialSession, LargeSealed(18999).rec, true);
  }

  function Zeros(n: nat): (s: seq<Byte>)
    ensures |s| == n
  {
    seq(n, _ => 0)
  }

  // The body bytes carried by a list of records, in order.
  ghost function Content(recs: seq<Record>): seq<Byte>
    decreases |recs|
  {
    if recs == [] then []
    else
      var n := |recs| - 1;
      Content(recs[..n]) +
      if recs[n].ctype == CtHandshake
          && |recs[n].payload| >= HEADER_LENGTH then recs[n].payload[HEADER_LENGTH..] else []
  }

  ghost function BodyAt(flight: seq<OutMsg>, i: nat): seq<Byte> {
    if i < |flight| && !flight[i].isCcs && flight[i].WellFormed() then flight[i].Body() else []
  }

  ghost function BodiesBefore(flight: seq<OutMsg>, i: nat): seq<Byte> {
    if i == 0 then [] else BodiesBefore(flight, i - 1) + BodyAt(flight, i - 1)
  }

  // The bodies behind the cursor, one after the other.
  ghost function BodiesBehind(flight: seq<OutMsg>, c: Cursor): seq<Byte>
    requires CursorValid(flight, c)
  {
    BodiesBefore(flight, c.written) + BodyAt(flight, c.written)[..c.offset]
  }

  // The accepted records split the message bodies into contiguous pieces: no gap, no overlap, no reordering.
  lemma {:induction false} PiecesAreContiguous(flight: seq<OutMsg>, recs: seq<Record>)
    requires Replay(flight, Start, recs).Some?
    ensures Content(recs) == BodiesBehind(flight, Replay(flight, Start, recs).value)
    decreases |recs|
  {
    if recs != [] {
      var n := |recs| - 1;
      PiecesAreContiguous(flight, recs[..n]);
      AdvanceExtends(flight, Replay(flight, Start, recs[..n]).value, recs[n]);
    }
  }

  lemma {:induction false} AdvanceExtends(flight: seq<OutMsg>, c: Cursor, r: Record)
    requires CursorValid(flight, c) && Advance(flight, c, r).Some?
    ensures BodiesBehind(flight, Advance(flight, c, r).value)
         == BodiesBehind(flight, c) + if r.ctype == CtHandshake
             && |r.payload| >= HEADER_LENGTH then r.payload[HEADER_LENGTH..] else []
  {
    hide ParseFragment, HeaderBytes;
    var m := flight[c.written];
    if m.isCcs {
      assert r.payload == CCS_PAYLOAD;
    } else {
      var len := |r.payload| - HEADER_LENGTH;
      FragmentBody(m, c.offset, len);
      TakeMore(BodiesBefore(flight, c.written), m.Body(), c.offset, len);
    }
  }

  lemma {:induction false} FragmentBody(m: OutMsg, off: nat, len: nat)
    requires !m.isCcs && m.WellFormed() && off + len <= |m.Body()|
    ensures Fragment(m, off, len)[HEADER_LENGTH..] == m.Body()[off..off + len]
  {
    hide ParseFragment, HeaderBytes;
  }

  lemma {:induction false} TakeMore(a: seq<Byte>, b: seq<Byte>, off: nat, len: nat)
    requires off + len <= |b|
    ensures a + b[..off] + b[off..off + len] == a + b[..off + len]
    ensures off + len == |b| ==> a + b[..off + len] == a + b
    ensures a + b[..0] == a
  {
  }
}
