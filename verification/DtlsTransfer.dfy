/** What the receiver delivers over whole runs: fragmentation, loss, duplication, overlap, reordering, epochs. */
module DtlsTransfer {
  import opened Bits
  import opened Bytes
  import opened Reassembly
  import opened ReplayWindow
  import opened DtlsWriter
  import opened DtlsReceiver

  // The messages of the conversation; message i carries the number i and is sent in records of its epoch.
  datatype Msg = Msg(typ: Byte, body: seq<Byte>, epoch: nat)

  ghost predicate ValidMessages(M: seq<Msg>) {
    |M| < U16 && forall i | 0 <= i < |M| :: |M[i].body| < U24
  }

  ghost function Raw(M: seq<Msg>, s: nat): seq<Byte>
    requires ValidMessages(M) && s < |M|
  {
    RawMessage(M[s].typ, s, M[s].body)
  }

  ghost predicate InMessage(M: seq<Msg>, s: nat, off: nat, len: nat) {
    s < |M| && off + len <= |M[s].body|
  }

  ghost function PieceHeader(M: seq<Msg>, s: nat, off: nat, len: nat): (h: Header)
    requires ValidMessages(M) && InMessage(M, s, off, len)
    ensures ValidHeader(h)
  {
    Header(M[s].typ, |M[s].body|, s, off, len)
  }

  ghost function PieceBytes(M: seq<Msg>, s: nat, off: nat, len: nat): seq<Byte>
    requires ValidMessages(M) && InMessage(M, s, off, len)
  {
    HeaderBytes(PieceHeader(M, s, off, len)) + M[s].body[off..off + len]
  }

  // r carries the piece [off, off + len) of message s.
  ghost predicate IsPieceOf(M: seq<Msg>, r: Record, s: nat, off: nat, len: nat)
    requires ValidMessages(M)
  {
    && InMessage(M, s, off, len)
    && r.ctype == CtHandshake && r.epoch == M[s].epoch && r.payload == PieceBytes(M, s, off, len)
  }

  ghost predicate GenuineRecord(M: seq<Msg>, r: Record)
    requires ValidMessages(M)
  {
    exists s, off, len :: IsPieceOf(M, r, s, off, len)
  }

  // A record is a piece in only one way.
  lemma {:induction false} PieceIsUnique(M: seq<Msg>, r: Record, s: nat, off: nat, len: nat, s': nat, off': nat,
                                         len': nat)
    requires ValidMessages(M) && IsPieceOf(M, r, s, off, len) && IsPieceOf(M, r, s', off', len')
    ensures s == s' && off == off' && len == len'
  {
    hide ParseFragment, HeaderBytes;
    ParseInvertsHeader(PieceHeader(M, s, off, len), M[s].body[off..off + len], []);
    ParseInvertsHeader(PieceHeader(M, s', off', len'), M[s'].body[off'..off' + len'], []);
    assert PieceBytes(M, s, off, len) + [] == PieceBytes(M, s', off', len') + [];
  }

  // A reassembled message agrees with the message that was sent under its number.
  ghost predicate Agrees(M: seq<Msg>, f: Frag) {
    && f.seqno < |M| && f.typ == M[f.seqno].typ && |f.body| == |M[f.seqno].body|
    && forall k | 0 <= k < |f.body| && f.body[k].Some? :: f.body[k].value == M[f.seqno].body[k]
  }

  ghost predicate Consistent(M: seq<Msg>, st: Rx) {
    RingInvariant(st) && forall i | 0 <= i < FLIGHT && st.slots[i].Some? :: Agrees(M, st.slots[i].value)
  }

  // A record holding one piece is received as that piece.
  lemma {:induction false} RecordOfPiece(c: Config, st: Rx, M: seq<Msg>, s: nat, off: nat, len: nat)
    requires |st.slots| == FLIGHT && ValidMessages(M) && InMessage(M, s, off, len)
    ensures ReceiveRecord(c, st, PieceBytes(M, s, off, len))
         == Receive(c, st, PieceHeader(M, s, off, len), M[s].body[off..off + len])
  {
    var h, bytes := PieceHeader(M, s, off, len), M[s].body[off..off + len];
    ParseInvertsHeader(h, bytes, []);
    assert HeaderBytes(h) + bytes + [] == PieceBytes(M, s, off, len);
    hide Receive, ParseFragment, HeaderBytes;
    var (st1, verdict) := Receive(c, st, h, bytes);
    if verdict.Continue? { assert ReceiveRecord(c, st1, []) == (st1, Continue); }
  }

  lemma {:induction false} PieceKeepsConsistent(c: Config, st: Rx, M: seq<Msg>, s: nat, off: nat, len: nat)
    requires ValidMessages(M) && InMessage(M, s, off, len) && Consistent(M, st)
    ensures var (st', verdict) := Receive(c, st, PieceHeader(M, s, off, len), M[s].body[off..off + len]);
            && Consistent(M, st') && st'.readSeq == st.readSeq
            && (verdict.Continue? <==>
                  |M[s].body| <= c.maxLen && (c.epochOne ==> s == st.readSeq) && s != st.readSeq + FLIGHT)
  {
    hide ParseFragment, HeaderBytes;
    ReceiveKeepsRing(c, st, PieceHeader(M, s, off, len), M[s].body[off..off + len]);
    if st.readSeq <= s < st.readSeq + FLIGHT && st.slots[s % FLIGHT].Some? {
      SlotHoldsOwnMessage(st, PieceHeader(M, s, off, len));
    }
  }

  datatype Event = Arrive(rec: Record, authentic: bool) | Get | Release | TakeCcs | SetReadState

  // The receiving endpoint with everything the handshake has consumed so far. Of the numbers of the present epoch, seen
  // holds those of opened records and heard those of all authentic ones.
  datatype Session = Session(
    st: Rx,
    epoch: nat,
    window: Window,
    nullCipher: bool,
    hasMessage: bool,
    hasCcs: bool,
    warnings: nat,
    ended: bool,
    delivered: seq<seq<Byte>>,
    seen: set<nat>,
    heard: set<nat>)

  ghost predicate Coherent(x: Session) {
    && RingInvariant(x.st) && x.epoch < U16 && Tracks(x.window, x.seen, x.heard)
    && (x.hasMessage ==> CurrentComplete(x.st))
  }

  const InitialSession := Session(InitialRx, 0, EmptyWindow, true, false, false, 0, false, [], {}, {})

  lemma {:induction false} InitialCoherent()
    ensures Coherent(InitialSession)
  {
    EmptyRefines();
  }

  // The 64-bit sequence field of a record.
  function Id(r: Record): nat {
    r.epoch * SEQ48 + r.number
  }

  function BodyLen(r: Record): nat {
    if r.wireLen >= RECORD_HEADER_LENGTH then r.wireLen - RECORD_HEADER_LENGTH else 0
  }

  // The record is authentic and its body not too long to be looked at.
  predicate Heeded(r: Record, authentic: bool) {
    authentic && BodyLen(r) <= MAX_ENCRYPTED_LENGTH
  }

  // It does not end reading for its length: its plaintext is within the limit, or its body is dropped unseen.
  predicate Harmless(r: Record) {
    |r.payload| <= MAX_PLAIN_LENGTH || BodyLen(r) > MAX_ENCRYPTED_LENGTH
  }

  // Both lengths are within their limits.
  predicate Fits(r: Record) {
    |r.payload| <= MAX_PLAIN_LENGTH && BodyLen(r) <= MAX_ENCRYPTED_LENGTH
  }

  ghost predicate Opens(x: Session, r: Record, authentic: bool) {
    Judge(x.epoch, x.window, Id(r), BodyLen(r), authentic, |r.payload|) == Opened
  }

  const MAX_WARNING_ALERTS := 4

  // ssl_process_alert: whether reading ends with this alert.
  predicate AlertEnds(warnings: nat, payload: seq<Byte>): (ends: bool)
    // All that goes on is a warning other than close_notify, up to the fourth in a row.
    ensures !ends <==> warnings < 4 && |payload| == 2 && payload[0] == 1 && payload[1] != 0
  {
    |payload| != 2 || payload[0] != 1 || payload[1] == 0 || warnings + 1 > MAX_WARNING_ALERTS
  }

  // An opened record: ssl_process_alert for alerts, dtls1_open_handshake for all others.
  ghost function Dispatch(maxLen: nat, x: Session, r: Record): (x': Session)
    requires Coherent(x)
    ensures Coherent(x') && x'.heard == x.heard && x'.epoch == x.epoch
  {
    match r.ctype
    case CtAlert => x.(ended := AlertEnds(x.warnings, r.payload), warnings := x.warnings + 1)
    case CtHandshake =>
      var c := Config(x.epoch == 1, maxLen);
      RecordKeepsRing(c, x.st, r.payload);
      if CurrentComplete(x.st) then
        RecordKeepsCurrent(c, x.st, r.payload);
        HandshakeDone(x, ReceiveRecord(c, x.st, r.payload))
      else HandshakeDone(x, ReceiveRecord(c, x.st, r.payload))
    case CtChangeCipherSpec =>
      if x.nullCipher && r.payload == [MT_CCS] then x.(warnings := 0, hasCcs := true)
      else x.(warnings := 0, ended := true)
    case CtApplicationData => x.(warnings := 0, ended := x.nullCipher)
    case CtOther => x.(warnings := 0, ended := true)
  }

  ghost function HandshakeDone(x: Session, result: (Rx, Verdict)): Session {
    x.(warnings := 0, st := result.0, ended := result.1.Fail?)
  }

  // dtls_open_record, then dtls1_open_handshake.
  ghost function Arrived(maxLen: nat, x: Session, r: Record, authentic: bool): (x': Session)
    requires Coherent(x)
    ensures Coherent(x')
  {
    HearKeepsTrack(x.window, x.seen, x.heard, Id(r));
    match Judge(x.epoch, x.window, Id(r), BodyLen(r), authentic, |r.payload|)
    case Opened =>
      Dispatch(maxLen, x.(window := Recorded(x.window, Id(r)), seen := x.seen + {Id(r)}, heard := x.heard + {Id(r)}), r)
    case TooLong => x.(ended := true)
    case Discard => if Heeded(r, authentic) && Id(r) / SEQ48 == x.epoch then x.(heard := x.heard + {Id(r)}) else x
    case Closed => x
  }

  // dtls1_next_message: the handshake has finished with the current message.
  ghost function Released(x: Session): (x': Session)
    requires Coherent(x) && x.hasMessage
    ensures Coherent(x')
  {
    NextKeepsRing(x.st);
    var f := x.st.slots[x.st.readSeq % FLIGHT].value;
    x.(st := Next(x.st), hasMessage := false, delivered := x.delivered + [RawMessage(f.typ, x.st.readSeq, BodyOf(f))])
  }

  ghost function Step(maxLen: nat, x: Session, e: Event): (x': Session)
    requires Coherent(x)
    ensures Coherent(x')
  {
    if x.ended then x
    else
      match e
      case Arrive(rec, authentic) => Arrived(maxLen, x, rec, authentic)
      case Get => x.(hasMessage := x.hasMessage || CurrentComplete(x.st))
      case Release => if x.hasMessage then Released(x) else x
      case TakeCcs => x.(hasCcs := false)
      case SetReadState =>
        EmptyRefines();
        if Unprocessed(x.st, x.hasMessage, x.hasCcs) then x.(ended := true)
        else x.(epoch := (x.epoch + 1) % U16, window := EmptyWindow, nullCipher := false, seen := {}, heard := {})
  }

  ghost function Run(maxLen: nat, x: Session, events: seq<Event>): (x': Session)
    requires Coherent(x)
    ensures Coherent(x')
    decreases |events|
  {
    if events == [] then x else Run(maxLen, Step(maxLen, x, events[0]), events[1..])
  }

  // A record is opened exactly when it is authentic, of this epoch and short enough, did not arrive in this epoch
  // before, and none of this epoch arrived whose number is 64 or more higher. All others leave the messages alone; one
  // whose plaintext is too long but that is fine otherwise ends reading, unless its body is too long as well.
  lemma {:induction false} OpensExactly(maxLen: nat, x: Session, r: Record, authentic: bool)
    requires Coherent(x) && r.number < SEQ48 && !x.ended
    ensures Opens(x, r, authentic) <==>
      && authentic && r.wireLen <= 13 + 16704 && r.epoch == x.epoch && |r.payload| <= 16384
      && Id(r) !in x.heard && (forall m | m in x.heard :: m < Id(r) + WINDOW)
    ensures !Opens(x, r, authentic) ==>
      var x' := Step(maxLen, x, Arrive(r, authentic));
      && x' == x.(ended := x'.ended, heard := x'.heard)
      && (x'.ended <==>
            && authentic && r.wireLen <= 13 + 16704 && r.epoch == x.epoch && |r.payload| > 16384
            && Id(r) !in x.heard && (forall m | m in x.heard :: m < Id(r) + WINDOW))
  {
    hide Discards;
    DivMod(Id(r), SEQ48, r.epoch, r.number);
    DropsExactly(x.window, x.seen, x.heard, Id(r));
  }

  // Every authentic handshake record comes from the sender: it holds one piece of one message.
  ghost predicate AllGenuine(M: seq<Msg>, events: seq<Event>)
    requires ValidMessages(M)
  {
    forall e | e in events && e.Arrive? && e.authentic && e.rec.ctype == CtHandshake :: GenuineRecord(M, e.rec)
  }

  // What has been delivered is a prefix of what was sent, byte for byte.
  ghost predicate Safe(M: seq<Msg>, x: Session)
    requires ValidMessages(M)
  {
    && Coherent(x) && Consistent(M, x.st)
    && x.st.readSeq == |x.delivered| <= |M|
    && forall i | 0 <= i < |x.delivered| :: x.delivered[i] == Raw(M, i)
  }

  // What the fragment loop does with a piece.
  ghost function PieceReceived(maxLen: nat, M: seq<Msg>, x: Session, s: nat, off: nat, len: nat): (Rx, Verdict)
    requires ValidMessages(M) && Coherent(x) && InMessage(M, s, off, len)
  {
    Receive(Config(x.epoch == 1, maxLen), x.st, PieceHeader(M, s, off, len), M[s].body[off..off + len])
  }

  // An arrival changes neither what has been delivered nor the epoch; only opened handshake records touch the messages.
  lemma {:induction false} ArrivedFrame(maxLen: nat, x: Session, r: Record, authentic: bool)
    requires Coherent(x) && !x.ended
    ensures var x' := Step(maxLen, x, Arrive(r, authentic));
      && x'.delivered == x.delivered && x'.hasMessage == x.hasMessage && x'.epoch == x.epoch
      && x'.nullCipher == x.nullCipher
      && ((Opens(x, r, authentic) && r.ctype == CtHandshake) || x'.st == x.st)
  {
    hide Coherent, Discards, Recorded, ReceiveRecord, AlertEnds, Id, Unprocessed;
  }

  lemma {:induction false} ArrivedPiece(maxLen: nat, M: seq<Msg>, x: Session, r: Record, s: nat, off: nat, len: nat)
    requires ValidMessages(M) && Coherent(x) && !x.ended && Opens(x, r, true) && IsPieceOf(M, r, s, off, len)
    ensures var (x', outcome) := (Step(maxLen, x, Arrive(r, true)), PieceReceived(maxLen, M, x, s, off, len));
      && x'.st == outcome.0 && x'.ended == outcome.1.Fail?
  {
    hide Receive, ReceiveRecord, Discards, Recorded, PieceBytes, PieceHeader, Id, AlertEnds, Tracks, CurrentComplete;
    RecordOfPiece(Config(x.epoch == 1, maxLen), x.st, M, s, off, len);
  }

  lemma {:induction false} ArriveSafe(maxLen: nat, M: seq<Msg>, x: Session, r: Record, authentic: bool)
    requires ValidMessages(M) && Safe(M, x) && !x.ended
    requires authentic && r.ctype == CtHandshake ==> GenuineRecord(M, r)
    ensures Safe(M, Step(maxLen, x, Arrive(r, authentic)))
    ensures Step(maxLen, x, Arrive(r, authentic)).delivered == x.delivered
  {
    hide Step, Receive, Judge, PieceBytes, Raw, Tracks, CurrentComplete, Consistent;
    ArrivedFrame(maxLen, x, r, authentic);
    ForgedDropped(maxLen, x, r);
    if Opens(x, r, authentic) && r.ctype == CtHandshake {
      var s, off, len :| IsPieceOf(M, r, s, off, len);
      ArrivedPiece(maxLen, M, x, r, s, off, len);
      PieceKeepsConsistent(Config(x.epoch == 1, maxLen), x.st, M, s, off, len);
    }
  }

  // The current message, once complete, is the one that was sent.
  lemma {:induction false} CurrentIsSent(M: seq<Msg>, st: Rx)
    requires ValidMessages(M) && Consistent(M, st) && CurrentComplete(st)
    ensures var f := st.slots[st.readSeq % FLIGHT].value;
            && st.readSeq < |M| && f.typ == M[st.readSeq].typ && BodyOf(f) == M[st.readSeq].body
  {
    CurrentHoldsReadSeq(st);
    hide RingInvariant;
    var f := st.slots[st.readSeq % FLIGHT].value;
    assert Agrees(M, f);
    assert BodyOf(f) == M[st.readSeq].body;
  }

  lemma {:induction false} NextConsistent(M: seq<Msg>, st: Rx)
    requires Consistent(M, st) && CurrentComplete(st)
    ensures Consistent(M, Next(st))
  {
    NextKeepsRing(st);
    hide RingInvariant, Agrees;
  }

  lemma {:induction false} ReleaseSafe(maxLen: nat, M: seq<Msg>, x: Session)
    requires ValidMessages(M) && Safe(M, x) && !x.ended && x.hasMessage
    ensures var x' := Step(maxLen, x, Release);
            Safe(M, x') && !x'.ended && |x'.delivered| == |x.delivered| + 1 && x'.st == Next(x.st)
  {
    hide Judge, Dispatch, Discards, Recorded, Unprocessed, BodyOf, RawMessage, Agrees, Arrived;
    CurrentIsSent(M, x.st);
    NextConsistent(M, x.st);
    hide Consistent, CurrentComplete;
  }

  lemma {:induction false} StepSafe(maxLen: nat, M: seq<Msg>, x: Session, e: Event)
    requires ValidMessages(M) && Safe(M, x)
    requires e.Arrive? && e.authentic && e.rec.ctype == CtHandshake ==> GenuineRecord(M, e.rec)
    ensures Safe(M, Step(maxLen, x, e)) && |x.delivered| <= |Step(maxLen, x, e).delivered|
  {
    hide GenuineRecord, Arrived, Released, Consistent, Unprocessed;
    if !x.ended {
      if e.Arrive? {
        ArriveSafe(maxLen, M, x, e.rec, e.authentic);
      } else if e.Release? && x.hasMessage {
        ReleaseSafe(maxLen, M, x);
      }
    }
  }

  // Safety over whole runs: whatever records arrive, in whatever order and however often, authentic or not, and
  // whenever the ciphers change, the messages handed over are the messages sent, complete, unaltered, in order and
  // once each.
  lemma {:induction false} DeliversOnlyWhatWasSent(maxLen: nat, M: seq<Msg>, x: Session, events: seq<Event>)
    requires ValidMessages(M) && Safe(M, x) && AllGenuine(M, events)
    ensures Safe(M, Run(maxLen, x, events)) && |x.delivered| <= |Run(maxLen, x, events).delivered|
    decreases |events|
  {
    hide Step, GenuineRecord, Consistent;
    if events != [] {
      StepSafe(maxLen, M, x, events[0]);
      DeliversOnlyWhatWasSent(maxLen, M, Step(maxLen, x, events[0]), events[1..]);
    }
  }

  // Byte k of message s (or, for an empty message, the message itself) has been received.
  ghost predicate Got(st: Rx, s: nat, k: nat)
    requires RingInvariant(st)
  {
    s < st.readSeq ||
    var slot := st.slots[s % FLIGHT];
    && slot.Some? && slot.value.seqno == s
    && (k < |slot.value.body| ==> slot.value.body[k].Some?)
  }

  ghost predicate IsByte(M: seq<Msg>, s: nat, k: nat) {
    s < |M| && (k < |M[s].body| || k == 0)
  }

  ghost predicate InPiece(M: seq<Msg>, s: nat, k: nat, off: nat, len: nat)
    requires s < |M|
  {
    off <= k < off + len || |M[s].body| == 0
  }

  ghost predicate Carrying(M: seq<Msg>, r: Record, s: nat, k: nat)
    requires ValidMessages(M)
  {
    exists off, len :: IsPieceOf(M, r, s, off, len) && InPiece(M, s, k, off, len)
  }

  // An accepted piece adds its own bytes and loses none.
  lemma {:induction false} PieceGets(c: Config, M: seq<Msg>, st: Rx, s': nat, off: nat, len: nat, s: nat, k: nat)
    requires ValidMessages(M) && Consistent(M, st) && InMessage(M, s', off, len) && IsByte(M, s, k)
    requires |M[s'].body| <= c.maxLen && s' < st.readSeq + FLIGHT
    requires c.epochOne ==> s' == st.readSeq || s' < st.readSeq
    ensures var (st', _) := Receive(c, st, PieceHeader(M, s', off, len), M[s'].body[off..off + len]);
            Consistent(M, st') && (Got(st', s, k) <==> Got(st, s, k) || (s == s' && InPiece(M, s, k, off, len)))
  {
    PieceKeepsConsistent(c, st, M, s', off, len);
    hide ParseFragment, HeaderBytes;
    if st.readSeq <= s' && st.slots[s' % FLIGHT].Some? {
      SlotHoldsOwnMessage(st, PieceHeader(M, s', off, len));
    }
  }

  // Releasing the current message forgets no byte and adds none.
  lemma {:induction false} ReleaseKeepsGot(maxLen: nat, M: seq<Msg>, x: Session, s: nat, k: nat)
    requires ValidMessages(M) && Safe(M, x) && !x.ended && x.hasMessage && IsByte(M, s, k)
    ensures Got(Step(maxLen, x, Release).st, s, k) <==> Got(x.st, s, k)
  {
    ReleaseSafe(maxLen, M, x);
    CurrentHoldsReadSeq(x.st);
    hide Step, Safe, Consistent;
  }

  // Every buffered message belongs to the present epoch.
  ghost predicate Buffered(M: seq<Msg>, st: Rx, epoch: nat)
    requires |st.slots| == FLIGHT
  {
    forall i | 0 <= i < FLIGHT && st.slots[i].Some? ::
      st.slots[i].value.seqno < |M| && M[st.slots[i].value.seqno].epoch == epoch
  }

  // Reading goes on, and the rest of M fits what the endpoint accepts: one flight, messages that are not too long, and
  // in epoch 1 only the last message.
  ghost predicate Live(maxLen: nat, M: seq<Msg>, x: Session)
    requires ValidMessages(M)
  {
    && Safe(M, x) && !x.ended && (x.epoch == 0 ==> x.nullCipher)
    && |M| <= |x.delivered| + FLIGHT
    && (forall s | 0 <= s < |M| :: |M[s].body| <= maxLen)
    && (forall i, j | 0 <= i < j < |M| :: M[i].epoch <= M[j].epoch)
    && (forall s | 0 <= s < |M| && M[s].epoch == 1 :: s == |M| - 1)
    && (forall s | 0 <= s < |M| && M[s].epoch < x.epoch :: s < |x.delivered|)
    && Buffered(M, x.st, x.epoch)
  }

  ghost predicate Done(M: seq<Msg>, x: Session)
    requires ValidMessages(M)
  {
    Safe(M, x) && |x.delivered| == |M|
  }

  // The transport brings records of the flight and anything that is not authentic.
  ghost predicate Friendly(M: seq<Msg>, e: Event)
    requires ValidMessages(M)
  {
    e.Arrive? && e.authentic ==>
      && e.rec.number < SEQ48 && Harmless(e.rec)
      && (GenuineRecord(M, e.rec)
          || (e.rec.ctype == CtChangeCipherSpec && e.rec.epoch == 0 && e.rec.payload == [MT_CCS]))
  }

  ghost predicate AllFriendly(M: seq<Msg>, events: seq<Event>)
    requires ValidMessages(M)
  {
    forall e | e in events :: Friendly(M, e)
  }

  // The handshake changes the read cipher after it has taken the ChangeCipherSpec and every message of the epoch.
  ghost predicate InOrder(M: seq<Msg>, x: Session, e: Event) {
    e.SetReadState? ==>
      x.epoch < U16 - 1 && !x.hasCcs && forall s | 0 <= s < |M| && M[s].epoch <= x.epoch :: s < |x.delivered|
  }

  ghost predicate Orderly(maxLen: nat, M: seq<Msg>, x: Session, events: seq<Event>)
    requires Coherent(x)
    decreases |events|
  {
    events == [] || (InOrder(M, x, events[0]) && Orderly(maxLen, M, Step(maxLen, x, events[0]), events[1..]))
  }

  // The event opens a record that carries the byte.
  ghost predicate Hits(M: seq<Msg>, x: Session, e: Event, s: nat, k: nat)
    requires ValidMessages(M)
  {
    e.Arrive? && Opens(x, e.rec, e.authentic) && Carrying(M, e.rec, s, k)
  }

  lemma {:induction false} PieceKeepsBuffered(c: Config, M: seq<Msg>, st: Rx, s: nat, off: nat, len: nat)
    requires ValidMessages(M) && Consistent(M, st) && InMessage(M, s, off, len) && Buffered(M, st, M[s].epoch)
    ensures var (st', _) := Receive(c, st, PieceHeader(M, s, off, len), M[s].body[off..off + len]);
            |st'.slots| == FLIGHT && Buffered(M, st', M[s].epoch)
  {
    hide ParseFragment, HeaderBytes;
    if st.readSeq <= s < st.readSeq + FLIGHT && st.slots[s % FLIGHT].Some? {
      SlotHoldsOwnMessage(st, PieceHeader(M, s, off, len));
    }
  }

  // A piece of the present epoch is the expected one if the epoch is 1, unless everything has been delivered.
  lemma {:induction false} LastInEpochOne(maxLen: nat, M: seq<Msg>, x: Session, s: nat)
    requires ValidMessages(M) && Live(maxLen, M, x) && s < |M| && M[s].epoch == x.epoch == 1
    ensures s == |M| - 1 && |M| - 1 <= x.st.readSeq <= |M|
  {
    hide Consistent, Coherent, Buffered;
    if |M| > 1 { assert M[|M| - 2].epoch <= M[s].epoch; }
  }

  lemma {:induction false} OpenedPieceProgress(maxLen: nat, M: seq<Msg>, x: Session, r: Record, s': nat, off: nat,
                                               len: nat, s: nat, k: nat)
    requires ValidMessages(M) && Live(maxLen, M, x) && Opens(x, r, true) && IsPieceOf(M, r, s', off, len)
    requires r.number < SEQ48 && IsByte(M, s, k)
    ensures var x' := Step(maxLen, x, Arrive(r, true));
            && (Live(maxLen, M, x') || Done(M, x'))
            && (Got(x'.st, s, k) <==> Got(x.st, s, k) || (s == s' && InPiece(M, s, k, off, len)))
  {
    hide Step, Opens, Tracks, CurrentComplete, Consistent, Got, Buffered, Receive;
    hide PieceHeader, PieceBytes, InPiece, Id, Raw;
    OpensExactly(maxLen, x, r, true);
    ArrivedFrame(maxLen, x, r, true);
    ArriveSafe(maxLen, M, x, r, true);
    ArrivedPiece(maxLen, M, x, r, s', off, len);
    var c := Config(x.epoch == 1, maxLen);
    if x.epoch == 1 { LastInEpochOne(maxLen, M, x, s'); }
    PieceKeepsBuffered(c, M, x.st, s', off, len);
    PieceKeepsConsistent(c, x.st, M, s', off, len);
    PieceGets(c, M, x.st, s', off, len, s, k);
  }

  lemma {:induction false} OpenedCcs(maxLen: nat, x: Session, r: Record)
    requires Coherent(x) && !x.ended && x.nullCipher && Opens(x, r, true)
    requires r.ctype == CtChangeCipherSpec && r.payload == [MT_CCS]
    ensures !Step(maxLen, x, Arrive(r, true)).ended && Step(maxLen, x, Arrive(r, true)).hasCcs
  {
    hide Coherent, Discards, Recorded, ReceiveRecord, AlertEnds, Id, Unprocessed;
  }

  lemma {:induction false} ArriveProgress(maxLen: nat, M: seq<Msg>, x: Session, r: Record, authentic: bool, s: nat,
                                          k: nat)
    requires ValidMessages(M) && Live(maxLen, M, x) && Friendly(M, Arrive(r, authentic)) && IsByte(M, s, k)
    ensures var (x', e) := (Step(maxLen, x, Arrive(r, authentic)), Arrive(r, authentic));
            && (Live(maxLen, M, x') || Done(M, x'))
            && (Got(x'.st, s, k) <==> Got(x.st, s, k) || Hits(M, x, e, s, k))
  {
    hide Step, Tracks, CurrentComplete, Consistent, Got, Buffered, InPiece, PieceBytes, Id, Raw, Judge;
    if authentic {
      OpensExactly(maxLen, x, r, authentic);
      if Opens(x, r, true) {
        if GenuineRecord(M, r) {
          var s', off, len :| IsPieceOf(M, r, s', off, len);
          OpenedPieceProgress(maxLen, M, x, r, s', off, len, s, k);
          if Carrying(M, r, s, k) {
            var off', len' :| IsPieceOf(M, r, s, off', len') && InPiece(M, s, k, off', len');
            PieceIsUnique(M, r, s', off, len, s, off', len');
          }
        } else {
          ArrivedFrame(maxLen, x, r, true);
          ArriveSafe(maxLen, M, x, r, true);
          OpenedCcs(maxLen, x, r);
        }
      }
    } else {
      ForgedDropped(maxLen, x, r);
    }
  }

  // A record that does not authenticate changes nothing at all.
  lemma {:induction false} ForgedDropped(maxLen: nat, x: Session, r: Record)
    requires Coherent(x)
    ensures Step(maxLen, x, Arrive(r, false)) == x && !Opens(x, r, false)
  {
  }

  // Neither does one whose body is too long, whatever it holds.
  lemma {:induction false} LongBodyDropped(maxLen: nat, x: Session, r: Record, authentic: bool)
    requires Coherent(x) && r.wireLen - 13 > 16704
    ensures Step(maxLen, x, Arrive(r, authentic)) == x && !Opens(x, r, authentic)
  {
  }

  // What an opened record does besides handshake messages: only warnings go on as alerts, and any other record ends a
  // row of them; a ChangeCipherSpec is [1] in the clear, application data may come only encrypted, and is then dropped.
  lemma {:induction false} DispatchExactly(maxLen: nat, x: Session, r: Record)
    requires Coherent(x) && !x.ended && r.ctype != CtHandshake
    ensures var x' := Dispatch(maxLen, x, r);
            && x' == x.(warnings := x'.warnings, hasCcs := x'.hasCcs, ended := x'.ended)
            && x'.warnings == (if r.ctype.CtAlert? then x.warnings + 1 else 0)
            && x'.hasCcs == (x.hasCcs || (r.ctype.CtChangeCipherSpec? && x.nullCipher && r.payload == [1]))
            && (!x'.ended <==>
                  || (r.ctype.CtAlert? && x.warnings < 4 && |r.payload| == 2 && r.payload[0] == 1 && r.payload[1] != 0)
                  || (r.ctype.CtChangeCipherSpec? && x.nullCipher && r.payload == [1])
                  || (r.ctype.CtApplicationData? && !x.nullCipher))
  {
    hide Tracks, RingInvariant;
  }

  // And a handshake record: its fragments change the messages, nothing else, and a fatal one ends reading.
  lemma {:induction false} HandshakeExactly(maxLen: nat, x: Session, r: Record)
    requires Coherent(x) && !x.ended && r.ctype == CtHandshake
    ensures var (st, verdict) := ReceiveRecord(Config(x.epoch == 1, maxLen), x.st, r.payload);
            Dispatch(maxLen, x, r) == x.(warnings := 0, st := st, ended := verdict.Fail?)
  {
    hide Tracks, RingInvariant, ReceiveRecord;
  }

  // The read cipher changes exactly if no ChangeCipherSpec and no message, whole or in part, is left but the one that
  // the handshake is looking at; so no message spans two epochs. The new epoch has seen nothing.
  lemma {:induction false} ReadStateExactly(maxLen: nat, x: Session)
    requires Coherent(x) && !x.ended
    ensures var x' := Step(maxLen, x, SetReadState);
            && (!x'.ended <==>
                  !x.hasCcs && forall i | 0 <= i < 7 && x.st.slots[i].Some? :: x.hasMessage && i == x.st.readSeq % 7)
            && (if x'.ended then x' == x.(ended := true)
                else x' == x.(epoch := (x.epoch + 1) % U16, window := EmptyWindow, nullCipher := false, seen := {},
                              heard := {}))
  {
    hide Tracks, RingInvariant;
  }

  lemma {:induction false} ChangeProgress(maxLen: nat, M: seq<Msg>, x: Session)
    requires ValidMessages(M) && Live(maxLen, M, x) && InOrder(M, x, SetReadState)
    ensures var x' := Step(maxLen, x, SetReadState);
            Live(maxLen, M, x') && x'.st == x.st && x'.epoch == x.epoch + 1
  {
    hide Tracks, Agrees, Raw, Arrived, Released;
    assert forall i | 0 <= i < FLIGHT :: x.st.slots[i].None?;
  }

  lemma {:induction false} ReleaseProgress(maxLen: nat, M: seq<Msg>, x: Session)
    requires ValidMessages(M) && Live(maxLen, M, x) && x.hasMessage
    ensures Live(maxLen, M, Step(maxLen, x, Release))
  {
    ReleaseSafe(maxLen, M, x);
    hide Tracks, CurrentComplete, Agrees, Raw, Arrived;
  }

  // Every step keeps the endpoint alive until everything is delivered; it has received a byte exactly when it had
  // before or the step opens a record that carries it.
  lemma {:induction false} StepProgress(maxLen: nat, M: seq<Msg>, x: Session, e: Event, s: nat, k: nat)
    requires ValidMessages(M) && Live(maxLen, M, x) && Friendly(M, e) && InOrder(M, x, e) && IsByte(M, s, k)
    ensures var x' := Step(maxLen, x, e);
            && (Live(maxLen, M, x') || Done(M, x'))
            && (Got(x'.st, s, k) <==> Got(x.st, s, k) || Hits(M, x, e, s, k))
  {
    hide Tracks, CurrentComplete, Consistent, Got, Friendly, GenuineRecord, Raw, Arrived, Released;
    match e
    case Arrive(r, authentic) => ArriveProgress(maxLen, M, x, r, authentic, s, k);
    case Get =>
    case TakeCcs =>
    case SetReadState => ChangeProgress(maxLen, M, x);
    case Release =>
      if x.hasMessage {
        ReleaseProgress(maxLen, M, x);
        ReleaseKeepsGot(maxLen, M, x, s, k);
      }
  }

  // Some event of the run opens a record that carries the byte.
  ghost predicate Covered(maxLen: nat, M: seq<Msg>, x: Session, events: seq<Event>, s: nat, k: nat)
    requires ValidMessages(M) && Coherent(x)
    decreases |events|
  {
    events != [] &&
    (Hits(M, x, events[0], s, k) || Covered(maxLen, M, Step(maxLen, x, events[0]), events[1..], s, k))
  }

  lemma {:induction false} DoneStays(maxLen: nat, M: seq<Msg>, x: Session, e: Event)
    requires ValidMessages(M) && Done(M, x) && Friendly(M, e)
    ensures Done(M, Step(maxLen, x, e))
  {
    hide Step, Consistent, Raw, GenuineRecord;
    StepSafe(maxLen, M, x, e);
  }

  lemma {:induction false} DoneHasAll(M: seq<Msg>, x: Session, s: nat, k: nat)
    requires ValidMessages(M) && Done(M, x) && IsByte(M, s, k)
    ensures Got(x.st, s, k)
  {
  }

  // Over any orderly run, a byte has been received exactly when it had been before or a record carrying it was opened.
  lemma {:induction false} RunGets(maxLen: nat, M: seq<Msg>, x: Session, events: seq<Event>, s: nat, k: nat)
    requires ValidMessages(M) && (Live(maxLen, M, x) || Done(M, x)) && IsByte(M, s, k)
    requires AllFriendly(M, events) && Orderly(maxLen, M, x, events)
    ensures var x' := Run(maxLen, x, events);
            && (Live(maxLen, M, x') || Done(M, x'))
            && (Got(x'.st, s, k) <==> Got(x.st, s, k) || Covered(maxLen, M, x, events, s, k))
    decreases |events|
  {
    hide Step, Live, Consistent, Got, Friendly, InOrder, Hits, Raw;
    LiveOrDoneIsSafe(maxLen, M, x);
    if events != [] {
      var x' := Step(maxLen, x, events[0]);
      if Live(maxLen, M, x) {
        StepProgress(maxLen, M, x, events[0], s, k);
      } else {
        DoneStays(maxLen, M, x, events[0]);
        DoneHasAll(M, x, s, k);
        DoneHasAll(M, x', s, k);
      }
      RunGets(maxLen, M, x', events[1..], s, k);
    }
  }

  lemma {:induction false} LiveOrDoneIsSafe(maxLen: nat, M: seq<Msg>, x: Session)
    requires ValidMessages(M) && (Live(maxLen, M, x) || Done(M, x))
    ensures Safe(M, x) && Coherent(x)
  {
  }

  // Taking messages one by one.
  ghost function Drain(n: nat): (events: seq<Event>) {
    if n == 0 then [] else [Get, Release] + Drain(n - 1)
  }

  // A run, and then taking whatever is complete while messages are missing.
  ghost function Finish(maxLen: nat, M: seq<Msg>, x: Session, events: seq<Event>): Session
    requires Coherent(x)
  {
    var x1 := Run(maxLen, x, events);
    if |x1.delivered| > |M| then x1 else Run(maxLen, x1, Drain(|M| - |x1.delivered|))
  }

  lemma {:induction false} DrainIsQuiet(maxLen: nat, M: seq<Msg>, x: Session, n: nat, s: nat, k: nat)
    requires ValidMessages(M) && Coherent(x)
    ensures AllFriendly(M, Drain(n)) && Orderly(maxLen, M, x, Drain(n)) && !Covered(maxLen, M, x, Drain(n), s, k)
    decreases n
  {
    hide Step, Coherent;
    if n > 0 {
      var x1 := Step(maxLen, x, Get);
      DrainIsQuiet(maxLen, M, Step(maxLen, x1, Release), n - 1, s, k);
      assert Drain(n)[1..] == [Release] + Drain(n - 1) && Drain(n)[1..][1..] == Drain(n - 1);
    }
  }

  // If the current message has been received completely, it can be taken and released.
  lemma {:induction false} TakeOne(maxLen: nat, M: seq<Msg>, x: Session)
    requires ValidMessages(M) && Live(maxLen, M, x) && |x.delivered| < |M|
    requires forall k | IsByte(M, x.st.readSeq, k) :: Got(x.st, x.st.readSeq, k)
    ensures var x' := Step(maxLen, Step(maxLen, x, Get), Release);
            Live(maxLen, M, x') && |x'.delivered| == |x.delivered| + 1
  {
    var s := x.st.readSeq;
    assert IsByte(M, s, 0) && Got(x.st, s, 0);
    var f := x.st.slots[s % FLIGHT].value;
    assert Agrees(M, f);
    forall k | 0 <= k < |f.body| ensures f.body[k].Some? { assert IsByte(M, s, k); }
    assert CurrentComplete(x.st);
    hide Arrived, Released, Tracks, CurrentComplete, Consistent, Buffered, Raw;
    var x1 := Step(maxLen, x, Get);
    assert Live(maxLen, M, x1) && x1.hasMessage;
    ReleaseProgress(maxLen, M, x1);
    ReleaseSafe(maxLen, M, x1);
  }

  ghost predicate GotAll(M: seq<Msg>, x: Session)
    requires RingInvariant(x.st)
  {
    forall s: nat, k: nat | IsByte(M, s, k) :: Got(x.st, s, k)
  }

  // Once every byte has been received, taking messages drains the rest.
  lemma {:induction false} DrainDelivers(maxLen: nat, M: seq<Msg>, x: Session, n: nat)
    requires ValidMessages(M) && (Live(maxLen, M, x) || Done(M, x)) && |x.delivered| + n == |M|
    requires GotAll(M, x)
    ensures Done(M, Run(maxLen, x, Drain(n)))
    decreases n
  {
    hide Step, Consistent, Got, IsByte, Raw, Buffered;
    if n > 0 {
      TakeOne(maxLen, M, x);
      var x1 := Step(maxLen, x, Get);
      var x2 := Step(maxLen, x1, Release);
      assert Drain(n)[1..] == [Release] + Drain(n - 1) && Drain(n)[1..][1..] == Drain(n - 1);
      assert Orderly(maxLen, M, x2, []);
      TakingKeepsGot(maxLen, M, x);
      DrainDelivers(maxLen, M, x2, n - 1);
      assert Run(maxLen, x1, Drain(n)[1..]) == Run(maxLen, x2, Drain(n - 1));
    }
  }

  lemma {:induction false} TakingKeepsGot(maxLen: nat, M: seq<Msg>, x: Session)
    requires ValidMessages(M) && Live(maxLen, M, x) && GotAll(M, x)
    ensures GotAll(M, Step(maxLen, Step(maxLen, x, Get), Release))
  {
    hide Step, Live, Consistent, Got, IsByte, Hits;
    LiveOrDoneIsSafe(maxLen, M, x);
    var x1 := Step(maxLen, x, Get);
    forall s: nat, k: nat | IsByte(M, s, k) ensures Got(Step(maxLen, x1, Release).st, s, k) {
      StepProgress(maxLen, M, x, Get, s, k);
      if Live(maxLen, M, x1) {
        StepProgress(maxLen, M, x1, Release, s, k);
      } else {
        DoneStays(maxLen, M, x1, Release);
        DoneHasAll(M, Step(maxLen, x1, Release), s, k);
      }
    }
  }

  // Completeness. After any orderly run and any amount of loss, taking what is complete delivers the whole flight
  // exactly when every byte of it was carried by a record that was opened.
  lemma {:induction false} DeliversEverythingThatArrives(maxLen: nat, M: seq<Msg>, x: Session, events: seq<Event>)
    requires ValidMessages(M) && Live(maxLen, M, x) && AllFriendly(M, events) && Orderly(maxLen, M, x, events)
    ensures Safe(M, Finish(maxLen, M, x, events))
    ensures Done(M, Finish(maxLen, M, x, events)) <==>
      forall s: nat, k: nat | IsByte(M, s, k) :: Got(x.st, s, k) || Covered(maxLen, M, x, events, s, k)
  {
    hide Step, Live, Consistent, Got, IsByte, Friendly, Covered, Orderly, Raw;
    LiveOrDoneIsSafe(maxLen, M, x);
    RunIsSafe(maxLen, M, x, events);
    var x1 := Run(maxLen, x, events);
    var n := |M| - |x1.delivered|;
    var x2 := Run(maxLen, x1, Drain(n));
    DrainIsQuiet(maxLen, M, x1, n, 0, 0);
    RunIsSafe(maxLen, M, x1, Drain(n));
    assert GotAll(M, x1) <==> forall s: nat, k: nat | IsByte(M, s, k) ::
      Got(x.st, s, k) || Covered(maxLen, M, x, events, s, k) by {
      forall s: nat, k: nat | IsByte(M, s, k)
        ensures Got(x1.st, s, k) <==> Got(x.st, s, k) || Covered(maxLen, M, x, events, s, k)
      {
        RunGets(maxLen, M, x, events, s, k);
      }
    }
    if GotAll(M, x1) {
      DrainDelivers(maxLen, M, x1, n);
    }
    if |x2.delivered| == |M| {
      forall s: nat, k: nat | IsByte(M, s, k) ensures Got(x1.st, s, k) {
        DrainIsQuiet(maxLen, M, x1, n, s, k);
        RunGets(maxLen, M, x1, Drain(n), s, k);
        DoneHasAll(M, x2, s, k);
      }
    }
  }

  lemma {:induction false} RunIsSafe(maxLen: nat, M: seq<Msg>, x: Session, events: seq<Event>)
    requires ValidMessages(M) && (Live(maxLen, M, x) || Done(M, x))
    requires AllFriendly(M, events) && Orderly(maxLen, M, x, events)
    ensures var x' := Run(maxLen, x, events); Safe(M, x') && (Live(maxLen, M, x') || Done(M, x'))
    decreases |events|
  {
    hide Step, Live, Consistent, Got, Friendly, InOrder, Hits, Raw;
    LiveOrDoneIsSafe(maxLen, M, x);
    if events != [] {
      if Live(maxLen, M, x) {
        StepStaysLive(maxLen, M, x, events[0]);
      } else {
        DoneStays(maxLen, M, x, events[0]);
      }
      RunIsSafe(maxLen, M, Step(maxLen, x, events[0]), events[1..]);
    }
  }

  lemma {:induction false} StepStaysLive(maxLen: nat, M: seq<Msg>, x: Session, e: Event)
    requires ValidMessages(M) && Live(maxLen, M, x) && Friendly(M, e) && InOrder(M, x, e)
    ensures Live(maxLen, M, Step(maxLen, x, e)) || Done(M, Step(maxLen, x, e))
  {
    if |M| == 0 {
      assert Done(M, x);
      DoneStays(maxLen, M, x, e);
    } else {
      StepProgress(maxLen, M, x, e, 0, 0);
    }
  }

  // r arrives in its own epoch, and before that only records less than 64 numbers ahead arrive in that epoch.
  ghost predicate Timely(maxLen: nat, x: Session, events: seq<Event>, r: Record)
    requires Coherent(x)
    decreases |events|
  {
    events != [] &&
    ((events[0] == Arrive(r, true) && x.epoch == r.epoch) ||
     (NotFarAhead(x, events[0], r) && Timely(maxLen, Step(maxLen, x, events[0]), events[1..], r)))
  }

  ghost predicate NotFarAhead(x: Session, e: Event, r: Record) {
    e.Arrive? && Heeded(e.rec, e.authentic) && e.rec.epoch == r.epoch == x.epoch ==> e.rec.number < r.number + WINDOW
  }

  // r has not arrived before, nor a record far ahead of it.
  ghost predicate StillFresh(x: Session, r: Record) {
    x.epoch == r.epoch ==> Id(r) !in x.heard && forall m | m in x.heard :: m < Id(r) + WINDOW
  }

  // No other record bears the number of r.
  ghost predicate OnlyOne(events: seq<Event>, r: Record) {
    forall e | e in events && e.Arrive? && e.authentic && e.rec.epoch == r.epoch && e.rec.number == r.number ::
      e.rec == r
  }

  lemma {:induction false} StaysFresh(maxLen: nat, x: Session, e: Event, r: Record)
    requires Coherent(x) && StillFresh(x, r) && NotFarAhead(x, e, r) && OnlyOne([e], r)
    requires e.Arrive? && e.authentic ==> e.rec.number < SEQ48
    requires !(e == Arrive(r, true) && x.epoch == r.epoch)
    ensures StillFresh(Step(maxLen, x, e), r)
  {
    hide Dispatch, Unprocessed, Discards, Recorded, Tracks, RingInvariant;
    if e.Arrive? && e.authentic {
      assert e in [e];
      HearKeepsTrack(x.window, x.seen, x.heard, Id(e.rec));
      DivMod(Id(e.rec), SEQ48, e.rec.epoch, e.rec.number);
    }
  }

  // A timely record gets through: every byte it carries is received.
  lemma {:induction false} TimelyGets(maxLen: nat, M: seq<Msg>, x: Session, events: seq<Event>, r: Record, s: nat,
                                      k: nat)
    requires ValidMessages(M) && (Live(maxLen, M, x) || Done(M, x)) && IsByte(M, s, k)
    requires AllFriendly(M, events) && Orderly(maxLen, M, x, events)
    requires Timely(maxLen, x, events, r) && OnlyOne(events, r) && StillFresh(x, r)
    requires Carrying(M, r, s, k) && r.number < SEQ48 && Fits(r)
    ensures Got(Run(maxLen, x, events).st, s, k)
    decreases |events|
  {
    hide Step, Live, Consistent, Got, InOrder, Carrying, Raw, StillFresh, Id, GenuineRecord;
    LiveOrDoneIsSafe(maxLen, M, x);
    RunGets(maxLen, M, x, events, s, k);
    var e := events[0];
    var x' := Step(maxLen, x, e);
    if !Live(maxLen, M, x) {
      DoneHasAll(M, x, s, k);
    } else {
      StepProgress(maxLen, M, x, e, s, k);
      if e == Arrive(r, true) && x.epoch == r.epoch {
        FreshOpens(maxLen, M, x, r);
      } else {
        assert Friendly(M, e);
        StaysFresh(maxLen, x, e, r);
        TimelyGets(maxLen, M, x', events[1..], r, s, k);
      }
    }
  }

  lemma {:induction false} FreshOpens(maxLen: nat, M: seq<Msg>, x: Session, r: Record)
    requires ValidMessages(M) && Live(maxLen, M, x) && StillFresh(x, r) && x.epoch == r.epoch
    requires r.number < SEQ48 && Fits(r)
    ensures Opens(x, r, true)
  {
    hide Opens, Step, Consistent, Buffered;
    OpensExactly(maxLen, x, r, true);
  }

  // Heeded records of the present epoch are all remembered.
  lemma {:induction false} HeardGrows(maxLen: nat, x: Session, e: Event)
    requires Coherent(x) && !x.ended && !e.SetReadState?
    requires e.Arrive? && e.authentic ==> e.rec.number < SEQ48 && Harmless(e.rec)
    ensures x.heard <= Step(maxLen, x, e).heard
    ensures e.Arrive? && Heeded(e.rec, e.authentic) && e.rec.epoch == x.epoch ==>
      Id(e.rec) in Step(maxLen, x, e).heard
  {
    hide Dispatch, Unprocessed, Discards, Recorded, Tracks, RingInvariant;
    if e.Arrive? {
      HearKeepsTrack(x.window, x.seen, x.heard, Id(e.rec));
      if e.authentic { DivMod(Id(e.rec), SEQ48, e.rec.epoch, e.rec.number); }
    }
  }

  // A byte that is missing belongs to the present epoch or a later one.
  lemma {:induction false} MissingIsAhead(maxLen: nat, M: seq<Msg>, x: Session, s: nat, k: nat)
    requires ValidMessages(M) && Live(maxLen, M, x) && IsByte(M, s, k) && !Got(x.st, s, k)
    ensures x.epoch <= M[s].epoch
  {
    hide Consistent, Buffered, Raw, Tracks;
  }

  lemma {:induction false} FreshBefore(maxLen: nat, x: Session, e: Event, r: Record)
    requires Coherent(x) && !x.ended && !e.SetReadState? && StillFresh(Step(maxLen, x, e), r)
    requires e.Arrive? && e.authentic ==> e.rec.number < SEQ48 && Harmless(e.rec)
    ensures StillFresh(x, r) && NotFarAhead(x, e, r)
  {
    hide Step, Coherent, Harmless;
    StepKeepsEpoch(maxLen, x, e);
    HeardGrows(maxLen, x, e);
  }

  // The converse of TimelyGets: a byte that was missing and has been received came in some timely record.
  lemma {:induction false} GotWasTimely(maxLen: nat, M: seq<Msg>, x: Session, events: seq<Event>, s: nat, k: nat)
    returns (r: Record)
    requires ValidMessages(M) && Live(maxLen, M, x) && IsByte(M, s, k) && !Got(x.st, s, k)
    requires AllFriendly(M, events) && Orderly(maxLen, M, x, events) && Got(Run(maxLen, x, events).st, s, k)
    ensures Arrive(r, true) in events && Carrying(M, r, s, k) && Fits(r)
    ensures Timely(maxLen, x, events, r) && StillFresh(x, r)
    decreases |events|
  {
    hide Step, Live, Consistent, Got, Carrying, Raw, StillFresh, NotFarAhead, Id, GenuineRecord, Fits, Harmless;
    LiveOrDoneIsSafe(maxLen, M, x);
    assert events != [];
    var e := events[0];
    var x' := Step(maxLen, x, e);
    StepProgress(maxLen, M, x, e, s, k);
    LiveNotEnded(maxLen, M, x);
    if Got(x'.st, s, k) {
      r := e.rec;
      assert Friendly(M, e);
      HitIsTimely(maxLen, x, e);
    } else {
      if Done(M, x') { DoneHasAll(M, x', s, k); }
      r := GotWasTimely(maxLen, M, x', events[1..], s, k);
      assert Friendly(M, e);
      if e.SetReadState? {
        ChangeProgress(maxLen, M, x);
        MissingIsAhead(maxLen, M, x', s, k);
        CarryingEpoch(M, r, s, k);
        LaterIsFresh(x, e, r);
      } else {
        FreshBefore(maxLen, x, e, r);
      }
    }
  }

  lemma {:induction false} LiveNotEnded(maxLen: nat, M: seq<Msg>, x: Session)
    requires ValidMessages(M) && Live(maxLen, M, x)
    ensures !x.ended
  {
  }

  lemma {:induction false} CarryingEpoch(M: seq<Msg>, r: Record, s: nat, k: nat)
    requires ValidMessages(M) && Carrying(M, r, s, k)
    ensures s < |M| && r.epoch == M[s].epoch
  {
  }

  lemma {:induction false} LaterIsFresh(x: Session, e: Event, r: Record)
    requires x.epoch < r.epoch
    ensures StillFresh(x, r) && NotFarAhead(x, e, r)
  {
  }

  lemma {:induction false} HitIsTimely(maxLen: nat, x: Session, e: Event)
    requires Coherent(x) && !x.ended && e.Arrive? && e.rec.number < SEQ48 && Opens(x, e.rec, e.authentic)
    ensures e == Arrive(e.rec, true) && e.rec.epoch == x.epoch && Fits(e.rec) && StillFresh(x, e.rec)
  {
    hide Step, Opens;
    OpensExactly(maxLen, x, e.rec, e.authentic);
  }

  // No record arrives after one of its epoch that is 64 or more ahead of it.
  ghost predicate NearlyInOrder(events: seq<Event>) {
    forall i, j | 0 <= i < j < |events| && events[j].Arrive? && events[j].authentic :: Near(events[i], events[j].rec)
  }

  ghost predicate Near(e: Event, r: Record) {
    e.Arrive? && e.authentic && e.rec.epoch == r.epoch ==> e.rec.number < r.number + WINDOW
  }

  lemma {:induction false} StepKeepsEpoch(maxLen: nat, x: Session, e: Event)
    requires Coherent(x) && !e.SetReadState?
    ensures Step(maxLen, x, e).epoch == x.epoch
  {
    hide Dispatch, Judge, Tracks, RingInvariant, Unprocessed;
    HearKeepsTrack(x.window, x.seen, x.heard, if e.Arrive? then Id(e.rec) else 0);
  }

  // Between two changes of the cipher, records that are displaced by less than 64 numbers are all timely.
  lemma {:induction false} NearlyInOrderIsTimely(maxLen: nat, x: Session, events: seq<Event>, r: Record)
    requires Coherent(x) && r.epoch == x.epoch && Arrive(r, true) in events
    requires NearlyInOrder(events) && forall e | e in events :: !e.SetReadState?
    ensures Timely(maxLen, x, events, r)
    decreases |events|
  {
    hide Step;
    var e := events[0];
    if e != Arrive(r, true) {
      StepKeepsEpoch(maxLen, x, e);
      var k :| 0 <= k < |events| && events[k] == Arrive(r, true);
      assert Near(events[0], events[k].rec);
      assert events[1..][k - 1] == events[k];
      NearlyInOrderIsTimely(maxLen, Step(maxLen, x, e), events[1..], r);
    }
  }

  // A record that comes after one 64 or more ahead of it in its epoch, or in another epoch, is lost.
  lemma {:induction false} OvertakenIsLost(maxLen: nat, x: Session, r: Record, m: nat)
    requires Coherent(x) && r.number < SEQ48
    requires r.epoch != x.epoch || (m in x.heard && Id(r) + WINDOW <= m)
    ensures Step(maxLen, x, Arrive(r, true)).st == x.st
  {
    hide Step, Opens;
    if !x.ended {
      OpensExactly(maxLen, x, r, true);
    } else {
      EndedStays(maxLen, x, Arrive(r, true));
    }
  }

  lemma {:induction false} EndedStays(maxLen: nat, x: Session, e: Event)
    requires Coherent(x) && x.ended
    ensures Step(maxLen, x, e) == x
  {
  }

  // A message of 65 bytes, one byte a record, with byte j in the record numbered j.
  ghost function Sample(): seq<Msg> {
    [Msg(0, seq(65, _ => 0), 0)]
  }

  ghost function SampleRecord(j: nat): Record
    requires j < 65
  {
    Record(CtHandshake, 0, j, PieceBytes(Sample(), 0, j, 1), RECORD_HEADER_LENGTH + HEADER_LENGTH + 1)
  }

  lemma {:induction false} SampleLive()
    ensures Live(65, Sample(), InitialSession)
  {
    InitialCoherent();
  }

  lemma {:induction false} SamplePiece(j: nat)
    requires j < 65
    ensures IsPieceOf(Sample(), SampleRecord(j), 0, j, 1) && |SampleRecord(j).payload| == HEADER_LENGTH + 1
  {
    hide PieceHeader;
    assert |Sample()[0].body[j..j + 1]| == 1;
  }

  lemma {:induction false} SampleStep(j: nat)
    requires j < 65
    ensures (InitialCoherent();
             var x' := Step(65, InitialSession, Arrive(SampleRecord(j), true));
             (Got(x'.st, 0, 0) <==> j == 0) && x'.heard == {j} && x'.epoch == 0)
    ensures Friendly(Sample(), Arrive(SampleRecord(j), true))
  {
    hide Step, PieceBytes, Got, Live, Carrying, Consistent, Tracks;
    var r := SampleRecord(j);
    InitialCoherent();
    SampleLive();
    SamplePiece(j);
    OpensExactly(65, InitialSession, r, true);
    ArrivedFrame(65, InitialSession, r, true);
    OpenedPieceProgress(65, Sample(), InitialSession, r, 0, j, 1, 0, 0);
    assert !Got(InitialSession.st, 0, 0) by { NothingGot(); }
    OpenedIsHeard(65, InitialSession, r);
  }

  lemma {:induction false} NothingGot()
    ensures RingInvariant(InitialRx) && !Got(InitialRx, 0, 0)
  {
  }

  lemma {:induction false} OpenedIsHeard(maxLen: nat, x: Session, r: Record)
    requires Coherent(x) && !x.ended && Opens(x, r, true)
    ensures Step(maxLen, x, Arrive(r, true)).heard == x.heard + {Id(r)}
  {
    HearKeepsTrack(x.window, x.seen, x.heard, Id(r));
    hide Dispatch, Discards, Recorded, Tracks, Id;
  }

  // Two records of one pass arrive, once each. In the order in which they were sent both are received; in the opposite
  // order the first of them is lost.
  lemma {:induction false} ReorderingLoses()
    ensures (InitialCoherent();
             Got(Run(65, InitialSession, [Arrive(SampleRecord(0), true), Arrive(SampleRecord(64), true)]).st, 0, 0))
    ensures (InitialCoherent();
             !Got(Run(65, InitialSession, [Arrive(SampleRecord(64), true), Arrive(SampleRecord(0), true)]).st, 0, 0))
  {
    hide Step, Got, Live, PieceBytes, Consistent, Carrying;
    SampleLive();
    LiveOrDoneIsSafe(65, Sample(), InitialSession);
    SampleStep(0);
    SampleStep(64);
    var e0, e64 := Arrive(SampleRecord(0), true), Arrive(SampleRecord(64), true);
    var late := Step(65, InitialSession, e64);
    OvertakenIsLost(65, late, SampleRecord(0), 64);
    assert [e64, e0][1..] == [e0] && [e0][1..] == [] && [e0, e64][1..] == [e64] && [e64][1..] == [];
    var early := Step(65, InitialSession, e0);
    assert Live(65, Sample(), early) || Done(Sample(), early) by { StepStaysLive(65, Sample(), InitialSession, e0); }
    if Live(65, Sample(), early) {
      StepProgress(65, Sample(), early, e64, 0, 0);
    } else {
      DoneStays(65, Sample(), early, e64);
      DoneHasAll(Sample(), Step(65, early, e64), 0, 0);
    }
  }
}
