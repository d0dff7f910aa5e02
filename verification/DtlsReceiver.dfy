/** Receiving DTLS handshake messages: the ring of partially reassembled messages (section 4.2.6 of RFC 6347). */
module DtlsReceiver {
  import opened Bytes
  import opened Reassembly
  import opened DtlsWriter

  // SSL_MAX_HANDSHAKE_FLIGHT.
  const FLIGHT := 7

  datatype Alert = DecodeError | IllegalParameter | UnexpectedMessage | InternalError
  datatype Verdict = Continue | Fail(alert: Alert)

  // The receiver state: slot i of the ring holds a message whose number is i modulo 7.
  datatype Rx = Rx(readSeq: nat, slots: seq<Option<Frag>>)

  const InitialRx := Rx(0, seq(FLIGHT, _ => None))

  ghost predicate RingInvariant(st: Rx) {
    && |st.slots| == FLIGHT && st.readSeq < U16
    && forall i | 0 <= i < FLIGHT && st.slots[i].Some? ::
         var s := st.slots[i].value.seqno;
         st.readSeq <= s < st.readSeq + FLIGHT && s % FLIGHT == i && s < U16 && |st.slots[i].value.body| < U24
  }

  // dtls1_get_incoming_message.
  ghost function GetIncoming(st: Rx, h: Header): (r: (Rx, Verdict))
    requires |st.slots| == FLIGHT
    ensures |r.0.slots| == FLIGHT
    ensures r.1.Continue? ==> r.0.slots[h.seqno % FLIGHT].Some?
  {
    if h.seqno < st.readSeq || h.seqno - st.readSeq >= FLIGHT then (st, Fail(InternalError))
    else
      var idx := h.seqno % FLIGHT;
      match st.slots[idx]
      case Some(f) =>
        if f.typ != h.typ || |f.body| != h.msgLen then (st, Fail(IllegalParameter)) else (st, Continue)
      case None =>
        (st.(slots := st.slots[idx := Some(NewFrag(h))]), Continue)
  }

  // Bytes arriving for a message that is already complete are dropped.
  ghost function Absorbed(f: Frag, off: nat, bytes: seq<Byte>): Frag {
    if f.Complete() then f else f.(body := Overlay(f.body, off, bytes))
  }

  // What the endpoint knows besides the ring: whether the read epoch is 1, and the size limit.
  datatype Config = Config(epochOne: bool, maxLen: nat)

  // One iteration of the fragment loop of dtls1_open_handshake.
  ghost function Receive(c: Config, st: Rx, h: Header, bytes: seq<Byte>): (Rx, Verdict)
    requires |st.slots| == FLIGHT
  {
    if h.fragOff > h.msgLen || h.fragOff + h.fragLen > h.msgLen || h.msgLen > c.maxLen then
      (st, Fail(IllegalParameter))
    else if c.epochOne && h.seqno != st.readSeq then (st, Fail(UnexpectedMessage))
    else if h.seqno < st.readSeq || h.seqno > st.readSeq + FLIGHT then (st, Continue)
    else
      var (st1, verdict) := GetIncoming(st, h);
      if verdict.Fail? then (st1, verdict)
      else
        var idx := h.seqno % FLIGHT;
        (st1.(slots := st1.slots[idx := Some(Absorbed(st1.slots[idx].value, h.fragOff, bytes))]), Continue)
  }

  // All fragments of one record.
  ghost function ReceiveRecord(c: Config, st: Rx, payload: seq<Byte>): (Rx, Verdict)
    requires |st.slots| == FLIGHT
    decreases |payload|
  {
    if payload == [] then (st, Continue)
    else
      match ParseFragment(payload)
      case Malformed => (st, Fail(DecodeError))
      case Parsed(h, bytes, rest) =>
        var (st1, verdict) := Receive(c, st, h, bytes);
        if verdict.Fail? then (st1, verdict) else ReceiveRecord(c, st1, rest)
  }

  ghost predicate CurrentComplete(st: Rx)
    requires |st.slots| == FLIGHT
  {
    var slot := st.slots[st.readSeq % FLIGHT];
    slot.Some? && slot.value.Complete()
  }

  ghost function BodyOf(f: Frag): seq<Byte>
    requires f.Complete()
  {
    seq(|f.body|, k requires 0 <= k < |f.body| => f.body[k].value)
  }

  // A finished handshake message as one fragment, header included.
  ghost function RawMessage(typ: Byte, seqno: nat, body: seq<Byte>): seq<Byte>
    requires seqno < U16 && |body| < U24
  {
    HeaderBytes(Header(typ, |body|, seqno, 0, |body|)) + body
  }

  lemma {:induction false} CurrentHoldsReadSeq(st: Rx)
    requires RingInvariant(st) && st.slots[st.readSeq % FLIGHT].Some?
    ensures st.slots[st.readSeq % FLIGHT].value.seqno == st.readSeq
  {
    assert st.slots[st.readSeq % FLIGHT].value.seqno % FLIGHT == st.readSeq % FLIGHT;
  }

  // dtls1_next_message.
  ghost function Next(st: Rx): Rx
    requires |st.slots| == FLIGHT
  {
    Rx((st.readSeq + 1) % U16, st.slots[st.readSeq % FLIGHT := None])
  }

  // dtls_has_unprocessed_handshake_data: anything but the message that the handshake is looking at.
  ghost predicate Unprocessed(st: Rx, hasMessage: bool, hasChangeCipherSpec: bool)
    requires |st.slots| == FLIGHT
  {
    hasChangeCipherSpec ||
    exists i | 0 <= i < FLIGHT :: st.slots[i].Some? && !(hasMessage && i == st.readSeq % FLIGHT)
  }

  // Whatever arrives, every buffered message sits in its own slot, inside the window.
  lemma {:induction false} ReceiveKeepsRing(c: Config, st: Rx, h: Header, bytes: seq<Byte>)
    requires RingInvariant(st) && ValidHeader(h)
    ensures RingInvariant(Receive(c, st, h, bytes).0)
  {
  }

  lemma {:induction false} RecordKeepsRing(c: Config, st: Rx, payload: seq<Byte>)
    requires RingInvariant(st)
    ensures RingInvariant(ReceiveRecord(c, st, payload).0)
    decreases |payload|
  {
    if payload != [] {
      var p := ParseFragment(payload);
      if p.Parsed? {
        ReceiveKeepsRing(c, st, p.header, p.body);
        var (st1, verdict) := Receive(c, st, p.header, p.body);
        if verdict.Continue? { RecordKeepsRing(c, st1, p.rest); }
      }
    }
  }

  // A complete current message stays as it is until it is released.
  lemma {:induction false} ReceiveKeepsCurrent(c: Config, st: Rx, h: Header, bytes: seq<Byte>)
    requires RingInvariant(st) && CurrentComplete(st) && ValidHeader(h)
    ensures var st' := Receive(c, st, h, bytes).0;
            st'.readSeq == st.readSeq && st'.slots[st.readSeq % FLIGHT] == st.slots[st.readSeq % FLIGHT]
  {
  }

  lemma {:induction false} RecordKeepsCurrent(c: Config, st: Rx, payload: seq<Byte>)
    requires RingInvariant(st) && CurrentComplete(st)
    ensures var st' := ReceiveRecord(c, st, payload).0;
            |st'.slots| == FLIGHT && st'.readSeq == st.readSeq
            && st'.slots[st.readSeq % FLIGHT] == st.slots[st.readSeq % FLIGHT]
    decreases |payload|
  {
    if payload != [] {
      var p := ParseFragment(payload);
      if p.Parsed? {
        ReceiveKeepsRing(c, st, p.header, p.body);
        ReceiveKeepsCurrent(c, st, p.header, p.body);
        var (st1, verdict) := Receive(c, st, p.header, p.body);
        hide Receive, ParseFragment;
        if verdict.Continue? { RecordKeepsCurrent(c, st1, p.rest); }
      }
    }
  }

  lemma {:induction false} NextKeepsRing(st: Rx)
    requires RingInvariant(st) && CurrentComplete(st)
    ensures RingInvariant(Next(st))
  {
    var idx := st.readSeq % FLIGHT;
    forall i | 0 <= i < FLIGHT && Next(st).slots[i].Some?
      ensures st.slots[i].value.seqno > st.readSeq
    {
      assert i != idx;
    }
  }

  // The slot found for a header holds the message with the header's own number: the assertion in
  // dtls1_get_incoming_message cannot fail and no message is overwritten by another.
  lemma {:induction false} SlotHoldsOwnMessage(st: Rx, h: Header)
    requires RingInvariant(st) && st.readSeq <= h.seqno < st.readSeq + FLIGHT
    requires st.slots[h.seqno % FLIGHT].Some?
    ensures st.slots[h.seqno % FLIGHT].value.seqno == h.seqno
  {
    assert st.slots[h.seqno % FLIGHT].value.seqno % FLIGHT == h.seqno % FLIGHT;
  }

  // A fragment is ignored or stored, never fatal, exactly when its numbers are consistent, it agrees with
  // the buffered message, and it is not exactly FLIGHT messages ahead: the two window checks differ by one.
  lemma {:induction false} FatalExactlyWhen(c: Config, st: Rx, h: Header, bytes: seq<Byte>)
    requires RingInvariant(st) && ValidHeader(h) && h.fragLen == |bytes|
    ensures Receive(c, st, h, bytes).1.Continue? <==>
      && h.fragOff + h.fragLen <= h.msgLen <= c.maxLen
      && (c.epochOne ==> h.seqno == st.readSeq)
      && h.seqno != st.readSeq + FLIGHT
      && (st.readSeq <= h.seqno < st.readSeq + FLIGHT && st.slots[h.seqno % FLIGHT].Some? ==>
            var f := st.slots[h.seqno % FLIGHT].value; f.seqno == h.seqno && f.typ == h.typ && |f.body| == h.msgLen)
    // The alert: after a cipher change only the next message may follow, and a message beyond the buffer is an error of
    // this side.
    ensures var consistent := h.fragOff + h.fragLen <= h.msgLen <= c.maxLen;
            var verdict := Receive(c, st, h, bytes).1;
            verdict.Fail? ==>
              verdict.alert == if consistent && c.epochOne && h.seqno != st.readSeq then UnexpectedMessage
                               else if consistent && h.seqno == st.readSeq + FLIGHT then InternalError
                               else IllegalParameter
  {
    if st.readSeq <= h.seqno < st.readSeq + FLIGHT && st.slots[h.seqno % FLIGHT].Some? {
      SlotHoldsOwnMessage(st, h);
    }
  }

  // ---- Several fragments in one record ----

  // A record with one fragment is that fragment.
  lemma {:induction false} OneFragment(c: Config, st: Rx, h: Header, bytes: seq<Byte>)
    requires RingInvariant(st) && ValidHeader(h) && h.fragLen == |bytes|
    ensures ReceiveRecord(c, st, HeaderBytes(h) + bytes) == Receive(c, st, h, bytes)
  {
    FirstFragment(c, st, h, bytes, []);
    assert HeaderBytes(h) + bytes + [] == HeaderBytes(h) + bytes;
    hide Receive;
  }

  // The first fragment of a record is handled as if it had come alone; unless it is fatal, the others follow.
  lemma {:induction false} FirstFragment(c: Config, st: Rx, h: Header, bytes: seq<Byte>, rest: seq<Byte>)
    requires RingInvariant(st) && ValidHeader(h) && h.fragLen == |bytes|
    ensures var (st1, verdict) := Receive(c, st, h, bytes);
            |st1.slots| == FLIGHT &&
            ReceiveRecord(c, st, HeaderBytes(h) + bytes + rest)
              == if verdict.Fail? then (st1, verdict) else ReceiveRecord(c, st1, rest)
  {
    ParseInvertsHeader(h, bytes, rest);
    ReceiveKeepsRing(c, st, h, bytes);
    hide HeaderBytes, ParseFragment, Receive, RingInvariant;
  }

  datatype OpenResult = OpenDiscard | OpenSuccess | OpenError(alert: Alert)

  const MT_CCS: Byte := 1

  /** The receiving half of DTLS1_STATE. */
  class Receiver {
    const incoming: array<HmFragment?>
    var readSeq: nat
    var hasMessage: bool
    var hasChangeCipherSpec: bool
    // A message was released after the flight of this side was complete.
    var flightHasReply: bool
    ghost var model: Rx
    ghost var Repr: set<object>

    ghost predicate Valid()
      reads this, Repr
    {
      && this in Repr && incoming in Repr
      && incoming.Length == FLIGHT && readSeq == model.readSeq && RingInvariant(model)
      && (forall i | 0 <= i < FLIGHT :: SlotValid(i))
      && (forall i, j | 0 <= i < j < FLIGHT && incoming[i] in Repr && incoming[j] in Repr ::
            Parts(incoming[i]) !! Parts(incoming[j]))
    }

    ghost predicate SlotValid(i: nat)
      reads this, Repr
      requires this in Repr && incoming in Repr && i < incoming.Length == FLIGHT && |model.slots| == FLIGHT
    {
      var f := incoming[i];
      if f == null then model.slots[i] == None
      else
        && f in Repr && f.data in Repr && (f.reassembly != null ==> f.reassembly in Repr)
        && this !in Parts(f) && incoming !in Parts(f)
        && f.Valid() && model.slots[i] == Some(f.Abs())
    }

    static ghost function Parts(f: HmFragment): set<object>
      reads f
    {
      {f, f.data} + if f.reassembly == null then {} else {f.reassembly}
    }

    constructor ()
      ensures Valid() && model == InitialRx && fresh(Repr)
      ensures !hasMessage && !hasChangeCipherSpec && !flightHasReply
    {
      readSeq, hasMessage, hasChangeCipherSpec, flightHasReply := 0, false, false, false;
      incoming := new HmFragment?[FLIGHT](_ => null);
      model := InitialRx;
      new;
      Repr := {this, incoming};
    }

    // The first fragment of a message.
    method Insert(h: Header, idx: nat) returns (frag: HmFragment)
      requires Valid() && ValidHeader(h)
      requires readSeq <= h.seqno < readSeq + FLIGHT && idx == h.seqno % FLIGHT && incoming[idx] == null
      modifies incoming, this`Repr, this`model
      ensures Valid() && fresh(Repr - old(Repr))
      ensures model == old(model).(slots := old(model).slots[idx := Some(NewFrag(h))])
      ensures frag == incoming[idx] && frag.msgLen == h.msgLen
    {
      hide HmFragment.Valid, HmFragment.Abs;
      frag := new HmFragment(h);
      assert Parts(frag) !! old(Repr);
      incoming[idx] := frag;
      Repr := Repr + Parts(frag);
      model := model.(slots := model.slots[idx := Some(frag.Abs())]);
      forall i | 0 <= i < FLIGHT && i != idx
        ensures SlotValid(i) && (incoming[i] != null ==> Parts(incoming[i]) <= old(Repr))
      {
        assert old(SlotValid(i));
      }
    }

    // dtls1_get_incoming_message.
    method GetIncomingMessage(h: Header) returns (frag: HmFragment?, alert: Alert)
      requires Valid() && ValidHeader(h)
      modifies incoming, this`Repr, this`model
      ensures Valid() && fresh(Repr - old(Repr))
      ensures model == GetIncoming(old(model), h).0
      ensures GetIncoming(old(model), h).1 == if frag == null then Fail(alert) else Continue
      ensures frag != null ==> frag == incoming[h.seqno % FLIGHT] && frag.msgLen == h.msgLen
    {
      alert := InternalError;
      if h.seqno < readSeq || h.seqno - readSeq >= FLIGHT {
        return null, InternalError;
      }
      var idx := h.seqno % FLIGHT;
      frag := incoming[idx];
      assert SlotValid(idx);
      if frag != null {
        SlotHoldsOwnMessage(model, h);
        assert frag.seqno == h.seqno;
        if frag.typ != h.typ || frag.msgLen != h.msgLen {
          return null, IllegalParameter;
        }
        return frag, alert;
      }
      frag := Insert(h, idx);
    }

    // Lines 399 to 402 of d1_both.cc: the copy and the marking.
    method StoreFragment(idx: nat, off: nat, bytes: seq<Byte>)
      requires Valid() && idx < FLIGHT && incoming[idx] != null && incoming[idx].reassembly != null
      requires off + |bytes| <= incoming[idx].msgLen && model.slots[idx].Some?
      modifies Repr
      ensures Valid() && fresh(Repr - old(Repr))
      ensures unchanged(this`hasMessage, this`hasChangeCipherSpec, this`flightHasReply)
      ensures model == old(model).(slots := old(model).slots[idx := Some(Absorbed(old(model).slots[idx].value, off,
          bytes))])
    {
      var frag := incoming[idx];
      assert SlotValid(idx);
      frag.NullIffComplete();
      ghost var parts := Parts(frag);
      hide HmFragment.Valid, HmFragment.Abs, Frag.Complete;
      frag.Store(off, bytes);
      assert Parts(frag) <= parts;
      model := model.(slots := model.slots[idx := Some(frag.Abs())]);
      forall i | 0 <= i < FLIGHT && i != idx ensures SlotValid(i) {
        assert old(SlotValid(i));
      }
    }

    // One iteration of the fragment loop.
    method HandleFragment(c: Config, h: Header, bytes: seq<Byte>) returns (verdict: Verdict)
      requires Valid() && ValidHeader(h) && h.fragLen == |bytes|
      modifies Repr
      ensures Valid() && fresh(Repr - old(Repr))
      ensures unchanged(this`hasMessage, this`hasChangeCipherSpec, this`flightHasReply)
      ensures (model, verdict) == Receive(c, old(model), h, bytes)
    {
      if h.fragOff > h.msgLen || h.fragOff + h.fragLen > h.msgLen || h.msgLen > c.maxLen {
        return Fail(IllegalParameter);
      }
      if c.epochOne && h.seqno != readSeq {
        return Fail(UnexpectedMessage);
      }
      if h.seqno < readSeq || h.seqno > readSeq + FLIGHT {
        return Continue;
      }
      var frag, alert := GetIncomingMessage(h);
      if frag == null {
        return Fail(alert);
      }
      assert SlotValid(h.seqno % FLIGHT);
      frag.NullIffComplete();
      if frag.reassembly == null {
        assert model.slots == model.slots[h.seqno % FLIGHT := Some(frag.Abs())];
        return Continue;
      }
      StoreFragment(h.seqno % FLIGHT, h.fragOff, bytes);
      return Continue;
    }

    // dtls1_open_handshake, given the type and plaintext of a record that dtls_open_record accepted.
    method OpenHandshake(typ: ContentType, record: seq<Byte>, nullCipher: bool, c: Config) returns (r: OpenResult)
      requires Valid()
      modifies Repr
      ensures Valid() && fresh(Repr - old(Repr)) && hasMessage == old(hasMessage)
      ensures flightHasReply == old(flightHasReply)
      ensures typ.CtHandshake? ==>
        && model == ReceiveRecord(c, old(model), record).0
        && r == (match ReceiveRecord(c, old(model), record).1 case Continue => OpenSuccess case Fail(a) => OpenError(a))
      ensures !typ.CtHandshake? ==> model == old(model)
      ensures hasChangeCipherSpec <==> old(hasChangeCipherSpec) || (typ.CtChangeCipherSpec? && r == OpenSuccess)
      ensures typ.CtChangeCipherSpec? ==>
        r == if !nullCipher then OpenError(UnexpectedMessage)
             else if record != [MT_CCS] then OpenError(IllegalParameter)
             else OpenSuccess
      ensures typ.CtApplicationData? ==> r == if nullCipher then OpenError(UnexpectedMessage) else OpenDiscard
      ensures typ.CtAlert? || typ.CtOther? ==> r == OpenError(UnexpectedMessage)
    {
      match typ
      case CtApplicationData =>
        return if nullCipher then OpenError(UnexpectedMessage) else OpenDiscard;
      case CtChangeCipherSpec =>
        if !nullCipher {
          return OpenError(UnexpectedMessage);
        }
        if |record| != 1 || record[0] != MT_CCS {
          return OpenError(IllegalParameter);
        }
        hasChangeCipherSpec := true;
        assert forall i | 0 <= i < FLIGHT :: old(SlotValid(i)) ==> SlotValid(i);
        return OpenSuccess;
      case CtAlert | CtOther =>
        return OpenError(UnexpectedMessage);
      case CtHandshake =>
        r := OpenFragments(record, c);
    }

    method OpenFragments(record: seq<Byte>, c: Config) returns (r: OpenResult)
      requires Valid()
      modifies Repr
      ensures Valid() && fresh(Repr - old(Repr))
      ensures unchanged(this`hasMessage, this`hasChangeCipherSpec, this`flightHasReply)
      ensures model == ReceiveRecord(c, old(model), record).0
      ensures r == (match ReceiveRecord(c, old(model),
          record).1 case Continue => OpenSuccess case Fail(a) => OpenError(a))
    {
      var cbs := record;
      while |cbs| > 0
        invariant Valid() && fresh(Repr - old(Repr))
        invariant unchanged(this`hasMessage, this`hasChangeCipherSpec, this`flightHasReply)
        invariant ReceiveRecord(c, model, cbs) == ReceiveRecord(c, old(model), record)
        decreases |cbs|
      {
        var p := ParseFragment(cbs);
        if p.Malformed? {
          return OpenError(DecodeError);
        }
        var verdict := HandleFragment(c, p.header, p.body);
        if verdict.Fail? {
          return OpenError(verdict.alert);
        }
        cbs := p.rest;
      }
      return OpenSuccess;
    }

    // dtls1_is_current_message_complete.
    method IsCurrentMessageComplete() returns (complete: bool)
      requires Valid()
      ensures complete <==> CurrentComplete(model)
    {
      var idx := readSeq % FLIGHT;
      assert SlotValid(idx);
      var frag := incoming[idx];
      if frag != null { frag.NullIffComplete(); }
      return frag != null && frag.reassembly == null;
    }

    // dtls1_get_message: the body and the raw message, header included.
    method GetMessage() returns (ok: bool, typ: Byte, body: seq<Byte>, raw: seq<Byte>)
      requires Valid()
      modifies this`hasMessage
      ensures Valid()
      ensures ok <==> CurrentComplete(model)
      ensures hasMessage <==> ok || old(hasMessage)
      ensures ok ==> var f := model.slots[readSeq % FLIGHT].value;
        && typ == f.typ && body == BodyOf(f)
        && readSeq < U16 && |body| < U24 && raw == RawMessage(typ, readSeq, body)
    {
      typ, body, raw := 0, [], [];
      ok := IsCurrentMessageComplete();
      if ok {
        var idx := readSeq % FLIGHT;
        assert SlotValid(idx);
        var frag := incoming[idx];
        frag.NullIffComplete();
        CurrentHoldsReadSeq(model);
        typ := frag.typ;
        body := frag.data[HEADER_LENGTH..];
        assert body == BodyOf(frag.Abs()) by {
          assert forall k | 0 <= k < frag.msgLen :: frag.Abs().body[k].Some?;
        }
        raw := frag.data[..];
        assert raw == frag.data[..HEADER_LENGTH] + frag.data[HEADER_LENGTH..];
        hasMessage := true;
        assert forall i | 0 <= i < FLIGHT :: old(SlotValid(i)) ==> SlotValid(i);
      }
    }

    // dtls1_next_message.
    method NextMessage(outgoingComplete: bool)
      requires Valid() && hasMessage && CurrentComplete(model)
      modifies this, incoming
      ensures Valid() && Repr == old(Repr) && !hasMessage && unchanged(this`hasChangeCipherSpec)
      ensures model == Next(old(model))
      ensures flightHasReply <==> old(flightHasReply) || outgoingComplete
    {
      NextKeepsRing(model);
      var index := readSeq % FLIGHT;
      incoming[index] := null;
      readSeq := (readSeq + 1) % U16;
      hasMessage := false;
      if outgoingComplete { flightHasReply := true; }
      model := Next(model);
      forall i | 0 <= i < FLIGHT && i != index ensures SlotValid(i) {
        assert old(SlotValid(i));
      }
    }

    // The flag part of dtls1_open_change_cipher_spec.
    method TakeChangeCipherSpec() returns (taken: bool)
      requires Valid()
      modifies this`hasChangeCipherSpec
      ensures Valid() && !hasChangeCipherSpec && taken == old(hasChangeCipherSpec)
    {
      taken := hasChangeCipherSpec;
      hasChangeCipherSpec := false;
      assert forall i | 0 <= i < FLIGHT :: old(SlotValid(i)) ==> SlotValid(i);
    }

    // dtls_has_unprocessed_handshake_data.
    method HasUnprocessedHandshakeData() returns (r: bool)
      requires Valid()
      ensures r <==> Unprocessed(model, hasMessage, hasChangeCipherSpec)
    {
      if hasChangeCipherSpec {
        return true;
      }
      var current := readSeq % FLIGHT;
      for i := 0 to FLIGHT
        invariant forall j | 0 <= j < i :: !(model.slots[j].Some? && !(hasMessage && j == current))
      {
        assert SlotValid(i);
        if !(hasMessage && i == current) && incoming[i] != null {
          return true;
        }
      }
      return false;
    }
  }
}
