/** The receiving endpoint: record layer and handshake messages together take the steps of DtlsTransfer. */
module DtlsEndpoint {
  import opened Bits
  import opened Bytes
  import opened ReplayWindow
  import opened DtlsWriter
  import opened DtlsReceiver
  import opened DtlsTransfer

  class Endpoint {
    const reader: RecordReader
    const receiver: Receiver
    const maxLen: nat
    var nullCipher: bool
    var warnings: nat
    var ended: bool
    ghost var delivered: seq<seq<Byte>>
    ghost var heard: set<nat>

    ghost function AsSession(): Session
      reads this, reader, reader.bitmap, receiver
    {
      Session(receiver.model, reader.rEpoch, reader.bitmap.AsWindow(), nullCipher, receiver.hasMessage,
              receiver.hasChangeCipherSpec, warnings, ended, delivered, reader.bitmap.seen, heard)
    }

    ghost predicate Apart()
      reads this, receiver
    {
      {this, reader, reader.bitmap} !! receiver.Repr
    }

    ghost predicate Valid()
      reads this, reader, reader.bitmap, receiver, receiver.Repr
    {
      reader.Valid() && receiver.Valid() && Apart() && Coherent(AsSession())
    }

    constructor (maxLen: nat)
      ensures Valid() && AsSession() == InitialSession && this.maxLen == maxLen
    {
      this.maxLen := maxLen;
      reader := new RecordReader();
      receiver := new Receiver();
      nullCipher, warnings, ended, delivered, heard := true, 0, false, [], {};
      new;
      InitialCoherent();
    }

    // An opened record: ssl_process_alert for alerts, dtls1_open_handshake for all others.
    method Handle(r: Record)
      requires Valid() && !ended
      modifies this, receiver.Repr
      ensures Valid() && AsSession() == Dispatch(maxLen, old(AsSession()), r)
    {
      hide Judge, Discards, Tracks, ReceiveRecord, RingInvariant;
      hide RecordReader.Valid, Bitmap.Valid, Receiver.SlotValid;
      ghost var x := AsSession();
      if r.ctype.CtAlert? {
        ended := AlertEnds(warnings, r.payload);
        warnings := warnings + 1;
      } else {
        warnings := 0;
        var c := Config(reader.rEpoch == 1, maxLen);
        var res := receiver.OpenHandshake(r.ctype, r.payload, nullCipher, c);
        ended := res.OpenError?;
        assert reader.Valid() && receiver.Valid();
        assert Apart();
        assert AsSession() == Dispatch(maxLen, x, r);
      }
    }

    // dtls_open_record, and the handling of what it opens.
    method Arrive(r: Record, sequence: seq<Byte>, headerOk: bool, aeadOpens: bool)
      requires Valid() && |sequence| == 8 && Id(r) == BigEndian(sequence)
      modifies this, reader, reader.bitmap, receiver.Repr
      ensures Valid()
      ensures AsSession() == Step(maxLen, old(AsSession()), Event.Arrive(r, headerOk && aeadOpens))
    {
      hide Discards, Tracks, Dispatch, Recorded, RingInvariant, BigEndian;
      hide RecordReader.Valid, Bitmap.Valid, Receiver.SlotValid;
      ghost var x := AsSession();
      HearKeepsTrack(x.window, x.seen, x.heard, Id(r));
      if ended {
        return;
      }
      var verdict := reader.OpenRecord(false, headerOk, sequence, BodyLen(r), aeadOpens, |r.payload|);
      match verdict
      case Closed =>
      case Discard =>
        if Heeded(r, headerOk && aeadOpens) && Id(r) / SEQ48 == reader.rEpoch {
          heard := heard + {Id(r)};
        }
      case TooLong => ended := true;
      case Opened =>
        heard := heard + {Id(r)};
        Handle(r);
    }

    // dtls1_get_message: the message is that of the sender, byte for byte, by DeliversOnlyWhatWasSent.
    method GetMessage() returns (ok: bool, raw: seq<Byte>)
      requires Valid() && !ended
      modifies receiver`hasMessage
      ensures Valid() && AsSession() == Step(maxLen, old(AsSession()), Get)
      ensures ok <==> CurrentComplete(AsSession().st)
      ensures ok ==> Step(maxLen, AsSession(), Release).delivered == delivered + [raw]
    {
      hide Judge, Discards, Tracks, Arrived, RingInvariant, RawMessage;
      var typ, body;
      ok, typ, body, raw := receiver.GetMessage();
    }

    // dtls1_next_message.
    method NextMessage(outgoingComplete: bool)
      requires Valid() && !ended && receiver.hasMessage
      modifies this, receiver, receiver.incoming
      ensures Valid() && AsSession() == Step(maxLen, old(AsSession()), Release)
      ensures receiver.flightHasReply <==> old(receiver.flightHasReply) || outgoingComplete
    {
      hide Judge, Discards, Tracks, Arrived, RingInvariant, RawMessage;
      ghost var x := AsSession();
      delivered := Step(maxLen, x, Release).delivered;
      receiver.NextMessage(outgoingComplete);
    }

    // The flag part of dtls1_open_change_cipher_spec.
    method TakeChangeCipherSpec() returns (taken: bool)
      requires Valid() && !ended
      modifies receiver`hasChangeCipherSpec
      ensures Valid() && AsSession() == Step(maxLen, old(AsSession()), TakeCcs)
      ensures taken == old(AsSession().hasCcs)
    {
      hide Judge, Discards, Tracks, Arrived, RingInvariant;
      taken := receiver.TakeChangeCipherSpec();
    }

    // dtls1_set_read_state.
    method SetReadState() returns (ok: bool)
      requires Valid() && !ended
      modifies this, reader, reader.bitmap
      ensures Valid() && AsSession() == Step(maxLen, old(AsSession()), Event.SetReadState)
      ensures ok == !ended
    {
      hide Judge, Discards, Tracks, Arrived, RingInvariant, Unprocessed;
      hide RecordReader.Valid, Bitmap.Valid, Receiver.SlotValid;
      ghost var x := AsSession();
      var unprocessed := receiver.HasUnprocessedHandshakeData();
      ok := reader.SetReadState(unprocessed);
      if ok {
        nullCipher, heard := false, {};
      } else {
        ended := true;
      }
      assert receiver.Valid() && reader.Valid() && Apart();
      assert AsSession() == Step(maxLen, x, Event.SetReadState);
    }
  }
}
