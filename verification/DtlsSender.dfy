/** Sending a flight of DTLS handshake messages, cut into fragments that fit the path MTU. */
module DtlsSender {
  import opened Bytes
  import opened Reassembly
  import opened ReplayWindow
  import opened DtlsWriter
  import opened DtlsReceiver

  const CCS_PAYLOAD: seq<Byte> := [MT_CCS]
  const MIN_MTU := 256 - 28
  const DEFAULT_MTU := 1500 - 28

  // DTLS_OUTGOING_MESSAGE.
  datatype OutMsg = OutMsg(data: seq<Byte>, epoch: nat, isCcs: bool) {
    // A handshake message is stored as one fragment that covers all of it.
    predicate WellFormed() {
      isCcs ||
      var p := ParseFragment(data);
      p.Parsed? && p.header.fragOff == 0 && p.header.msgLen == |p.body| && p.rest == []
    }

    function Body(): (b: seq<Byte>)
      requires !isCcs && WellFormed()
      ensures |b| < U24
    {
      ParseFragment(data).body
    }

    function Hdr(): (h: Header)
      requires !isCcs && WellFormed()
      ensures ValidHeader(h)
    {
      ParseFragment(data).header
    }
  }

  // The fragment [off, off + len) of a message.
  function Fragment(m: OutMsg, off: nat, len: nat): seq<Byte>
    requires !m.isCcs && m.WellFormed() && off + len <= |m.Body()|
  {
    var h := m.Hdr();
    HeaderBytes(Header(h.typ, h.msgLen, h.seqno, off, len)) + m.Body()[off..off + len]
  }

  // outgoing_written and outgoing_offset.
  datatype Cursor = Cursor(written: nat, offset: nat) {
    predicate Before(c: Cursor) {
      written < c.written || (written == c.written && offset < c.offset)
    }
  }

  // How much of the message under the cursor is left.
  function LeftOf(flight: seq<OutMsg>, c: Cursor): nat {
    if c.written < |flight| && !flight[c.written].isCcs && flight[c.written].WellFormed()
       && c.offset <= |flight[c.written].Body()|
    then |flight[c.written].Body()| - c.offset
    else 0
  }

  lemma {:induction false} LeftDecreases(flight: seq<OutMsg>, c: Cursor, c': Cursor)
    requires CursorValid(flight, c') && c.Before(c')
    ensures c.written < c'.written <= |flight|
         || (c.written == c'.written && LeftOf(flight, c') < LeftOf(flight, c))
  {
  }

  const Start := Cursor(0, 0)

  ghost predicate CursorValid(flight: seq<OutMsg>, c: Cursor) {
    c.written <= |flight| &&
    (c.offset > 0 ==>
       && c.written < |flight|
       && !flight[c.written].isCcs && flight[c.written].WellFormed()
       && c.offset < |flight[c.written].Body()|)
  }

  // The packet size after dtls1_update_mtu: a valid one stays; otherwise it is the transport's answer if that is valid,
  // and the default if not.
  function MtuAfter(mtu: nat, query: int, mayQuery: bool): (r: nat)
    ensures mayQuery ==> r >= MIN_MTU
    ensures mtu >= MIN_MTU || !mayQuery ==> r == mtu
    ensures mtu < MIN_MTU && mayQuery ==> r == if query >= MIN_MTU && query <= 0x4000_0000 then query else DEFAULT_MTU
  {
    if mtu >= MIN_MTU || !mayQuery then mtu
    else if MIN_MTU <= query <= 0x4000_0000 then query
    else DEFAULT_MTU
  }

  datatype SealResult = SealError | NoProgress | Partial(rec: Record) | Success(rec: Record)

  // seal_next_message; the cursor it returns has only the offset moved.
  function SealNextMessage(w: Write, m: OutMsg, offset: nat, maxOut: nat): (Write, nat, SealResult) {
    var prev := w.epoch >= 1 && m.epoch == w.epoch - 1;
    if !prev && m.epoch != w.epoch then (w, offset, SealError)
    else
      var overhead, prefix := w.AeadFor(prev).MaxOverhead(), w.AeadFor(prev).PrefixLen();
      if m.isCcs then
        if maxOut < 1 + overhead then (w, offset, NoProgress)
        else
          var (w', rec) := Sealed(w, prev, CtChangeCipherSpec, CCS_PAYLOAD, maxOut);
          (w', offset, if rec.None? then SealError else Success(rec.value))
      else if !m.WellFormed() || offset > |m.Body()| then (w, offset, SealError)
      else if maxOut < HEADER_LENGTH + 1 + overhead || maxOut < prefix then (w, offset, NoProgress)
      else
        var left := |m.Body()| - offset;
        var todo := Min(left, maxOut - HEADER_LENGTH - overhead);
        var (w', rec) := Sealed(w, prev, CtHandshake, Fragment(m, offset, todo), maxOut);
        if rec.None? then (w', offset, SealError)
        else if todo == left then (w', 0, Success(rec.value))
        else (w', offset + todo, Partial(rec.value))
  }

  // How far one record, accepted by the transport, carries the flight: it must be the next piece of the
  // next message, without gap or overlap.
  ghost function Advance(flight: seq<OutMsg>, c: Cursor, r: Record): Option<Cursor>
    requires CursorValid(flight, c)
  {
    if c.written == |flight| then None
    else
      var m := flight[c.written];
      if r.epoch != m.epoch then None
      else if m.isCcs then
        if r.ctype == CtChangeCipherSpec && r.payload == CCS_PAYLOAD then Some(Cursor(c.written + 1, 0)) else None
      else if !m.WellFormed() || r.ctype != CtHandshake || |r.payload| < HEADER_LENGTH then None
      else
        var len := |r.payload| - HEADER_LENGTH;
        if c.offset + len > |m.Body()| || r.payload != Fragment(m, c.offset, len) then None
        else if c.offset + len == |m.Body()| then Some(Cursor(c.written + 1, 0))
        else if len == 0 then None
        else Some(Cursor(c.written, c.offset + len))
  }

  // The position reached from start by a sequence of records, if each is the next piece.
  ghost function Replay(flight: seq<OutMsg>, start: Cursor, recs: seq<Record>): (c: Option<Cursor>)
    requires CursorValid(flight, start)
    ensures c.Some? ==> CursorValid(flight, c.value)
    decreases |recs|
  {
    if recs == [] then Some(start)
    else
      var n := |recs| - 1;
      var c := Replay(flight, start, recs[..n]);
      if c.None? then None else Advance(flight, c.value, recs[n])
  }

  lemma {:induction false} ReplaySnoc(flight: seq<OutMsg>, start: Cursor, recs: seq<Record>, r: Record)
    requires CursorValid(flight, start) && Replay(flight, start, recs).Some?
    ensures Replay(flight, start, recs + [r]) == Advance(flight, Replay(flight, start, recs).value, r)
  {
    assert (recs + [r])[..|recs|] == recs;
  }

  lemma {:induction false} ReplayConcat(flight: seq<OutMsg>, start: Cursor, recs: seq<Record>, more: seq<Record>)
    requires CursorValid(flight, start) && Replay(flight, start, recs).Some?
    ensures Replay(flight, start, recs + more) == Replay(flight, Replay(flight, start, recs).value, more)
    decreases |more|
  {
    hide Advance, CursorValid;
    if more == [] {
      assert recs + more == recs;
    } else {
      var n := |more| - 1;
      ReplayConcat(flight, start, recs, more[..n]);
      assert (recs + more)[..|recs| + n] == recs + more[..n];
    }
  }

  // The end of a complete message moves the cursor to the next message.
  function After(c: Cursor, offset': nat, res: SealResult): Cursor {
    if res.Success? then Cursor(c.written + 1, offset') else Cursor(c.written, offset')
  }

  lemma {:induction false} FragmentLength(m: OutMsg, off: nat, len: nat)
    requires !m.isCcs && m.WellFormed() && off + len <= |m.Body()|
    ensures |Fragment(m, off, len)| == HEADER_LENGTH + len
  {
    hide ParseFragment;
  }

  // Every sealed message fragment fits in the space given and is exactly the next piece of the flight.
  lemma {:induction false} SealedFacts(w: Write, prev: bool, ctype: ContentType, payload: seq<Byte>, maxOut: nat)
    requires w.Valid() && (prev ==> w.epoch >= 1)
    ensures var (w', rec) := Sealed(w, prev, ctype, payload, maxOut);
            && w'.Valid() && w'.epoch == w.epoch
            && (rec.Some? ==>
                  && rec.value.ctype == ctype && rec.value.payload == payload
                  && rec.value.epoch == (if prev then w.epoch - 1 else w.epoch)
                  && |payload| + RECORD_HEADER_LENGTH <= rec.value.wireLen <= maxOut)
  {
  }

  lemma {:induction false} SealNextAdvances(w: Write, flight: seq<OutMsg>, c: Cursor, maxOut: nat)
    requires w.Valid() && CursorValid(flight, c) && c.written < |flight|
    ensures var (w', offset', res) := SealNextMessage(w, flight[c.written], c.offset, maxOut);
            && w'.Valid() && w'.epoch == w.epoch
            && (res.SealError? || res.NoProgress? ==> offset' == c.offset)
            && (res.Partial? || res.Success? ==>
                  && |res.rec.payload| + RECORD_HEADER_LENGTH <= res.rec.wireLen <= maxOut
                  && CursorValid(flight, After(c, offset', res))
                  && Advance(flight, c, res.rec) == Some(After(c, offset', res))
                  && c.Before(After(c, offset', res)))
  {
    hide ParseFragment, HeaderBytes, Fragment, Sealed, Write.Valid;
    var m, prev := flight[c.written], UsesPrevious(w, flight[c.written]);
    var res := SealNextMessage(w, m, c.offset, maxOut).2;
    var overhead := w.AeadFor(prev).MaxOverhead();
    if m.isCcs {
      SealedFacts(w, prev, CtChangeCipherSpec, CCS_PAYLOAD, maxOut);
      assert res.Success? ==> Sealed(w, prev, CtChangeCipherSpec, CCS_PAYLOAD, maxOut).1 == Some(res.rec);
    } else if m.WellFormed() && c.offset <= |m.Body()| && maxOut >= HEADER_LENGTH + 1 + overhead {
      var len := Min(|m.Body()| - c.offset, maxOut - HEADER_LENGTH - overhead);
      FragmentLength(m, c.offset, len);
      SealedFacts(w, prev, CtHandshake, Fragment(m, c.offset, len), maxOut);
      assert res.Partial? || res.Success? ==>
        Sealed(w, prev, CtHandshake, Fragment(m, c.offset, len), maxOut).1 == Some(res.rec);
    }
  }

  predicate UsesPrevious(w: Write, m: OutMsg) {
    w.epoch >= 1 && m.epoch == w.epoch - 1
  }

  // The number the next record for this message would get.
  function Counter(w: Write, m: OutMsg): nat {
    if UsesPrevious(w, m) then w.lastSeqno else w.seqno
  }

  // There is a cipher for the message, and it is one whole fragment.
  predicate Sealable(w: Write, m: OutMsg, offset: nat) {
    && (UsesPrevious(w, m) || m.epoch == w.epoch)
    && (m.isCcs || (m.WellFormed() && offset <= |m.Body()|))
  }

  function Space(w: Write, m: OutMsg): nat {
    (if m.isCcs then 1 else HEADER_LENGTH + 1) + w.AeadFor(UsesPrevious(w, m)).MaxOverhead()
  }

  function CipherLen(w: Write, m: OutMsg, offset: nat, maxOut: nat): nat
    requires Sealable(w, m, offset) && Space(w, m) <= maxOut
  {
    var aead := w.AeadFor(UsesPrevious(w, m));
    var len := if m.isCcs then 1
               else HEADER_LENGTH + Min(|m.Body()| - offset, maxOut - HEADER_LENGTH - aead.MaxOverhead());
    aead.nonceLen + len + aead.tagLen(len)
  }

  // Why sealing fails: the message cannot be sealed at all, or there is room for it but its epoch is out of record
  // numbers or the record is too long for its length field.
  predicate Refused(w: Write, m: OutMsg, offset: nat, maxOut: nat) {
    !Sealable(w, m, offset) ||
    (Space(w, m) <= maxOut && (Counter(w, m) == SEQ48 - 1 || CipherLen(w, m, offset, maxOut) >= U16))
  }

  lemma {:induction false} SealErrorExactly(w: Write, m: OutMsg, offset: nat, maxOut: nat)
    requires w.Valid()
    ensures SealNextMessage(w, m, offset, maxOut).2.SealError? <==> Refused(w, m, offset, maxOut)
    ensures SealNextMessage(w, m, offset, maxOut).2.NoProgress? <==>
            Sealable(w, m, offset) && maxOut < Space(w, m)
    // With a packet size below 64 KB only the message and the counter matter.
    ensures maxOut < U16 ==> (Refused(w, m, offset, maxOut) <==>
              !Sealable(w, m, offset) || (Space(w, m) <= maxOut && Counter(w, m) == SEQ48 - 1))
  {
    hide ParseFragment, HeaderBytes;
    if Sealable(w, m, offset) && Space(w, m) <= maxOut && !m.isCcs {
      var len := Min(|m.Body()| - offset, maxOut - HEADER_LENGTH - w.AeadFor(UsesPrevious(w, m)).MaxOverhead());
      assert |Fragment(m, offset, len)| == HEADER_LENGTH + len;
    }
  }

  // A sealed fragment exceeds the limit for plaintexts exactly when both the rest of the message and the packet do.
  lemma {:induction false} TooLongExactly(w: Write, m: OutMsg, offset: nat, maxOut: nat)
    requires w.Valid() && !m.isCcs && m.WellFormed() && offset <= |m.Body()|
    ensures var res := SealNextMessage(w, m, offset, maxOut).2;
            res.Partial? || res.Success? ==>
              (|res.rec.payload| > MAX_PLAIN_LENGTH <==>
                 && HEADER_LENGTH + |m.Body()| - offset > MAX_PLAIN_LENGTH
                 && maxOut > MAX_PLAIN_LENGTH + w.AeadFor(UsesPrevious(w, m)).MaxOverhead())
  {
    hide ParseFragment, HeaderBytes, Fragment;
    var overhead := w.AeadFor(UsesPrevious(w, m)).MaxOverhead();
    if maxOut >= HEADER_LENGTH + overhead {
      FragmentLength(m, offset, Min(|m.Body()| - offset, maxOut - HEADER_LENGTH - overhead));
    }
  }

  // A fragment carries the rest of its message if that is sure to fit, and otherwise fills the space there is.
  lemma {:induction false} FragmentFills(w: Write, m: OutMsg, offset: nat, maxOut: nat)
    requires w.Valid() && !m.isCcs
    ensures var res := SealNextMessage(w, m, offset, maxOut).2;
            var overhead := w.AeadFor(UsesPrevious(w, m)).MaxOverhead();
            && (res.Success? ==>
                  && m.WellFormed() && offset <= |m.Body()|
                  && |res.rec.payload| == HEADER_LENGTH + |m.Body()| - offset <= maxOut - overhead)
            && (res.Partial? ==>
                  && m.WellFormed() && offset <= |m.Body()|
                  && |res.rec.payload| == maxOut - overhead < HEADER_LENGTH + |m.Body()| - offset)
  {
    hide ParseFragment, HeaderBytes, Fragment;
    var overhead := w.AeadFor(UsesPrevious(w, m)).MaxOverhead();
    if m.WellFormed() && offset <= |m.Body()| && maxOut >= HEADER_LENGTH + overhead {
      FragmentLength(m, offset, Min(|m.Body()| - offset, maxOut - HEADER_LENGTH - overhead));
    }
  }

  // seal_next_packet: the records sealed into one packet, and whether it ended in an error.
  datatype Packet = Packet(w: Write, cur: Cursor, recs: seq<Record>, failed: bool)

  function PacketFrom(w: Write, flight: seq<OutMsg>, c: Cursor, left: nat): Packet
    decreases |flight| - c.written
  {
    if c.written >= |flight| then Packet(w, c, [], false)
    else
      var (w', offset', res) := SealNextMessage(w, flight[c.written], c.offset, left);
      if res.SealError? || res.NoProgress? then Packet(w', After(c, offset', res), [], res.SealError?)
      else if res.Partial? || left < res.rec.wireLen then Packet(w', After(c, offset', res), [res.rec], false)
      else
        var p := PacketFrom(w', flight, After(c, offset', res), left - res.rec.wireLen);
        p.(recs := [res.rec] + p.recs)
  }

  // The state after sealing n whole messages into the packet, if they fit and seal.
  ghost function Whole(w: Write, flight: seq<OutMsg>, c: Cursor, left: nat, n: nat): Option<(Write, Cursor, nat)>
    decreases n
  {
    if n == 0 then Some((w, c, left))
    else if c.written >= |flight| then None
    else
      var (w', offset', res) := SealNextMessage(w, flight[c.written], c.offset, left);
      if !res.Success? || left < res.rec.wireLen then None
      else Whole(w', flight, After(c, offset', res), left - res.rec.wireLen, n - 1)
  }

  // The packet takes n whole messages, and the next one is refused.
  ghost predicate RefusedAfter(w: Write, flight: seq<OutMsg>, c: Cursor, left: nat, n: nat) {
    var reached := Whole(w, flight, c, left, n);
    && reached.Some? && reached.value.1.written < |flight|
    && Refused(reached.value.0, flight[reached.value.1.written], reached.value.1.offset, reached.value.2)
  }

  lemma {:induction false} PacketUnfold(w: Write, flight: seq<OutMsg>, c: Cursor, left: nat)
    requires c.written < |flight|
    ensures var (w', offset', res) := SealNextMessage(w, flight[c.written], c.offset, left);
            var p := PacketFrom(w, flight, c, left);
            && (res.SealError? || res.NoProgress? ==> p == Packet(w', After(c, offset', res), [], res.SealError?))
            && (res.Partial? ==> p == Packet(w', After(c, offset', res), [res.rec], false))
            && (res.Success? && res.rec.wireLen <= left ==>
                  var q := PacketFrom(w', flight, After(c, offset', res), left - res.rec.wireLen);
                  p == Packet(q.w, q.cur, [res.rec] + q.recs, q.failed))
  {
    hide SealNextMessage;
  }

  lemma {:induction false} RefusedUnfold(w: Write, flight: seq<OutMsg>, c: Cursor, left: nat, n: nat)
    requires c.written < |flight|
    ensures RefusedAfter(w, flight, c, left, 0) <==> Refused(w, flight[c.written], c.offset, left)
    ensures var (w', offset', res) := SealNextMessage(w, flight[c.written], c.offset, left);
            && (res.Success? && res.rec.wireLen <= left ==>
                  (RefusedAfter(w, flight, c, left, n + 1)
                   <==> RefusedAfter(w', flight, After(c, offset', res), left - res.rec.wireLen, n)))
            && (!res.Success? ==> !RefusedAfter(w, flight, c, left, n + 1))
  {
    hide SealNextMessage, Refused;
  }

  lemma {:induction false} PacketAtEnd(w: Write, flight: seq<OutMsg>, c: Cursor, left: nat)
    requires c.written >= |flight|
    ensures PacketFrom(w, flight, c, left) == Packet(w, c, [], false)
  {
  }

  // The cursor moves exactly if something was sealed; after an error it is at the start of a message.
  lemma {:induction false} PacketMoves(w: Write, flight: seq<OutMsg>, c: Cursor, left: nat)
    requires w.Valid() && CursorValid(flight, c)
    ensures var p := PacketFrom(w, flight, c, left);
            && c.written <= p.cur.written
            && (if p.recs == [] then p.cur == c else c.Before(p.cur))
            && (p.failed && p.recs != [] ==> p.cur.written > c.written)
    decreases |flight| - c.written
  {
    hide SealNextMessage, CursorValid, Advance, PacketFrom, Write.Valid;
    if c.written >= |flight| {
      PacketAtEnd(w, flight, c, left);
    } else {
      SealNextAdvances(w, flight, c, left);
      PacketUnfold(w, flight, c, left);
      var (w', offset', res) := SealNextMessage(w, flight[c.written], c.offset, left);
      if res.Success? {
        PacketMoves(w', flight, After(c, offset', res), left - res.rec.wireLen);
      }
    }
  }

  lemma {:induction false} FailedIsRefused(w: Write, flight: seq<OutMsg>, c: Cursor, left: nat)
    requires w.Valid() && CursorValid(flight, c) && c.written < |flight| && PacketFrom(w, flight, c, left).failed
    ensures var n := PacketFrom(w, flight, c, left).cur.written - c.written;
            n >= 0 && RefusedAfter(w, flight, c, left, n)
    decreases |flight| - c.written
  {
    hide SealNextMessage, Refused, RefusedAfter, CursorValid, Advance, PacketFrom, Write.Valid;
    SealErrorExactly(w, flight[c.written], c.offset, left);
    SealNextAdvances(w, flight, c, left);
    PacketUnfold(w, flight, c, left);
    var n := PacketFrom(w, flight, c, left).cur.written - c.written;
    RefusedUnfold(w, flight, c, left, if n > 0 then n - 1 else 0);
    var (w', offset', res) := SealNextMessage(w, flight[c.written], c.offset, left);
    if res.Success? {
      var c', left' := After(c, offset', res), left - res.rec.wireLen;
      if c'.written < |flight| {
        FailedIsRefused(w', flight, c', left');
      } else {
        PacketAtEnd(w', flight, c', left');
      }
    }
  }

  lemma {:induction false} RefusedFails(w: Write, flight: seq<OutMsg>, c: Cursor, left: nat, n: nat)
    requires w.Valid() && CursorValid(flight, c) && RefusedAfter(w, flight, c, left, n)
    ensures var p := PacketFrom(w, flight, c, left);
            p.failed && p.cur.written == c.written + n && (p.recs == [] <==> n == 0)
    decreases n
  {
    hide SealNextMessage, Refused, RefusedAfter, CursorValid, Advance, PacketFrom, Write.Valid;
    RefusedInside(w, flight, c, left, n);
    SealErrorExactly(w, flight[c.written], c.offset, left);
    SealNextAdvances(w, flight, c, left);
    PacketUnfold(w, flight, c, left);
    RefusedUnfold(w, flight, c, left, if n > 0 then n - 1 else 0);
    var (w', offset', res) := SealNextMessage(w, flight[c.written], c.offset, left);
    if n > 0 {
      RefusedFails(w', flight, After(c, offset', res), left - res.rec.wireLen, n - 1);
    }
  }

  lemma {:induction false} RefusedInside(w: Write, flight: seq<OutMsg>, c: Cursor, left: nat, n: nat)
    requires RefusedAfter(w, flight, c, left, n)
    ensures c.written < |flight|
  {
  }

  // A packet fails exactly when some message it gets to is refused; the cursor is then left behind records that are
  // never written exactly when that message is not the first one.
  lemma {:induction false} PacketLosesExactly(w: Write, flight: seq<OutMsg>, c: Cursor, left: nat)
    requires w.Valid() && CursorValid(flight, c)
    ensures var p := PacketFrom(w, flight, c, left);
            && (p.failed <==> exists n: nat :: RefusedAfter(w, flight, c, left, n))
            && (p.failed && p.cur != c <==> exists n: nat :: n > 0 && RefusedAfter(w, flight, c, left, n))
  {
    hide RefusedAfter, PacketFrom, CursorValid;
    var p := PacketFrom(w, flight, c, left);
    PacketMoves(w, flight, c, left);
    if c.written >= |flight| {
      PacketAtEnd(w, flight, c, left);
    } else if p.failed {
      FailedIsRefused(w, flight, c, left);
    }
    if n: nat :| RefusedAfter(w, flight, c, left, n) {
      RefusedFails(w, flight, c, left, n);
    }
    if n: nat :| n > 0 && RefusedAfter(w, flight, c, left, n) {
      RefusedFails(w, flight, c, left, n);
    }
  }

  // Nothing is refused while every message has a cipher and is well-formed, and the counters last.
  lemma {:induction false} NothingRefused(w: Write, flight: seq<OutMsg>, c: Cursor, left: nat)
    requires w.Valid() && CursorValid(flight, c) && left < U16
    requires forall i | c.written <= i < |flight| :: Sealable(w, flight[i], 0)
    requires w.seqno + (|flight| - c.written) < SEQ48 && w.lastSeqno + (|flight| - c.written) < SEQ48
    ensures !PacketFrom(w, flight, c, left).failed
    decreases |flight| - c.written
  {
    hide PacketFrom, SealNextMessage, Advance, CursorValid, Refused, Sealable, Write.Valid;
    if c.written >= |flight| {
      PacketAtEnd(w, flight, c, left);
    } else {
      NoRefusal(w, flight, c, left);
      SealErrorExactly(w, flight[c.written], c.offset, left);
      SealNextAdvances(w, flight, c, left);
      PacketUnfold(w, flight, c, left);
      CountsOne(w, flight[c.written], c.offset, left);
      var (w', offset', res) := SealNextMessage(w, flight[c.written], c.offset, left);
      if res.Success? {
        assert After(c, offset', res).written == c.written + 1;
        forall i | c.written < i < |flight| ensures Sealable(w', flight[i], 0) { SameSealable(w, w', flight[i], 0); }
        NothingRefused(w', flight, After(c, offset', res), left - res.rec.wireLen);
      }
    }
  }

  lemma {:induction false} SameSealable(w: Write, w': Write, m: OutMsg, offset: nat)
    requires w' == w.(seqno := w'.seqno, lastSeqno := w'.lastSeqno)
    ensures Sealable(w', m, offset) <==> Sealable(w, m, offset)
  {
    hide ParseFragment;
  }

  lemma {:induction false} NoRefusal(w: Write, flight: seq<OutMsg>, c: Cursor, left: nat)
    requires w.Valid() && CursorValid(flight, c) && left < U16 && c.written < |flight|
    requires Sealable(w, flight[c.written], 0) && w.seqno + 1 < SEQ48 && w.lastSeqno + 1 < SEQ48
    ensures !Refused(w, flight[c.written], c.offset, left)
  {
    SealErrorExactly(w, flight[c.written], c.offset, left);
    hide SealNextMessage, Refused, ParseFragment;
  }

  lemma {:induction false} CountsOne(w: Write, m: OutMsg, offset: nat, maxOut: nat)
    requires w.Valid()
    ensures var w' := SealNextMessage(w, m, offset, maxOut).0;
            && w' == w.(seqno := w'.seqno, lastSeqno := w'.lastSeqno)
            && w'.seqno <= w.seqno + 1 && w'.lastSeqno <= w.lastSeqno + 1
    ensures var (_, offset', res) := SealNextMessage(w, m, offset, maxOut); res.Success? && !m.isCcs ==> offset' == 0
    ensures var (_, offset', res) := SealNextMessage(w, m, offset, maxOut); m.isCcs ==> offset' == offset
  {
    hide ParseFragment, Fragment;
  }

  // At most this many records are still needed from message i on: each one finishes a message or carries a byte.
  function NeededFrom(flight: seq<OutMsg>, i: nat): nat
    decreases |flight| - i
  {
    if i >= |flight| then 0
    else 1 + LeftOf(flight, Cursor(i, 0)) + NeededFrom(flight, i + 1)
  }

  function Needed(flight: seq<OutMsg>, c: Cursor): int {
    NeededFrom(flight, c.written) - c.offset
  }

  // What makes sure, before a flight is sent, that every packet of it can be sealed: packets below 64 KB, for every
  // message a cipher and room for one byte, and record numbers for every piece.
  predicate Enough(w: Write, flight: seq<OutMsg>, c: Cursor, mtu: nat) {
    && mtu < U16
    && (forall i | c.written <= i < |flight| :: Sealable(w, flight[i], 0) && Space(w, flight[i]) <= mtu)
    && w.seqno + Needed(flight, c) < SEQ48 && w.lastSeqno + Needed(flight, c) < SEQ48
  }

  // Only the counters of the two epochs change, and no faster than the flight goes on.
  ghost predicate Counts(flight: seq<OutMsg>, w: Write, c: Cursor, w': Write, c': Cursor) {
    && w' == w.(seqno := w'.seqno, lastSeqno := w'.lastSeqno)
    && w'.seqno + Needed(flight, c') <= w.seqno + Needed(flight, c)
    && w'.lastSeqno + Needed(flight, c') <= w.lastSeqno + Needed(flight, c)
  }

  lemma {:induction false} SealCounts(w: Write, flight: seq<OutMsg>, c: Cursor, maxOut: nat)
    requires w.Valid() && CursorValid(flight, c) && c.written < |flight|
    ensures var (w', offset', res) := SealNextMessage(w, flight[c.written], c.offset, maxOut);
            res.Partial? || res.Success? ==> Counts(flight, w, c, w', After(c, offset', res))
  {
    hide SealNextMessage, Advance, Needed, ParseFragment;
    SealNextAdvances(w, flight, c, maxOut);
    CountsOne(w, flight[c.written], c.offset, maxOut);
    var (w', offset', res) := SealNextMessage(w, flight[c.written], c.offset, maxOut);
    if res.Partial? || res.Success? { NeededDrops(flight, c, After(c, offset', res)); }
  }

  lemma {:induction false} NeededDrops(flight: seq<OutMsg>, c: Cursor, c': Cursor)
    requires CursorValid(flight, c) && CursorValid(flight, c') && c.written < |flight| && c.Before(c')
    requires c'.written == c.written || c' == Cursor(c.written + 1, 0)
    ensures Needed(flight, c') < Needed(flight, c)
  {
    hide ParseFragment;
  }

  lemma {:induction false} NeededPositive(flight: seq<OutMsg>, c: Cursor)
    requires CursorValid(flight, c) && c.written < |flight|
    ensures Needed(flight, c) > NeededFrom(flight, c.written + 1)
  {
    hide ParseFragment;
  }

  // The further the cursor, the fewer records are needed.
  lemma {:induction false} NeededFalls(flight: seq<OutMsg>, c: Cursor, c': Cursor)
    requires CursorValid(flight, c) && CursorValid(flight, c') && c.Before(c')
    ensures Needed(flight, c') < Needed(flight, c)
  {
    hide CursorValid, NeededFrom;
    if c.written < c'.written {
      CursorInside(flight, c, c');
      NeededPositive(flight, c);
      NeededFromFalls(flight, c.written + 1, c'.written);
    }
  }

  lemma {:induction false} CursorInside(flight: seq<OutMsg>, c: Cursor, c': Cursor)
    requires CursorValid(flight, c) && CursorValid(flight, c') && c.written < c'.written
    ensures c.written < |flight| && c'.written <= |flight|
  {
  }

  lemma {:induction false} NeededFromFalls(flight: seq<OutMsg>, i: nat, j: nat)
    requires i <= j <= |flight|
    ensures NeededFrom(flight, j) <= NeededFrom(flight, i)
    decreases j - i
  {
    hide LeftOf;
    if i < j { NeededFromFalls(flight, i + 1, j); }
  }

  lemma {:induction false} EnoughCounts(w: Write, flight: seq<OutMsg>, c: Cursor, w': Write, c': Cursor, mtu: nat)
    requires Enough(w, flight, c, mtu) && Counts(flight, w, c, w', c') && c.written <= c'.written
    ensures Enough(w', flight, c', mtu)
  {
    hide OutMsg.WellFormed, OutMsg.Body, Needed;
    forall i | c'.written <= i < |flight| ensures Sealable(w', flight[i], 0) && Space(w', flight[i]) <= mtu {
      assert Sealable(w, flight[i], 0);
    }
  }

  lemma {:induction false} EnoughForPacket(w: Write, flight: seq<OutMsg>, c: Cursor, left: nat, mtu: nat)
    requires w.Valid() && CursorValid(flight, c) && left <= mtu && Enough(w, flight, c, mtu)
    ensures var p := PacketFrom(w, flight, c, left);
            && !p.failed && Enough(p.w, flight, p.cur, mtu)
            && (c.written < |flight| && left == mtu ==> p.recs != [])
    decreases |flight| - c.written
  {
    hide PacketFrom, SealNextMessage, Advance, CursorValid, Refused, Counts, Enough, Write.Valid;
    if c.written >= |flight| {
      PacketAtEnd(w, flight, c, left);
    } else {
      NotRefused(w, flight, c, left, mtu);
      SealErrorExactly(w, flight[c.written], c.offset, left);
      SealNextAdvances(w, flight, c, left);
      SealCounts(w, flight, c, left);
      PacketUnfold(w, flight, c, left);
      var (w', offset', res) := SealNextMessage(w, flight[c.written], c.offset, left);
      NoProgressStays(w, flight[c.written], c.offset, left);
      if res.Partial? || res.Success? {
        EnoughCounts(w, flight, c, w', After(c, offset', res), mtu);
      }
      if res.Success? {
        EnoughForPacket(w', flight, After(c, offset', res), left - res.rec.wireLen, mtu);
      }
    }
  }

  lemma {:induction false} NotRefused(w: Write, flight: seq<OutMsg>, c: Cursor, left: nat, mtu: nat)
    requires w.Valid() && CursorValid(flight, c) && left <= mtu && Enough(w, flight, c, mtu) && c.written < |flight|
    ensures !Refused(w, flight[c.written], c.offset, left)
    ensures left == mtu ==> Space(w, flight[c.written]) <= left
  {
    SealErrorExactly(w, flight[c.written], c.offset, left);
    hide SealNextMessage, Refused, ParseFragment;
    assert Sealable(w, flight[c.written], 0) && Needed(flight, c) >= 1;
  }

  lemma {:induction false} NoProgressStays(w: Write, m: OutMsg, offset: nat, maxOut: nat)
    ensures var (w', offset', res) := SealNextMessage(w, m, offset, maxOut);
            res.NoProgress? ==> w' == w && offset' == offset
  {
    hide ParseFragment, Fragment, Sealed;
  }

  const NullAead := Aead(0, 0, _ => 0)

  // Two ChangeCipherSpecs in the clear and one record number left: the first is sealed, the second is refused, and the
  // cursor stays behind the first although nothing was written.
  lemma {:induction false} RecordLost()
    ensures var flight := [OutMsg([], 0, true), OutMsg([], 0, true)];
            var p := PacketFrom(Write(0, SEQ48 - 2, 0, NullAead, NullAead), flight, Start, DEFAULT_MTU);
            p.failed && p.cur == Cursor(1, 0)
  {
    var flight := [OutMsg([], 0, true), OutMsg([], 0, true)];
    var w := Write(0, SEQ48 - 2, 0, NullAead, NullAead);
    var (w1, _, res) := SealNextMessage(w, flight[0], 0, DEFAULT_MTU);
    assert res.Success? && w1 == w.(seqno := SEQ48 - 1) && res.rec.wireLen == 14;
    var (w2, _, res2) := SealNextMessage(w1, flight[1], 0, DEFAULT_MTU - 14);
    assert res2.SealError?;
    hide SealNextMessage;
    assert PacketFrom(w1, flight, Cursor(1, 0), DEFAULT_MTU - 14) == Packet(w2, Cursor(1, 0), [], true);
  }

  function WireLen(recs: seq<Record>): nat {
    if recs == [] then 0 else WireLen(recs[..|recs| - 1]) + recs[|recs| - 1].wireLen
  }

  lemma {:induction false} WireLenSnoc(recs: seq<Record>, r: Record)
    ensures WireLen(recs + [r]) == WireLen(recs) + r.wireLen
  {
    assert (recs + [r])[..|recs|] == recs;
  }

  lemma {:induction false} WireLenCons(r: Record, recs: seq<Record>)
    ensures WireLen([r] + recs) == r.wireLen + WireLen(recs)
    decreases |recs|
  {
    if recs == [] {
      assert [r][..0] == [];
    } else {
      WireLenCons(r, recs[..|recs| - 1]);
      assert ([r] + recs)[..|recs|] == [r] + recs[..|recs| - 1];
    }
  }

  // A packet with room for left bytes ends only with the flight, without room for the next message, or filled up by a
  // fragment that takes all the space left.
  ghost predicate Full(w: Write, flight: seq<OutMsg>, c: Cursor, recs: seq<Record>, left: nat) {
    || c.written >= |flight|
    || Space(w, flight[c.written]) > left - WireLen(recs)
    || (recs != [] &&
        var last := recs[|recs| - 1];
        |last.payload| + w.AeadFor(UsesPrevious(w, flight[c.written])).MaxOverhead()
          == left - WireLen(recs[..|recs| - 1]))
  }

  lemma {:induction false} FullCons(w: Write, flight: seq<OutMsg>, c: Cursor, r: Record, recs: seq<Record>, left: nat)
    requires r.wireLen <= left && Full(w, flight, c, recs, left - r.wireLen)
    ensures Full(w, flight, c, [r] + recs, left)
  {
    hide Space, WireLen;
    WireLenCons(r, recs);
    if recs != [] {
      WireLenCons(r, recs[..|recs| - 1]);
      assert ([r] + recs)[..|recs|] == [r] + recs[..|recs| - 1];
    }
  }

  lemma {:induction false} PacketIsFull(w: Write, flight: seq<OutMsg>, c: Cursor, left: nat)
    requires w.Valid() && CursorValid(flight, c)
    ensures var p := PacketFrom(w, flight, c, left); !p.failed ==> Full(p.w, flight, p.cur, p.recs, left)
    decreases |flight| - c.written
  {
    hide PacketFrom, SealNextMessage, Advance, CursorValid, Refused, Space, Write.Valid, Full, Sealable;
    if c.written >= |flight| {
      PacketAtEnd(w, flight, c, left);
      FullAtEnd(w, flight, c, left);
    } else {
      var m := flight[c.written];
      SealErrorExactly(w, m, c.offset, left);
      SealNextAdvances(w, flight, c, left);
      NoProgressStays(w, m, c.offset, left);
      PacketUnfold(w, flight, c, left);
      CountsOne(w, m, c.offset, left);
      PartialFills(w, m, c.offset, left);
      var (w', offset', res) := SealNextMessage(w, m, c.offset, left);
      if res.NoProgress? { FullNoRoom(w, flight, After(c, offset', res), left); }
      if res.Partial? { FullPartial(w', flight, After(c, offset', res), res.rec, left); }
      if res.Success? {
        var next := After(c, offset', res);
        PacketIsFull(w', flight, next, left - res.rec.wireLen);
        var q := PacketFrom(w', flight, next, left - res.rec.wireLen);
        if !q.failed { FullCons(q.w, flight, q.cur, res.rec, q.recs, left); }
      }
    }
  }

  lemma {:induction false} PartialFills(w: Write, m: OutMsg, offset: nat, left: nat)
    requires w.Valid()
    ensures var (w', _, res) := SealNextMessage(w, m, offset, left);
            res.Partial? ==> |res.rec.payload| + w'.AeadFor(UsesPrevious(w', m)).MaxOverhead() == left
  {
    CountsOne(w, m, offset, left);
    if !m.isCcs {
      FragmentFills(w, m, offset, left);
      hide SealNextMessage;
    }
  }

  lemma {:induction false} FullAtEnd(w: Write, flight: seq<OutMsg>, c: Cursor, left: nat)
    requires c.written >= |flight|
    ensures Full(w, flight, c, [], left)
  {
  }

  lemma {:induction false} FullNoRoom(w: Write, flight: seq<OutMsg>, c: Cursor, left: nat)
    requires c.written < |flight| && left < Space(w, flight[c.written])
    ensures Full(w, flight, c, [], left)
  {
    hide Space;
  }

  lemma {:induction false} FullPartial(w: Write, flight: seq<OutMsg>, c: Cursor, r: Record, left: nat)
    requires c.written < |flight|
    requires |r.payload| + w.AeadFor(UsesPrevious(w, flight[c.written])).MaxOverhead() == left
    ensures Full(w, flight, c, [r], left)
  {
    hide Space;
    assert [r][..0] == [];
  }

  function Flat(packets: seq<seq<Record>>): seq<Record> {
    if packets == [] then [] else Flat(packets[..|packets| - 1]) + packets[|packets| - 1]
  }

  lemma {:induction false} FlatSnoc(packets: seq<seq<Record>>, p: seq<Record>)
    ensures Flat(packets + [p]) == Flat(packets) + p
  {
    assert (packets + [p])[..|packets|] == packets;
  }

  // r carries the piece [off, off + len) of message i, or the ChangeCipherSpec at position i.
  ghost predicate IsPiece(flight: seq<OutMsg>, r: Record, i: nat, off: nat, len: nat) {
    i < |flight| && r.epoch == flight[i].epoch &&
    if flight[i].isCcs then r.ctype == CtChangeCipherSpec && r.payload == CCS_PAYLOAD
    else
      && flight[i].WellFormed() && off + len <= |flight[i].Body()|
      && r.ctype == CtHandshake && r.payload == Fragment(flight[i], off, len)
  }

  ghost predicate Genuine(flight: seq<OutMsg>, r: Record) {
    exists i, off, len :: IsPiece(flight, r, i, off, len)
  }

  // A record of a flight belongs to every longer list of messages that contains the flight.
  lemma {:induction false} GenuineMore(before: seq<OutMsg>, flight: seq<OutMsg>, after: seq<OutMsg>, r: Record)
    requires Genuine(flight, r)
    ensures Genuine(before + flight + after, r)
  {
    var i: nat, off: nat, len: nat :| IsPiece(flight, r, i, off, len);
    hide Fragment, OutMsg.WellFormed;
    assert IsPiece(before + flight + after, r, |before| + i, off, len);
  }

  lemma {:induction false} AdvanceGenuine(flight: seq<OutMsg>, c: Cursor, r: Record)
    requires CursorValid(flight, c) && Advance(flight, c, r).Some?
    ensures Genuine(flight, r)
  {
    hide ParseFragment, HeaderBytes;
    var len := if flight[c.written].isCcs then 0 else |r.payload| - HEADER_LENGTH;
    assert IsPiece(flight, r, c.written, c.offset, len);
  }

  lemma {:induction false} ReplayGenuine(flight: seq<OutMsg>, start: Cursor, recs: seq<Record>)
    requires CursorValid(flight, start) && Replay(flight, start, recs).Some?
    ensures forall r | r in recs :: Genuine(flight, r)
    decreases |recs|
  {
    if recs != [] {
      var n := |recs| - 1;
      ReplayGenuine(flight, start, recs[..n]);
      AdvanceGenuine(flight, Replay(flight, start, recs[..n]).value, recs[n]);
      hide Genuine, Advance, CursorValid;
      assert recs == recs[..n] + [recs[n]];
    }
  }

  // The next result of a transport, and the script after it.
  function NextResult(script: seq<int>): int {
    if script == [] then -1 else script[0]
  }

  function AfterResult(script: seq<int>): seq<int> {
    if script == [] then [] else script[1..]
  }

  // The transport accepts the next n packets.
  ghost predicate Accepts(script: seq<int>, n: int) {
    n <= |script| && forall i | 0 <= i < n :: script[i] > 0
  }

  lemma {:induction false} AcceptsNext(script: seq<int>, n: int, n': int)
    requires Accepts(script, n) && n' < n && n > 0
    ensures NextResult(script) > 0 && Accepts(AfterResult(script), n')
  {
  }

  /** The datagram transport: its script is the sequence of BIO_write results, -1 once it is exhausted. */
  class Bio {
    var script: seq<int>
    var packets: seq<seq<Record>>

    constructor (script: seq<int>)
      ensures this.script == script && packets == []
    {
      this.script, packets := script, [];
    }

    // Every record the transport has accepted.
    function Accepted(): seq<Record>
      reads this
    {
      Flat(packets)
    }

    method Write(packet: seq<Record>) returns (ret: int)
      modifies this
      ensures Accepted() == if ret > 0 then old(Accepted()) + packet else old(Accepted())
      ensures packets == if ret > 0 then old(packets) + [packet] else old(packets)
      ensures ret == NextResult(old(script)) && script == AfterResult(old(script))
    {
      ret := -1;
      if |script| > 0 {
        ret, script := script[0], script[1..];
      }
      if ret > 0 {
        FlatSnoc(packets, packet);
        packets := packets + [packet];
      }
    }
  }

  // The same records were added to what the transport has accepted, to the pass and to the flight's history.
  ghost predicate Added(accepted: seq<Record>, accepted': seq<Record>, pass: seq<Record>, pass': seq<Record>,
                        sent: seq<Record>, sent': seq<Record>, added: seq<Record>) {
    accepted' == accepted + added && pass' == pass + added && sent' == sent + added
  }

  lemma {:induction false} StartValid(flight: seq<OutMsg>)
    ensures CursorValid(flight, Start)
  {
  }

  lemma {:induction false} Extend(past: seq<OutMsg>, flight: seq<OutMsg>, c: Cursor, c': Cursor, pass: seq<Record>,
                                  packet: seq<Record>, skipped: bool)
    requires CursorValid(flight, c) && Replay(flight, c, packet) == Some(c')
    requires CursorValid(flight, Start) && (!skipped ==> Replay(flight, Start, pass) == Some(c))
    ensures !skipped ==> Replay(flight, Start, pass + packet) == Some(c')
    ensures forall r | r in packet :: Genuine(past + flight, r)
  {
    hide Genuine, Advance, CursorValid;
    ReplayGenuine(flight, c, packet);
    forall r | r in packet ensures Genuine(past + flight, r) {
      GenuineMore(past, flight, [], r);
      assert past + flight + [] == past + flight;
    }
    if !skipped { ReplayConcat(flight, Start, pass, packet); }
  }

  ghost function IdOf(r: Record): (nat, nat) {
    (r.epoch, r.number)
  }

  ghost predicate DistinctIds(recs: seq<Record>) {
    forall i, j | 0 <= i < j < |recs| :: IdOf(recs[i]) != IdOf(recs[j])
  }

  // The records bear different numbers, none of which was in use before.
  ghost predicate NewIds(recs: seq<Record>, used: set<(nat, nat)>, used': set<(nat, nat)>) {
    used <= used' && DistinctIds(recs) && forall r | r in recs :: IdOf(r) in used' && IdOf(r) !in used
  }

  lemma {:induction false} NewIdsSnoc(recs: seq<Record>, r: Record, used: set<(nat, nat)>, used1: set<(nat, nat)>)
    requires NewIds(recs, used, used1) && IdOf(r) !in used1
    ensures NewIds(recs + [r], used, used1 + {IdOf(r)})
  {
    forall i, j | 0 <= i < j < |recs + [r]| ensures IdOf((recs + [r])[i]) != IdOf((recs + [r])[j]) {
      assert recs[i] in recs;
    }
  }

  // Records of a new packet are not taken for records sent before.
  lemma {:induction false} JoinIds(sent: seq<Record>, packet: seq<Record>, used: set<(nat, nat)>,
                                   used': set<(nat, nat)>)
    requires DistinctIds(sent) && (forall r | r in sent :: IdOf(r) in used) && NewIds(packet, used, used')
    ensures DistinctIds(sent + packet) && forall r | r in sent + packet :: IdOf(r) in used'
  {
    var all := sent + packet;
    forall i, j | 0 <= i < j < |all| ensures IdOf(all[i]) != IdOf(all[j]) {
      if i < |sent| { assert sent[i] in sent; }
      if j >= |sent| { assert packet[j - |sent|] in packet; }
    }
  }

  ghost function Joined(recs: seq<Record>, p: Packet): Packet {
    p.(recs := recs + p.recs)
  }

  // A whole message was sealed into the packet.
  lemma {:induction false} PacketStep(w: Write, flight: seq<OutMsg>, c: Cursor, left: nat, recs: seq<Record>)
    requires w.Valid() && CursorValid(flight, c) && c.written < |flight|
    requires SealNextMessage(w, flight[c.written], c.offset, left).2.Success?
    ensures var (w', offset', res) := SealNextMessage(w, flight[c.written], c.offset, left);
            && res.rec.wireLen <= left
            && Joined(recs, PacketFrom(w, flight, c, left))
            == Joined(recs + [res.rec], PacketFrom(w', flight, After(c, offset', res), left - res.rec.wireLen))
  {
    hide SealNextMessage, Advance, CursorValid, PacketFrom, Write.Valid;
    SealNextAdvances(w, flight, c, left);
    PacketUnfold(w, flight, c, left);
    var (w', offset', res) := SealNextMessage(w, flight[c.written], c.offset, left);
    var more := PacketFrom(w', flight, After(c, offset', res), left - res.rec.wireLen).recs;
    assert recs + ([res.rec] + more) == (recs + [res.rec]) + more;
  }

  // The packet ends here: with an error, with a part of a message or for lack of room.
  lemma {:induction false} PacketStops(w: Write, flight: seq<OutMsg>, c: Cursor, left: nat, recs: seq<Record>)
    requires c.written < |flight| && !SealNextMessage(w, flight[c.written], c.offset, left).2.Success?
    ensures var (w', offset', res) := SealNextMessage(w, flight[c.written], c.offset, left);
            var all := if res.Partial? then recs + [res.rec] else recs;
            var p := Packet(w', After(c, offset', res), all, res.SealError?);
            Joined(recs, PacketFrom(w, flight, c, left)) == p
  {
    hide SealNextMessage;
    assert recs + [] == recs;
  }

  lemma {:induction false} PacketEnds(w: Write, flight: seq<OutMsg>, c: Cursor, left: nat, recs: seq<Record>)
    requires c.written >= |flight|
    ensures Joined(recs, PacketFrom(w, flight, c, left)) == Packet(w, c, recs, false)
  {
    assert recs + [] == recs;
  }

  lemma {:induction false} NothingYet(p: Packet, used: set<(nat, nat)>)
    ensures Joined([], p) == p && NewIds([], used, used)
  {
    assert [] + p.recs == p.recs;
  }

  // The state of seal_next_packet between two messages.
  datatype Packing = Packing(w: Write, used: set<(nat, nat)>, wrapped: bool, cur: Cursor, recs: seq<Record>, left: nat)

  // From start to p: p.recs are exactly the records between the two cursors, fit what was left and bear new numbers.
  ghost predicate Packs(flight: seq<OutMsg>, start: Packing, p: Packing) {
    && p.w.Valid() && p.w.epoch == start.w.epoch
    && CursorValid(flight, start.cur) && CursorValid(flight, p.cur)
    && WireLen(p.recs) + p.left == start.left
    && Replay(flight, start.cur, p.recs) == Some(p.cur)
    && (if p.recs == [] then p.cur == start.cur else start.cur.Before(p.cur))
    && (start.wrapped ==> p.wrapped)
    && (!p.wrapped ==> NewIds(p.recs, start.used, p.used))
    && (forall r | r in p.recs :: r.number < SEQ48)
  }

  // One more record in the packet.
  ghost function Grown(p: Packing, w: Write, used: set<(nat, nat)>, wrapped: bool, offset: nat,
                       res: SealResult): Packing
  {
    if (res.Partial? || res.Success?) && res.rec.wireLen <= p.left
    then Packing(w, used, wrapped, After(p.cur, offset, res), p.recs + [res.rec], p.left - res.rec.wireLen)
    else Packing(w, used, wrapped, p.cur, p.recs, p.left)
  }

  lemma {:induction false} SealPacks(flight: seq<OutMsg>, start: Packing, p: Packing, w: Write, used: set<(nat, nat)>,
                                     wrapped: bool, offset: nat, res: SealResult)
    requires Packs(flight, start, p) && p.cur.written < |flight|
    requires (w, offset, res) == SealNextMessage(p.w, flight[p.cur.written], p.cur.offset, p.left)
    requires p.wrapped ==> wrapped
    requires used == if res.Partial? || res.Success? then p.used + {IdOf(res.rec)} else p.used
    requires res.Partial? || res.Success? ==> res.rec.number < SEQ48 && (!wrapped ==> IdOf(res.rec) !in p.used)
    ensures Packs(flight, start, Grown(p, w, used, wrapped, offset, res))
    ensures res.Partial? || res.Success? ==> res.rec.wireLen <= p.left && p.cur.Before(After(p.cur, offset, res))
    ensures res.SealError? || res.NoProgress? ==> offset == p.cur.offset
  {
    SealNextAdvances(p.w, flight, p.cur, p.left);
    hide SealNextMessage, Advance, CursorValid, NewIds, IdOf;
    if res.Partial? || res.Success? {
      ReplaySnoc(flight, start.cur, p.recs, res.rec);
      WireLenSnoc(p.recs, res.rec);
      if !wrapped { NewIdsSnoc(p.recs, res.rec, start.used, p.used); }
    }
  }

  lemma {:induction false} NothingPacked(flight: seq<OutMsg>, start: Packing)
    requires start.w.Valid() && CursorValid(flight, start.cur) && start.recs == []
    ensures Packs(flight, start, start)
  {
  }

  lemma {:induction false} CursorPacks(flight: seq<OutMsg>, start: Packing, p: Packing)
    requires Packs(flight, start, p)
    ensures CursorValid(flight, p.cur) && p.w.Valid()
  {
  }

  lemma {:induction false} PacksMeans(flight: seq<OutMsg>, start: Packing, p: Packing)
    requires Packs(flight, start, p)
    ensures CursorValid(flight, start.cur) && CursorValid(flight, p.cur) && p.w.epoch == start.w.epoch
    ensures WireLen(p.recs) <= start.left && Replay(flight, start.cur, p.recs) == Some(p.cur)
    ensures if p.recs == [] then p.cur == start.cur else start.cur.Before(p.cur)
    ensures start.wrapped ==> p.wrapped
    ensures !p.wrapped ==> NewIds(p.recs, start.used, p.used)
    ensures forall r | r in p.recs :: r.number < SEQ48
  {
  }

  lemma {:induction false} GrownIs(p: Packing, w: Write, used: set<(nat, nat)>, wrapped: bool, offset: nat,
                                   res: SealResult)
    ensures (res.Partial? || res.Success?) && res.rec.wireLen <= p.left ==>
      Grown(p, w, used, wrapped, offset, res)
      == Packing(w, used, wrapped, After(p.cur, offset, res), p.recs + [res.rec], p.left - res.rec.wireLen)
    ensures res.SealError? || res.NoProgress? ==>
      Grown(p, w, used, wrapped, offset, res) == Packing(w, used, wrapped, p.cur, p.recs, p.left)
  {
  }

  /** The sending half of DTLS1_STATE. */
  class Sender {
    var outgoing: seq<OutMsg>
    var outgoingWritten: nat
    var outgoingOffset: nat
    var outgoingComplete: bool
    var handshakeWriteSeq: nat
    var mtu: nat
    const writer: Writer
    const bio: Bio
    // Messages of the flights before this one; records the transport has accepted since the last rewind, and ever.
    ghost var past: seq<OutMsg>
    ghost var pass: seq<Record>
    ghost var sent: seq<Record>
    // A sealing error has dropped records that the cursor had already passed.
    ghost var skipped: bool

    ghost predicate Valid()
      reads this, writer
    {
      writer.Valid() && ValidAt(Cur(), writer.used, writer.wrapped)
    }

    // What holds when the cursor is at c and the numbers in used have been given out.
    ghost predicate ValidAt(c: Cursor, used: set<(nat, nat)>, wrapped: bool)
      reads this
    {
      && |outgoing| <= FLIGHT && handshakeWriteSeq < U16
      && CursorValid(outgoing, c)
      && (!outgoingComplete ==> c == Start && pass == [])
      && (!skipped ==> CursorValid(outgoing, Start) && Replay(outgoing, Start, pass) == Some(c))
      && (forall r | r in sent :: Genuine(past + outgoing, r) && r.number < SEQ48)
      && (forall r | r in pass :: r in sent)
      && (!wrapped ==> DistinctIds(sent) && forall r | r in sent :: IdOf(r) in used)
    }

    function Cur(): Cursor
      reads this
    {
      Cursor(outgoingWritten, outgoingOffset)
    }

    constructor (writer: Writer, bio: Bio)
      requires writer.Valid()
      ensures Valid() && outgoing == [] && this.writer == writer && this.bio == bio && !skipped
    {
      outgoing, outgoingWritten, outgoingOffset, outgoingComplete := [], 0, 0, false;
      handshakeWriteSeq, mtu := 0, 0;
      this.writer, this.bio := writer, bio;
      past, pass, sent, skipped := [], [], [], false;
    }

    // dtls_clear_outgoing_messages.
    method ClearOutgoing()
      requires Valid()
      modifies `outgoing, `outgoingWritten, `outgoingOffset, `outgoingComplete, `past, `pass, `skipped
      ensures Valid() && outgoing == [] && !outgoingComplete && !skipped && Cur() == Start
      ensures past == old(past + outgoing)
    {
      hide Genuine;
      past := past + outgoing;
      outgoing, outgoingWritten, outgoingOffset, outgoingComplete := [], 0, 0, false;
      pass, skipped := [], false;
      assert past + outgoing == past;
    }

    // add_outgoing; transcriptOk says that the handshake message could be added to the transcript.
    method AddOutgoing(isCcs: bool, data: seq<Byte>, transcriptOk: bool) returns (ok: bool)
      requires Valid()
      modifies `outgoing, `outgoingWritten, `outgoingOffset, `outgoingComplete, `handshakeWriteSeq
      modifies `past, `pass, `skipped
      ensures Valid() && !outgoingComplete && Cur() == Start
      ensures var flight := if old(outgoingComplete) then [] else old(outgoing);
              && (ok <==> |flight| < FLIGHT && |data| < U32 && (isCcs || transcriptOk))
              && outgoing == if ok then flight + [OutMsg(data, writer.w.epoch, isCcs)] else flight
      ensures past == (if old(outgoingComplete) then old(past + outgoing) else old(past))
      ensures handshakeWriteSeq == if ok && !isCcs then (old(handshakeWriteSeq) + 1) % U16 else old(handshakeWriteSeq)
    {
      hide Genuine, DistinctIds, IdOf;
      if outgoingComplete {
        ClearOutgoing();
      }
      if |outgoing| >= FLIGHT || |data| >= U32 {
        return false;
      }
      if !isCcs {
        if !transcriptOk {
          return false;
        }
        handshakeWriteSeq := (handshakeWriteSeq + 1) % U16;
      }
      ghost var before := past + outgoing;
      outgoing := outgoing + [OutMsg(data, writer.w.epoch, isCcs)];
      skipped := false;
      assert past + outgoing == [] + before + [OutMsg(data, writer.w.epoch, isCcs)];
      forall r | r in sent ensures Genuine(past + outgoing, r) {
        GenuineMore([], before, [OutMsg(data, writer.w.epoch, isCcs)], r);
      }
      return true;
    }

    // dtls1_set_write_state between two messages of a flight: what was sent stays identified by its numbers.
    method SetWriteState(aead: Aead)
      requires Valid() && aead.Valid()
      modifies writer
      ensures Valid() && writer.used == old(writer.used)
      ensures writer.w == Write((old(writer.w).epoch + 1) % U16, 0, old(writer.w).seqno, aead, old(writer.w).aead)
    {
      hide Advance, CursorValid, Genuine, Replay;
      writer.SetWriteState(aead);
    }

    // seal_next_message, for the message under the cursor.
    method SealNext(maxOut: nat) returns (res: SealResult)
      requires CursorValid(outgoing, Cur()) && writer.Valid() && outgoingWritten < |outgoing|
      modifies this`outgoingOffset, writer
      ensures writer.Valid()
      ensures (writer.w, outgoingOffset, res)
           == SealNextMessage(old(writer.w), outgoing[outgoingWritten], old(outgoingOffset), maxOut)
      ensures old(writer.wrapped) ==> writer.wrapped
      ensures writer.used
           == if res.Partial? || res.Success? then old(writer.used) + {IdOf(res.rec)} else old(writer.used)
      ensures res.Partial? || res.Success? ==>
        res.rec.number < SEQ48 && (!writer.wrapped ==> IdOf(res.rec) !in old(writer.used))
    {
      hide ParseFragment, Fragment;
      var m := outgoing[outgoingWritten];
      var prev := writer.w.epoch >= 1 && m.epoch == writer.w.epoch - 1;
      if !prev && m.epoch != writer.w.epoch {
        return SealError;
      }
      var aead := writer.w.AeadFor(prev);
      var overhead, prefix := aead.MaxOverhead(), aead.PrefixLen();
      if m.isCcs {
        if maxOut < 1 + overhead {
          return NoProgress;
        }
        var rec := writer.SealRecord(prev, CtChangeCipherSpec, CCS_PAYLOAD, maxOut);
        return if rec.None? then SealError else Success(rec.value);
      }
      if !m.WellFormed() || outgoingOffset > |m.Body()| {
        return SealError;
      }
      if maxOut < HEADER_LENGTH + 1 + overhead || maxOut < prefix {
        return NoProgress;
      }
      var left := |m.Body()| - outgoingOffset;
      var todo := left;
      if todo > maxOut - HEADER_LENGTH - overhead {
        todo := maxOut - HEADER_LENGTH - overhead;
      }
      var rec := writer.SealRecord(prev, CtHandshake, Fragment(m, outgoingOffset, todo), maxOut);
      if rec.None? {
        return SealError;
      }
      if todo == left {
        outgoingOffset := 0;
        return Success(rec.value);
      }
      outgoingOffset := outgoingOffset + todo;
      return Partial(rec.value);
    }

    // seal_next_packet. On an error the cursor may have moved past records that are then lost.
    method SealNextPacket(maxOut: nat) returns (ok: bool, packet: seq<Record>)
      requires CursorValid(outgoing, Cur()) && writer.Valid() && outgoingWritten < |outgoing|
      modifies this`outgoingWritten, this`outgoingOffset, writer
      ensures CursorValid(outgoing, Cur()) && writer.Valid() && writer.w.epoch == old(writer.w.epoch)
      ensures var p := PacketFrom(old(writer.w), outgoing, old(Cur()), maxOut);
              && (writer.w, Cur(), packet) == (p.w, p.cur, p.recs)
              && (ok <==> packet != [] && !p.failed)
      ensures WireLen(packet) <= maxOut && Replay(outgoing, old(Cur()), packet) == Some(Cur())
      ensures if packet == [] then Cur() == old(Cur()) else old(Cur()).Before(Cur())
      // No record number is used twice.
      ensures old(writer.wrapped) ==> writer.wrapped
      ensures !writer.wrapped ==> NewIds(packet, old(writer.used), writer.used)
      ensures forall r | r in packet :: r.number < SEQ48
    {
      hide SealNextMessage, Advance, CursorValid, NewIds, IdOf, Joined, PacketFrom, Packs, Grown, Write.Valid;
      hide WireLen, Replay;
      var left: nat := maxOut;
      packet := [];
      var full := false;
      ghost var all, start := PacketFrom(writer.w, outgoing, Cur(), maxOut), Now([], maxOut);
      NothingYet(all, writer.used);
      NothingPacked(outgoing, start);
      while outgoingWritten < |outgoing| && !full
        invariant Packs(outgoing, start, Now(packet, left)) && writer.Valid()
        invariant all == if full then Packet(writer.w, Cur(), packet, false)
                         else Joined(packet, PacketFrom(writer.w, outgoing, Cur(), left))
        decreases |outgoing| - outgoingWritten, !full
      {
        ghost var p := Now(packet, left);
        CursorPacks(outgoing, start, p);
        var res := SealNext(left);
        SealPacks(outgoing, start, p, writer.w, writer.used, writer.wrapped, outgoingOffset, res);
        GrownIs(p, writer.w, writer.used, writer.wrapped, outgoingOffset, res);
        if res.Success? {
          PacketStep(p.w, outgoing, p.cur, left, packet);
        } else {
          PacketStops(p.w, outgoing, p.cur, left, packet);
        }
        match res
        case SealError =>
          PacksMeans(outgoing, start, Now(packet, left));
          return false, packet;
        case NoProgress => full := true;
        case Partial(rec) =>
          packet, left, full := packet + [rec], left - rec.wireLen, true;
        case Success(rec) =>
          packet, left := packet + [rec], left - rec.wireLen;
          outgoingWritten := outgoingWritten + 1;
      }
      if !full { PacketEnds(writer.w, outgoing, Cur(), left, packet); }
      PacksMeans(outgoing, start, Now(packet, left));
      ok := packet != [];
    }

    ghost function Now(packet: seq<Record>, left: nat): Packing
      reads this, writer
    {
      Packing(writer.w, writer.used, writer.wrapped, Cur(), packet, left)
    }

    lemma {:induction false} Progress(c: Cursor)
      requires Valid() && c.Before(Cur())
      ensures c.written < outgoingWritten <= |outgoing|
           || (c.written == outgoingWritten && LeftOf(outgoing, Cur()) < LeftOf(outgoing, c))
    {
      LeftDecreases(outgoing, c, Cur());
    }

    lemma {:induction false} AtEnd()
      requires Valid()
      ensures outgoingWritten <= |outgoing| && (outgoingWritten == |outgoing| ==> outgoingOffset == 0)
    {
    }

    // One iteration of send_flight: seal a packet, write it, and go back if the transport refuses it.
    // The result is positive when the packet was accepted; unsealed says that there was none to write.
    method SendPacket() returns (ret: int, ghost added: seq<Record>, ghost unsealed: bool)
      requires Valid() && outgoingComplete && outgoingWritten < |outgoing|
      modifies this`outgoingWritten, this`outgoingOffset, this`pass, this`sent, this`skipped, writer, bio
      ensures Valid() && writer.w.epoch == old(writer.w.epoch) && (old(writer.wrapped) ==> writer.wrapped)
      ensures ret > 0 ==> old(Cur()).Before(Cur())
      // A packet that the transport refuses leaves the cursor where it was.
      ensures ret <= 0 && !unsealed ==> Cur() == old(Cur())
      ensures unsealed <==> var p := PacketFrom(old(writer.w), outgoing, old(Cur()), mtu); p.failed || p.recs == []
      ensures unsealed ==> ret == -1 && (Cur() == old(Cur()) || old(Cur()).Before(Cur()))
      // Without a packet the cursor moves exactly when a message behind the first one is refused.
      ensures unsealed && Cur() != old(Cur()) <==>
        exists n: nat :: n > 0 && RefusedAfter(old(writer.w), outgoing, old(Cur()), mtu, n)
      ensures skipped <==> old(skipped) || (unsealed && Cur() != old(Cur()))
      ensures Enough(old(writer.w), outgoing, old(Cur()), mtu) ==>
        !unsealed && (ret > 0 ==> Enough(writer.w, outgoing, Cur(), mtu))
      ensures if ret <= 0 then added == [] else Replay(outgoing, old(Cur()), added) == Some(Cur())
      ensures !unsealed ==> ret == NextResult(old(bio.script)) && bio.script == AfterResult(old(bio.script))
      ensures Added(old(bio.Accepted()), bio.Accepted(), old(pass), pass, old(sent), sent, added)
    {
      hide Advance, CursorValid, Genuine, WireLen, Flat, PacketFrom, RefusedAfter, DistinctIds, IdOf, Enough;
      PacketLosesExactly(writer.w, outgoing, Cur(), mtu);
      PacketMoves(writer.w, outgoing, Cur(), mtu);
      if Enough(writer.w, outgoing, Cur(), mtu) { EnoughForPacket(writer.w, outgoing, Cur(), mtu, mtu); }
      var oldWritten, oldOffset := outgoingWritten, outgoingOffset;
      ghost var c, used := Cur(), writer.used;
      added, unsealed := [], false;
      var ok, packet := SealNextPacket(mtu);
      if !ok {
        unsealed, skipped := true, skipped || Cur() != c;
        return -1, [], true;
      }
      ret, added := WritePacket(packet, oldWritten, oldOffset, used, old(writer.wrapped));
    }

    // Its second half: the packet was sealed, and the cursor was at the old position before.
    method WritePacket(packet: seq<Record>, oldWritten: nat, oldOffset: nat, ghost used: set<(nat, nat)>,
                       ghost wrapped: bool) returns (ret: int, ghost added: seq<Record>)
      requires ValidAt(Cursor(oldWritten, oldOffset), used, wrapped) && outgoingComplete && writer.Valid()
      requires Replay(outgoing, Cursor(oldWritten, oldOffset), packet) == Some(Cur())
      requires wrapped ==> writer.wrapped
      requires !writer.wrapped ==> NewIds(packet, used, writer.used)
      requires forall r | r in packet :: r.number < SEQ48
      modifies this`outgoingWritten, this`outgoingOffset, this`pass, this`sent, bio
      ensures Valid()
      ensures if ret > 0 then Cur() == old(Cur()) && added == packet
              else Cur() == Cursor(oldWritten, oldOffset) && added == []
      ensures ret == NextResult(old(bio.script)) && bio.script == AfterResult(old(bio.script))
      ensures Added(old(bio.Accepted()), bio.Accepted(), old(pass), pass, old(sent), sent, added)
    {
      hide Advance, CursorValid, Genuine, Flat, DistinctIds, IdOf;
      added := [];
      if !writer.wrapped { JoinIds(sent, packet, used, writer.used); }
      ret := bio.Write(packet);
      if ret <= 0 {
        outgoingWritten, outgoingOffset := oldWritten, oldOffset;
        assert pass + [] == pass && sent + [] == sent;
        return;
      }
      StartValid(outgoing);
      Extend(past, outgoing, Cursor(oldWritten, oldOffset), Cur(), pass, packet, skipped);
      pass, sent, added := pass + packet, sent + packet, packet;
    }

    // send_flight: query is the answer of the transport to the MTU query, which mayQuery allows; the results of
    // BIO_write come from the transport, and flushRet is that of BIO_flush. reached is the position up to which the
    // transport has accepted the flight.
    method SendFlight(shutdown: bool, query: int, mayQuery: bool, flushRet: int)
      returns (ret: int, ghost added: seq<Record>, ghost reached: Cursor, ghost unsealed: bool)
      requires Valid() && outgoingComplete
      modifies `outgoingWritten, `outgoingOffset, `mtu, `pass, `sent, `skipped, writer, bio
      ensures Valid()
      ensures writer.w.epoch == old(writer.w.epoch)
      ensures mtu == if shutdown then old(mtu) else MtuAfter(old(mtu), query, mayQuery)
      ensures ret == 1 ==> Cur() == Cursor(|outgoing|, 0) && !unsealed
      // Exactly the records of the packets the transport accepted have been added, and whatever the result, they take
      // the flight from the old cursor to reached.
      ensures Added(old(bio.Accepted()), bio.Accepted(), old(pass), pass, old(sent), sent, added)
      ensures CursorValid(outgoing, old(Cur())) && Replay(outgoing, old(Cur()), added) == Some(reached)
      // That is where the cursor is, unless a packet could not be sealed.
      ensures Cur() == reached || (unsealed && reached.Before(Cur()))
      ensures unsealed ==> ret == -1
      ensures skipped <==> old(skipped) || Cur() != reached
      // It cannot happen if there is enough of everything for the flight; and then, with a transport that accepts as
      // many packets as may be needed and flushes, the flight is sent.
      ensures Enough(old(writer.w), outgoing, old(Cur()), mtu) ==> !unsealed
      ensures ret == 1 <==> !shutdown && flushRet > 0 && !unsealed && Cur() == Cursor(|outgoing|, 0)
      ensures !shutdown && flushRet > 0 && Enough(old(writer.w), outgoing, old(Cur()), mtu)
              && Accepts(old(bio.script), Needed(outgoing, old(Cur()))) ==>
        ret == 1
    {
      hide Valid, LeftOf, Flat, Advance, CursorValid, Replay, MtuAfter, PacketFrom, RefusedAfter, Cursor.Before, Enough;
      hide Accepts, Needed;
      ValidCursor();
      added, reached, unsealed := [], Cur(), false;
      if shutdown {
        return -1, [], reached, false;
      }
      UpdateMtu(query, mayQuery);
      AtEnd();
      while outgoingWritten < |outgoing|
        invariant Valid() && outgoingWritten <= |outgoing|
        invariant writer.w.epoch == old(writer.w.epoch) && skipped == old(skipped) && !unsealed
        invariant mtu == MtuAfter(old(mtu), query, mayQuery)
        invariant Enough(old(writer.w), outgoing, old(Cur()), mtu) ==> Enough(writer.w, outgoing, Cur(), mtu)
        invariant Accepts(old(bio.script), Needed(outgoing, old(Cur()))) ==>
                    Accepts(bio.script, Needed(outgoing, Cur()))
        invariant CursorValid(outgoing, old(Cur())) && Replay(outgoing, old(Cur()), added) == Some(Cur())
        invariant Added(old(bio.Accepted()), bio.Accepted(), old(pass), pass, old(sent), sent, added)
        decreases |outgoing| - outgoingWritten, LeftOf(outgoing, Cur())
      {
        ghost var c, script := Cur(), bio.script;
        ghost var more;
        ret, more, unsealed := SendPacket();
        if Accepts(script, Needed(outgoing, c)) { AcceptsOn(c, script); }
        if ret <= 0 {
          assert added + more == added;
          return ret, added, c, unsealed;
        }
        ReplayConcat(outgoing, old(Cur()), added, more);
        added := added + more;
        AtEnd();
        Progress(c);
      }
      AtEnd();
      reached := Cur();
      if flushRet <= 0 {
        return -1, added, reached, false;
      }
      return 1, added, reached, false;
    }

    lemma {:induction false} AcceptsOn(c: Cursor, script: seq<int>)
      requires Valid() && CursorValid(outgoing, c) && c.written < |outgoing| && Accepts(script, Needed(outgoing, c))
      ensures NextResult(script) > 0
      ensures c.Before(Cur()) ==> Accepts(AfterResult(script), Needed(outgoing, Cur()))
    {
      ValidCursor();
      hide Valid, Accepts, CursorValid;
      NeededPositive(outgoing, c);
      if c.Before(Cur()) { NeededFalls(outgoing, c, Cur()); }
      AcceptsNext(script, Needed(outgoing, c), if c.Before(Cur()) then Needed(outgoing, Cur()) else 0);
    }

    lemma {:induction false} ValidCursor()
      requires Valid()
      ensures CursorValid(outgoing, Cur()) && Replay(outgoing, Cur(), []) == Some(Cur())
    {
    }

    // dtls1_update_mtu.
    method UpdateMtu(query: int, mayQuery: bool)
      requires Valid()
      modifies this`mtu
      ensures Valid() && mtu == MtuAfter(old(mtu), query, mayQuery)
    {
      if mtu < MIN_MTU && mayQuery {
        if query >= 0 && query <= 0x4000_0000 && query >= MIN_MTU {
          mtu := query;
        } else {
          mtu := DEFAULT_MTU;
        }
      }
    }

    // dtls1_flush_flight.
    method FlushFlight(shutdown: bool, query: int, mayQuery: bool, flushRet: int)
      returns (ret: int, ghost added: seq<Record>, ghost reached: Cursor, ghost unsealed: bool)
      requires Valid()
      modifies `outgoingComplete, `outgoingWritten, `outgoingOffset, `mtu, `pass, `sent, `skipped, writer, bio
      ensures Valid() && outgoingComplete && writer.w.epoch == old(writer.w.epoch)
      ensures mtu == if shutdown then old(mtu) else MtuAfter(old(mtu), query, mayQuery)
      ensures ret == 1 ==> Cur() == Cursor(|outgoing|, 0) && !unsealed
      ensures Added(old(bio.Accepted()), bio.Accepted(), old(pass), pass, old(sent), sent, added)
      ensures CursorValid(outgoing, old(Cur())) && Replay(outgoing, old(Cur()), added) == Some(reached)
      ensures Cur() == reached || (unsealed && ret == -1 && reached.Before(Cur()))
      ensures skipped <==> old(skipped) || Cur() != reached
      ensures Enough(old(writer.w), outgoing, old(Cur()), mtu) ==> !unsealed
      ensures ret == 1 <==> !shutdown && flushRet > 0 && !unsealed && Cur() == Cursor(|outgoing|, 0)
      ensures !shutdown && flushRet > 0 && Enough(old(writer.w), outgoing, old(Cur()), mtu)
              && Accepts(old(bio.script), Needed(outgoing, old(Cur()))) ==>
        ret == 1
    {
      hide Advance, CursorValid, Genuine, Replay, DistinctIds, Enough, Needed, Accepts;
      outgoingComplete := true;
      ret, added, reached, unsealed := SendFlight(shutdown, query, mayQuery, flushRet);
    }

    // dtls1_retransmit_outgoing_messages: rewind and write the flight again.
    method Retransmit(shutdown: bool, query: int, mayQuery: bool, flushRet: int)
      returns (ret: int, ghost added: seq<Record>, ghost reached: Cursor, ghost unsealed: bool)
      requires Valid() && outgoingComplete
      modifies `outgoingWritten, `outgoingOffset, `mtu, `pass, `sent, `skipped, writer, bio
      ensures Valid() && writer.w.epoch == old(writer.w.epoch)
      ensures mtu == if shutdown then old(mtu) else MtuAfter(old(mtu), query, mayQuery)
      ensures ret == 1 ==> Cur() == Cursor(|outgoing|, 0) && !unsealed
      ensures Added(old(bio.Accepted()), bio.Accepted(), [], pass, old(sent), sent, added)
      // Whatever was skipped before, the cursor is again where the accepted records lead, unless a packet fails.
      ensures CursorValid(outgoing, Start) && Replay(outgoing, Start, added) == Some(reached)
      ensures Cur() == reached || (unsealed && ret == -1 && reached.Before(Cur()))
      ensures skipped <==> Cur() != reached
      ensures Enough(old(writer.w), outgoing, Start, mtu) ==> !unsealed
      ensures ret == 1 <==> !shutdown && flushRet > 0 && !unsealed && Cur() == Cursor(|outgoing|, 0)
      ensures !shutdown && flushRet > 0 && Enough(old(writer.w), outgoing, Start, mtu)
              && Accepts(old(bio.script), Needed(outgoing, Start)) ==>
        ret == 1
    {
      hide Advance, Genuine, DistinctIds, Enough, Needed, Accepts;
      outgoingWritten, outgoingOffset := 0, 0;
      pass, skipped := [], false;
      ret, added, reached, unsealed := SendFlight(shutdown, query, mayQuery, flushRet);
    }
  }
}
