/** The outbound half of a TLS connection: the write buffer, the pending flight and their records. */
module TlsWriter {
  import opened Bytes
  import opened SslBuffer

  datatype Kind = ChangeCipherSpec | Alert | Handshake | AppData

  // A sealed record: what was sealed and the bytes that came out.
  datatype Rec = Rec(kind: Kind, plain: seq<Byte>, bytes: seq<Byte>)

  const MAX_PLAIN: nat := 16384
  const INT_MAX: nat := 0x7fff_ffff
  // SSL3_AL_FATAL.
  const FATAL: Byte := 2
  // With this much data at most, no alignment lets the 16-bit offset of the write buffer wrap around.
  const SAFE_SIZE: nat := U16 - (ALIGN_PAYLOAD - 1)

  // The transport takes nothing next.
  predicate Stalls(script: seq<int>) {
    script != [] && script[0] <= 0
  }

  // All bytes of the records, in seal order.
  ghost function Wire(log: seq<Rec>): seq<Byte> {
    if log == [] then [] else Wire(log[..|log| - 1]) + log[|log| - 1].bytes
  }

  // All that was sealed in records of one kind, in seal order.
  ghost function Plain(log: seq<Rec>, kind: Kind): seq<Byte> {
    if log == [] then []
    else Plain(log[..|log| - 1], kind) + if log[|log| - 1].kind == kind then log[|log| - 1].plain else []
  }

  lemma {:induction false} Snoc(log: seq<Rec>, r: Rec)
    ensures Wire(log + [r]) == Wire(log) + r.bytes
    ensures forall k :: Plain(log + [r], k) == Plain(log, k) + if r.kind == k then r.plain else []
  {
    assert (log + [r])[..|log|] == log;
  }

  // Sealing adds a bounded number of bytes.
  ghost predicate Bounded(seal: (nat, Kind, seq<Byte>) -> Option<seq<Byte>>, overhead: nat) {
    forall n, k, p :: seal(n, k, p).Some? ==> |seal(n, k, p).value| <= |p| + overhead
  }

  lemma {:induction false} BoundedBy(seal: (nat, Kind, seq<Byte>) -> Option<seq<Byte>>, overhead: nat, n: nat, k: Kind,
                                     p: seq<Byte>)
    requires Bounded(seal, overhead)
    ensures seal(n, k, p).Some? ==> |seal(n, k, p).value| <= |p| + overhead
  {
  }

  // Every record was sealed with its own number.
  ghost predicate Numbered(seal: (nat, Kind, seq<Byte>) -> Option<seq<Byte>>, log: seq<Rec>) {
    forall i | 0 <= i < |log| :: seal(i, log[i].kind, log[i].plain) == Some(log[i].bytes)
  }

  lemma {:induction false} NumberedSnoc(seal: (nat, Kind, seq<Byte>) -> Option<seq<Byte>>, log: seq<Rec>, r: Rec)
    requires Numbered(seal, log) && seal(|log|, r.kind, r.plain) == Some(r.bytes)
    ensures Numbered(seal, log + [r])
  {
  }

  // The records it takes to send n bytes in chunks of at most m.
  ghost function Chunks(n: nat, m: nat): (c: nat)
    requires m > 0
  {
    if n <= m then 1 else 1 + Chunks(n - m, m)
  }

  lemma {:induction false} ChunksUnfold(n: nat, m: nat)
    requires m > 0
    ensures Chunks(n, m) == if n <= m then 1 else 1 + Chunks(n - m, m)
  {
  }

  // Every chunk of a handshake message can be sealed, from record number n on.
  ghost predicate ChunksSeal(seal: (nat, Kind, seq<Byte>) -> Option<seq<Byte>>, n: nat, msg: seq<Byte>, m: nat)
    requires m > 0
    decreases |msg|
  {
    if |msg| <= m then seal(n, Handshake, msg).Some?
    else seal(n, Handshake, msg[..m]).Some? && ChunksSeal(seal, n + 1, msg[m..], m)
  }

  lemma {:induction false} ChunksSealUnfold(seal: (nat, Kind, seq<Byte>) -> Option<seq<Byte>>, n: nat, msg: seq<Byte>,
                                            m: nat)
    requires m > 0
    ensures var k := if |msg| < m then |msg| else m;
            ChunksSeal(seal, n, msg, m) <==>
              seal(n, Handshake, msg[..k]).Some? && (msg[k..] != [] ==> ChunksSeal(seal, n + 1, msg[k..], m))
  {
    if |msg| <= m { assert msg[..|msg|] == msg; }
  }

  lemma {:induction false} NextChunk(start: seq<Byte>, msg: seq<Byte>, i: nat, n: nat)
    requires i + n <= |msg|
    ensures msg[i..][n..] == msg[i + n..] && start + msg[..i] + msg[i..][..n] == start + msg[..i + n]
  {
    assert msg[..i] + msg[i..][..n] == msg[..i + n];
  }

  lemma {:induction false} OneMoreTime(c: nat, overhead: nat)
    ensures (1 + c) * overhead == overhead + c * overhead
  {
  }

  lemma {:induction false} MoreChunks(c: nat, all: nat, overhead: nat)
    requires c < all
    ensures (c + 1) * overhead == c * overhead + overhead
    ensures c * overhead + overhead <= all * overhead
  {
    assert (c + 1) * overhead <= all * overhead;
  }

  // The log grew by one record at most.
  ghost predicate Grew(log: seq<Rec>, log': seq<Rec>, ok: bool, kind: Kind, plain: seq<Byte>) {
    if ok then |log'| == |log| + 1 && log'[..|log|] == log && log'[|log|].kind == kind && log'[|log|].plain == plain
    else log' == log
  }

  lemma {:induction false} GrewLength(log: seq<Rec>, log': seq<Rec>, ok: bool, kind: Kind, plain: seq<Byte>)
    requires Grew(log, log', ok, kind, plain)
    ensures ok <==> |log'| != |log|
    ensures |log'| == |log| + if ok then 1 else 0
    ensures !ok ==> log' == log
  {
  }

  lemma {:induction false} GrewNot(log: seq<Rec>, kind: Kind, plain: seq<Byte>)
    ensures Grew(log, log, false, kind, plain)
  {
  }

  lemma {:induction false} GrewSnoc(log: seq<Rec>, r: Rec)
    ensures Grew(log, log + [r], true, r.kind, r.plain)
  {
  }

  lemma {:induction false} GrewPlain(log: seq<Rec>, log': seq<Rec>, kind: Kind, plain: seq<Byte>)
    requires Grew(log, log', true, kind, plain)
    ensures forall k :: Plain(log', k) == Plain(log, k) + if kind == k then plain else []
  {
    Snoc(log, log'[|log|]);
    assert log' == log + [log'[|log|]];
  }

  // Of the caller's buffer data, the bytes from p0 up to upTo were sealed, each once and in order.
  ghost predicate SealedUpTo(data: seq<Byte>, p0: nat, upTo: int, app0: seq<Byte>, app: seq<Byte>) {
    p0 <= |data| ==> p0 <= upTo <= |data| && app == app0 + data[p0..upTo]
  }

  // Only application data was sealed.
  ghost predicate OnlyAppData(log: seq<Rec>, log': seq<Rec>) {
    forall k | k != AppData :: Plain(log', k) == Plain(log, k)
  }

  // What the transport has taken, then the write buffer, then the unsent part of the flight.
  ghost predicate Conserves(taken: seq<Byte>, contents: seq<Byte>, unsent: seq<Byte>, wire: seq<Byte>) {
    taken + contents + unsent == wire
  }

  lemma {:induction false} AddConserves(taken: seq<Byte>, contents: seq<Byte>, unsent: seq<Byte>, wire: seq<Byte>,
                                        r: seq<Byte>)
    requires Conserves(taken, contents, unsent, wire)
    ensures Conserves(taken, contents, unsent + r, wire + r)
  {
    assert taken + contents + (unsent + r) == taken + contents + unsent + r;
  }

  lemma {:induction false} MoveConserves(taken: seq<Byte>, unsent: seq<Byte>, wire: seq<Byte>)
    requires Conserves(taken, [], unsent, wire)
    ensures Conserves(taken, [] + unsent, [], wire)
  {
    assert taken + [] + unsent == taken + ([] + unsent) + [];
  }

  lemma {:induction false} SealConserves(taken: seq<Byte>, contents: seq<Byte>, wire: seq<Byte>, r: seq<Byte>)
    requires Conserves(taken, contents, [], wire)
    ensures Conserves(taken, contents + r, [], wire + r)
  {
    assert taken + (contents + r) + [] == taken + contents + [] + r;
  }

  lemma {:induction false} WriteConserves(taken: seq<Byte>, unsent: seq<Byte>, wire: seq<Byte>, n: nat)
    requires Conserves(taken, [], unsent, wire) && n <= |unsent|
    ensures Conserves(taken + unsent[..n], [], unsent[n..], wire)
  {
    assert taken + unsent[..n] + [] + unsent[n..] == taken + [] + unsent;
  }

  lemma {:induction false} FlushConserves(taken: seq<Byte>, contents: seq<Byte>, taken': seq<Byte>,
                                          contents': seq<Byte>,
                                          unsent: seq<Byte>, wire: seq<Byte>)
    requires Conserves(taken, contents, unsent, wire) && taken' + contents' == taken + contents
    ensures Conserves(taken', contents', unsent, wire)
  {
  }

  // Without a flight, everything sealed has been taken exactly when the write buffer is empty.
  lemma {:induction false} AllSent(taken: seq<Byte>, contents: seq<Byte>, wire: seq<Byte>)
    requires Conserves(taken, contents, [], wire)
    ensures taken == wire <==> contents == []
  {
    assert taken + contents + [] == taken + contents;
    assert contents == [] ==> taken + contents == taken;
  }

  lemma {:induction false} NothingNew(log: seq<Rec>)
    ensures OnlyAppData(log, log)
  {
  }

  // One more chunk of the buffer was sealed.
  lemma {:induction false} ChunkSealed(data: seq<Byte>, p0: nat, tot: nat, nw: nat, app0: seq<Byte>, log: seq<Rec>,
                                       log': seq<Rec>)
    requires tot + nw <= |data| && Grew(log, log', true, AppData, data[tot..tot + nw])
    requires SealedUpTo(data, p0, tot, app0, Plain(log, AppData))
    ensures SealedUpTo(data, p0, tot + nw, app0, Plain(log', AppData)) && OnlyAppData(log, log')
  {
    GrewPlain(log, log', AppData, data[tot..tot + nw]);
    hide Plain, Grew;
    if p0 <= |data| {
      assert data[p0..tot] + data[tot..tot + nw] == data[p0..tot + nw];
      assert app0 + data[p0..tot] + data[tot..tot + nw] == app0 + (data[p0..tot] + data[tot..tot + nw]);
    }
  }

  lemma {:induction false} StillOnlyAppData(log: seq<Rec>, log': seq<Rec>, log'': seq<Rec>)
    requires OnlyAppData(log, log') && OnlyAppData(log', log'')
    ensures OnlyAppData(log, log'')
  {
  }

  // ---- Writing a flight ----

  // What writing data comes to, BIO_write after BIO_write: as for the write buffer, but from a flight.
  ghost function Streaming(data: seq<Byte>, script: seq<int>): (f: Flow)
    decreases |data|
  {
    if data == [] then Flow(1, [], [], 0, script)
    else
      var ret := if script == [] then -1 else Min(script[0], |data|);
      var rest := if script == [] then [] else script[1..];
      if ret <= 0 then Flow(ret, [], data, 0, rest)
      else
        var f := Streaming(data[ret..], rest);
        f.(taken := data[..ret] + f.taken)
  }

  // What is taken is a prefix, what is left follows it, and success is that nothing is left.
  lemma {:induction false} StreamConserves(data: seq<Byte>, script: seq<int>)
    ensures var f := Streaming(data, script); f.taken + f.rest == data && (f.ret > 0 <==> f.rest == [])
    decreases |data|
  {
    hide Streaming;
    if data == [] {
      StreamDone(script);
    } else {
      var ret := if script == [] then -1 else Min(script[0], |data|);
      StreamStep([], data, script, ret);
      if ret > 0 {
        StreamConserves(data[ret..], script[1..]);
        var f := Streaming(data[ret..], script[1..]);
        Rejoined(data, ret, f.taken, f.rest);
      }
    }
  }

  lemma {:induction false} Rejoined(data: seq<Byte>, n: nat, taken: seq<Byte>, rest: seq<Byte>)
    requires n <= |data| && taken + rest == data[n..]
    ensures [] + data[..n] + taken + rest == data
  {
    assert data[..n] + taken + rest == data[..n] + (taken + rest) == data;
  }

  ghost function Sum(ns: seq<nat>): nat {
    if ns == [] then 0 else ns[0] + Sum(ns[1..])
  }

  // Exactly how much is taken before a failure: the sum of the results up to it.
  lemma {:induction false} StreamStops(data: seq<Byte>, ns: seq<nat>, failure: int, more: seq<int>)
    requires (forall i | 0 <= i < |ns| :: ns[i] > 0) && Sum(ns) < |data| && failure <= 0
    ensures var f := Streaming(data, ns + [failure] + more);
            && f.ret == failure && f.taken == data[..Sum(ns)] && f.rest == data[Sum(ns)..] && f.script == more
    decreases |ns|
  {
    var script := ns + [failure] + more;
    if ns == [] {
      assert script[1..] == more;
    } else {
      assert script[1..] == ns[1..] + [failure] + more;
      StreamStops(data[ns[0]..], ns[1..], failure, more);
      assert data[..ns[0]] + data[ns[0]..][..Sum(ns[1..])] == data[..Sum(ns)];
    }
  }

  lemma {:induction false} StreamCompletes(data: seq<Byte>, script: seq<int>)
    requires Willing(script, |data|)
    ensures var f := Streaming(data, script);
            f.ret == 1 && f.taken == data && f.rest == [] && Willing(f.script, 0)
    decreases |data|
  {
    if data != [] {
      var ret := Min(script[0], |data|);
      StreamCompletes(data[ret..], script[1..]);
      assert data[..ret] + data[ret..] == data;
    }
  }

  lemma {:induction false} StreamDone(script: seq<int>)
    ensures Streaming([], script) == Flow(1, [], [], 0, script)
  {
  }

  lemma {:induction false} StreamStep(t: seq<Byte>, data: seq<Byte>, script: seq<int>, ret: int)
    requires data != [] && ret == if script == [] then -1 else Min(script[0], |data|)
    ensures var rest := if script == [] then [] else script[1..];
            if ret <= 0 then Streaming(data, script) == Flow(ret, [], data, 0, rest)
            else Continues(Streaming(data, script), t, Streaming(data[ret..], rest), t + data[..ret])
  {
  }

  // The write buffer goes out like a flight as long as its offset cannot wrap around.
  lemma {:induction false} FlowIsStream(memory: seq<Byte>, offset: nat, size: nat, script: seq<int>)
    requires offset < U16 && size < U16 && offset + size <= |memory| && offset + size <= U16
    ensures Alike(Flowing(memory, offset, size, script), Streaming(memory[offset..offset + size], script))
    decreases size
  {
    if size > 0 && script != [] && script[0] > 0 {
      var ret := Min(script[0], size);
      assert memory[offset..offset + size][ret..] == memory[offset + ret..offset + size];
      if ret < size {
        FlowIsStream(memory, offset + ret, size - ret, script[1..]);
      }
    }
  }

  ghost predicate Alike(f: Flow, g: Flow) {
    f.ret == g.ret && f.taken == g.taken && f.rest == g.rest && f.script == g.script
  }

  lemma {:induction false} WillingLess(script: seq<int>, n: int, n': int)
    requires Willing(script, n) && n' <= n
    ensures Willing(script, n')
  {
  }

  lemma {:induction false} WillingAll(script: seq<int>, n: int)
    requires Willing(script, n)
    ensures n <= |script| && Willing(script, |script|)
  {
  }

  // ---- Early data ----

  // How much early data may still be written. The counter has 16 bits, the limit from the ticket 32.
  function EarlyRoom(limit: nat, written: nat): int {
    limit - written
  }

  // The counter is the early data sent so far, but for the pending record, modulo its size.
  ghost predicate Counted(limit: nat, early: nat, pending: nat, written: nat) {
    pending <= early && written == (early - pending) % U16 && (limit < U16 ==> early <= limit)
  }

  lemma {:induction false} RoomIs(limit: nat, early: nat, pending: nat, written: nat)
    requires Counted(limit, early, pending, written)
    ensures written < U16 && EarlyRoom(limit, written) >= 0
    ensures limit < U16 ==> EarlyRoom(limit, written) == limit - early + pending
  {
  }

  // More was sealed, or a record has been sent.
  lemma {:induction false} CountedNext(limit: nat, early: nat, pending: nat, written: nat, sealed: nat, sent: nat,
                                       pending': nat)
    requires Counted(limit, early, pending, written)
    requires sealed > 0 ==> pending == 0 && sealed <= EarlyRoom(limit, written)
    requires pending' + sent == pending + sealed
    ensures Counted(limit, early + sealed, pending', (written + sent) % U16)
  {
    RoomIs(limit, early, pending, written);
  }

  /** The fields of SSL and SSL3_STATE that take part in writing. */
  class Writer {
    const writeBuffer: Buffer
    const bio: Transport
    // tls_seal_record, as a function of the number of the record, and the length it may add.
    const seal: (nat, Kind, seq<Byte>) -> Option<seq<Byte>>
    const overhead: nat
    const alignPrefix: nat
    const maxSendFragment: nat
    const partialWrite: bool
    const movingBuffer: bool
    // The addresses that the allocator returns.
    const alloc: nat -> nat
    var allocs: nat

    var flight: Option<seq<Byte>>
    var flightOffset: nat
    var wnum: nat
    var wpendPending: bool
    var wpendType: Kind
    var wpendTot: nat
    var wpendBuf: int
    var wpendRet: nat
    var writeShutdown: bool
    var sealed: nat
    // The connection is a client that may write early data, of which its ticket allows so much.
    const maxEarlyData: nat
    var canEarlyWrite: bool
    var earlyDataWritten: nat
    // The alert to be sent, and where it is stored.
    const alertAddr: int
    var alertDispatch: bool
    var alertLevel: Byte
    var alertDesc: Byte

    // Every record sealed so far; and whether the buffer's 16-bit offset has always been able to cover its data.
    ghost var log: seq<Rec>
    ghost var safe: bool
    // How much was sealed as early data.
    ghost var early: nat

    ghost predicate Valid()
      reads `flight, `flightOffset, `sealed, `log, `safe, `wpendPending, `wpendTot, `wpendRet
      reads writeBuffer, writeBuffer.buf, bio
    {
      Sound() && (wpendPending ==> 0 < wpendTot == wpendRet)
    }

    ghost predicate Sound()
      reads `flight, `flightOffset, `sealed, `log, `safe, writeBuffer, writeBuffer.buf, bio
    {
      && writeBuffer.Valid() && 0 < maxSendFragment <= MAX_PLAIN
      && Bounded(seal, overhead)
      && (if flight.Some? then flightOffset <= |flight.value| else flightOffset == 0)
      && (writeBuffer.size == 0 ==> writeBuffer.offset < ALIGN_PAYLOAD)
      && sealed == |log| && Numbered(seal, log)
      && (safe ==> writeBuffer.Safe() && Conserves(bio.taken, writeBuffer.Contents(), Unsent(), Wire(log)))
    }

    // The part of the pending flight that is still to be written.
    ghost function Unsent(): seq<Byte>
      reads `flight, `flightOffset
    {
      if flight.Some? && flightOffset <= |flight.value| then flight.value[flightOffset..] else []
    }

    // The length of the pending record, if it has application data.
    ghost function Pending(): nat
      reads `wpendPending, `wpendType, `wpendRet
    {
      if wpendPending && wpendType.AppData? then wpendRet else 0
    }

    // How much of the caller's buffer has been sealed: reported progress and the pending record.
    ghost function Progress(): nat
      reads `wnum, `wpendPending, `wpendType, `wpendRet
    {
      wnum + Pending()
    }

    ghost predicate EarlyCounted()
      reads `canEarlyWrite, `earlyDataWritten, `early, `wpendPending, `wpendType, `wpendRet
    {
      && (canEarlyWrite ==> Counted(maxEarlyData, early, Pending(), earlyDataWritten))
      && (maxEarlyData < U16 ==> early <= maxEarlyData)
    }

    constructor (seal: (nat, Kind, seq<Byte>) -> Option<seq<Byte>>, overhead: nat, alignPrefix: nat,
                 maxSendFragment: nat,
                 partialWrite: bool, movingBuffer: bool, earlyData: Option<nat>, alertAddr: int, alloc: nat -> nat,
                 script: seq<int>)
      requires 0 < maxSendFragment <= MAX_PLAIN
      requires Bounded(seal, overhead)
      ensures Valid() && log == [] && safe && Progress() == 0 && flight == None
      ensures EarlyCounted() && early == 0 && canEarlyWrite == earlyData.Some?
      ensures this.maxSendFragment == maxSendFragment && !writeShutdown && wnum == 0
      ensures earlyData.Some? ==> maxEarlyData == earlyData.value
      ensures fresh(bio) && fresh(writeBuffer) && writeBuffer.buf == null && writeBuffer.size == 0 && bio.taken == []
      ensures this.seal == seal && this.overhead == overhead && sealed == 0 && !wpendPending
      ensures this.alloc == alloc && allocs == 0 && this.alignPrefix == alignPrefix && bio.script == script
    {
      this.seal, this.overhead, this.alignPrefix, this.maxSendFragment := seal, overhead, alignPrefix, maxSendFragment;
      this.partialWrite, this.movingBuffer, this.alloc, allocs := partialWrite, movingBuffer, alloc, 0;
      flight, flightOffset, wnum, wpendPending, writeShutdown, sealed := None, 0, 0, false, false, 0;
      wpendType, wpendTot, wpendBuf, wpendRet := Handshake, 0, 0, 0;
      this.alertAddr, alertDispatch, alertLevel, alertDesc := alertAddr, false, 0, 0;
      maxEarlyData := if earlyData.Some? then earlyData.value else 0;
      canEarlyWrite, earlyDataWritten := earlyData.Some?, 0;
      log, safe, early := [], true, 0;
      writeBuffer := new Buffer();
      bio := new Transport(script);
    }

    // add_record_to_flight, which asserts that the flight is not being written.
    method AddRecordToFlight(kind: Kind, data: seq<Byte>) returns (ok: bool)
      requires Valid() && flightOffset == 0
      modifies `flight, `sealed, `log
      ensures Valid() && flightOffset == 0
      ensures Grew(old(log), log, ok, kind, data)
      ensures ok <==> seal(old(sealed), kind, data).Some?
      ensures sealed == old(sealed) + if ok then 1 else 0
      ensures Unsent() == old(Unsent()) + if ok then seal(old(sealed), kind, data).value else []
      ensures |Unsent()| <= |old(Unsent())| + if ok then |data| + overhead else 0
    {
      hide Bounded, Numbered, Wire, Plain, Conserves, Grew, Buffer.Contents, Buffer.Safe;
      BoundedBy(seal, overhead, sealed, kind, data);
      GrewNot(log, kind, data);
      if flight.None? { StartFlight(); }
      var out := seal(sealed, kind, data);
      if out.None? { return false; }
      ghost var r := Rec(kind, data, out.value);
      Snoc(log, r);
      NumberedSnoc(seal, log, r);
      ghost var taken, contents, unsent := bio.taken, writeBuffer.Contents(), Unsent();
      if safe { AddConserves(taken, contents, unsent, Wire(log), out.value); }
      GrewSnoc(log, r);
      flight := Some(flight.value + out.value);
      sealed := sealed + 1;
      log := log + [r];
      assert Unsent() == unsent + out.value;
      assert writeBuffer.Valid() && writeBuffer.Contents() == contents && bio.taken == taken;
      return true;
    }

    method StartFlight()
      requires Valid() && flight.None?
      modifies `flight
      ensures Valid() && flight == Some([]) && Unsent() == old(Unsent())
    {
      hide Bounded, Numbered, Wire, Conserves;
      assert Unsent() == [];
      flight := Some([]);
      assert Unsent() == [];
    }

    // ssl3_add_message: the message in chunks of at most maxSendFragment bytes; transcriptOk says that it could be
    // added to the transcript, which comes last.
    method AddMessage(msg: seq<Byte>, transcriptOk: bool) returns (ok: bool)
      requires Valid() && flightOffset == 0
      modifies `flight, `sealed, `log
      ensures Valid() && flightOffset == 0
      ensures forall k | k != Handshake :: Plain(log, k) == old(Plain(log, k))
      ensures old(Plain(log, Handshake)) <= Plain(log, Handshake) <= old(Plain(log, Handshake)) + msg
      ensures ok ==>
        && Plain(log, Handshake) == old(Plain(log, Handshake)) + msg
        && |log| == |old(log)| + Chunks(|msg|, maxSendFragment) > |old(log)|
      // It fails only if sealing does, or the transcript.
      ensures ok <==> transcriptOk && ChunksSeal(seal, old(sealed), msg, maxSendFragment)
      ensures |Unsent()| <= |old(Unsent())| + |msg| + Chunks(|msg|, maxSendFragment) * overhead
    {
      hide Plain, Chunks, ChunksSeal, Writer.Valid, Writer.Unsent;
      FragmentPositive();
      ghost var start, chunks: nat := Plain(log, Handshake), 0;
      var rest := msg;
      var more := true;
      while more
        invariant Valid() && flightOffset == 0 && |log| == |old(log)| + chunks && (!more ==> chunks > 0 && rest == [])
        invariant ChunksSeal(seal, old(sealed), msg, maxSendFragment) <==>
          (more ==> ChunksSeal(seal, sealed, rest, maxSendFragment))
        invariant forall k | k != Handshake :: Plain(log, k) == old(Plain(log, k))
        invariant |rest| <= |msg| && rest == msg[|msg| - |rest|..]
        invariant Plain(log, Handshake) == start + msg[..|msg| - |rest|]
        invariant chunks + (if more then Chunks(|rest|, maxSendFragment) else 0) == Chunks(|msg|, maxSendFragment)
        invariant |Unsent()| + |rest| <= |old(Unsent())| + |msg| + chunks * overhead
        decreases more, |rest|
      {
        var n := if |rest| < maxSendFragment then |rest| else maxSendFragment;
        var chunk := rest[..n];
        NextChunk(start, msg, |msg| - |rest|, n);
        ChunksUnfold(|rest|, maxSendFragment);
        ChunksSealUnfold(seal, sealed, rest, maxSendFragment);
        MoreChunks(chunks, Chunks(|msg|, maxSendFragment), overhead);
        rest := rest[n..];
        ok := AddChunk(chunk);
        if !ok { return; }
        chunks := chunks + 1;
        more := rest != [];
      }
      assert msg[..|msg|] == msg;
      ok := transcriptOk;
    }

    lemma {:induction false} FragmentPositive()
      requires Valid()
      ensures 0 < maxSendFragment
    {
    }

    // One chunk of a handshake message.
    method AddChunk(chunk: seq<Byte>) returns (ok: bool)
      requires Valid() && flightOffset == 0
      modifies `flight, `sealed, `log
      ensures Valid() && flightOffset == 0
      ensures forall k | k != Handshake :: Plain(log, k) == old(Plain(log, k))
      ensures Plain(log, Handshake) == if ok then old(Plain(log, Handshake)) + chunk else old(Plain(log, Handshake))
      ensures |log| == if ok then |old(log)| + 1 else |old(log)|
      ensures (ok <==> seal(old(sealed), Handshake, chunk).Some?) && sealed == old(sealed) + if ok then 1 else 0
      ensures |Unsent()| <= |old(Unsent())| + if ok then |chunk| + overhead else 0
    {
      hide Plain, Writer.Valid, Writer.Unsent;
      ok := AddRecordToFlight(Handshake, chunk);
      if ok { GrewPlain(old(log), log, Handshake, chunk); }
    }

    // ssl3_add_change_cipher_spec.
    method AddChangeCipherSpec() returns (ok: bool)
      requires Valid() && flightOffset == 0
      modifies `flight, `sealed, `log
      ensures Valid() && flightOffset == 0
      ensures Grew(old(log), log, ok, ChangeCipherSpec, [1])
      ensures ok <==> seal(old(sealed), ChangeCipherSpec, [1]).Some?
      ensures Unsent() == old(Unsent()) + if ok then seal(old(sealed), ChangeCipherSpec, [1]).value else []
      ensures |Unsent()| <= |old(Unsent())| + 1 + overhead
    {
      ok := AddRecordToFlight(ChangeCipherSpec, [1]);
    }

    // ssl3_add_alert.
    method AddAlert(level: Byte, desc: Byte) returns (ok: bool)
      requires Valid() && flightOffset == 0
      modifies `flight, `sealed, `log
      ensures Valid() && flightOffset == 0
      ensures Grew(old(log), log, ok, Alert, [level, desc])
      ensures ok <==> seal(old(sealed), Alert, [level, desc]).Some?
      ensures Unsent() == old(Unsent()) + if ok then seal(old(sealed), Alert, [level, desc]).value else []
      ensures |Unsent()| <= |old(Unsent())| + 2 + overhead
    {
      ok := AddRecordToFlight(Alert, [level, desc]);
    }

    // The transport, which had taken t0, and the write buffer are as f says.
    ghost predicate Followed(f: Flow, t0: seq<Byte>)
      requires writeBuffer.Valid()
      reads writeBuffer, writeBuffer.buf, bio
    {
      && bio.taken == t0 + f.taken && bio.script == f.script
      && writeBuffer.Contents() == f.rest && writeBuffer.offset == f.offset
    }

    // The write buffer has this data at this offset of zeroed memory.
    ghost predicate Filled(data: seq<Byte>, offset: nat)
      reads writeBuffer, writeBuffer.buf
    {
      && writeBuffer.Valid() && writeBuffer.Contents() == data && writeBuffer.offset == offset
      && (writeBuffer.buf != null ==> forall k | 0 <= k < offset :: writeBuffer.buf[k] == 0)
    }

    // If the transport took nothing, this data is in the write buffer, at this offset of zeroed memory.
    ghost predicate Waits(data: seq<Byte>, offset: nat, taken: seq<Byte>, script: seq<int>)
      reads writeBuffer, writeBuffer.buf, bio
    {
      Stalls(script) && data != [] ==> bio.taken == taken && bio.script == script[1..] && Filled(data, offset)
    }

    // The data went out from the write buffer as f says, or as far as f says.
    ghost predicate WentOut(data: seq<Byte>, taken: seq<Byte>, script: seq<int>, ret: int)
      requires writeBuffer.Valid()
      reads writeBuffer, writeBuffer.buf, bio
    {
      var f := Streaming(data, script);
      && bio.taken == taken + f.taken && bio.script == f.script && writeBuffer.Contents() == f.rest
      && (ret > 0 <==> f.ret > 0) && (ret <= 0 ==> ret == f.ret)
    }

    // If the transport took something with every call, the write of n bytes succeeded and nothing is left.
    ghost predicate Passes(n: nat, script: seq<int>, ret: int)
      reads writeBuffer, bio
    {
      n > 0 && Willing(script, n) ==> ret > 0 && Willing(bio.script, |script| - n) && writeBuffer.buf == null
    }

    // Where new memory is aligned for the record that follows the unsent flight.
    ghost function NewOffset(): nat
      reads `flight, `flightOffset, `allocs
    {
      AlignedOffset(|Unsent()| + alignPrefix, alloc(allocs))
    }

    // The write buffer goes first.
    method FlushBuffer() returns (ret: int)
      requires Valid()
      modifies writeBuffer, bio
      ensures Valid() && (writeBuffer.buf == old(writeBuffer.buf) || writeBuffer.buf == null)
      ensures old(bio.taken) <= bio.taken
      ensures if ret > 0 then ret == 1 && writeBuffer.size == 0 && writeBuffer.buf == null else writeBuffer.size > 0
      ensures Passes(old(writeBuffer.size), old(bio.script), ret)
      ensures ret == old(writeBuffer.Sending(bio.script)).ret
      ensures Followed(old(writeBuffer.Sending(bio.script)), old(bio.taken))
      ensures Stalls(old(bio.script)) && old(writeBuffer.size) > 0 ==>
        && bio.taken == old(bio.taken) && bio.script == old(bio.script)[1..]
        && forall data, offset :: old(Filled(data, offset)) ==> Filled(data, offset)
    {
      hide Bounded, Numbered, Wire, Conserves, Flowing;
      ghost var taken, contents := bio.taken, writeBuffer.Contents();
      if Stalls(bio.script) && writeBuffer.size > 0 {
        FlowStalls(writeBuffer.buf[..], writeBuffer.offset, writeBuffer.size, bio.script);
      }
      if writeBuffer.size > 0 && Willing(bio.script, writeBuffer.size) {
        FlowCompletes(writeBuffer.buf[..], writeBuffer.offset, writeBuffer.size, bio.script,
                      |bio.script| - writeBuffer.size);
      }
      ret := writeBuffer.Flush(bio);
      if safe { FlushConserves(taken, contents, bio.taken, writeBuffer.Contents(), Unsent(), Wire(log)); }
    }

    // ssl3_flush_flight.
    method FlushFlight() returns (ret: int)
      requires Valid()
      modifies `flight, `flightOffset, writeBuffer, bio
      ensures Valid() && (writeBuffer.buf == old(writeBuffer.buf) || writeBuffer.buf == null)
      ensures old(bio.taken) <= bio.taken
      ensures ret > 0 ==> flight.None? && (old(flight).Some? ==> writeBuffer.size == 0)
      // Without a flight nothing is flushed, not even the write buffer.
      ensures old(flight).None? ==>
        ret == 1 && bio.taken == old(bio.taken) && writeBuffer.Contents() == old(writeBuffer.Contents())
      // Success means that the transport has taken everything sealed exactly if there was a flight, or nothing to
      // flush.
      ensures ret > 0 && safe ==> (bio.taken == Wire(log) <==> old(flight).Some? || old(writeBuffer.size) == 0)
      ensures |Unsent()| <= |old(Unsent())|
      // With a flight that may be written, the outcome is that of the two queues, one after the other, over the script.
      ensures old(flight).Some? && (writeShutdown || |old(flight).value| > INT_MAX) ==>
        && ret == -1 && bio.taken == old(bio.taken) && flight == old(flight) && flightOffset == old(flightOffset)
        && writeBuffer.Contents() == old(writeBuffer.Contents()) && bio.script == old(bio.script)
      ensures old(flight).Some? && !writeShutdown && |old(flight).value| <= INT_MAX ==>
        Flushed(old(writeBuffer.Sending(bio.script)), old(Unsent()), old(bio.taken), ret)
      // If the transport takes something with every call and flushes, everything goes out: the buffer, then the flight.
      ensures old(flight).Some? && !writeShutdown && |old(flight).value| <= INT_MAX && old(writeBuffer.Safe())
              && Willing(old(bio.script), old(writeBuffer.size) + |old(Unsent())|) ==>
        ret == 1 && bio.taken == old(bio.taken) + old(writeBuffer.Contents()) + old(Unsent())
    {
      hide Bounded, Numbered, Wire, Conserves, Flowing, Streaming;
      if flight.None? {
        if safe { AllSent(bio.taken, writeBuffer.Contents(), Wire(log)); }
        return 1;
      }
      if writeShutdown || |flight.value| > INT_MAX { return -1; }
      if writeBuffer.Safe() && Willing(bio.script, writeBuffer.size + |Unsent()|) {
        FlowCompletes(if writeBuffer.buf == null then [] else writeBuffer.buf[..], writeBuffer.offset, writeBuffer.size,
                      bio.script, |Unsent()|);
        StreamCompletes(Unsent(), writeBuffer.Sending(bio.script).script);
      }
      ret := FlushBoth();
    }

    // Its part for a flight that may be written: the buffer, the flight, and the end of it.
    method FlushBoth() returns (ret: int)
      requires Valid() && flight.Some?
      modifies `flight, `flightOffset, writeBuffer, bio
      ensures Valid() && (writeBuffer.buf == old(writeBuffer.buf) || writeBuffer.buf == null)
      ensures old(bio.taken) <= bio.taken
      ensures ret > 0 ==> flight.None? && writeBuffer.size == 0 && (safe ==> bio.taken == Wire(log))
      ensures |Unsent()| <= |old(Unsent())|
      ensures Flushed(old(writeBuffer.Sending(bio.script)), old(Unsent()), old(bio.taken), ret)
    {
      hide Bounded, Numbered, Wire, Conserves, Flowing, Streaming;
      if writeBuffer.size != 0 {
        ret := FlushBuffer();
        if ret <= 0 { return; }
      } else {
        FlowDone(if writeBuffer.buf == null then [] else writeBuffer.buf[..], writeBuffer.offset, bio.script);
      }
      ret := WriteFlight();
      if ret <= 0 { return; }
      ret := FinishFlight();
    }

    // How flushing ended: in the buffer, in the flight, or with the BIO_flush after both.
    ghost predicate Flushed(buffer: Flow, unsent: seq<Byte>, taken: seq<Byte>, ret: int)
      requires writeBuffer.Valid()
      reads `flight, `flightOffset, writeBuffer, writeBuffer.buf, bio
    {
      if buffer.ret <= 0 then
        && ret == buffer.ret && bio.taken == taken + buffer.taken && writeBuffer.Contents() == buffer.rest
        && flight.Some? && Unsent() == unsent && bio.script == buffer.script
      else
        var f := Streaming(unsent, buffer.script);
        && writeBuffer.size == 0 && bio.taken == taken + buffer.taken + f.taken && Unsent() == f.rest
        && if f.ret <= 0 then ret == f.ret && flight.Some? && bio.script == f.script
           else if f.script == [] || f.script[0] > 0 then ret == 1 && flight.None?
           else ret == -1 && flight.Some?
    }

    // The end of ssl3_flush_flight: the flight is released once the transport has flushed.
    method FinishFlight() returns (ret: int)
      requires Valid() && flight.Some? && flightOffset == |flight.value| && writeBuffer.size == 0
      modifies `flight, `flightOffset, bio
      ensures Valid() && bio.taken == old(bio.taken)
      ensures ret > 0 ==> flight.None? && (safe ==> bio.taken == Wire(log))
      ensures |Unsent()| <= |old(Unsent())|
      ensures ret == if old(bio.script) == [] || old(bio.script)[0] > 0 then 1 else -1
      ensures ret <= 0 ==> flight == old(flight) && flightOffset == old(flightOffset)
    {
      hide Bounded, Numbered, Wire, Conserves;
      var flushed := bio.Flush();
      if flushed <= 0 { return -1; }
      assert Unsent() == [] && writeBuffer.Contents() == [];
      flight, flightOffset := None, 0;
      if safe { AllSent(bio.taken, writeBuffer.Contents(), Wire(log)); }
      return 1;
    }

    // The loop of ssl3_flush_flight.
    method WriteFlight() returns (ret: int)
      requires Valid() && flight.Some? && writeBuffer.size == 0
      modifies `flightOffset, bio
      ensures Valid() && old(bio.taken) <= bio.taken
      ensures ret > 0 ==> flightOffset == |flight.value|
      ensures old(flightOffset) <= flightOffset
      ensures var f := old(Streaming(Unsent(), bio.script));
              && ret == f.ret && bio.taken == old(bio.taken) + f.taken && Unsent() == f.rest && bio.script == f.script
    {
      hide Bounded, Numbered, Wire, Conserves, Streaming;
      while flightOffset < |flight.value|
        invariant Valid() && old(bio.taken) <= bio.taken && old(flightOffset) <= flightOffset
        invariant Continues(old(Streaming(Unsent(), bio.script)), old(bio.taken), Streaming(Unsent(), bio.script),
                            bio.taken)
        decreases |flight.value| - flightOffset
      {
        ret := WriteSome();
        if ret <= 0 { return; }
      }
      assert Unsent() == [];
      StreamDone(bio.script);
      ret := 1;
    }

    // One BIO_write of that loop.
    method WriteSome() returns (ret: int)
      requires Valid() && flight.Some? && writeBuffer.size == 0 && flightOffset < |flight.value|
      modifies `flightOffset, bio
      ensures Valid() && old(bio.taken) <= bio.taken
      ensures flightOffset == old(flightOffset) + if ret > 0 then ret else 0
      ensures if ret > 0
              then Continues(old(Streaming(Unsent(), bio.script)), old(bio.taken), Streaming(Unsent(), bio.script),
                             bio.taken)
              else old(Streaming(Unsent(), bio.script)) == Flow(ret, [], Unsent(), 0, bio.script)
                   && bio.taken == old(bio.taken)
    {
      hide Bounded, Numbered, Wire, Conserves, Streaming;
      ghost var taken, unsent, script := bio.taken, Unsent(), bio.script;
      assert writeBuffer.Contents() == [];
      ret := bio.Write(flight.value[flightOffset..]);
      StreamStep(taken, unsent, script, ret);
      if ret <= 0 { return; }
      flightOffset := flightOffset + ret;
      assert Unsent() == unsent[ret..];
      if safe { WriteConserves(taken, unsent, Wire(log), ret); }
    }

    // The arguments of a write match those of the record that is pending.
    predicate Retries(kind: Kind, addr: int, len: nat)
      reads this
    {
      wpendTot <= len && (movingBuffer || wpendBuf == addr) && wpendType == kind
    }

    // ssl3_write_pending.
    method WritePending(kind: Kind, addr: int, len: nat) returns (ret: int)
      requires Valid() && wpendPending
      modifies `wpendPending, writeBuffer, bio
      ensures Valid() && (writeBuffer.buf == old(writeBuffer.buf) || writeBuffer.buf == null)
      ensures old(bio.taken) <= bio.taken
      ensures if ret > 0 then !wpendPending && ret == wpendRet && Retries(kind, addr, len) && writeBuffer.size == 0
                                 && writeBuffer.buf == null
              else wpendPending
      ensures Retries(kind, addr, len) ==> Passes(old(writeBuffer.size), old(bio.script), ret)
      ensures if wpendTot <= len && (movingBuffer || wpendBuf == addr) && wpendType == kind
              then Followed(old(writeBuffer.Sending(bio.script)), old(bio.taken))
              else ret == -1 && bio.taken == old(bio.taken)
      ensures Retries(kind, addr, len) ==> (ret > 0 <==> old(writeBuffer.Sending(bio.script)).ret > 0)
      ensures Retries(kind, addr, len) && ret <= 0 ==> ret == old(writeBuffer.Sending(bio.script)).ret
      ensures Stalls(old(bio.script)) && Retries(kind, addr, len) && old(writeBuffer.size) > 0 ==>
        && bio.taken == old(bio.taken) && bio.script == old(bio.script)[1..]
        && forall data, offset :: old(Filled(data, offset)) ==> Filled(data, offset)
    {
      hide Bounded, Numbered, Wire, Conserves, Flowing, Filled;
      if !Retries(kind, addr, len) { return -1; }
      ret := FlushBuffer();
      if ret <= 0 { return; }
      wpendPending := false;
      return wpendRet;
    }

    // do_ssl3_write, part one: room for the unsent flight and the new record.
    method Reserve(len: nat) returns (ok: bool)
      requires Valid() && writeBuffer.size == 0
      modifies `allocs, writeBuffer
      ensures Valid() && writeBuffer.size == 0
      ensures if ok && old(writeBuffer.cap) < writeBuffer.cap then fresh(writeBuffer.buf)
              else writeBuffer.buf == old(writeBuffer.buf)
      ensures ok ==> writeBuffer.cap >= len + overhead + |Unsent()|
      ensures ok <==> len + overhead + |Unsent()| <= MAX_CAP
      ensures ok && old(writeBuffer.cap) < len + overhead + |Unsent()| ==> Filled([], old(NewOffset()))
    {
      hide Bounded, Numbered, Wire, Conserves;
      var flightLen := if flight.Some? then |flight.value| - flightOffset else 0;
      ok := writeBuffer.EnsureCap(flightLen + alignPrefix, len + overhead + flightLen, alloc(allocs));
      allocs := allocs + 1;
    }

    // Part two: the unsent flight goes in front of the new record.
    method MoveFlight()
      requires Valid() && writeBuffer.size == 0 && writeBuffer.cap >= |Unsent()| && !wpendPending
      modifies `flight, `flightOffset, `safe, writeBuffer, writeBuffer.buf
      ensures Valid() && writeBuffer.buf == old(writeBuffer.buf)
      ensures flight.None? && writeBuffer.size == |old(Unsent())| && writeBuffer.Contents() == old(Unsent())
      ensures writeBuffer.cap == old(writeBuffer.cap) && writeBuffer.offset < ALIGN_PAYLOAD
      ensures forall offset :: old(Filled([], offset)) ==> Filled(old(Unsent()), offset)
      ensures old(safe) && |old(Unsent())| <= SAFE_SIZE ==> safe
    {
      hide Bounded, Numbered, Wire, Conserves;
      assert writeBuffer.Contents() == [];
      if flight.Some? { AppendFlight(); }
    }

    method AppendFlight()
      requires Valid() && flight.Some? && writeBuffer.size == 0 && writeBuffer.cap >= |Unsent()| && !wpendPending
      modifies `flight, `flightOffset, `safe, writeBuffer, writeBuffer.buf
      ensures Valid() && writeBuffer.buf == old(writeBuffer.buf) && flight.None?
      ensures writeBuffer.size == |old(Unsent())| && writeBuffer.Contents() == old(Unsent())
      ensures writeBuffer.cap == old(writeBuffer.cap) && writeBuffer.offset == old(writeBuffer.offset)
      ensures forall offset :: old(Filled([], offset)) ==> Filled(old(Unsent()), offset)
      ensures old(safe) && |old(Unsent())| <= SAFE_SIZE ==> safe
    {
      hide Bounded, Numbered, Wire, Conserves;
      ghost var unsent := Unsent();
      assert writeBuffer.Contents() == [];
      if safe { MoveConserves(bio.taken, unsent, Wire(log)); }
      writeBuffer.Append(flight.value[flightOffset..]);
      flight, flightOffset := None, 0;
      assert writeBuffer.Contents() == [] + unsent;
      safe := safe && writeBuffer.Safe();
    }

    // Part three: the record is sealed into the write buffer.
    method SealIntoBuffer(kind: Kind, data: seq<Byte>) returns (ok: bool)
      requires Valid() && flight.None? && writeBuffer.cap - writeBuffer.size >= |data| + overhead
      requires writeBuffer.offset < ALIGN_PAYLOAD && data != [] && !wpendPending
      modifies `sealed, `log, `safe, writeBuffer, writeBuffer.buf
      ensures Valid() && writeBuffer.buf == old(writeBuffer.buf)
      ensures Grew(old(log), log, ok, kind, data)
      ensures ok <==> seal(old(sealed), kind, data).Some?
      ensures writeBuffer.Contents()
           == old(writeBuffer.Contents()) + if ok then seal(old(sealed), kind, data).value else []
      ensures writeBuffer.offset == old(writeBuffer.offset)
      ensures ok ==> forall before, offset :: old(Filled(before, offset)) ==>
        Filled(before + seal(old(sealed), kind, data).value, offset)
      ensures old(safe) && old(writeBuffer.size) + |data| + overhead <= SAFE_SIZE ==> safe
    {
      hide Writer.Sound, Bounded, Grew, Filled;
      SoundBounded();
      BoundedBy(seal, overhead, sealed, kind, data);
      GrewNot(log, kind, data);
      var out := seal(sealed, kind, data);
      if out.None? { return false; }
      GrewSnoc(log, Rec(kind, data, out.value));
      PutRecord(out.value, Rec(kind, data, out.value));
      return true;
    }

    lemma {:induction false} SoundBounded()
      requires Sound()
      ensures Bounded(seal, overhead) && sealed == |log| && writeBuffer.Valid()
    {
    }

    method PutRecord(out: seq<Byte>, ghost r: Rec)
      requires Valid() && flight.None? && writeBuffer.cap - writeBuffer.size >= |out|
      requires writeBuffer.offset < ALIGN_PAYLOAD && !wpendPending
      requires seal(sealed, r.kind, r.plain) == Some(r.bytes) && r.bytes == out
      modifies `sealed, `log, `safe, writeBuffer, writeBuffer.buf
      ensures Valid() && writeBuffer.buf == old(writeBuffer.buf) && sealed == old(sealed) + 1 && log == old(log) + [r]
      ensures writeBuffer.Contents() == old(writeBuffer.Contents()) + out
      ensures writeBuffer.offset == old(writeBuffer.offset)
      ensures forall before, offset :: old(Filled(before, offset)) ==> Filled(before + out, offset)
      ensures old(safe) && old(writeBuffer.size) + |out| <= SAFE_SIZE ==> safe
    {
      hide Bounded, Numbered, Wire, Conserves;
      Snoc(log, r);
      NumberedSnoc(seal, log, r);
      if safe { SealConserves(bio.taken, writeBuffer.Contents(), Wire(log), out); }
      writeBuffer.Append(out);
      sealed := sealed + 1;
      log := log + [r];
      safe := safe && writeBuffer.Safe();
    }

    // The checks of do_ssl3_write: an empty write buffer, a short enough record, and a buffer for it and the flight.
    predicate CanWrite(pending: nat, unsent: nat, len: nat) {
      pending == 0 && len <= MAX_PLAIN && len + overhead + unsent <= MAX_CAP
    }

    // A new record, with the unsent flight in front of it.
    method NewRecord(kind: Kind, data: seq<Byte>) returns (ok: bool)
      requires Valid() && !wpendPending && data != []
      modifies `flight, `flightOffset, `allocs, `safe, `sealed, `log, writeBuffer, writeBuffer.buf
      ensures Valid() && (writeBuffer.buf == old(writeBuffer.buf) || fresh(writeBuffer.buf))
      ensures Grew(old(log), log, ok, kind, data)
      ensures old(safe) && |old(Unsent())| + |data| + overhead <= SAFE_SIZE ==> safe
      ensures |Unsent()| <= |old(Unsent())|
      ensures ok <==> CanWrite(old(writeBuffer.size), old(|Unsent()|), |data|) && seal(old(sealed), kind, data).Some?
      ensures ok ==> writeBuffer.Contents() == old(Unsent()) + seal(old(sealed), kind, data).value
      ensures ok ==> writeBuffer.offset < ALIGN_PAYLOAD
      ensures ok && old(writeBuffer.cap) < |data| + overhead + |old(Unsent())| ==>
        Filled(old(Unsent()) + seal(old(sealed), kind, data).value, old(NewOffset()))
      // If there is room the flight moves into the write buffer, even if sealing then fails.
      ensures CanWrite(old(writeBuffer.size), old(|Unsent()|), |data|) ==>
        flight.None? && (!ok ==> writeBuffer.Contents() == old(Unsent()))
      ensures !CanWrite(old(writeBuffer.size), old(|Unsent()|), |data|) ==>
        && flight == old(flight) && flightOffset == old(flightOffset)
        && writeBuffer.Contents() == old(writeBuffer.Contents())
    {
      hide Bounded, Numbered, Wire, Grew, Conserves;
      GrewNot(log, kind, data);
      if |data| > MAX_PLAIN || writeBuffer.size > 0 { return false; }
      ok := Reserve(|data|);
      if !ok { return; }
      MoveFlight();
      ok := SealIntoBuffer(kind, data);
    }

    // Of n bytes to be written, those of the record that goes out next; the unsent flight left after it; and what the
    // transport takes for it at most.
    ghost function Piece(n: nat): nat
      reads `wpendPending, `wpendRet
    {
      if wpendPending then wpendRet else n
    }

    ghost function Left(): nat
      reads `flight, `flightOffset, `wpendPending
    {
      if wpendPending then |Unsent()| else 0
    }

    ghost function Price(n: nat): nat
      reads `flight, `flightOffset, `wpendPending, writeBuffer
    {
      if wpendPending then writeBuffer.size else |Unsent()| + n + overhead
    }

    // Nothing is in the way of a record: the write is that of the pending record again, or the write buffer is empty
    // and the record can be sealed; and the transport takes something with every call.
    ghost predicate Smooth(kind: Kind, addr: int, data: seq<Byte>)
      reads this, writeBuffer, bio
    {
      && data != [] && Willing(bio.script, Price(|data|))
      && if wpendPending then Retries(kind, addr, |data|) && 0 < writeBuffer.size
         else writeBuffer.size == 0 && CanWrite(0, |Unsent()|, |data|)
              && seal(sealed, kind, data).Some? && seal(sealed, kind, data).value != []
    }

    // A write succeeded, nothing is left but an unsent flight, and the transport goes on taking.
    ghost predicate Gone(ret: int, want: nat, unsent: nat, left: int)
      reads `flight, `flightOffset, `wpendPending, writeBuffer, bio
    {
      && ret == want && !wpendPending && writeBuffer.size == 0 && writeBuffer.buf == null && |Unsent()| == unsent
      && Willing(bio.script, left)
    }

    // do_ssl3_write.
    method DoWrite(kind: Kind, addr: int, data: seq<Byte>) returns (ret: int)
      requires Valid()
      modifies `flight, `flightOffset, `allocs, `safe, `sealed, `log, `wpendPending, `wpendType, `wpendTot, `wpendBuf,
          `wpendRet
      modifies writeBuffer, writeBuffer.buf, bio
      ensures Valid() && (writeBuffer.buf == null || writeBuffer.buf == old(writeBuffer.buf) || fresh(writeBuffer.buf))
      ensures old(wpendPending) ==>
        && log == old(log) && flight == old(flight) && wpendRet == old(wpendRet) && wpendTot == old(wpendTot)
        && wpendType == old(wpendType) && wpendBuf == old(wpendBuf) && safe == old(safe)
        && (if ret > 0 then !wpendPending && ret == wpendRet && Retries(kind, addr, |data|) else wpendPending)
        && (Retries(kind, addr, |data|) ==> Followed(old(writeBuffer.Sending(bio.script)), old(bio.taken)))
        && (Retries(kind, addr, |data|) ==> (ret > 0 <==> old(writeBuffer.Sending(bio.script)).ret > 0))
      ensures !old(wpendPending) && data == [] ==> ret == if old(writeBuffer.size) > 0 then -1 else 0
      ensures !old(wpendPending) ==>
        if |log| == |old(log)| then log == old(log) && ret <= 0 && !wpendPending
        else
          && Grew(old(log), log, true, kind, data)
          && wpendTot == wpendRet == |data| > 0 && wpendBuf == addr && wpendType == kind
          && if ret > 0 then ret == |data| && !wpendPending else wpendPending
      ensures old(safe) && |old(Unsent())| + |data| + overhead <= SAFE_SIZE ==> safe
      ensures |Unsent()| <= |old(Unsent())|
      ensures !old(wpendPending) ==>
        (|log| != |old(log)| <==>
          && data != [] && CanWrite(old(writeBuffer.size), old(|Unsent()|), |data|)
          && seal(old(sealed), kind, data).Some?)
      ensures !old(wpendPending) && |log| != |old(log)|
              && old(writeBuffer.cap) < |data| + overhead + |old(Unsent())| ==>
        Waits(old(Unsent()) + seal(old(sealed), kind, data).value, old(NewOffset()), old(bio.taken), old(bio.script))
      ensures !old(wpendPending) && |log| != |old(log)| ==>
        Passes(|old(Unsent())| + |seal(old(sealed), kind, data).value|, old(bio.script), ret)
      ensures old(Smooth(kind, addr, data)) ==>
        Gone(ret, old(Piece(|data|)), old(Left()), |old(bio.script)| - old(Price(|data|)))
      // The flight and the new record go out one after the other, as far as the transport takes them.
      ensures !old(wpendPending) && |log| != |old(log)| && |old(Unsent())| + |data| + overhead <= SAFE_SIZE ==>
        WentOut(old(Unsent()) + seal(old(sealed), kind, data).value, old(bio.taken), old(bio.script), ret)
      // A new record takes the flight with it.
      ensures !old(wpendPending) && |log| != |old(log)| ==> flight.None?
      // The write buffer is left with data and no pending record exactly if it was so before, or if there was room,
      // the flight had moved and sealing then failed. It then holds the flight, and every later write fails.
      ensures !old(wpendPending) ==>
        (writeBuffer.size > 0 && !wpendPending <==>
           || old(writeBuffer.size) > 0
           || (data != [] && CanWrite(0, old(|Unsent()|), |data|) && old(Unsent()) != []
               && seal(old(sealed), kind, data).None?))
      ensures !old(wpendPending) && old(writeBuffer.size) > 0 ==>
        && ret == -1 && log == old(log) && flight == old(flight) && flightOffset == old(flightOffset)
        && writeBuffer.Contents() == old(writeBuffer.Contents()) && bio.taken == old(bio.taken)
      ensures !old(wpendPending) && old(writeBuffer.size) == 0 && writeBuffer.size > 0 && !wpendPending ==>
        ret == -1 && flight.None? && writeBuffer.Contents() == old(Unsent()) && bio.taken == old(bio.taken)
    {
      hide Bounded, Numbered, Wire, Grew, Conserves, Filled, Flowing, Streaming;
      if !wpendPending {
        BoundedBy(seal, overhead, sealed, kind, data);
        if Smooth(kind, addr, data) { WillingAll(bio.script, Price(|data|)); }
      }
      if wpendPending {
        ret := WritePending(kind, addr, |data|);
        return;
      }
      if data == [] { return if writeBuffer.size > 0 then -1 else 0; }
      ret := WriteRecord(kind, addr, data);
    }

    // Its part for a new record.
    method WriteRecord(kind: Kind, addr: int, data: seq<Byte>) returns (ret: int)
      requires Valid() && !wpendPending && data != []
      modifies `flight, `flightOffset, `allocs, `safe, `sealed, `log, `wpendPending, `wpendType, `wpendTot, `wpendBuf,
          `wpendRet
      modifies writeBuffer, writeBuffer.buf, bio
      ensures Valid() && (writeBuffer.buf == null || writeBuffer.buf == old(writeBuffer.buf) || fresh(writeBuffer.buf))
      ensures
        if |log| == |old(log)| then log == old(log) && ret == -1 && !wpendPending
        else
          && Grew(old(log), log, true, kind, data)
          && wpendTot == wpendRet == |data| && wpendBuf == addr && wpendType == kind
          && if ret > 0 then ret == |data| && !wpendPending && writeBuffer.size == 0 && writeBuffer.buf == null
             else wpendPending
      ensures |log| != |old(log)| ==>
        Passes(|old(Unsent())| + |seal(old(sealed), kind, data).value|, old(bio.script), ret)
      ensures old(safe) && |old(Unsent())| + |data| + overhead <= SAFE_SIZE ==> safe
      ensures |Unsent()| <= |old(Unsent())|
      ensures |log| != |old(log)| <==>
        CanWrite(old(writeBuffer.size), old(|Unsent()|), |data|) && seal(old(sealed), kind, data).Some?
      ensures |log| == |old(log)| ==> bio.taken == old(bio.taken)
      ensures |log| != |old(log)| && old(writeBuffer.cap) < |data| + overhead + |old(Unsent())| ==>
        Waits(old(Unsent()) + seal(old(sealed), kind, data).value, old(NewOffset()), old(bio.taken), old(bio.script))
      ensures |log| != |old(log)| && |old(Unsent())| + |data| + overhead <= SAFE_SIZE ==>
        WentOut(old(Unsent()) + seal(old(sealed), kind, data).value, old(bio.taken), old(bio.script), ret)
      ensures |log| != |old(log)| ==> flight.None?
      ensures |log| == |old(log)| && CanWrite(old(writeBuffer.size), old(|Unsent()|), |data|) ==>
        flight.None? && writeBuffer.Contents() == old(Unsent())
      ensures |log| == |old(log)| && !CanWrite(old(writeBuffer.size), old(|Unsent()|), |data|) ==>
        && writeBuffer.Contents() == old(writeBuffer.Contents())
        && flight == old(flight) && flightOffset == old(flightOffset)
    {
      hide Bounded, Numbered, Wire, Grew, Conserves, CanWrite, Filled, Flowing, Streaming;
      BoundedBy(seal, overhead, sealed, kind, data);
      var ok := NewRecord(kind, data);
      GrewLength(old(log), log, ok, kind, data);
      if !ok { return -1; }
      ret := FlushRecord(kind, addr, |data|);
    }

    // The arguments are kept so that a retry can be checked against them.
    method FlushRecord(kind: Kind, addr: int, len: nat) returns (ret: int)
      requires Valid() && !wpendPending && len > 0
      modifies `wpendPending, `wpendType, `wpendTot, `wpendBuf, `wpendRet, writeBuffer, bio
      ensures Valid() && (writeBuffer.buf == old(writeBuffer.buf) || writeBuffer.buf == null)
      ensures wpendTot == wpendRet == len && wpendBuf == addr && wpendType == kind
      ensures if ret > 0 then ret == len && !wpendPending && writeBuffer.size == 0 && writeBuffer.buf == null
              else wpendPending
      ensures Passes(old(writeBuffer.size), old(bio.script), ret)
      ensures forall data, offset :: old(Filled(data, offset)) ==>
        Waits(data, offset, old(bio.taken), old(bio.script))
      ensures old(writeBuffer.Safe()) ==> WentOut(old(writeBuffer.Contents()), old(bio.taken), old(bio.script), ret)
    {
      hide Bounded, Numbered, Wire, Conserves, Filled, Flowing, Streaming, Alike, Followed, WentOut;
      ghost var f, contents, safely := writeBuffer.Sending(bio.script), writeBuffer.Contents(), writeBuffer.Safe();
      if safely { BufferIsStream(); }
      wpendTot, wpendBuf, wpendType, wpendRet, wpendPending := len, addr, kind, len, true;
      ghost var taken, script := bio.taken, bio.script;
      FilledLength();
      label Kept:
      ret := WritePending(kind, addr, len);
      if safely { FollowedOut(f, contents, taken, script, ret); }
      forall data, offset | old(Filled(data, offset)) ensures Waits(data, offset, taken, script) {
        assert old@Kept(Filled(data, offset));
      }
    }

    lemma {:induction false} BufferIsStream()
      requires writeBuffer.Valid() && writeBuffer.Safe()
      ensures Alike(writeBuffer.Sending(bio.script), Streaming(writeBuffer.Contents(), bio.script))
    {
      FlowIsStream(if writeBuffer.buf == null then [] else writeBuffer.buf[..], writeBuffer.offset, writeBuffer.size,
                   bio.script);
    }

    lemma {:induction false} FollowedOut(f: Flow, data: seq<Byte>, taken: seq<Byte>, script: seq<int>, ret: int)
      requires writeBuffer.Valid() && Followed(f, taken) && Alike(f, Streaming(data, script))
      requires (ret > 0 <==> f.ret > 0) && (ret <= 0 ==> ret == f.ret)
      ensures WentOut(data, taken, script, ret)
    {
    }

    lemma {:induction false} FilledLength()
      ensures forall data, offset :: Filled(data, offset) ==> |data| == writeBuffer.size
    {
    }

    // Sealing never fails.
    ghost predicate Seals() {
      && maxSendFragment <= MAX_PLAIN && maxSendFragment + overhead <= MAX_CAP
      && forall n, k, p | p != [] && |p| <= MAX_PLAIN :: seal(n, k, p).Some? && seal(n, k, p).value != []
    }

    // What it takes at most to send n bytes.
    ghost function Cost(n: nat): nat
      requires maxSendFragment > 0
    {
      n + Chunks(n, maxSendFragment) * overhead
    }

    // So much is within the limit for early data.
    ghost predicate Room(n: nat)
      reads `canEarlyWrite, `earlyDataWritten
    {
      canEarlyWrite ==> n <= EarlyRoom(maxEarlyData, earlyDataWritten)
    }

    // The first record of n bytes, and those after it.
    lemma {:induction false} CostNext(n: nat, nw: nat)
      requires maxSendFragment > 0 && nw == if n > maxSendFragment then maxSendFragment else n
      ensures Cost(n) >= nw + overhead
      ensures n > nw ==> Cost(n) == nw + overhead + Cost(n - nw)
    {
      ChunksUnfold(n, maxSendFragment);
      hide Chunks;
      if n > nw { OneMoreTime(Chunks(n - nw, maxSendFragment), overhead); }
    }

    ghost function After(n: int): nat
      requires maxSendFragment > 0
    {
      if n <= 0 then 0 else Cost(n)
    }

    // What it takes at most to send the last n bytes, with all that waits before them.
    ghost function Bill(n: nat): nat
      requires maxSendFragment > 0
      reads `flight, `flightOffset, `wpendPending, `wpendRet, writeBuffer
    {
      |Unsent()| + if wpendPending then writeBuffer.size + After(n - wpendRet) else Cost(n)
    }

    // As much as goes into one record.
    ghost function FirstOf(n: nat): nat {
      if n > maxSendFragment then maxSendFragment else n
    }

    // Nothing is in the way of writing the last n bytes, which begin at this address.
    ghost predicate Eager(addr: int, n: nat)
      reads this, writeBuffer
    {
      && 0 < n && 0 < maxSendFragment && Seals() && Room(n) && maxSendFragment + overhead + |Unsent()| <= MAX_CAP
      && if wpendPending then Retries(AppData, addr, FirstOf(n)) && 0 < writeBuffer.size else writeBuffer.size == 0
    }

    // ssl3_write_app_data. What has been sealed of the caller's buffer is always exactly its first Progress() bytes,
    // as long as the caller retries with the same buffer.
    method WriteAppData(addr: int, data: seq<Byte>) returns (ret: int, needsHandshake: bool)
      requires Valid() && EarlyCounted()
      modifies `flight, `flightOffset, `allocs, `safe, `sealed, `log, `wpendPending, `wpendType, `wpendTot, `wpendBuf,
          `wpendRet, `early, `earlyDataWritten, `canEarlyWrite, `wnum
      modifies writeBuffer, writeBuffer.buf, bio
      ensures EarlyCounted()
      ensures Valid() && (writeBuffer.buf == null || writeBuffer.buf == old(writeBuffer.buf) || fresh(writeBuffer.buf))
      ensures OnlyAppData(old(log), log)
      ensures ret > 0 ==> ret <= |data| && wnum == 0 && !wpendPending && (!partialWrite ==> ret == |data|)
      ensures SealedUpTo(data, old(Progress()), if ret > 0 then ret else Progress(), old(Plain(log, AppData)),
          Plain(log, AppData))
      ensures old(safe) && |old(Unsent())| + maxSendFragment + overhead <= SAFE_SIZE ==> safe
      ensures |Unsent()| <= |old(Unsent())|
      // Everything sealed is early data, or nothing is; the write stops and asks for the handshake at the limit.
      ensures early == old(early) + if old(canEarlyWrite) then |Plain(log, AppData)| - |old(Plain(log, AppData))| else 0
      ensures canEarlyWrite == (old(canEarlyWrite) && !needsHandshake)
      ensures needsHandshake ==> ret == -1 && earlyDataWritten == maxEarlyData
      // It stops short of the limit only if something else is in the way.
      ensures ret <= 0 && canEarlyWrite && !old(writeShutdown) && old(wnum) <= |data| ==>
        EarlyRoom(maxEarlyData, earlyDataWritten) > 0
      ensures old(writeShutdown || wnum > |data|) ==>
        && ret == -1 && log == old(log) && flight == old(flight) && flightOffset == old(flightOffset)
        && wpendPending == old(wpendPending) && writeBuffer.Contents() == old(writeBuffer.Contents())
        && bio.taken == old(bio.taken) && wnum == if old(writeShutdown) then old(wnum) else 0
      // If nothing is in the way, and the transport takes something with every call, all of the data goes out, or its
      // next record if the caller takes partial writes; with the flight and the record that were waiting.
      ensures !old(writeShutdown) && old(wnum < |data| && Eager(addr + wnum, |data| - wnum)
                                         && Willing(bio.script, Bill(|data| - wnum))) ==>
        && ret == (if partialWrite then old(wnum) + old(Piece(FirstOf(|data| - wnum))) else |data|)
        && !wpendPending && writeBuffer.buf == null && writeBuffer.size == 0
        && Willing(bio.script, |old(bio.script)| - old(Bill(|data| - wnum)))
    {
      hide Bounded, Numbered, Wire, Plain, Conserves, Sound, Counted;
      NothingNew(log);
      needsHandshake := false;
      if writeShutdown { return -1, false; }
      var tot := wnum;
      wnum := 0;
      if |data| < tot { return -1, false; }
      FragmentPositive();
      ghost var smooth := tot < |data| && Eager(addr + tot, |data| - tot) && Willing(bio.script, Bill(|data| - tot));
      ret, needsHandshake := WriteLoop(addr, data, tot, old(Progress()), Plain(log, AppData), smooth);
    }

    // Its loop.
    method WriteLoop(addr: int, data: seq<Byte>, start: nat, ghost p0: nat, ghost app: seq<Byte>, ghost smooth: bool)
      returns (ret: int, needsHandshake: bool)
      requires smooth ==>
        start < |data| && Eager(addr + start, |data| - start) && Willing(bio.script, Bill(|data| - start))
      requires Valid() && EarlyCounted() && wnum == 0 && start <= |data|
      requires SealedUpTo(data, p0, start + Progress(), app, Plain(log, AppData))
      modifies `flight, `flightOffset, `allocs, `safe, `sealed, `log, `wpendPending, `wpendType, `wpendTot, `wpendBuf,
          `wpendRet, `early, `earlyDataWritten, `canEarlyWrite, `wnum
      modifies writeBuffer, writeBuffer.buf, bio
      ensures EarlyCounted()
      ensures Valid() && (writeBuffer.buf == null || writeBuffer.buf == old(writeBuffer.buf) || fresh(writeBuffer.buf))
      ensures OnlyAppData(old(log), log)
      ensures ret > 0 ==> ret <= |data| && wnum == 0 && !wpendPending && (!partialWrite ==> ret == |data|)
      ensures SealedUpTo(data, p0, if ret > 0 then ret else Progress(), app, Plain(log, AppData))
      ensures old(safe) && |old(Unsent())| + maxSendFragment + overhead <= SAFE_SIZE ==> safe
      ensures |Unsent()| <= |old(Unsent())|
      ensures early == old(early) + if old(canEarlyWrite) then |Plain(log, AppData)| - |old(Plain(log, AppData))| else 0
      ensures canEarlyWrite == (old(canEarlyWrite) && !needsHandshake)
      ensures needsHandshake ==> ret == -1 && earlyDataWritten == maxEarlyData
      ensures ret <= 0 && canEarlyWrite ==> EarlyRoom(maxEarlyData, earlyDataWritten) > 0
      ensures smooth ==>
        && ret == (if partialWrite then start + old(Piece(FirstOf(|data| - start))) else |data|)
        && !wpendPending && writeBuffer.buf == null && writeBuffer.size == 0
        && Willing(bio.script, |old(bio.script)| - old(Bill(|data| - start)))
    {
      hide Writer.Valid, Plain, Unsent, SealedUpTo, OnlyAppData, Counted, EarlyCounted, Willing, Cost, Seals;
      hide Room, Eager, Bill, Piece, FirstOf;
      FragmentPositive();
      NothingNew(log);
      ghost var log0, unsent, spare := log, |Unsent()|, 0;
      if smooth {
        WillingAll(bio.script, Bill(|data| - start));
        spare := |bio.script| - Bill(|data| - start);
      }
      needsHandshake := false;
      var tot := start;
      var n: nat := |data| - tot;
      while true
        invariant Valid() && tot + n == |data| && wnum == 0
        invariant writeBuffer.buf == null || writeBuffer.buf == old(writeBuffer.buf) || fresh(writeBuffer.buf)
        invariant OnlyAppData(log0, log)
        invariant SealedUpTo(data, p0, tot + Progress(), app, Plain(log, AppData))
        invariant |Unsent()| <= unsent
        invariant old(safe) && unsent + maxSendFragment + overhead <= SAFE_SIZE ==> safe
        invariant canEarlyWrite == old(canEarlyWrite) && EarlyCounted()
        invariant smooth ==> n > 0 && Eager(addr + tot, n) && Willing(bio.script, spare + Bill(n))
        invariant smooth && partialWrite ==> tot == start && Piece(FirstOf(n)) == old(Piece(FirstOf(|data| - start)))
        invariant early
               == old(early) + if canEarlyWrite then |Plain(log, AppData)| - |old(Plain(log, AppData))| else 0
        decreases n
      {
        ghost var log1 := log;
        ret, needsHandshake := WritePass(addr, data, tot, n, p0, app, smooth, spare);
        StillOnlyAppData(log0, log1, log);
        if ret <= 0 {
          Remember(tot);
          return;
        }
        if ret == n || partialWrite {
          if smooth { WillingLess(bio.script, spare + |Unsent()| + After(n - ret), spare); }
          return tot + ret, false;
        }
        n, tot := n - ret, tot + ret;
      }
    }

    // One pass of its loop, for the last n bytes of the data.
    method WritePass(addr: int, data: seq<Byte>, tot: nat, n: nat, ghost p0: nat, ghost app: seq<Byte>,
                     ghost smooth: bool, ghost spare: int)
      returns (ret: int, needsHandshake: bool)
      requires Valid() && EarlyCounted() && wnum == 0 && tot + n == |data|
      requires SealedUpTo(data, p0, tot + Progress(), app, Plain(log, AppData))
      requires smooth ==> 0 <= spare && n > 0 && Eager(addr + tot, n) && Willing(bio.script, spare + Bill(n))
      modifies `flight, `flightOffset, `allocs, `safe, `sealed, `log, `wpendPending, `wpendType, `wpendTot, `wpendBuf,
          `wpendRet, `early, `earlyDataWritten, `canEarlyWrite
      modifies writeBuffer, writeBuffer.buf, bio
      ensures Valid() && EarlyCounted()
      ensures writeBuffer.buf == null || writeBuffer.buf == old(writeBuffer.buf) || fresh(writeBuffer.buf)
      ensures OnlyAppData(old(log), log)
      ensures ret > 0 ==> ret <= n && !wpendPending
      ensures SealedUpTo(data, p0, tot + if ret > 0 then ret else Progress(), app, Plain(log, AppData))
      ensures |Unsent()| <= |old(Unsent())|
      ensures old(safe) && |old(Unsent())| + maxSendFragment + overhead <= SAFE_SIZE ==> safe
      ensures early == old(early) + if old(canEarlyWrite) then |Plain(log, AppData)| - |old(Plain(log, AppData))| else 0
      ensures canEarlyWrite == (old(canEarlyWrite) && !needsHandshake)
      ensures needsHandshake ==> ret == -1 && earlyDataWritten == maxEarlyData
      ensures ret <= 0 && canEarlyWrite ==> EarlyRoom(maxEarlyData, earlyDataWritten) > 0
      ensures smooth ==>
        && 0 < ret == old(Piece(FirstOf(n))) && !wpendPending && writeBuffer.buf == null && writeBuffer.size == 0
        && Willing(bio.script, spare + |Unsent()| + After(n - ret))
        && (ret < n ==> Eager(addr + tot + ret, n - ret) && Bill(n - ret) == |Unsent()| + After(n - ret))
    {
      hide Writer.Valid, Plain, Unsent, SealedUpTo, OnlyAppData, Counted, Smooth, Willing, Cost, Seals;
      FragmentPositive();
      NothingNew(log);
      var max := RecordLimit();
      if max == 0 {
        canEarlyWrite := false;
        return -1, true;
      }
      var nw := if n > max then max else n;
      if smooth { SmoothNext(addr + tot, data, tot, n, nw, spare); }
      ghost var left := |bio.script| - Price(nw);
      ret := WriteChunk(addr, data, tot, nw, p0, app);
      needsHandshake := false;
      if smooth { WillingLess(bio.script, left, spare + |Unsent()| + After(n - ret)); }
    }

    lemma {:induction false} SmoothNext(addr: int, data: seq<Byte>, tot: nat, n: nat, nw: nat, spare: int)
      requires Valid() && nw == FirstOf(n) && 0 < n && tot + n <= |data| && 0 <= spare
      requires Eager(addr, n) && Willing(bio.script, spare + Bill(n))
      ensures Smooth(AppData, addr, data[tot..tot + nw]) && 0 < Piece(nw) <= nw
      ensures |bio.script| - Price(nw) >= spare + Left() + After(n - Piece(nw))
    {
      CostNext(n, nw);
      hide Cost;
    }

    method Remember(tot: nat)
      requires wnum == 0
      modifies `wnum
      ensures Progress() == tot + old(Progress())
    {
      wnum := tot;
    }

    // The most that may go into one record; none if early data has reached its limit.
    method RecordLimit() returns (max: nat)
      requires EarlyCounted() && 0 < maxSendFragment
      ensures max <= maxSendFragment
      ensures canEarlyWrite ==> max <= EarlyRoom(maxEarlyData, earlyDataWritten)
      ensures max < maxSendFragment ==> canEarlyWrite && max == EarlyRoom(maxEarlyData, earlyDataWritten)
    {
      hide Counted;
      if canEarlyWrite { RoomIs(maxEarlyData, early, Pending(), earlyDataWritten); }
      max := maxSendFragment;
      if canEarlyWrite && max > EarlyRoom(maxEarlyData, earlyDataWritten) {
        max := EarlyRoom(maxEarlyData, earlyDataWritten);
      }
    }

    // One pass of its loop, for data[tot..tot + nw], with the early data counted.
    method WriteChunk(addr: int, data: seq<Byte>, tot: nat, nw: nat, ghost p0: nat,
                      ghost app: seq<Byte>) returns (ret: int)
      requires Valid() && EarlyCounted() && wnum == 0 && tot + nw <= |data|
      requires canEarlyWrite ==> nw <= EarlyRoom(maxEarlyData, earlyDataWritten)
      requires SealedUpTo(data, p0, tot + Progress(), app, Plain(log, AppData))
      modifies `flight, `flightOffset, `allocs, `safe, `sealed, `log, `wpendPending, `wpendType, `wpendTot, `wpendBuf,
          `wpendRet, `early, `earlyDataWritten
      modifies writeBuffer, writeBuffer.buf, bio
      ensures Valid()
      ensures writeBuffer.buf == null || writeBuffer.buf == old(writeBuffer.buf) || fresh(writeBuffer.buf)
      ensures OnlyAppData(old(log), log)
      ensures ret > 0 ==> ret <= nw && !wpendPending
      ensures SealedUpTo(data, p0, tot + if ret > 0 then ret else Progress(), app, Plain(log, AppData))
      ensures |Unsent()| <= |old(Unsent())|
      ensures old(safe) && |old(Unsent())| + nw + overhead <= SAFE_SIZE ==> safe
      ensures canEarlyWrite == old(canEarlyWrite) && EarlyCounted()
      ensures EarlyRoom(maxEarlyData, earlyDataWritten) >=
              old(EarlyRoom(maxEarlyData, earlyDataWritten)) - if ret > 0 then ret else 0
      ensures early == old(early) + if canEarlyWrite then |Plain(log, AppData)| - |old(Plain(log, AppData))| else 0
      ensures old(Smooth(AppData, addr + tot, data[tot..tot + nw])) ==>
        Gone(ret, old(Piece(nw)), old(Left()), |old(bio.script)| - old(Price(nw)))
    {
      hide Writer.Valid, Writer.Unsent, Plain, SealedUpTo, OnlyAppData, Counted;
      ghost var pending, sealed := Pending(), 0;
      ret, sealed := WriteOne(addr, data, tot, nw, p0, app);
      if canEarlyWrite { CountEarly(ret, pending, sealed); }
    }

    // The early data is counted once it has been sent.
    method CountEarly(ret: int, ghost pending: nat, ghost sealed: nat)
      requires canEarlyWrite && Counted(maxEarlyData, early, pending, earlyDataWritten)
      requires sealed > 0 ==> pending == 0 && sealed <= EarlyRoom(maxEarlyData, earlyDataWritten)
      requires Pending() + (if ret > 0 then ret else 0) == pending + sealed
      modifies `early, `earlyDataWritten
      ensures EarlyCounted() && early == old(early) + sealed
      ensures earlyDataWritten <= old(earlyDataWritten) + if ret > 0 then ret else 0
    {
      CountedNext(maxEarlyData, early, pending, earlyDataWritten, sealed, if ret > 0 then ret else 0, Pending());
      if ret > 0 { earlyDataWritten := (earlyDataWritten + ret) % U16; }
      early := early + sealed;
    }

    // The do_ssl3_write of that pass.
    method WriteOne(addr: int, data: seq<Byte>, tot: nat, nw: nat, ghost p0: nat,
                    ghost app: seq<Byte>) returns (ret: int, ghost sealed: nat)
      requires Valid() && wnum == 0 && tot + nw <= |data|
      requires SealedUpTo(data, p0, tot + Progress(), app, Plain(log, AppData))
      modifies `flight, `flightOffset, `allocs, `safe, `sealed, `log, `wpendPending, `wpendType, `wpendTot, `wpendBuf,
          `wpendRet
      modifies writeBuffer, writeBuffer.buf, bio
      ensures Valid()
      ensures writeBuffer.buf == null || writeBuffer.buf == old(writeBuffer.buf) || fresh(writeBuffer.buf)
      ensures OnlyAppData(old(log), log)
      ensures ret > 0 ==> ret <= nw && !wpendPending
      ensures SealedUpTo(data, p0, tot + if ret > 0 then ret else Progress(), app, Plain(log, AppData))
      ensures |Unsent()| <= |old(Unsent())|
      ensures old(safe) && |old(Unsent())| + nw + overhead <= SAFE_SIZE ==> safe
      ensures |Plain(log, AppData)| == |old(Plain(log, AppData))| + sealed
      ensures sealed > 0 ==> old(Pending()) == 0 && sealed <= nw
      ensures Pending() + (if ret > 0 then ret else 0) == old(Pending()) + sealed
      ensures old(Smooth(AppData, addr + tot, data[tot..tot + nw])) ==>
        Gone(ret, old(Piece(nw)), old(Left()), |old(bio.script)| - old(Price(nw)))
    {
      hide Sound, Plain, SealedUpTo, OnlyAppData, Grew, Unsent, CanWrite, Filled, Followed, Waits;
      ghost var log0 := log;
      NothingNew(log0);
      ret := DoWrite(AppData, addr + tot, data[tot..tot + nw]);
      sealed := 0;
      if |log| != |log0| {
        ChunkSealed(data, p0, tot, nw, app, log0, log);
        GrewPlain(log0, log, AppData, data[tot..tot + nw]);
        sealed := nw;
      }
    }

    // The BIO_flush of ssl3_dispatch_alert, whose result is ignored.
    method FlushTransport()
      requires Valid()
      modifies bio
      ensures Valid() && bio.taken == old(bio.taken)
      ensures bio.script == if old(bio.script) == [] then [] else old(bio.script)[1..]
    {
      hide Bounded, Numbered, Wire, Conserves;
      var _ := bio.Flush();
    }

    // The two bytes of the alert that is to be sent.
    function AlertBytes(): seq<Byte>
      reads `alertLevel, `alertDesc
    {
      [alertLevel, alertDesc]
    }

    // ssl3_dispatch_alert.
    method DispatchAlert() returns (ret: int)
      requires Valid()
      modifies `flight, `flightOffset, `allocs, `safe, `sealed, `log, `wpendPending, `wpendType, `wpendTot, `wpendBuf,
          `wpendRet, `alertDispatch
      modifies writeBuffer, writeBuffer.buf, bio
      ensures Valid() && (writeBuffer.buf == null || writeBuffer.buf == old(writeBuffer.buf) || fresh(writeBuffer.buf))
      ensures Plain(log, AppData) == old(Plain(log, AppData)) && Pending() == old(Pending())
      ensures old(safe) && |old(Unsent())| + 2 + overhead <= SAFE_SIZE ==> safe
      ensures |Unsent()| <= |old(Unsent())|
      ensures alertDispatch == (old(alertDispatch) && ret <= 0)
      // What is sealed is the alert, once: exactly if no record is pending, there is room, and sealing works.
      ensures Grew(old(log), log, |log| != |old(log)|, Alert, [alertLevel, alertDesc])
      ensures |log| != |old(log)| <==>
        && !old(wpendPending) && CanWrite(old(writeBuffer.size), |old(Unsent())|, 2)
        && seal(old(sealed), Alert, [alertLevel, alertDesc]).Some?
      // Once a fatal alert has gone out, the transport is flushed.
      ensures |log| != |old(log)| && |old(Unsent())| + 2 + overhead <= SAFE_SIZE ==>
        var f := Streaming(old(Unsent()) + seal(old(sealed), Alert, AlertBytes()).value, old(bio.script));
        && bio.taken == old(bio.taken) + f.taken
        && bio.script == if f.ret > 0 && alertLevel == 2 && f.script != [] then f.script[1..] else f.script
      ensures old(Smooth(Alert, alertAddr, AlertBytes())) ==>
        && ret == 1 && !wpendPending && writeBuffer.buf == null && |Unsent()| == old(Left())
        && |log| == |old(log)| + if old(wpendPending) then 0 else 1
    {
      hide Writer.Valid, Plain, Grew, Unsent, CanWrite, Smooth;
      ret := WriteAlert();
      if ret <= 0 { return; }
      alertDispatch := false;
      if alertLevel == FATAL {
        FlushTransport();
      }
      ret := 1;
    }

    // Its do_ssl3_write.
    method WriteAlert() returns (ret: int)
      requires Valid()
      modifies `flight, `flightOffset, `allocs, `safe, `sealed, `log, `wpendPending, `wpendType, `wpendTot, `wpendBuf,
          `wpendRet
      modifies writeBuffer, writeBuffer.buf, bio
      ensures Valid() && (writeBuffer.buf == null || writeBuffer.buf == old(writeBuffer.buf) || fresh(writeBuffer.buf))
      ensures Plain(log, AppData) == old(Plain(log, AppData)) && Pending() == old(Pending())
      ensures old(safe) && |old(Unsent())| + 2 + overhead <= SAFE_SIZE ==> safe
      ensures |Unsent()| <= |old(Unsent())|
      ensures Grew(old(log), log, |log| != |old(log)|, Alert, AlertBytes())
      ensures |log| != |old(log)| <==>
        && !old(wpendPending) && CanWrite(old(writeBuffer.size), |old(Unsent())|, 2)
        && seal(old(sealed), Alert, AlertBytes()).Some?
      ensures |log| != |old(log)| && |old(Unsent())| + 2 + overhead <= SAFE_SIZE ==>
        WentOut(old(Unsent()) + seal(old(sealed), Alert, AlertBytes()).value, old(bio.taken), old(bio.script), ret)
      ensures old(Smooth(Alert, alertAddr, AlertBytes())) ==>
        && ret > 0 && !wpendPending && writeBuffer.buf == null && |Unsent()| == old(Left())
        && |log| == |old(log)| + if old(wpendPending) then 0 else 1
    {
      hide Writer.Valid, Plain, Grew, Unsent, CanWrite, Filled, Followed, Waits;
      var alert := AlertBytes();
      GrewNot(log, Alert, alert);
      ret := DoWrite(Alert, alertAddr, alert);
      if |log| != |old(log)| {
        GrewPlain(old(log), log, Alert, alert);
        GrewLength(old(log), log, true, Alert, alert);
      }
    }

    // ssl_send_alert: writing is shut down, and the alert goes out now only if nothing is being written.
    method SendAlert(level: Byte, desc: Byte) returns (ret: int)
      requires Valid()
      modifies `flight, `flightOffset, `allocs, `safe, `sealed, `log, `wpendPending, `wpendType, `wpendTot, `wpendBuf,
          `wpendRet, `alertDispatch, `alertLevel, `alertDesc, `writeShutdown
      modifies writeBuffer, writeBuffer.buf, bio
      ensures Valid() && (writeBuffer.buf == null || writeBuffer.buf == old(writeBuffer.buf) || fresh(writeBuffer.buf))
      ensures Plain(log, AppData) == old(Plain(log, AppData)) && Pending() == old(Pending())
      ensures old(safe) && |old(Unsent())| + 2 + overhead <= SAFE_SIZE ==> safe
      ensures writeShutdown && (old(writeShutdown) || old(writeBuffer.size) > 0 ==> ret == -1 && log == old(log))
      ensures if old(writeShutdown) then alertDispatch == old(alertDispatch)
              else alertLevel == level && alertDesc == desc && alertDispatch == (ret <= 0)
      ensures Grew(old(log), log, |log| != |old(log)|, Alert, [level, desc])
      ensures !old(writeShutdown) && old(writeBuffer.size == 0 && Smooth(Alert, alertAddr, [level, desc])) ==>
        && ret == 1 && !wpendPending && writeBuffer.buf == null && |Unsent()| == 0 && |log| == |old(log)| + 1
      ensures |Unsent()| <= |old(Unsent())|
    {
      hide Bounded, Numbered, Wire, Plain, Conserves;
      GrewNot(log, Alert, [level, desc]);
      if writeShutdown { return -1; }
      writeShutdown := true;
      alertDispatch, alertLevel, alertDesc := true, level, desc;
      if writeBuffer.size > 0 { return -1; }
      ret := DispatchAlert();
    }
  }

  // What can happen to a connection between two writes of application data.
  datatype Event =
    | SendMessage(msg: seq<Byte>, transcriptOk: bool)
    | SendChangeCipherSpec
    | SendFlightAlert(level: Byte, desc: Byte)
    | Flush
    | SendAlert(level: Byte, desc: Byte)
    | DispatchAlert
    | Write(addr: int, data: seq<Byte>)
    | EarlyDataEnds

  // Records are added to a flight only while it is not being written.
  predicate Allowed(w: Writer, e: Event)
    reads w
  {
    (e.SendMessage? || e.SendChangeCipherSpec? || e.SendFlightAlert?) ==> w.flightOffset == 0
  }

  // How much an event can add to the unsent flight.
  ghost function Growth(e: Event, maxSendFragment: nat, overhead: nat): nat
    requires maxSendFragment > 0
  {
    match e
    case SendMessage(msg, _) => |msg| + Chunks(|msg|, maxSendFragment) * overhead
    case SendChangeCipherSpec => 1 + overhead
    case SendFlightAlert(_, _) => 2 + overhead
    case Flush => 0
    case SendAlert(_, _) => 0
    case DispatchAlert => 0
    case Write(_, _) => 0
    case EarlyDataEnds => 0
  }

  ghost function TotalGrowth(events: seq<Event>, maxSendFragment: nat, overhead: nat): nat
    requires maxSendFragment > 0
  {
    if events == [] then 0
    else
      var n := |events| - 1;
      TotalGrowth(events[..n], maxSendFragment, overhead) + Growth(events[n], maxSendFragment, overhead)
  }

  lemma {:induction false} GrowthUpTo(events: seq<Event>, i: nat, maxSendFragment: nat, overhead: nat)
    requires maxSendFragment > 0 && i < |events|
    ensures TotalGrowth(events[..i + 1], maxSendFragment, overhead)
         == TotalGrowth(events[..i], maxSendFragment, overhead) + Growth(events[i], maxSendFragment, overhead)
    ensures TotalGrowth(events[..i], maxSendFragment, overhead) <= TotalGrowth(events, maxSendFragment, overhead)
    decreases |events| - i
  {
    assert events[..i + 1][..i] == events[..i];
    if i + 1 < |events| {
      GrowthUpTo(events, i + 1, maxSendFragment, overhead);
    } else {
      assert events[..i + 1] == events;
    }
  }

  lemma {:induction false} NoGrowth(maxSendFragment: nat, overhead: nat)
    requires maxSendFragment > 0
    ensures TotalGrowth([], maxSendFragment, overhead) == 0
  {
  }

  method Perform(w: Writer, e: Event)
    requires w.Valid() && w.EarlyCounted() && Allowed(w, e)
    modifies w, w.writeBuffer, w.writeBuffer.buf, w.bio
    ensures w.EarlyCounted()
    ensures w.Valid()
             && (w.writeBuffer.buf == null || w.writeBuffer.buf == old(w.writeBuffer.buf) || fresh(w.writeBuffer.buf))
    ensures !e.Write? ==> Plain(w.log, AppData) == old(Plain(w.log, AppData)) && w.Progress() == old(w.Progress())
    ensures old(w.safe) && |old(w.Unsent())| + w.maxSendFragment + 2 + w.overhead <= SAFE_SIZE ==> w.safe
    ensures |w.Unsent()| <= |old(w.Unsent())| + Growth(e, w.maxSendFragment, w.overhead)
  {
    hide Writer.Valid, Writer.Unsent, Writer.Smooth, Writer.Eager, Writer.Bill, Plain, Chunks, Counted, Grew;
    hide SealedUpTo;
    hide Writer.Flushed, Writer.Seals, Writer.Cost, Writer.Room, Willing, Streaming, ChunksSeal, Writer.CanWrite;
    hide OnlyAppData;
    hide Flowing;
    ghost var log := w.log;
    var ok, ret;
    match e {
      case SendMessage(msg, transcriptOk) =>
        ok := w.AddMessage(msg, transcriptOk);
      case SendChangeCipherSpec =>
        ok := w.AddChangeCipherSpec();
        if ok { GrewPlain(log, w.log, ChangeCipherSpec, [1]); }
      case SendFlightAlert(level, desc) =>
        ok := w.AddAlert(level, desc);
        if ok { GrewPlain(log, w.log, Alert, [level, desc]); }
      case Flush =>
        ret := w.FlushFlight();
      case SendAlert(level, desc) =>
        ret := w.SendAlert(level, desc);
      case DispatchAlert =>
        ret := w.DispatchAlert();
      case Write(addr, data) =>
        var needsHandshake;
        ret, needsHandshake := w.WriteAppData(addr, data);
      case EarlyDataEnds =>
        w.canEarlyWrite := false;
    }
  }

  // Any interleaving of events, with any short writes and failures of the transport.
  method Run(w: Writer, events: seq<Event>)
    requires w.Valid() && w.EarlyCounted()
    modifies w, w.writeBuffer, w.writeBuffer.buf, w.bio
    // In particular, no more early data than the ticket allows, if that fits into the 16 bits of the counter.
    ensures w.EarlyCounted()
    ensures w.Valid()
             && (w.writeBuffer.buf == null || w.writeBuffer.buf == old(w.writeBuffer.buf) || fresh(w.writeBuffer.buf))
    ensures w.safe ==> w.bio.taken + w.writeBuffer.Contents() + w.Unsent() == Wire(w.log)
    // Nothing is lost while the flights are short enough for the 16-bit offset.
    ensures
      var all := |old(w.Unsent())| + TotalGrowth(events, w.maxSendFragment, w.overhead);
      old(w.safe) && all + w.maxSendFragment + 2 + w.overhead <= SAFE_SIZE ==> w.safe
    ensures (forall e | e in events :: !e.Write?) ==>
              Plain(w.log, AppData) == old(Plain(w.log, AppData)) && w.Progress() == old(w.Progress())
  {
    hide Bounded, Numbered, Wire, Plain, Conserves, Growth, TotalGrowth;
    var i := 0;
    ghost var unsent, m, overhead := |w.Unsent()|, w.maxSendFragment, w.overhead;
    NoGrowth(m, overhead);
    assert events[..0] == [];
    while i < |events|
      invariant i <= |events| && w.Valid() && w.EarlyCounted()
      invariant |w.Unsent()| <= unsent + TotalGrowth(events[..i], m, overhead)
      invariant old(w.safe) && unsent + TotalGrowth(events, m, overhead) + m + 2 + overhead <= SAFE_SIZE ==> w.safe
      invariant w.writeBuffer.buf == null || w.writeBuffer.buf == old(w.writeBuffer.buf) || fresh(w.writeBuffer.buf)
      invariant (forall e | e in events :: !e.Write?) ==>
                  Plain(w.log, AppData) == old(Plain(w.log, AppData)) && w.Progress() == old(w.Progress())
    {
      assert events[i] in events;
      GrowthUpTo(events, i, m, overhead);
      if Allowed(w, events[i]) { Perform(w, events[i]); }
      i := i + 1;
    }
    if w.safe { Sums(w); }
  }

  // Sealing that fails from the second record on.
  function OneSeal(n: nat, kind: Kind, plain: seq<Byte>): (out: Option<seq<Byte>>)
    ensures out.Some? ==> |out.value| <= |plain|
  {
    if n == 0 then Some(plain) else None
  }

  lemma {:induction false} OneSealBounded()
    ensures Bounded(OneSeal, 0)
  {
  }

  // A new connection with a ChangeCipherSpec in its flight.
  method WaitingFlight(alloc: nat -> nat, script: seq<int>) returns (w: Writer)
    ensures fresh(w) && fresh(w.bio) && fresh(w.writeBuffer) && w.writeBuffer.buf == null
    ensures w.Valid() && w.Unsent() == [1] && w.sealed == 1 && w.seal == OneSeal && w.overhead == 0
    ensures w.writeBuffer.size == 0 && w.bio.taken == [] && !w.wpendPending
  {
    hide Numbered, Bounded, Wire, Plain, Conserves;
    OneSealBounded();
    w := new Writer(OneSeal, 0, 0, MAX_PLAIN, false, false, None, 0, alloc, script);
    assert w.Unsent() == [] && OneSeal(0, ChangeCipherSpec, [1]) == Some([1]);
    var ok := w.AddChangeCipherSpec();
  }

  // A ChangeCipherSpec waits in the flight and sealing application data fails. The ChangeCipherSpec is then stuck in
  // the write buffer: the next write fails and flushing the flight reports success, but nothing reaches the transport.
  method StuckExample(alloc: nat -> nat, script: seq<int>) returns (w: Writer, first: int, second: int, flushed: int)
    ensures w.Valid() && first == second == -1 && flushed == 1
    ensures w.writeBuffer.Contents() == [1] && w.bio.taken == [] && w.flight.None? && !w.wpendPending
  {
    hide Numbered, Bounded, Wire, Plain, Conserves, Grew, Writer.Retries;
    w := WaitingFlight(alloc, script);
    assert OneSeal(1, AppData, [7]).None?;
    first := w.DoWrite(AppData, 0, [7]);
    assert w.writeBuffer.size > 0 && !w.wpendPending;
    second := w.DoWrite(AppData, 0, [7]);
    flushed := w.FlushFlight();
  }

  function PlainSeal(n: nat, kind: Kind, plain: seq<Byte>): Option<seq<Byte>> {
    Some(plain)
  }

  lemma {:induction false} PlainSealBounded()
    ensures Bounded(PlainSeal, 0)
  {
  }

  lemma {:induction false} SevenBytesOff(n: nat)
    ensures AlignedOffset(n, (1 - n) % ALIGN_PAYLOAD) == 7
  {
  }

  // A new connection with n bytes in its flight, and memory whose alignment takes seven bytes.
  method LongFlight(n: nat, script: seq<int>) returns (w: Writer)
    requires n <= 3 * MAX_PLAIN
    ensures fresh(w) && fresh(w.bio) && fresh(w.writeBuffer) && w.writeBuffer.buf == null
    ensures w.Valid() && w.seal == PlainSeal && w.overhead == 0 && !w.wpendPending
    ensures w.writeBuffer.size == 0 && w.bio.taken == [] && w.bio.script == script
    ensures |w.Unsent()| == n && w.NewOffset() == 7 && Wire(w.log) == w.Unsent()
  {
    hide Numbered, Bounded, Wire, Plain, Conserves, Grew, AlignedOffset;
    PlainSealBounded();
    SevenBytesOff(n);
    w := new Writer(PlainSeal, 0, 0, MAX_PLAIN, false, false, None, 0, _ => (1 - n) % ALIGN_PAYLOAD, script);
    var left := n;
    assert w.Unsent() == [];
    while left > 0
      modifies w`flight, w`sealed, w`log
      invariant w.Valid() && 0 <= left <= n && w.flightOffset == 0 && |w.Unsent()| == n - left
      decreases left
    {
      var chunk := if left < MAX_PLAIN then left else MAX_PLAIN;
      var ok := w.AddRecordToFlight(Handshake, seq(chunk, _ => 0));
      left := left - chunk;
    }
    Sums(w);
    assert w.Unsent() == [] + [] + w.Unsent();
  }

  // The bound on what may be sealed at once is tight: for every larger size that still gets a buffer, there are a
  // flight, a record and an allocation of which a short write loses bytes.
  method TooLargeLoses(total: nat) returns (w: Writer, first: int, second: int)
    requires SAFE_SIZE < total <= MAX_CAP
    ensures w.Valid() && |Wire(w.log)| == total && first <= 0 && second <= 0
    ensures w.bio.taken + w.writeBuffer.Contents() + w.Unsent() != Wire(w.log)
  {
    hide Numbered, Bounded, Plain, Conserves, Wire, Flowing, Grew, Add16, Remainder, Writer.NewOffset, Writer.Unsent;
    var n := total - MAX_PLAIN;
    w := LongFlight(n, [0, SAFE_SIZE]);
    ghost var flight, log0 := w.Unsent(), w.log;
    var data: seq<Byte> := seq(MAX_PLAIN, i => if n + i == SAFE_SIZE then 1 else 0);
    first := w.DoWrite(AppData, 0, data);
    OneMore(log0, w, data);
    assert [0, SAFE_SIZE][1..] == [SAFE_SIZE];
    assert w.Filled(flight + data, 7);
    ghost var memory := w.writeBuffer.buf[..];
    FlowBreaks(memory, 7, total, SAFE_SIZE);
    assert Wire(w.log)[SAFE_SIZE] == data[SAFE_SIZE - n] == 1;
    second := w.DoWrite(AppData, 0, data);
    NoUnsent(w);
    WrappedByte(memory, total);
    Differs(w.bio.taken, w.writeBuffer.Contents(), Wire(w.log));
  }

  lemma {:induction false} Differs(taken: seq<Byte>, contents: seq<Byte>, wire: seq<Byte>)
    requires |taken| < |wire| && contents != [] && contents[0] != wire[|taken|]
    ensures taken + contents + [] != wire
  {
    assert (taken + contents + [])[|taken|] == contents[0];
  }

  lemma {:induction false} NoUnsent(w: Writer)
    requires w.flight.None?
    ensures w.Unsent() == []
  {
  }

  // Seven bytes into the memory, what follows the first 65529 bytes is shown from the start of the memory.
  lemma {:induction false} WrappedByte(memory: seq<Byte>, total: nat)
    requires SAFE_SIZE < total <= MAX_CAP && 7 + total <= |memory| && memory[0] == 0
    ensures |Remainder(memory, 7, total, SAFE_SIZE)| == total - SAFE_SIZE
    ensures Remainder(memory, 7, total, SAFE_SIZE)[0] == 0
  {
  }

  // The record that DoWrite sealed comes out as it is.
  lemma {:induction false} OneMore(log: seq<Rec>, w: Writer, data: seq<Byte>)
    requires w.Valid() && w.seal == PlainSeal && Grew(log, w.log, true, AppData, data)
    ensures Wire(w.log) == Wire(log) + data
  {
    var r := w.log[|log|];
    Snoc(log, r);
    assert w.log == log + [r];
  }

  // A limit that does not fit into the counter is exceeded: a writer of single bytes is never told to stop.
  method EarlyDataOverrun(limit: nat) returns (w: Writer)
    requires limit >= U16
    ensures w.Valid() && w.EarlyCounted() && w.maxEarlyData == limit
    ensures w.early == |Plain(w.log, AppData)| == limit + 1 && w.canEarlyWrite
  {
    hide Numbered, Bounded, Wire, Plain, Conserves, Writer.Sound, Counted;
    PlainSealBounded();
    ghost var n := limit + 1;
    w := new Writer(PlainSeal, 0, 0, MAX_PLAIN, false, false, Some(limit), 0, _ => 0, seq(limit + 1, _ => 1));
    NothingPlain();
    var i := 0;
    while i <= limit
      modifies w, w.writeBuffer, w.writeBuffer.buf, w.bio
      invariant i <= n && w.Valid() && w.EarlyCounted() && w.wnum == 0 && !w.writeShutdown
      invariant !w.wpendPending && w.writeBuffer.buf == null && w.writeBuffer.size == 0 && |w.Unsent()| == 0
      invariant w.canEarlyWrite && w.early == i == |Plain(w.log, AppData)|
      invariant Willing(w.bio.script, n - i)
      decreases n - i
    {
      RoomIs(limit, w.early, w.Pending(), w.earlyDataWritten);
      assert w.Cost(1) == 1;
      ghost var app := Plain(w.log, AppData);
      var ret, needsHandshake := w.WriteAppData(0, [7]);
      assert Plain(w.log, AppData) == app + [7];
      i := i + 1;
    }
  }

  lemma {:induction false} NothingPlain()
    ensures Plain([], AppData) == []
  {
  }

  lemma {:induction false} Sums(w: Writer)
    requires w.Valid() && w.safe
    ensures w.bio.taken + w.writeBuffer.Contents() + w.Unsent() == Wire(w.log)
  {
  }

  lemma {:induction false} MoreSent(data: seq<Byte>, sent: nat, n: nat, m: int, app: seq<Byte>, plain: seq<Byte>,
                                    plain': seq<Byte>)
    requires sent <= n <= |data| && plain == app + data[..n]
    requires SealedUpTo(data[sent..], n - sent, m - sent, plain, plain')
    ensures n <= m <= |data| && plain' == app + data[..m]
  {
    assert data[..n] + data[sent..][n - sent..m - sent] == data[..m];
    assert app + data[..n] + data[sent..][n - sent..m - sent] == app + data[..m];
  }

  // A caller that writes data, each time from where the last success ended and with the same buffer after a failure.
  // Whatever else happens in between, what has been sealed is data[..n], and all of it once the caller is done.
  method WriteAll(w: Writer, addr: int, data: seq<Byte>, between: seq<seq<Event>>) returns (done: bool, ghost n: nat)
    requires w.Valid() && w.EarlyCounted() && w.Progress() == 0
    requires forall events | events in between :: forall e | e in events :: !e.Write?
    modifies w, w.writeBuffer, w.writeBuffer.buf, w.bio
    ensures w.Valid()
    ensures n <= |data| && Plain(w.log, AppData) == old(Plain(w.log, AppData)) + data[..n]
    ensures done ==> n == |data|
  {
    hide Bounded, Numbered, Wire, Plain, Writer.Sound, SealedUpTo, OnlyAppData;
    var sent, i := 0, 0;
    ghost var app := Plain(w.log, AppData);
    done, n := data == [], 0;
    while i < |between| && !done
      invariant i <= |between| && sent <= |data| && w.Valid() && w.EarlyCounted()
      invariant w.writeBuffer.buf == null || w.writeBuffer.buf == old(w.writeBuffer.buf) || fresh(w.writeBuffer.buf)
      invariant n == sent + w.Progress() <= |data| && Plain(w.log, AppData) == app + data[..n]
      invariant done ==> n == |data|
    {
      ghost var plain := Plain(w.log, AppData);
      var ret, needsHandshake := w.WriteAppData(addr + sent, data[sent..]);
      ghost var m := sent + if ret > 0 then ret else w.Progress();
      MoreSent(data, sent, n, m, app, plain, Plain(w.log, AppData));
      n := m;
      if ret > 0 {
        sent := sent + ret;
        done := sent == |data|;
      }
      assert between[i] in between;
      Run(w, between[i]);
      i := i + 1;
    }
  }
}
