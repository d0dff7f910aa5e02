/** The TLS 1.2 server as a state machine, with its transcript. */
module ServerHandshake {
  import opened Bytes

  datatype HsState =
    | StartAccept | ReadClientHello | SelectCertificate | Tls13 | SelectParameters | SendServerHello
    | SendServerCertificate | SendServerKeyExchange | SendServerHelloDone | ReadClientCertificate
    | VerifyClientCertificate | ReadClientKeyExchange | ReadClientCertificateVerify | ReadChangeCipherSpec
    | ProcessChangeCipherSpec | ReadNextProto | ReadChannelId | ReadClientFinished | SendServerFinished
    | FinishServerHandshake | Done

  // ssl_hs_wait_t; Other stands for the waits of TLS 1.3.
  datatype Wait =
    | WaitOk | WaitError | WaitMessage | WaitChangeCipherSpec | WaitFlush | WaitHandoff | WaitCertificateSelection
    | WaitX509Lookup | WaitSession | WaitTicket | WaitPrivateKey | WaitCertificateVerify | WaitOther

  datatype Kind =
    | ClientHello | ServerHello | Certificate | CertificateStatus | ServerKeyExchange | CertificateRequest
    | ServerHelloDone | ClientKeyExchange | CertificateVerify | ChangeCipherSpec | NextProto | ChannelId
    | NewSessionTicket | Finished | Unknown

  // A message from the client. A V2ClientHello is hashed when it is read, not by the state machine.
  datatype Message = Message(kind: Kind, body: seq<Byte>, isV2Hello: bool)

  datatype Entry = Received(msg: Message) | Sent(kind: Kind, body: seq<Byte>)

  // The order in which a client and a server may send (sections 7.3 and 7.4 of RFC 5246).
  const CLIENT_ORDER := [ClientHello, Certificate, ClientKeyExchange, CertificateVerify, NextProto, ChannelId, Finished]
  const SERVER_ORDER := [ServerHello, Certificate, CertificateStatus, ServerKeyExchange, CertificateRequest,
                         ServerHelloDone, NewSessionTicket, ChangeCipherSpec, Finished]

  // The kinds of a set, each once, in the given order.
  ghost function Listed(order: seq<Kind>, kinds: set<Kind>): seq<Kind> {
    if order == [] then []
    else Listed(order[..|order| - 1], kinds) + if order[|order| - 1] in kinds then [order[|order| - 1]] else []
  }

  lemma {:induction false} ListedNone(order: seq<Kind>, kinds: set<Kind>, k: Kind)
    requires k !in order
    ensures Listed(order, kinds + {k}) == Listed(order, kinds)
    decreases |order|
  {
    if order != [] { ListedNone(order[..|order| - 1], kinds, k); }
  }

  // Adding the kind at position i, when none of the later ones is there yet, extends the list at its end.
  lemma {:induction false} ListedAdd(order: seq<Kind>, kinds: set<Kind>, i: nat)
    requires i < |order| && forall j, l | 0 <= j < l < |order| :: order[j] != order[l]
    requires forall j | i <= j < |order| :: order[j] !in kinds
    ensures Listed(order, kinds + {order[i]}) == Listed(order, kinds) + [order[i]]
    decreases |order|
  {
    var front, last := order[..|order| - 1], order[|order| - 1];
    if i == |order| - 1 {
      ListedNone(front, kinds, order[i]);
    } else {
      ListedAdd(front, kinds, i);
    }
  }

  // ---- What the transcript holds ----

  ghost function ReceivedOf(transcript: seq<Entry>): seq<Message> {
    if transcript == [] then []
    else
      var last := transcript[|transcript| - 1];
      ReceivedOf(transcript[..|transcript| - 1]) + if last.Received? then [last.msg] else []
  }

  ghost function SentOf(transcript: seq<Entry>): seq<Kind> {
    if transcript == [] then []
    else
      var last := transcript[|transcript| - 1];
      SentOf(transcript[..|transcript| - 1]) + if last.Sent? then [last.kind] else []
  }

  ghost function KindsOf(msgs: seq<Message>): seq<Kind> {
    seq(|msgs|, i requires 0 <= i < |msgs| => msgs[i].kind)
  }

  // A ChangeCipherSpec is sent but is not a handshake message and not hashed.
  ghost function Hashed(out: seq<Kind>): seq<Kind> {
    if out == [] then []
    else Hashed(out[..|out| - 1]) + if out[|out| - 1].ChangeCipherSpec? then [] else [out[|out| - 1]]
  }

  lemma {:induction false} TranscriptSnoc(transcript: seq<Entry>, e: Entry)
    ensures ReceivedOf(transcript + [e]) == ReceivedOf(transcript) + if e.Received? then [e.msg] else []
    ensures SentOf(transcript + [e]) == SentOf(transcript) + if e.Sent? then [e.kind] else []
  {
    assert (transcript + [e])[..|transcript|] == transcript;
  }

  lemma {:induction false} HashedSnoc(out: seq<Kind>, k: Kind)
    ensures Hashed(out + [k]) == Hashed(out) + if k.ChangeCipherSpec? then [] else [k]
  {
    assert (out + [k])[..|out|] == out;
  }

  // ---- The state of the handshake ----

  // What has been exchanged. arrived are the messages of the client so far, got and sent the kinds released and sent.
  // clientOver and serverOver are the transcripts that the two Finished messages were computed on.
  datatype Log = Log(incoming: seq<Message>, arrived: seq<Message>, released: seq<Message>, transcript: seq<Entry>,
                     out: seq<Kind>, got: set<Kind>, sent: set<Kind>, clientOver: seq<Entry>, serverOver: seq<Entry>)

  // Whether SSL 3.0 is spoken, and how a client certificate is asked for: SSL_VERIFY_PEER, SSL_VERIFY_PEER_IF_NO_OBC
  // and SSL_VERIFY_FAIL_IF_NO_PEER_CERT.
  datatype Conf = Conf(sslV3: bool, verifyPeer: bool, unlessChannelId: bool, certRequired: bool)

  // What has been agreed. certAuth says that the cipher authenticates with a certificate, keyExchange that it needs a
  // ServerKeyExchange.
  datatype Params = Params(conf: Conf, certAuth: bool, certRequest: bool, keyExchange: bool, serverParams: bool,
                           nextProto: bool, channelId: bool, statusExpected: bool)

  // The session: ems says that the client offers the extended master secret, hasEms that the session in use has it;
  // peerPubkey and clientCerts that the client has sent a key and a certificate chain.
  datatype Session = Session(ems: bool, hasEms: bool, ticketExpected: bool, peerPubkey: bool, clientCerts: bool)

  // The state machine and its log.
  datatype Snap = Snap(state: HsState, resumed: bool, tls13: bool, readKeys: bool, writeKeys: bool, par: Params,
                       ses: Session, log: Log)

  type Mac = (seq<Entry>, bool) -> seq<Byte>

  function Index(state: HsState): nat {
    match state
    case StartAccept => 0
    case ReadClientHello => 1
    case SelectCertificate => 2
    case Tls13 => 3
    case SelectParameters => 4
    case SendServerHello => 5
    case SendServerCertificate => 6
    case SendServerKeyExchange => 7
    case SendServerHelloDone => 8
    case ReadClientCertificate => 9
    case VerifyClientCertificate => 10
    case ReadClientKeyExchange => 11
    case ReadClientCertificateVerify => 12
    case ReadChangeCipherSpec => 13
    case ProcessChangeCipherSpec => 14
    case ReadNextProto => 15
    case ReadChannelId => 16
    case ReadClientFinished => 17
    case SendServerFinished => 18
    case FinishServerHandshake => 19
    case Done => 20
  }

  // When a session is resumed, the server sends its Finished right after its ServerHello.
  function Rank(state: HsState, resumed: bool): nat {
    if resumed && state.SendServerFinished? then 2 * Index(SendServerHello) + 1 else 2 * Index(state)
  }

  // The ranks of some states of a full handshake; a resumed one has the same, but for SendServerFinished.
  const READ_CLIENT_HELLO := 2
  const SELECT_CERTIFICATE := 4
  const SELECT_PARAMETERS := 8
  const SEND_SERVER_HELLO := 10
  const SEND_SERVER_CERTIFICATE := 12
  const SEND_SERVER_KEY_EXCHANGE := 14
  const SEND_SERVER_HELLO_DONE := 16
  const READ_CLIENT_CERTIFICATE := 18
  const VERIFY_CLIENT_CERTIFICATE := 20
  const READ_CLIENT_KEY_EXCHANGE := 22
  const READ_CLIENT_CERTIFICATE_VERIFY := 24
  const READ_CHANGE_CIPHER_SPEC := 26
  const PROCESS_CHANGE_CIPHER_SPEC := 28
  const READ_NEXT_PROTO := 30
  const READ_CHANNEL_ID := 32
  const READ_CLIENT_FINISHED := 34

  // Which messages have been released and sent at each rank.
  ghost predicate Phase(s: Snap) {
    && ReadPhase(Rank(s.state, s.resumed), s, s.log.got)
    && SendPhase(Rank(s.state, s.resumed), s, s.log.sent)
    && (s.state.SelectCertificate? || s.state.SelectParameters? ==>
          s.log.incoming != [] && s.log.incoming[0].kind == ClientHello)
    && (Certificate in s.log.got ==> CertificateRequest in s.log.sent)
  }

  ghost predicate ReadPhase(r: nat, s: Snap, got: set<Kind>) {
    && (ClientHello in got <==> r > SELECT_PARAMETERS)
    && (Certificate in got ==> !s.resumed && r > READ_CLIENT_CERTIFICATE && s.par.certRequest)
    && (!s.par.conf.sslV3 && !s.resumed && r > READ_CLIENT_CERTIFICATE && s.par.certRequest ==> Certificate in got)
    && (s.par.conf.certRequired && !s.resumed && r > READ_CLIENT_CERTIFICATE && s.par.certRequest ==> s.ses.peerPubkey)
    && (s.ses.peerPubkey ==> Certificate in got)
    && (s.par.conf.sslV3 && Certificate in got ==> s.ses.peerPubkey)
    && (ClientKeyExchange in got <==> !s.resumed && r > READ_CLIENT_KEY_EXCHANGE)
    && (CertificateVerify in got <==> !s.resumed && r > READ_CLIENT_CERTIFICATE_VERIFY && s.ses.peerPubkey)
    && (s.readKeys <==> r > PROCESS_CHANGE_CIPHER_SPEC)
    && (NextProto in got <==> r > READ_NEXT_PROTO && s.par.nextProto)
    && (ChannelId in got <==> r > READ_CHANNEL_ID && s.par.channelId)
    && (Finished in got <==> r > READ_CLIENT_FINISHED)
  }

  ghost predicate SendPhase(r: nat, s: Snap, sent: set<Kind>) {
    var finished := Rank(SendServerFinished, s.resumed);
    && (s.resumed ==> SELECT_PARAMETERS < r && !(finished < r < READ_CHANGE_CIPHER_SPEC))
    && (ServerHello in sent <==> r > SEND_SERVER_HELLO)
    && (Certificate in sent <==> !s.resumed && r > SEND_SERVER_CERTIFICATE && s.par.certAuth)
    && (CertificateStatus in sent <==> Certificate in sent && s.par.statusExpected)
    && (s.par.statusExpected ==> SEND_SERVER_HELLO < r && !s.resumed && s.par.certAuth)
    && (s.par.serverParams <==> r == SEND_SERVER_KEY_EXCHANGE && s.par.keyExchange)
    && (ServerKeyExchange in sent <==> !s.resumed && r > SEND_SERVER_KEY_EXCHANGE && s.par.keyExchange)
    && (CertificateRequest in sent <==> !s.resumed && r > SEND_SERVER_HELLO_DONE && s.par.certRequest)
    && (ServerHelloDone in sent <==> !s.resumed && r > SEND_SERVER_HELLO_DONE)
    && (NewSessionTicket in sent <==> r > finished && s.ses.ticketExpected)
    && (ChangeCipherSpec in sent <==> r > finished)
    && (s.writeKeys <==> r > finished)
    && (Finished in sent <==> r > finished)
    && (SELECT_PARAMETERS < r && !s.resumed ==> RequestFits(s.par))
    && (SELECT_PARAMETERS < r ==> s.ses.hasEms == s.ses.ems)
  }

  // A certificate is asked for as configured; with a Channel ID it may be left out.
  predicate RequestFits(par: Params) {
    && (par.certRequest ==> par.conf.verifyPeer && par.certAuth)
    && (par.certRequest && par.conf.unlessChannelId ==> !par.channelId)
    && (par.conf.verifyPeer && !par.conf.unlessChannelId && par.certAuth ==> par.certRequest)
  }

  // Every message of the client is hashed once, in the order of arrival, before it is released; every message of the
  // server is hashed as it is sent; both sides keep to their order; and each Finished covers the transcript before it.
  ghost predicate History(mac: Mac, s: Log) {
    Lists(s) && Macs(mac, s)
  }

  ghost predicate Lists(s: Log) {
    && s.released + s.incoming == s.arrived
    && (forall m | m in s.incoming :: !m.isV2Hello)
    && ReceivedOf(s.transcript) == s.released
    && KindsOf(s.released) == Listed(CLIENT_ORDER, s.got)
    && SentOf(s.transcript) == Hashed(s.out)
    && s.out == Listed(SERVER_ORDER, s.sent)
  }

  ghost predicate Macs(mac: Mac, s: Log) {
    && (Finished in s.got ==> ClientFinishedOver(mac, s))
    && (Finished in s.sent ==> s.serverOver + [Sent(Finished, mac(s.serverOver, true))] <= s.transcript)
  }

  ghost predicate ClientFinishedOver(mac: Mac, s: Log) {
    s.released != [] &&
    var fin := s.released[|s.released| - 1];
    fin.body == mac(s.clientOver, false) && s.clientOver + [Received(fin)] <= s.transcript
  }

  ghost predicate Inv(mac: Mac, s: Snap) {
    if s.tls13 then s.state.Tls13? || s.state.FinishServerHandshake? || s.state.Done?
    else Phase(s) && History(mac, s.log) && Keyed(s) && !s.state.Tls13?
  }

  // The client has sent a certificate chain that is not empty.
  ghost predicate ClientChain(msgs: seq<Message>) {
    exists m :: m in msgs && m.kind == Certificate && |m.body| > 3
  }

  // The server holds a key and a chain of the client exactly if the client has sent them.
  ghost predicate Keyed(s: Snap) {
    s.ses.peerPubkey == s.ses.clientCerts == ClientChain(s.log.released)
  }

  // No message but a Certificate changes that.
  lemma {:induction false} KeyStays(s: Snap, t: Snap)
    requires Keyed(s) && t.ses.peerPubkey == s.ses.peerPubkey && t.ses.clientCerts == s.ses.clientCerts
    requires t.log.released != s.log.released ==>
               s.log.incoming != [] && s.log.incoming[0].kind != Certificate
               && t.log.released == s.log.released + [s.log.incoming[0]]
    ensures Keyed(t)
  {
  }

  lemma {:induction false} KeyFound(s: Snap, t: Snap)
    requires Keyed(s) && !s.ses.peerPubkey && s.log.incoming != [] && s.log.incoming[0].kind == Certificate
    requires t.log.released == s.log.released + [s.log.incoming[0]]
    requires t.ses.peerPubkey == t.ses.clientCerts == (|s.log.incoming[0].body| > 3)
    ensures Keyed(t)
  {
    if t.ses.peerPubkey { assert s.log.incoming[0] in t.log.released; }
  }

  // After an error, a message may have been hashed but not released.
  ghost predicate Broken(s: Log) {
    s.released + s.incoming == s.arrived && s.released <= ReceivedOf(s.transcript) <= s.arrived
  }

  // The first message was hashed and then released.
  function AfterRelease(s: Log): Log
    requires s.incoming != []
  {
    Released(s.(transcript := s.transcript + [Received(s.incoming[0])]))
  }

  function Released(s: Log): Log
    requires s.incoming != []
  {
    s.(released := s.released + [s.incoming[0]], incoming := s.incoming[1..], got := s.got + {s.incoming[0].kind})
  }

  lemma {:induction false} ReleaseMessages(s: Log, i: nat)
    requires s.incoming != [] && i < |CLIENT_ORDER| && s.incoming[0].kind == CLIENT_ORDER[i]
    requires forall j | i <= j < |CLIENT_ORDER| :: CLIENT_ORDER[j] !in s.got
    requires KindsOf(s.released) == Listed(CLIENT_ORDER, s.got)
    ensures KindsOf(AfterRelease(s).released) == Listed(CLIENT_ORDER, AfterRelease(s).got)
  {
    ListedAdd(CLIENT_ORDER, s.got, i);
    hide Listed;
    assert KindsOf(AfterRelease(s).released) == KindsOf(s.released) + [CLIENT_ORDER[i]];
  }

  lemma {:induction false} ReleaseKeeps(mac: Mac, s: Log, i: nat)
    requires History(mac, s) && s.incoming != [] && i < |CLIENT_ORDER| - 1 && s.incoming[0].kind == CLIENT_ORDER[i]
    requires forall j | i <= j < |CLIENT_ORDER| :: CLIENT_ORDER[j] !in s.got
    ensures History(mac, AfterRelease(s))
  {
    var t, m := AfterRelease(s), s.incoming[0];
    TranscriptSnoc(s.transcript, Received(m));
    ReleaseMessages(s, i);
    hide Listed, ReceivedOf, SentOf, KindsOf, Hashed;
    assert CLIENT_ORDER[6] == Finished && CLIENT_ORDER[i] != Finished;
    assert t.released + t.incoming == s.arrived;
  }

  // The Finished message of the client, if it is the one expected.
  lemma {:induction false} FinishedKeeps(mac: Mac, s: Log)
    requires History(mac, s) && s.incoming != [] && s.incoming[0].kind == Finished && Finished !in s.got
    requires s.incoming[0].body == mac(s.transcript, false)
    ensures History(mac, AfterRelease(s).(clientOver := s.transcript))
  {
    var t, m := AfterRelease(s).(clientOver := s.transcript), s.incoming[0];
    TranscriptSnoc(s.transcript, Received(m));
    ReleaseMessages(s, 6);
    hide Listed, ReceivedOf, SentOf, KindsOf, Hashed;
    assert t.released + t.incoming == s.arrived;
  }

  // A message of the server was added to the flight and hashed.
  function AfterSend(s: Log, k: Kind, body: seq<Byte>): (t: Log)
    ensures t.released == s.released
  {
    s.(transcript := s.transcript + [Sent(k, body)], out := s.out + [k], sent := s.sent + {k})
  }

  lemma {:induction false} OverStays(mac: Mac, s: Log, e: Entry)
    requires ClientFinishedOver(mac, s)
    ensures ClientFinishedOver(mac, s.(transcript := s.transcript + [e]))
  {
  }

  // The lists of what was sent stay right when the kind at position i of the order is added.
  lemma {:induction false} SendLists(transcript: seq<Entry>, out: seq<Kind>, sent: set<Kind>, i: nat)
    requires SentOf(transcript) == Hashed(out) && out == Listed(SERVER_ORDER, sent) && i < |SERVER_ORDER|
    requires forall j | i <= j < |SERVER_ORDER| :: SERVER_ORDER[j] !in sent
    ensures out + [SERVER_ORDER[i]] == Listed(SERVER_ORDER, sent + {SERVER_ORDER[i]})
    ensures Hashed(out + [SERVER_ORDER[i]]) == Hashed(out) + if i == 7 then [] else [SERVER_ORDER[i]]
  {
    HashedSnoc(out, SERVER_ORDER[i]);
    ListedAdd(SERVER_ORDER, sent, i);
  }

  lemma {:induction false} SendKeeps(mac: Mac, s: Log, i: nat, body: seq<Byte>)
    requires History(mac, s) && i < |SERVER_ORDER| - 2
    requires forall j | i <= j < |SERVER_ORDER| :: SERVER_ORDER[j] !in s.sent
    ensures History(mac, AfterSend(s, SERVER_ORDER[i], body))
  {
    hide Listed, ReceivedOf, SentOf, KindsOf, Hashed, Macs;
    var k := SERVER_ORDER[i];
    assert k != Finished && k != ChangeCipherSpec && Finished !in s.sent + {k} by {
      assert SERVER_ORDER[8] == Finished && SERVER_ORDER[7] == ChangeCipherSpec;
    }
    TranscriptSnoc(s.transcript, Sent(k, body));
    SendLists(s.transcript, s.out, s.sent, i);
    SendMacs(mac, s, k, body);
  }

  lemma {:induction false} SendMacs(mac: Mac, s: Log, k: Kind, body: seq<Byte>)
    requires Macs(mac, s) && Finished !in s.sent && k != Finished
    ensures Macs(mac, AfterSend(s, k, body))
  {
    var e := Sent(k, body);
    if Finished in s.got { OverStays(mac, s, e); }
    hide ClientFinishedOver;
    OverIgnores(mac, s.(transcript := s.transcript + [e]), AfterSend(s, k, body));
  }

  lemma {:induction false} OverIgnores(mac: Mac, s: Log, t: Log)
    requires t.transcript == s.transcript && t.released == s.released && t.clientOver == s.clientOver
    ensures ClientFinishedOver(mac, s) == ClientFinishedOver(mac, t)
  {
  }

  // The ChangeCipherSpec and the Finished of the server.
  function AfterFinished(mac: Mac, s: Log): (t: Log)
    ensures t.released == s.released
  {
    AfterSend(s.(out := s.out + [ChangeCipherSpec], sent := s.sent + {ChangeCipherSpec}), Finished, mac(s.transcript,
        true))
      .(serverOver := s.transcript)
  }

  lemma {:induction false} SendFinishedKeeps(mac: Mac, s: Log)
    requires History(mac, s) && ChangeCipherSpec !in s.sent && Finished !in s.sent
    ensures History(mac, AfterFinished(mac, s))
  {
    hide Listed, ReceivedOf, SentOf, KindsOf, Hashed, Macs;
    TranscriptSnoc(s.transcript, Sent(Finished, mac(s.transcript, true)));
    SendLists(s.transcript, s.out, s.sent, 7);
    FinishedLists(s.out + [ChangeCipherSpec], s.sent + {ChangeCipherSpec});
    SendFinishedMacs(mac, s);
  }

  lemma {:induction false} SendFinishedMacs(mac: Mac, s: Log)
    requires Macs(mac, s)
    ensures Macs(mac, AfterFinished(mac, s))
  {
    var e := Sent(Finished, mac(s.transcript, true));
    if Finished in s.got { OverStays(mac, s, e); }
    hide ClientFinishedOver;
    OverIgnores(mac, s.(transcript := s.transcript + [e]), AfterFinished(mac, s));
  }

  lemma {:induction false} FinishedLists(out: seq<Kind>, sent: set<Kind>)
    requires out == Listed(SERVER_ORDER, sent) && Finished !in sent
    ensures out + [Finished] == Listed(SERVER_ORDER, sent + {Finished})
    ensures Hashed(out + [Finished]) == Hashed(out) + [Finished]
  {
    HashedSnoc(out, Finished);
    ListedAdd(SERVER_ORDER, sent, 8);
  }

  // ---- One step ----

  predicate Advances(w: Wait) {
    w == WaitOk || w == WaitFlush || w == WaitChangeCipherSpec
  }

  // A step of the state machine: it fails for good, or it waits and nothing has changed, or it moves on.
  ghost predicate StepOk(mac: Mac, s: Snap, t: Snap, w: Wait) {
    && t.log.arrived == s.log.arrived && (s.tls13 ==> t.tls13)
    && (w == WaitError ==> (!t.tls13 ==> Broken(t.log)) && t.state != Done)
    && (w != WaitError ==> Inv(mac, t))
    && (w != WaitError && !Advances(w) ==> t == s)
    && (w == WaitOk || (Advances(w) && s.state != Tls13) ==> Rank(t.state, t.resumed) > Rank(s.state, s.resumed))
    && (Advances(w) && s.state == Tls13 && w != WaitOk ==> t == s)
  }

  // ---- What the steps depend on ----

  // What can fail: parsers, callbacks, allocation, key operations and verifications. Hashing is ssl_hash_message and
  // Sending(k) the making of a message of kind k and ssl_add_message_cbb.
  datatype Check =
    | HelloParses | HelloFine | CertificateCallback | CertificateSelected | CipherChosen | Tls13Done | SessionLookup
    | SessionMade | DosAllowed | AlpnAgreed | HashInit | Hashing | RandomMade | Sending(kind: Kind) | HasCertificate
    | ParamsMade | CanSign | LeafParses | ChainKept | ChainVerified | PskIdentityFine | PremasterMade | MasterMade
    | SignatureValid | ReadKeysMade | NextProtoFine | ChannelIdVerified | HashesRecorded | CcsAdded | WriteKeysMade

  // What can go either way: what the client offers, and properties of the cipher and of the session found.
  datatype Choice =
    | NextProtoSeen | ChannelIdSeen | NewerVersion | CertificateCipher | EcdheCipher | KeyExchangeNeeded
    | SessionFound | SessionResumable | SessionHasEms | ClientHasEms | SessionHasHashes | RenewTicket
    | TicketsSupported | HasOcsp

  // What the environment decides in one step, and the contents of the messages sent.
  datatype Env = Env(passes: Check -> bool, waits: Wait -> bool, yes: Choice -> bool, body: int -> seq<Byte>)

  // The extended master secret of a session must not be dropped.
  predicate DropsEms(e: Env, ses: Session) {
    e.yes(SessionFound) && e.yes(SessionHasEms) && !ses.ems
  }

  predicate Resumes(e: Env, ses: Session) {
    e.yes(SessionFound) && e.yes(SessionResumable) && (ses.ems <==> e.yes(SessionHasEms))
  }

  // A list of certificates, each with its length in three bytes and none of them empty.
  predicate IsCertificateList(list: seq<Byte>) {
    list == [] || (|list| >= 3 && 0 < GetU24(list) <= |list| - 3 && IsCertificateList(list[3 + GetU24(list)..]))
  }

  predicate IsChain(body: seq<Byte>) {
    |body| >= 3 && GetU24(body) == |body| - 3 && IsCertificateList(body[3..])
  }

  // The certificates that can stand in such a list, and the list of them.
  ghost predicate Listable(certs: seq<seq<Byte>>) {
    forall c | c in certs :: 0 < |c| < U24
  }

  ghost function ListOf(certs: seq<seq<Byte>>): seq<Byte>
    requires Listable(certs)
  {
    if certs == [] then [] else U24Bytes(|certs[0]|) + certs[0] + ListOf(certs[1..])
  }

  lemma {:induction false} ListIsList(certs: seq<seq<Byte>>)
    requires Listable(certs)
    ensures IsCertificateList(ListOf(certs))
  {
    if certs != [] {
      var list, n := ListOf(certs), |certs[0]|;
      U24RoundTrip(n);
      assert GetU24(list) == GetU24(U24Bytes(n));
      assert list[3 + n..] == ListOf(certs[1..]);
      ListIsList(certs[1..]);
    }
  }

  lemma {:induction false} CertificatesOf(list: seq<Byte>) returns (certs: seq<seq<Byte>>)
    requires IsCertificateList(list)
    ensures Listable(certs) && ListOf(certs) == list
    decreases |list|
  {
    certs := [];
    if list != [] {
      var n := GetU24(list);
      var rest := CertificatesOf(list[3 + n..]);
      certs := [list[3..3 + n]] + rest;
      FirstCertificate(list);
      hide IsCertificateList, GetU24, U24Bytes;
      assert certs[1..] == rest;
    }
  }

  lemma {:induction false} FirstCertificate(list: seq<Byte>)
    requires |list| >= 3 && GetU24(list) <= |list| - 3
    ensures var n := GetU24(list); U24Bytes(n) + list[3..3 + n] + list[3 + n..] == list
  {
    hide GetU24, U24Bytes;
    var n := GetU24(list);
    U24Inverse(list);
    assert list == list[..3] + list[3..3 + n] + list[3 + n..];
  }

  /** What the parser accepts are exactly the lists of certificates that are not empty. */
  lemma {:induction false} CertificateListExactly(list: seq<Byte>)
    ensures IsCertificateList(list) <==> exists certs :: Listable(certs) && ListOf(certs) == list
  {
    if IsCertificateList(list) { var certs := CertificatesOf(list); }
    if certs :| Listable(certs) && ListOf(certs) == list { ListIsList(certs); }
  }

  lemma {:induction false} ChainIs(body: seq<Byte>)
    ensures IsChain(body) <==> |body| >= 3 && GetU24(body) <= |body| - 3 && body[3 + GetU24(body)..] == []
                               && IsCertificateList(body[3..3 + GetU24(body)])
    ensures IsChain(body) ==> (GetU24(body) > 0 <==> |body| > 3)
  {
    if |body| >= 3 && GetU24(body) == |body| - 3 { assert body[3..] == body[3..3 + GetU24(body)]; }
  }

  // The answer to a CertificateRequest. In SSL 3.0 a client without a certificate leaves the message out.
  predicate AnswersRequest(conf: Conf, m: Message) {
    if m.kind == Certificate then IsChain(m.body) && (|m.body| == 3 ==> !conf.sslV3 && !conf.certRequired)
    else m.kind == ClientKeyExchange && conf.sslV3 && !conf.certRequired
  }

  // The states that cannot be left without a message of the client.
  predicate Expecting(s: Snap) {
    match s.state
    case ReadClientHello | SelectCertificate | SelectParameters | ReadClientKeyExchange | ReadClientFinished => true
    case ReadClientCertificate => s.par.certRequest
    case ReadClientCertificateVerify => s.ses.peerPubkey
    case ReadNextProto => s.par.nextProto
    case ReadChannelId => s.par.channelId
    case _ => false
  }

  // The message is one that the client may send in this state.
  ghost predicate MayCome(mac: Mac, s: Snap, m: Message) {
    match s.state
    case ReadClientHello => m.kind == ClientHello
    case ReadClientCertificate => AnswersRequest(s.par.conf, m)
    case ReadClientKeyExchange => m.kind == ClientKeyExchange
    case ReadClientCertificateVerify => m.kind == CertificateVerify
    case ReadNextProto => m.kind == NextProto
    case ReadChannelId => m.kind == ChannelId
    case ReadClientFinished => m.kind == Finished && m.body == mac(s.log.transcript, false)
    case _ => true
  }

  ghost predicate Acceptable(mac: Mac, s: Snap) {
    Expecting(s) ==> s.log.incoming != [] && MayCome(mac, s, s.log.incoming[0])
  }

  // What must not fail in each state.
  ghost function Checks(e: Env, s: Snap): set<Check> {
    match s.state
    case ReadClientHello => {HelloParses, HelloFine}
    case SelectCertificate =>
      {CertificateCallback, CertificateSelected} + if e.yes(NewerVersion) then {} else {HelloParses, CipherChosen}
    case SelectParameters =>
      {HelloParses, SessionLookup, DosAllowed, AlpnAgreed, HashInit, Hashing}
      + if Resumes(e, s.ses) then {} else {SessionMade}
    case SendServerHello => {RandomMade, Sending(ServerHello)}
    case SendServerCertificate =>
      ChainChecks(s.par) + if e.yes(KeyExchangeNeeded) then {ParamsMade} else {}
    case SendServerKeyExchange =>
      if !s.par.serverParams then {}
      else {Sending(ServerKeyExchange)} + if s.par.certAuth then {CanSign} else {}
    case SendServerHelloDone =>
      {Sending(ServerHelloDone)} + if s.par.certRequest then {Sending(CertificateRequest)} else {}
    case ReadClientCertificate =>
      if s.par.certRequest && s.log.incoming != [] then AnswerChecks(s.log.incoming[0]) else {}
    case VerifyClientCertificate => if s.ses.clientCerts then {ChainVerified} else {}
    case ReadClientKeyExchange => {PskIdentityFine, PremasterMade, Hashing, MasterMade}
    case ReadClientCertificateVerify => if s.ses.peerPubkey then {SignatureValid, Hashing} else {}
    case ProcessChangeCipherSpec => {ReadKeysMade}
    case ReadNextProto => if s.par.nextProto then {Hashing, NextProtoFine} else {}
    case ReadChannelId => if s.par.channelId then {ChannelIdVerified, Hashing} else {}
    case ReadClientFinished => {Hashing} + if !s.resumed && s.par.channelId then {HashesRecorded} else {}
    case SendServerFinished =>
      {CcsAdded, WriteKeysMade, Sending(Finished)} + if s.ses.ticketExpected then {Sending(NewSessionTicket)} else {}
    case _ => {}
  }

  ghost function ChainChecks(par: Params): set<Check> {
    if !par.certAuth then {}
    else {HasCertificate, Sending(Certificate)} + if par.statusExpected then {Sending(CertificateStatus)} else {}
  }

  ghost function AnswerChecks(m: Message): set<Check> {
    if m.kind != Certificate then {}
    else {Hashing, ChainKept} + if |m.body| > 3 then {LeafParses} else {}
  }

  // The waits that a state can end in, apart from those for a message, a flush or a ChangeCipherSpec.
  function Delays(s: Snap): set<Wait> {
    match s.state
    case ReadClientHello => {WaitHandoff, WaitCertificateSelection}
    case SelectCertificate => {WaitX509Lookup}
    case SelectParameters => {WaitSession, WaitTicket}
    case SendServerKeyExchange => if s.par.serverParams && s.par.certAuth then {WaitPrivateKey} else {}
    case VerifyClientCertificate => if s.ses.clientCerts then {WaitCertificateVerify} else {}
    case ReadClientKeyExchange => {WaitPrivateKey}
    case _ => {}
  }

  ghost predicate Passes(e: Env, checks: set<Check>) {
    forall c | c in checks :: e.passes(c)
  }

  ghost predicate Delayed(e: Env, waits: set<Wait>) {
    exists v | v in waits :: e.waits(v)
  }

  lemma {:induction false} ParametersChecks(e: Env, s: Snap)
    requires s.state == SelectParameters
    ensures Passes(e, Checks(e, s)) <==>
      && e.passes(HelloParses) && e.passes(SessionLookup) && e.passes(DosAllowed) && e.passes(AlpnAgreed)
      && e.passes(HashInit) && e.passes(Hashing) && (Resumes(e, s.ses) || e.passes(SessionMade))
    ensures Delayed(e, Delays(s)) <==> e.waits(WaitSession) || e.waits(WaitTicket)
  {
  }

  lemma {:induction false} CertificateChecks(e: Env, s: Snap)
    requires s.state == SendServerCertificate
    ensures Passes(e, Checks(e, s)) <==>
      Passes(e, ChainChecks(s.par)) && (e.yes(KeyExchangeNeeded) ==> e.passes(ParamsMade))
    ensures !Delayed(e, Delays(s))
  {
  }

  predicate Drops(e: Env, s: Snap) {
    s.state.SelectParameters? && DropsEms(e, s.ses)
  }

  ghost predicate Fine(e: Env, s: Snap) {
    Passes(e, Checks(e, s)) && !Drops(e, s)
  }

  // At most, the first message was hashed and the key and the chain in it kept.
  ghost predicate OnlyRead(s: Snap, t: Snap) {
    && t == s.(log := t.log, ses := s.ses.(peerPubkey := t.ses.peerPubkey, clientCerts := t.ses.clientCerts))
    && (t.log == s.log
        || (s.log.incoming != []
            && t.log == s.log.(transcript := s.log.transcript + [Received(s.log.incoming[0])])))
  }

  /** How a step ends: it goes on if and only if the client has done its part, nothing fails and nothing is awaited;
      and it waits for a message if and only if one is needed and none is there. */
  ghost predicate Outcome(mac: Mac, e: Env, s: Snap, t: Snap, w: Wait) {
    && (w == WaitMessage <==> Expecting(s) && s.log.incoming == [])
    && (Advances(w) <==> Acceptable(mac, s) && Fine(e, s) && !Delayed(e, Delays(s)))
    && (w == WaitError && Passes(e, Checks(e, s)) ==> !Acceptable(mac, s) || Drops(e, s))
    && (w == WaitError && (!Acceptable(mac, s) || Drops(e, s)) ==> OnlyRead(s, t))
    && (w != WaitError && w != WaitMessage && !Advances(w) ==> w in Delays(s) && e.waits(w))
  }

  // The order in which do_select_parameters can end.
  function ParametersEnd(e: Env, s: Snap): Wait {
    if s.log.incoming == [] then WaitMessage
    else if !e.passes(HelloParses) || !e.passes(SessionLookup) then WaitError
    else if e.waits(WaitSession) then WaitSession
    else if e.waits(WaitTicket) then WaitTicket
    else if DropsEms(e, s.ses) || !e.passes(DosAllowed) || (!Resumes(e, s.ses) && !e.passes(SessionMade)) then WaitError
    else if !e.passes(AlpnAgreed) || !e.passes(HashInit) || !e.passes(Hashing) then WaitError
    else WaitOk
  }

  lemma {:induction false} ParametersOutcome(mac: Mac, e: Env, s: Snap, t: Snap, w: Wait)
    requires s.state == SelectParameters && w == ParametersEnd(e, s)
    requires w == WaitError && DropsEms(e, s.ses) ==> t == s
    ensures Outcome(mac, e, s, t, w)
  {
    ParametersChecks(e, s);
    hide Checks, Passes, Delayed, DropsEms, Resumes;
  }

  lemma {:induction false} HelloOutcome(mac: Mac, e: Env, s: Snap, t: Snap, w: Wait)
    requires s.state == SendServerHello
    requires w == if e.passes(RandomMade) && e.passes(Sending(ServerHello)) then WaitOk else WaitError
    ensures Outcome(mac, e, s, t, w)
  {
  }

  lemma {:induction false} FinishedOutcome(mac: Mac, e: Env, s: Snap, t: Snap, w: Wait)
    requires s.state == SendServerFinished
    requires w == if && (s.ses.ticketExpected ==> e.passes(Sending(NewSessionTicket)))
                     && e.passes(CcsAdded) && e.passes(WriteKeysMade) && e.passes(Sending(Finished))
                  then WaitFlush else WaitError
    ensures Outcome(mac, e, s, t, w)
  {
  }

  // The state that follows, except that a newer version goes its own way.
  function NextState(s: Snap): HsState {
    match s.state
    case StartAccept => ReadClientHello
    case ReadClientHello => SelectCertificate
    case SelectCertificate => SelectParameters
    case Tls13 => FinishServerHandshake
    case SelectParameters => SendServerHello
    case SendServerHello => if s.resumed then SendServerFinished else SendServerCertificate
    case SendServerCertificate => SendServerKeyExchange
    case SendServerKeyExchange => SendServerHelloDone
    case SendServerHelloDone => ReadClientCertificate
    case ReadClientCertificate => VerifyClientCertificate
    case VerifyClientCertificate => ReadClientKeyExchange
    case ReadClientKeyExchange => ReadClientCertificateVerify
    case ReadClientCertificateVerify => ReadChangeCipherSpec
    case ReadChangeCipherSpec => ProcessChangeCipherSpec
    case ProcessChangeCipherSpec => ReadNextProto
    case ReadNextProto => ReadChannelId
    case ReadChannelId => ReadClientFinished
    case ReadClientFinished => if s.resumed then FinishServerHandshake else SendServerFinished
    case SendServerFinished => if s.resumed then ReadChangeCipherSpec else FinishServerHandshake
    case FinishServerHandshake => Done
    case Done => Done
  }

  // A step that goes on leads to that state. Whether the session is resumed is decided once, only the certificate
  // message changes the client's key and chain, and from then on nothing else is negotiated.
  ghost predicate Moves(s: Snap, t: Snap, w: Wait) {
    Advances(w) ==>
      && (t.tls13 || t.state == NextState(s)) && (s.state.SelectParameters? || t.resumed == s.resumed)
      && (Index(ReadClientCertificate) <= Index(s.state) ==> t.par == s.par)
      && (s.state.ReadClientCertificate?
          || (t.ses.peerPubkey == s.ses.peerPubkey && t.ses.clientCerts == s.ses.clientCerts))
  }

  // The checks that have passed include those that matter most: that the chain of the client was verified and its
  // signature valid, and that the ciphers of both directions are in place.
  ghost predicate Audited(passed: set<Check>, s: Snap) {
    && HelloAudited(passed, Rank(s.state, s.resumed)) && ClientAudited(passed, s)
    && (s.writeKeys ==> WriteKeysMade in passed)
  }

  ghost predicate HelloAudited(passed: set<Check>, r: nat) {
    && (READ_CLIENT_HELLO < r ==> {HelloParses, HelloFine} <= passed)
    && (SELECT_CERTIFICATE < r ==> {CertificateSelected, CipherChosen} <= passed)
  }

  ghost predicate ClientAudited(passed: set<Check>, s: Snap) {
    && (s.ses.clientCerts && VERIFY_CLIENT_CERTIFICATE < Rank(s.state, s.resumed) ==> ChainVerified in passed)
    && (CertificateVerify in s.log.got ==> SignatureValid in passed)
    && (ClientKeyExchange in s.log.got ==> {PremasterMade, MasterMade} <= passed)
    && (ChannelId in s.log.got ==> ChannelIdVerified in passed)
    && (s.readKeys ==> ReadKeysMade in passed)
  }

  lemma {:induction false} AuditSend(mac: Mac, e: Env, s: Snap, t: Snap, w: Wait, passed: set<Check>)
    requires Inv(mac, s) && !s.tls13 && Inv(mac, t) && !t.tls13 && Moves(s, t, w) && Advances(w) && Audited(passed, s)
    requires Index(s.state) <= Index(SendServerHelloDone) && (s.state.SelectCertificate? ==> !e.yes(NewerVersion))
    ensures Audited(passed + Checks(e, s), t)
  {
    hide Phase, History, Keyed, Checks, HelloAudited, ClientAudited;
    AuditHello(e, s, t, w, passed);
    AuditEarly(t, passed + Checks(e, s));
  }

  lemma {:induction false} AuditEarly(t: Snap, passed: set<Check>)
    requires Phase(t) && Rank(t.state, t.resumed) <= READ_CLIENT_CERTIFICATE
    ensures ClientAudited(passed, t) && !t.writeKeys
  {
  }

  lemma {:induction false} AuditHello(e: Env, s: Snap, t: Snap, w: Wait, passed: set<Check>)
    requires Moves(s, t, w) && Advances(w) && !t.tls13 && HelloAudited(passed, Rank(s.state, s.resumed))
    requires Index(s.state) <= Index(SendServerHelloDone) && (s.state.SelectCertificate? ==> !e.yes(NewerVersion))
    ensures HelloAudited(passed + Checks(e, s), Rank(t.state, t.resumed))
  {
    if s.state.ReadClientHello? {
      assert Checks(e, s) == {HelloParses, HelloFine};
    } else if s.state.SelectCertificate? {
      assert Checks(e, s) == {CertificateCallback, CertificateSelected, HelloParses, CipherChosen};
    } else {
      hide Checks;
    }
  }

  lemma {:induction false} AuditReceive(mac: Mac, e: Env, s: Snap, t: Snap, w: Wait, passed: set<Check>)
    requires Inv(mac, s) && !s.tls13 && Inv(mac, t) && !t.tls13 && Moves(s, t, w) && Advances(w)
    requires Audited(passed, s) && Index(SendServerHelloDone) < Index(s.state) < Index(Done)
    ensures Audited(passed + Checks(e, s), t)
  {
    hide Phase, History, Keyed, ClientAudited, Checks;
    AuditClient(e, s, t, w, passed);
    AuditKeys(e, s, t, w, passed);
  }

  lemma {:induction false} AuditKeys(e: Env, s: Snap, t: Snap, w: Wait, passed: set<Check>)
    requires Phase(s) && Phase(t) && Moves(s, t, w) && Advances(w) && !t.tls13
    requires Index(SendServerHelloDone) < Index(s.state) < Index(Done) && (s.writeKeys ==> WriteKeysMade in passed)
    ensures t.writeKeys ==> WriteKeysMade in passed + Checks(e, s)
  {
    hide ReadPhase;
  }

  lemma {:induction false} AuditClient(e: Env, s: Snap, t: Snap, w: Wait, passed: set<Check>)
    requires Phase(s) && Phase(t) && Keyed(s) && Moves(s, t, w) && Advances(w) && !s.tls13 && !t.tls13
    requires ClientAudited(passed, s) && Index(SendServerHelloDone) < Index(s.state) < Index(Done)
    ensures ClientAudited(passed + Checks(e, s), t)
  {
    assert s.ses.clientCerts == s.ses.peerPubkey;
    hide Keyed, SendPhase;
  }

  lemma {:induction false} AuditStep(mac: Mac, e: Env, s: Snap, t: Snap, w: Wait, passed: set<Check>)
    requires Inv(mac, s) && !s.tls13 && Inv(mac, t) && !t.tls13 && Moves(s, t, w) && Advances(w) && Audited(passed, s)
    requires s.state != Done && (s.state.SelectCertificate? ==> !e.yes(NewerVersion))
    ensures Audited(passed + Checks(e, s), t)
  {
    hide Inv, Moves, Audited, Checks;
    if Index(s.state) <= Index(SendServerHelloDone) {
      AuditSend(mac, e, s, t, w, passed);
    } else {
      AuditReceive(mac, e, s, t, w, passed);
    }
  }

  lemma {:induction false} NotYet13(mac: Mac, s: Snap, t: Snap, w: Wait)
    requires StepOk(mac, s, t, w) && Advances(w) && !t.tls13
    ensures !s.tls13 && Inv(mac, t)
  {
    hide Inv;
  }

  lemma {:induction false} Unmoved(mac: Mac, s: Snap, t: Snap, w: Wait)
    requires StepOk(mac, s, t, w) && !Advances(w) && w != WaitError
    ensures t == s
  {
    hide Inv;
  }

  lemma {:induction false} PassedChecks(mac: Mac, e: Env, s: Snap, t: Snap, w: Wait)
    requires Outcome(mac, e, s, t, w) && Advances(w)
    ensures forall c | c in Checks(e, s) :: e.passes(c)
  {
    hide Checks;
  }

  // The steps that read nothing and cannot fail.
  lemma {:induction false} PlainOutcome(mac: Mac, e: Env, s: Snap, t: Snap, w: Wait)
    requires s.state.StartAccept? || s.state.ReadChangeCipherSpec? || s.state.FinishServerHandshake?
    requires Advances(w)
    ensures Outcome(mac, e, s, t, w)
  {
  }

  // Nothing fails and nothing is awaited.
  ghost predicate Willing(e: Env) {
    (forall c :: e.passes(c)) && (forall v :: !e.waits(v))
  }

  // The message at the front is not one that the client may send, or a ClientHello that does not offer the extended
  // master secret.
  ghost predicate Refused(mac: Mac, t: Snap) {
    exists s :: Inv(mac, s) && !s.tls13 && OnlyRead(s, t) && s.log.incoming != []
                && (!Acceptable(mac, s) || (s.state.SelectParameters? && !s.ses.ems))
  }

  lemma {:induction false} WillingOutcome(mac: Mac, e: Env, s: Snap, t: Snap, w: Wait)
    requires Inv(mac, s) && !s.tls13 && Outcome(mac, e, s, t, w) && Willing(e)
    ensures w == WaitError ==> Refused(mac, t)
    ensures w == WaitError || w == WaitMessage || Advances(w)
  {
    hide Inv, Checks, MayCome, OnlyRead;
  }

  // The check passed in some step.
  ghost predicate Answered(env: int -> Env, c: Check) {
    exists i :: env(i).passes(c)
  }

  // What ends a run of the state machine in TLS 1.2: success, a message that has not come, a flush or ChangeCipherSpec
  // after some progress; and otherwise, if the environment is willing, only a message that is refused.
  ghost predicate Ends(mac: Mac, env: int -> Env, s: Snap, t: Snap, w: Wait) {
    && (s.tls13 ==> t.tls13)
    && (w == WaitMessage && !t.tls13 ==> Expecting(t) && t.log.incoming == [])
    && ((w == WaitFlush || w == WaitChangeCipherSpec) && !t.tls13 ==>
          Rank(s.state, s.resumed) < Rank(t.state, t.resumed))
    && ((forall i :: Willing(env(i))) && !t.tls13 ==>
          Advances(w) || w == WaitMessage || (w == WaitError && Refused(mac, t)))
  }

  // ---- The steps as transitions ----

  // Apart from going on, a step can fail or wait.
  ghost predicate FailsOrWaits(s: Snap, t: Snap, w: Wait) {
    && (w == WaitError ==> t.log.arrived == s.log.arrived && t.tls13 == s.tls13 && Broken(t.log) && t.state != Done)
    && (w != WaitError && !Advances(w) ==> t == s)
  }

  ghost predicate StepReadClientHello(e: Env, s: Snap, t: Snap, w: Wait) {
    FailsOrWaits(s, t, w) &&
    (Advances(w) ==>
       w == WaitOk && s.log.incoming != [] && s.log.incoming[0].kind == ClientHello
       && t == s.(state := SelectCertificate,
                  par := s.par.(nextProto := e.yes(NextProtoSeen), channelId := e.yes(ChannelIdSeen)),
                  ses := s.ses.(ems := e.yes(ClientHasEms))))
  }

  ghost predicate StepSelectCertificate(e: Env, s: Snap, t: Snap, w: Wait) {
    FailsOrWaits(s, t, w) &&
    (Advances(w) ==>
       w == WaitOk
       && t == if e.yes(NewerVersion) then s.(state := Tls13, tls13 := true)
               else s.(state := SelectParameters, par := s.par.(certAuth := e.yes(CertificateCipher))))
  }

  // A session found is used if it may be; otherwise a certificate is asked for if it is wanted and the cipher allows.
  function AfterSession(e: Env, ses: Session): Session {
    if Resumes(e, ses) then ses.(ticketExpected := e.yes(RenewTicket), hasEms := e.yes(SessionHasEms))
    else ses.(ticketExpected := e.yes(TicketsSupported), hasEms := ses.ems)
  }

  function AfterRequest(resumes: bool, par: Params): Params {
    if resumes then par
    else par.(certRequest := par.conf.verifyPeer && !(par.conf.unlessChannelId && par.channelId) && par.certAuth)
  }

  ghost predicate StepSelectParameters(e: Env, s: Snap, t: Snap, w: Wait) {
    FailsOrWaits(s, t, w) &&
    (Advances(w) ==>
       w == WaitOk && s.log.incoming != []
       && t == s.(state := SendServerHello, resumed := Resumes(e, s.ses), log := AfterRelease(s.log),
                  par := AfterRequest(Resumes(e, s.ses), s.par), ses := AfterSession(e, s.ses)))
  }

  ghost predicate StepSendServerHello(e: Env, s: Snap, t: Snap, w: Wait) {
    FailsOrWaits(s, t, w) &&
    (Advances(w) ==>
       && w == WaitOk
       && t == s.(state := if s.resumed then SendServerFinished else SendServerCertificate,
                  par := AfterExtensions(e, s), log := AfterSend(s.log, ServerHello, e.body(0))))
  }

  // Channel ID needs ECDHE, and the handshake hashes of a resumed session; an OCSP response is announced in a full
  // handshake with a certificate.
  function AfterExtensions(e: Env, s: Snap): Params {
    s.par.(channelId := s.par.channelId && e.yes(EcdheCipher) && (s.resumed ==> e.yes(SessionHasHashes)),
           statusExpected := !s.resumed && s.par.certAuth && e.yes(HasOcsp))
  }

  ghost predicate StepSendServerCertificate(e: Env, s: Snap, t: Snap, w: Wait) {
    FailsOrWaits(s, t, w) &&
    (Advances(w) ==>
       && w == WaitOk
       && t == s.(state := SendServerKeyExchange, log := t.log,
                  par := s.par.(keyExchange := e.yes(KeyExchangeNeeded), serverParams := e.yes(KeyExchangeNeeded)))
       && ChainSent(e, s.par, s.log, t.log))
  }

  // If the cipher authenticates with a certificate, a chain was sent, and the OCSP response exactly if it is expected;
  // otherwise nothing.
  ghost predicate ChainSent(e: Env, par: Params, l: Log, l': Log) {
    if !par.certAuth then l' == l
    else if !par.statusExpected then l' == AfterSend(l, Certificate, e.body(0))
    else l' == AfterSend(AfterSend(l, Certificate, e.body(0)), CertificateStatus, e.body(1))
  }

  ghost predicate StepSendServerKeyExchange(e: Env, s: Snap, t: Snap, w: Wait) {
    FailsOrWaits(s, t, w) &&
    (Advances(w) ==>
       w == WaitOk
       && t == s.(state := SendServerHelloDone, par := s.par.(serverParams := false),
                  log := if s.par.serverParams then AfterSend(s.log, ServerKeyExchange, e.body(0)) else s.log))
  }

  ghost predicate StepSendServerHelloDone(e: Env, s: Snap, t: Snap, w: Wait) {
    FailsOrWaits(s, t, w) &&
    (Advances(w) ==>
       w == WaitFlush && t == s.(state := ReadClientCertificate, log := t.log)
       && t.log == AfterSend(if s.par.certRequest then AfterSend(s.log, CertificateRequest, e.body(0)) else s.log,
                             ServerHelloDone, e.body(1)))
  }

  // A message of the given kind was released, or none was expected.
  ghost predicate StepRead(s: Snap, t: Snap, w: Wait, next: HsState, expected: bool, kind: Kind) {
    FailsOrWaits(s, t, w) &&
    (Advances(w) ==>
       w == WaitOk && t == s.(state := next, log := t.log)
       && if !expected then t.log == s.log
          else s.log.incoming != [] && s.log.incoming[0].kind == kind && t.log == AfterRelease(s.log))
  }

  // A Certificate was released and its chain kept; or none was asked for, or it was left out in SSL 3.0.
  ghost predicate StepReadClientCertificate(s: Snap, t: Snap, w: Wait) {
    FailsOrWaits(s, t, w) &&
    (Advances(w) ==>
       && w == WaitOk && (s.par.certRequest ==> s.log.incoming != [] && AnswersRequest(s.par.conf, s.log.incoming[0]))
       && t == if s.par.certRequest && s.log.incoming[0].kind == Certificate
               then s.(state := VerifyClientCertificate, log := AfterRelease(s.log),
                       ses := WithChain(s.ses, |s.log.incoming[0].body| > 3))
               else s.(state := VerifyClientCertificate))
  }

  function WithChain(ses: Session, chain: bool): Session {
    ses.(peerPubkey := chain, clientCerts := chain)
  }

  ghost predicate StepProcessChangeCipherSpec(s: Snap, t: Snap, w: Wait) {
    FailsOrWaits(s, t, w) && (Advances(w) ==> w == WaitOk && t == s.(state := ReadNextProto, readKeys := true))
  }

  ghost predicate StepReadClientFinished(mac: Mac, s: Snap, t: Snap, w: Wait) {
    FailsOrWaits(s, t, w) &&
    (Advances(w) ==>
       w == WaitOk && s.log.incoming != [] && s.log.incoming[0].kind == Finished
       && s.log.incoming[0].body == mac(s.log.transcript, false)
       && t == s.(state := if s.resumed then FinishServerHandshake else SendServerFinished,
                  log := AfterRelease(s.log).(clientOver := s.log.transcript)))
  }

  ghost predicate StepSendServerFinished(mac: Mac, e: Env, s: Snap, t: Snap, w: Wait) {
    FailsOrWaits(s, t, w) &&
    (Advances(w) ==>
       w == WaitFlush
       && t == s.(state := if s.resumed then ReadChangeCipherSpec else FinishServerHandshake, writeKeys := true,
                  log := AfterFinished(mac, if s.ses.ticketExpected then AfterSend(s.log, NewSessionTicket, e.body(0))
                                            else s.log)))
  }

  // All that was released has been hashed and nothing else.
  ghost predicate Ready(s: Snap) {
    && !s.tls13 && s.log.released + s.log.incoming == s.log.arrived && ReceivedOf(s.log.transcript) == s.log.released
    && (s.log.incoming != [] ==> !s.log.incoming[0].isV2Hello)
  }

  lemma {:induction false} ReadyFacts(s: Snap)
    requires Ready(s)
    ensures !s.tls13 && Broken(s.log)
    ensures s.log.incoming != [] ==>
      var l := s.log.(transcript := s.log.transcript + [Received(s.log.incoming[0])]);
      && !s.log.incoming[0].isV2Hello && Broken(l) && HashedNext(l)
      && Broken(Released(l)) && Broken(Released(l).(clientOver := s.log.transcript))
  {
    hide ReceivedOf, SentOf;
    if s.log.incoming != [] {
      TranscriptSnoc(s.log.transcript, Received(s.log.incoming[0]));
      assert s.log.released + [s.log.incoming[0]] <= s.log.released + s.log.incoming;
      assert s.log.released + s.log.incoming == s.log.released + [s.log.incoming[0]] + s.log.incoming[1..];
    }
  }

  // The next message has been hashed right after all those released before.
  ghost predicate HashedNext(l: Log) {
    l.incoming != [] && ReceivedOf(l.transcript) == l.released + [l.incoming[0]]
  }

  function WithCcs(s: Snap): Snap {
    s.(log := s.log.(out := s.log.out + [ChangeCipherSpec], sent := s.log.sent + {ChangeCipherSpec}))
  }

  lemma {:induction false} ReadyCcs(s: Snap)
    requires Ready(s)
    ensures Ready(WithCcs(s)) && Broken(WithCcs(s).log) && Broken(s.log)
  {
  }

  lemma {:induction false} ReadySent(s: Snap, k: Kind, body: seq<Byte>)
    requires Ready(s)
    ensures Ready(s.(log := AfterSend(s.log, k, body))) && Broken(AfterSend(s.log, k, body))
  {
    TranscriptSnoc(s.log.transcript, Sent(k, body));
  }

  lemma {:induction false} SendOne(s: Snap, k: Kind, body: seq<Byte>)
    requires Ready(s)
    ensures !s.tls13 && Broken(s.log) && Broken(AfterSend(s.log, k, body))
    ensures AfterSend(s.log, k, body).arrived == s.log.arrived
  {
    ReadyFacts(s);
    ReadySent(s, k, body);
  }

  lemma {:induction false} SendTwo(s: Snap, k: Kind, body: seq<Byte>, k': Kind, body': seq<Byte>)
    requires Ready(s)
    ensures !s.tls13 && Broken(s.log) && Broken(AfterSend(s.log, k, body))
    ensures Broken(AfterSend(AfterSend(s.log, k, body), k', body'))
    ensures AfterSend(s.log, k, body).arrived == AfterSend(AfterSend(s.log, k, body), k',
        body').arrived == s.log.arrived
  {
    ReadyFacts(s);
    ReadySent(s, k, body);
    ReadySent(s.(log := AfterSend(s.log, k, body)), k', body');
  }

  // What happens between two runs of the state machine: messages arrive, or the flight is flushed or the
  // ChangeCipherSpec read.
  datatype Event = Event(arrivals: seq<Message>, resolved: bool, env: int -> Env)

  function Taken(state: HsState, wait: Wait, event: Event): seq<Message> {
    if state != Done && (wait == WaitMessage || wait == WaitChangeCipherSpec) then event.arrivals else []
  }

  function WithArrivals(s: Snap, msgs: seq<Message>): Snap {
    s.(log := s.log.(incoming := s.log.incoming + msgs, arrived := s.log.arrived + msgs))
  }

  /** The handshake of a TLS 1.2 server: SSL_HANDSHAKE and the parts of SSL that it uses, as the record hs. */
  class Server {
    const mac: Mac
    var hs: Snap
    var wait: Wait
    // What has been checked in the steps so far, and has passed.
    ghost var passed: set<Check>

    constructor (mac: Mac, conf: Conf)
      ensures Sane() && this.mac == mac && hs.par.conf == conf && hs.log.arrived == [] && hs.state == StartAccept
      ensures wait == WaitOk
    {
      this.mac, wait, passed := mac, WaitOk, {};
      var par := Params(conf, false, false, false, false, false, false, false);
      var ses := Session(false, false, false, false, false);
      hs := Snap(StartAccept, false, false, false, false, par, ses, Log([], [], [], [], [], {}, {}, [], []));
      new;
      NoneListed(CLIENT_ORDER);
      NoneListed(SERVER_ORDER);
    }

    // ssl_hash_message.
    method HashMessage(e: Env, msg: Message) returns (ok: bool)
      modifies `hs
      ensures ok <==> msg.isV2Hello || e.passes(Hashing)
      ensures var transcript := old(hs).log.transcript + [Received(msg)];
              hs == if ok && !msg.isV2Hello then old(hs).(log := old(hs).log.(transcript := transcript)) else old(hs)
    {
      if msg.isV2Hello { return true; }
      ok := e.passes(Hashing);
      if ok { hs := hs.(log := hs.log.(transcript := hs.log.transcript + [Received(msg)])); }
    }

    // next_message, only for a message that was hashed right after all those released before.
    method NextMessage()
      requires HashedNext(hs.log)
      modifies `hs
      ensures hs == old(hs).(log := Released(old(hs).log))
    {
      hs := hs.(log := Released(hs.log));
    }

    // ssl_add_message_cbb: the message goes into the flight and into the transcript.
    method AddMessage(e: Env, k: Kind, body: seq<Byte>) returns (ok: bool)
      modifies `hs
      ensures ok <==> e.passes(Sending(k))
      ensures hs == if ok then old(hs).(log := AfterSend(old(hs).log, k, body)) else old(hs)
    {
      ok := e.passes(Sending(k));
      if ok { hs := hs.(log := AfterSend(hs.log, k, body)); }
    }

    method DoReadClientHello(e: Env) returns (ret: Wait)
      requires Ready(hs) && hs.state == ReadClientHello
      modifies `hs
      ensures StepReadClientHello(e, old(hs), hs, ret) && Outcome(mac, e, old(hs), hs, ret)
    {
      hide Ready, Broken;
      ReadyFacts(hs);
      if hs.log.incoming == [] { return WaitMessage; }
      if hs.log.incoming[0].kind != ClientHello { return WaitError; }
      if e.waits(WaitHandoff) { return WaitHandoff; }
      if !e.passes(HelloParses) { return WaitError; }
      if e.waits(WaitCertificateSelection) { return WaitCertificateSelection; }
      // The early callback, the version, the client random, the compression methods and the extensions.
      if !e.passes(HelloFine) { return WaitError; }
      hs := hs.(state := SelectCertificate,
                par := hs.par.(nextProto := e.yes(NextProtoSeen), channelId := e.yes(ChannelIdSeen)),
                ses := hs.ses.(ems := e.yes(ClientHasEms)));
      ret := WaitOk;
    }

    method DoSelectCertificate(e: Env) returns (ret: Wait)
      requires Ready(hs) && hs.state == SelectCertificate
      modifies `hs
      ensures StepSelectCertificate(e, old(hs), hs, ret) && Outcome(mac, e, old(hs), hs, ret)
    {
      hide Ready, Broken;
      ReadyFacts(hs);
      if hs.log.incoming == [] { return WaitMessage; }
      if !e.passes(CertificateCallback) { return WaitError; }
      if e.waits(WaitX509Lookup) { return WaitX509Lookup; }
      if !e.passes(CertificateSelected) { return WaitError; }
      if e.yes(NewerVersion) {
        hs := hs.(state := Tls13, tls13 := true);
        return WaitOk;
      }
      if !e.passes(HelloParses) || !e.passes(CipherChosen) { return WaitError; }
      hs := hs.(state := SelectParameters, par := hs.par.(certAuth := e.yes(CertificateCipher)));
      ret := WaitOk;
    }

    // ssl_get_prev_session.
    method PreviousSession(e: Env) returns (ret: Wait, found: bool)
      ensures ret == if !e.passes(SessionLookup) then WaitError else if e.waits(WaitSession) then WaitSession
                     else if e.waits(WaitTicket) then WaitTicket else WaitOk
      ensures ret == WaitOk ==> found == e.yes(SessionFound)
    {
      found := false;
      if !e.passes(SessionLookup) { return WaitError, false; }
      if e.waits(WaitSession) { return WaitSession, false; }
      if e.waits(WaitTicket) { return WaitTicket, false; }
      found := e.yes(SessionFound);
      ret := WaitOk;
    }

    // The part of do_select_parameters that decides about resumption and the client certificate.
    method UseSession(e: Env, found: bool) returns (ok: bool)
      requires found == e.yes(SessionFound)
      modifies `hs
      ensures ok <==> !DropsEms(e, old(hs).ses) && e.passes(DosAllowed)
                      && (!Resumes(e, old(hs).ses) ==> e.passes(SessionMade))
      ensures ok ==>
        hs == old(hs).(resumed := Resumes(e, old(hs).ses), ses := AfterSession(e, old(hs).ses),
                       par := AfterRequest(Resumes(e, old(hs).ses), old(hs).par))
      ensures !ok ==> hs == old(hs).(resumed := hs.resumed, ses := hs.ses)
      ensures DropsEms(e, old(hs).ses) ==> hs == old(hs)
    {
      var session := found;
      if session {
        if e.yes(SessionHasEms) && !hs.ses.ems { return false; }
        if !e.yes(SessionResumable) || hs.ses.ems != e.yes(SessionHasEms) { session := false; }
      }
      var ticket := if session then e.yes(RenewTicket) else e.yes(TicketsSupported);
      var ems := if session then e.yes(SessionHasEms) else hs.ses.ems;
      hs := hs.(resumed := session, ses := hs.ses.(ticketExpected := ticket, hasEms := ems));
      if !session && !e.passes(SessionMade) { return false; }
      if !e.passes(DosAllowed) { return false; }
      if !session { RequestCertificate(); }
      ok := true;
    }

    // Whether a client certificate is asked for.
    method RequestCertificate()
      modifies `hs
      ensures hs == old(hs).(par := AfterRequest(false, old(hs).par))
    {
      var request := hs.par.conf.verifyPeer;
      if hs.par.conf.unlessChannelId && hs.par.channelId { request := false; }
      if !hs.par.certAuth { request := false; }
      hs := hs.(par := hs.par.(certRequest := request));
    }

    method DoSelectParameters(e: Env) returns (ret: Wait)
      requires Ready(hs) && hs.state == SelectParameters
      modifies `hs
      ensures StepSelectParameters(e, old(hs), hs, ret) && Outcome(mac, e, old(hs), hs, ret)
    {
      ghost var s := hs;
      ReadyFacts(s);
      hide Ready, Broken, HashedNext, DropsEms, Resumes, AfterSession, AfterRequest, Outcome;
      ret := SelectParametersOf(e);
      ParametersOutcome(mac, e, s, hs, ret);
    }

    method SelectParametersOf(e: Env) returns (ret: Wait)
      requires Ready(hs) && hs.state == SelectParameters
      modifies `hs
      ensures ret == ParametersEnd(e, old(hs)) && StepSelectParameters(e, old(hs), hs, ret)
      ensures DropsEms(e, old(hs).ses) ==> hs == old(hs)
    {
      hide Ready, Broken, HashedNext, DropsEms, Resumes, AfterSession, AfterRequest;
      ReadyFacts(hs);
      if hs.log.incoming == [] { return WaitMessage; }
      var msg := hs.log.incoming[0];
      if !e.passes(HelloParses) { return WaitError; }
      var found;
      ret, found := PreviousSession(e);
      if ret != WaitOk { return; }
      var ok := UseSession(e, found);
      if !ok { return WaitError; }
      ok := HashHello(e, msg);
      if !ok { return WaitError; }
      ret := WaitOk;
    }

    // Its end: the application protocol, the transcript, and the ClientHello in it.
    method HashHello(e: Env, msg: Message) returns (ok: bool)
      requires hs.log.incoming != [] && msg == hs.log.incoming[0] && !msg.isV2Hello
      requires HashedNext(hs.log.(transcript := hs.log.transcript + [Received(msg)]))
      modifies `hs
      ensures ok <==> e.passes(AlpnAgreed) && e.passes(HashInit) && e.passes(Hashing)
      ensures hs == if ok then old(hs).(state := SendServerHello, log := AfterRelease(old(hs).log)) else old(hs)
    {
      hide HashedNext;
      if !e.passes(AlpnAgreed) || !e.passes(HashInit) { return false; }
      ok := HashMessage(e, msg);
      if !ok { return; }
      NextMessage();
      hs := hs.(state := SendServerHello);
    }

    method DoSendServerHello(e: Env) returns (ret: Wait)
      requires Ready(hs) && hs.state == SendServerHello
      modifies `hs
      ensures StepSendServerHello(e, old(hs), hs, ret) && Outcome(mac, e, old(hs), hs, ret)
    {
      hide Ready, Broken, AfterSend, ReceivedOf, Released, Outcome;
      ghost var s := hs;
      var body := e.body(0);
      SendOne(hs, ServerHello, body);
      var channelId := hs.par.channelId;
      if channelId && !e.yes(EcdheCipher) { channelId := false; }
      if hs.resumed && !e.yes(SessionHasHashes) { channelId := false; }
      var status := !hs.resumed && hs.par.certAuth && e.yes(HasOcsp);
      hs := hs.(par := hs.par.(channelId := channelId, statusExpected := status));
      if !e.passes(RandomMade) {
        HelloOutcome(mac, e, s, hs, WaitError);
        return WaitError;
      }
      var ok := AddMessage(e, ServerHello, body);
      assert hs.log == if ok then AfterSend(s.log, ServerHello, body) else s.log;
      if !ok {
        HelloOutcome(mac, e, s, hs, WaitError);
        return WaitError;
      }
      hs := hs.(state := if hs.resumed then SendServerFinished else SendServerCertificate);
      assert hs == Snap(hs.state, s.resumed, s.tls13, s.readKeys, s.writeKeys, hs.par, s.ses, hs.log);
      ret := WaitOk;
      HelloOutcome(mac, e, s, hs, ret);
    }

    // ssl_output_cert_chain, and the OCSP response if it is expected.
    method SendChain(e: Env) returns (ok: bool)
      requires Ready(hs)
      modifies `hs
      ensures hs == old(hs).(log := hs.log) && Broken(hs.log) && hs.log.arrived == old(hs).log.arrived
      ensures ok <==> Passes(e, ChainChecks(hs.par))
      ensures ok ==> ChainSent(e, hs.par, old(hs).log, hs.log)
    {
      hide Ready, Broken, AfterSend;
      SendTwo(hs, Certificate, e.body(0), CertificateStatus, e.body(1));
      if !hs.par.certAuth { return true; }
      ok := e.passes(HasCertificate);
      if ok { ok := AddMessage(e, Certificate, e.body(0)); }
      if ok && hs.par.statusExpected {
        ok := AddMessage(e, CertificateStatus, e.body(1));
      }
    }

    method DoSendServerCertificate(e: Env) returns (ret: Wait)
      requires Ready(hs) && hs.state == SendServerCertificate
      modifies `hs
      ensures StepSendServerCertificate(e, old(hs), hs, ret) && Outcome(mac, e, old(hs), hs, ret)
    {
      ReadyFacts(hs);
      CertificateChecks(e, hs);
      hide Ready, Broken, AfterSend, ChainSent, ChainChecks, Checks, Passes, Delayed;
      var ok := SendChain(e);
      if !ok { return WaitError; }
      var needed := e.yes(KeyExchangeNeeded);
      hs := hs.(par := hs.par.(keyExchange := needed, serverParams := needed));
      if needed && !e.passes(ParamsMade) { return WaitError; }
      hs := hs.(state := SendServerKeyExchange);
      ret := WaitOk;
    }

    method DoSendServerKeyExchange(e: Env) returns (ret: Wait)
      requires Ready(hs) && hs.state == SendServerKeyExchange
      modifies `hs
      ensures StepSendServerKeyExchange(e, old(hs), hs, ret) && Outcome(mac, e, old(hs), hs, ret)
    {
      var body := e.body(0);
      hide Ready, Broken, AfterSend;
      SendOne(hs, ServerKeyExchange, body);
      if !hs.par.serverParams {
        hs := hs.(state := SendServerHelloDone);
        return WaitOk;
      }
      if hs.par.certAuth {
        if !e.passes(CanSign) { return WaitError; }
        if e.waits(WaitPrivateKey) { return WaitPrivateKey; }
      }
      var ok := AddMessage(e, ServerKeyExchange, body);
      if !ok { return WaitError; }
      hs := hs.(state := SendServerHelloDone, par := hs.par.(serverParams := false));
      ret := WaitOk;
    }

    method DoSendServerHelloDone(e: Env) returns (ret: Wait)
      requires Ready(hs) && hs.state == SendServerHelloDone
      modifies `hs
      ensures StepSendServerHelloDone(e, old(hs), hs, ret) && Outcome(mac, e, old(hs), hs, ret)
    {
      var request, done := e.body(0), e.body(1);
      hide Ready, Broken, AfterSend;
      SendOne(hs, ServerHelloDone, done);
      SendTwo(hs, CertificateRequest, request, ServerHelloDone, done);
      if hs.par.certRequest {
        var ok := AddMessage(e, CertificateRequest, request);
        if !ok { return WaitError; }
      }
      var ok := AddMessage(e, ServerHelloDone, done);
      if !ok { return WaitError; }
      hs := hs.(state := ReadClientCertificate);
      ret := WaitFlush;
    }

    // ssl_parse_cert_chain: the key is that of the first certificate.
    static method ParseCertChain(e: Env, body: seq<Byte>) returns (ok: bool, chain: bool, rest: seq<Byte>)
      ensures ok <==> |body| >= 3 && GetU24(body) <= |body| - 3 && IsCertificateList(body[3..3 + GetU24(body)])
                      && (GetU24(body) > 0 ==> e.passes(LeafParses))
      ensures ok ==> chain == (GetU24(body) > 0) && rest == body[3 + GetU24(body)..]
    {
      ok, chain, rest := false, false, [];
      if |body| < 3 || GetU24(body) > |body| - 3 { return; }
      var list := body[3..3 + GetU24(body)];
      rest := body[3 + GetU24(body)..];
      while list != []
        invariant IsCertificateList(list) == IsCertificateList(body[3..3 + GetU24(body)])
        invariant if chain then e.passes(LeafParses) && GetU24(body) > 0 else |list| == GetU24(body)
      {
        if |list| < 3 || GetU24(list) > |list| - 3 || GetU24(list) == 0 { return; }
        if !chain && !e.passes(LeafParses) { return; }
        chain, list := true, list[3 + GetU24(list)..];
      }
      ok := true;
    }

    // The certificate chain of the client, which may be empty if none is required.
    method AcceptCertificate(e: Env, msg: Message) returns (ok: bool)
      requires msg.kind == Certificate
      modifies `hs
      ensures hs == old(hs).(ses := old(hs).ses.(peerPubkey := hs.ses.peerPubkey, clientCerts := hs.ses.clientCerts))
      ensures ok <==> AnswersRequest(old(hs).par.conf, msg) && e.passes(ChainKept)
                      && (|msg.body| > 3 ==> e.passes(LeafParses))
      ensures ok ==> hs.ses == WithChain(old(hs).ses, |msg.body| > 3)
    {
      hide IsChain, IsCertificateList, GetU24;
      ChainIs(msg.body);
      var chain, rest;
      ok, chain, rest := ParseCertChain(e, msg.body);
      hs := hs.(ses := hs.ses.(peerPubkey := ok && chain, clientCerts := ok && chain));
      if !ok { return; }
      if rest != [] || !e.passes(ChainKept) { return false; }
      if !chain && (hs.par.conf.sslV3 || hs.par.conf.certRequired) { return false; }
    }

    method DoReadClientCertificate(e: Env) returns (ret: Wait)
      requires Ready(hs) && hs.state == ReadClientCertificate
      modifies `hs
      ensures StepReadClientCertificate(old(hs), hs, ret) && Outcome(mac, e, old(hs), hs, ret)
    {
      hide Ready, Broken, HashedNext, IsChain;
      ReadyFacts(hs);
      if !hs.par.certRequest {
        hs := hs.(state := VerifyClientCertificate);
        return WaitOk;
      }
      if hs.log.incoming == [] { return WaitMessage; }
      var msg := hs.log.incoming[0];
      if msg.kind != Certificate {
        // In SSL 3.0 the client leaves out its Certificate message.
        if hs.par.conf.sslV3 && msg.kind == ClientKeyExchange {
          if hs.par.conf.certRequired { return WaitError; }
          hs := hs.(state := VerifyClientCertificate);
          return WaitOk;
        }
        return WaitError;
      }
      var ok := HashMessage(e, msg);
      if !ok { return WaitError; }
      ok := AcceptCertificate(e, msg);
      if !ok { return WaitError; }
      NextMessage();
      hs := hs.(state := VerifyClientCertificate);
      ret := WaitOk;
    }

    method DoVerifyClientCertificate(e: Env) returns (ret: Wait)
      requires Ready(hs) && hs.state == VerifyClientCertificate
      modifies `hs
      ensures StepRead(old(hs), hs, ret, ReadClientKeyExchange, false, Unknown) && Outcome(mac, e, old(hs), hs, ret)
    {
      hide Ready, Broken;
      ReadyFacts(hs);
      if hs.ses.clientCerts {
        if !e.passes(ChainVerified) { return WaitError; }
        if e.waits(WaitCertificateVerify) { return WaitCertificateVerify; }
      }
      hs := hs.(state := ReadClientKeyExchange);
      ret := WaitOk;
    }

    method DoReadClientKeyExchange(e: Env) returns (ret: Wait)
      requires Ready(hs) && hs.state == ReadClientKeyExchange
      modifies `hs
      ensures StepRead(old(hs), hs, ret, ReadClientCertificateVerify, true, ClientKeyExchange)
      ensures Outcome(mac, e, old(hs), hs, ret)
    {
      hide Ready, Broken, HashedNext;
      ReadyFacts(hs);
      if hs.log.incoming == [] { return WaitMessage; }
      var msg := hs.log.incoming[0];
      if msg.kind != ClientKeyExchange { return WaitError; }
      if !e.passes(PskIdentityFine) { return WaitError; }
      // The premaster secret may need an asynchronous private key.
      if e.waits(WaitPrivateKey) { return WaitPrivateKey; }
      if !e.passes(PremasterMade) { return WaitError; }
      var ok := HashMessage(e, msg);
      if !ok { return WaitError; }
      if !e.passes(MasterMade) { return WaitError; }
      NextMessage();
      hs := hs.(state := ReadClientCertificateVerify);
      ret := WaitOk;
    }

    method DoReadClientCertificateVerify(e: Env) returns (ret: Wait)
      requires Ready(hs) && hs.state == ReadClientCertificateVerify
      modifies `hs
      ensures StepRead(old(hs), hs, ret, ReadChangeCipherSpec, old(hs).ses.peerPubkey, CertificateVerify)
      ensures Outcome(mac, e, old(hs), hs, ret)
    {
      hide Ready, Broken, HashedNext;
      ReadyFacts(hs);
      if !hs.ses.peerPubkey {
        hs := hs.(state := ReadChangeCipherSpec);
        return WaitOk;
      }
      if hs.log.incoming == [] { return WaitMessage; }
      var msg := hs.log.incoming[0];
      if msg.kind != CertificateVerify { return WaitError; }
      // The signature algorithm and the signature.
      if !e.passes(SignatureValid) { return WaitError; }
      var ok := HashMessage(e, msg);
      if !ok { return WaitError; }
      NextMessage();
      hs := hs.(state := ReadChangeCipherSpec);
      ret := WaitOk;
    }

    method DoReadNextProto(e: Env) returns (ret: Wait)
      requires Ready(hs) && hs.state == ReadNextProto
      modifies `hs
      ensures StepRead(old(hs), hs, ret, ReadChannelId, old(hs).par.nextProto, NextProto)
      ensures Outcome(mac, e, old(hs), hs, ret)
    {
      hide Ready, Broken, HashedNext;
      ReadyFacts(hs);
      if !hs.par.nextProto {
        hs := hs.(state := ReadChannelId);
        return WaitOk;
      }
      if hs.log.incoming == [] { return WaitMessage; }
      var msg := hs.log.incoming[0];
      if msg.kind != NextProto { return WaitError; }
      var ok := HashMessage(e, msg);
      if !ok { return WaitError; }
      if !e.passes(NextProtoFine) { return WaitError; }
      NextMessage();
      hs := hs.(state := ReadChannelId);
      ret := WaitOk;
    }

    method DoReadChannelId(e: Env) returns (ret: Wait)
      requires Ready(hs) && hs.state == ReadChannelId
      modifies `hs
      ensures StepRead(old(hs), hs, ret, ReadClientFinished, old(hs).par.channelId, ChannelId)
      ensures Outcome(mac, e, old(hs), hs, ret)
    {
      hide Ready, Broken, HashedNext;
      ReadyFacts(hs);
      if !hs.par.channelId {
        hs := hs.(state := ReadClientFinished);
        return WaitOk;
      }
      if hs.log.incoming == [] { return WaitMessage; }
      var msg := hs.log.incoming[0];
      if msg.kind != ChannelId { return WaitError; }
      if !e.passes(ChannelIdVerified) { return WaitError; }
      var ok := HashMessage(e, msg);
      if !ok { return WaitError; }
      NextMessage();
      hs := hs.(state := ReadClientFinished);
      ret := WaitOk;
    }

    // do_read_client_finished, with ssl_get_finished: the MAC is computed before the message is hashed.
    method DoReadClientFinished(e: Env) returns (ret: Wait)
      requires Ready(hs) && hs.state == ReadClientFinished
      modifies `hs
      ensures StepReadClientFinished(mac, old(hs), hs, ret) && Outcome(mac, e, old(hs), hs, ret)
    {
      hide Ready, Broken, HashedNext;
      ReadyFacts(hs);
      if hs.log.incoming == [] { return WaitMessage; }
      var msg := hs.log.incoming[0];
      if msg.kind != Finished { return WaitError; }
      var over := hs.log.transcript;
      var finished := mac(over, false);
      var ok := HashMessage(e, msg);
      if !ok { return WaitError; }
      if msg.body != finished { return WaitError; }
      NextMessage();
      hs := hs.(log := hs.log.(clientOver := over));
      hs := hs.(state := if hs.resumed then FinishServerHandshake else SendServerFinished);
      if !hs.resumed && hs.par.channelId {
        // tls1_record_handshake_hashes_for_channel_id.
        if !e.passes(HashesRecorded) { return WaitError; }
      }
      ret := WaitOk;
    }

    // do_send_server_finished, with ssl_send_finished.
    method DoSendServerFinished(e: Env) returns (ret: Wait)
      requires Ready(hs) && hs.state == SendServerFinished
      modifies `hs
      ensures StepSendServerFinished(mac, e, old(hs), hs, ret) && Outcome(mac, e, old(hs), hs, ret)
    {
      var body := e.body(0);
      ReadySent(hs, NewSessionTicket, body);
      ReadyFacts(hs);
      hide Ready, Broken, AfterFinished, AfterSend, Outcome;
      ghost var s := hs;
      if hs.ses.ticketExpected {
        var ok := AddMessage(e, NewSessionTicket, body);
        if !ok {
          FinishedOutcome(mac, e, s, hs, WaitError);
          return WaitError;
        }
      }
      ret := SendFinished(e);
      FinishedOutcome(mac, e, s, hs, ret);
    }

    // add_change_cipher_spec, tls1_change_cipher_state and ssl_send_finished.
    method SendFinished(e: Env) returns (ret: Wait)
      requires Ready(hs) && hs.state == SendServerFinished
      modifies `hs
      ensures ret == if Passes(e, {CcsAdded, WriteKeysMade, Sending(Finished)}) then WaitFlush else WaitError
      ensures ret == WaitError ==>
        Broken(hs.log) && hs.state != Done && hs.log.arrived == old(hs).log.arrived && !hs.tls13
      ensures ret == WaitFlush ==>
                hs == old(hs).(state := if old(hs).resumed then ReadChangeCipherSpec else FinishServerHandshake,
                               writeKeys := true, log := AfterFinished(mac, old(hs).log))
    {
      ReadyCcs(hs);
      var over := hs.log.transcript;
      var finished := mac(over, true);
      ReadySent(WithCcs(hs), Finished, finished);
      hide Ready, Broken;
      var ok := AddChangeCipherSpec(e.passes(CcsAdded));
      if !ok { return WaitError; }
      if !e.passes(WriteKeysMade) { return WaitError; }
      hs := hs.(writeKeys := true);
      ok := AddMessage(e, Finished, finished);
      if !ok { return WaitError; }
      hs := hs.(log := hs.log.(serverOver := over));
      hs := hs.(state := if hs.resumed then ReadChangeCipherSpec else FinishServerHandshake);
      ret := WaitFlush;
    }

    // add_change_cipher_spec: it is not hashed.
    method AddChangeCipherSpec(fine: bool) returns (ok: bool)
      modifies `hs
      ensures ok == fine && hs == if ok then WithCcs(old(hs)) else old(hs)
    {
      ok := fine;
      if ok { hs := WithCcs(hs); }
    }

    method DoStartAccept() returns (ret: Wait)
      requires hs.state == StartAccept
      modifies `hs
      ensures ret == WaitOk && hs == old(hs).(state := ReadClientHello)
    {
      hs := hs.(state := ReadClientHello);
      ret := WaitOk;
    }

    // The state machine of TLS 1.3 is not modelled: it may do anything and then fail, wait or be done.
    method DoTls13(e: Env) returns (ret: Wait)
      requires hs.state == Tls13
      modifies `hs
      ensures if ret == WaitOk then hs == old(hs).(state := FinishServerHandshake)
              else hs == old(hs) && (ret == WaitError || ret == WaitOther)
    {
      if !e.passes(Tls13Done) { return if e.waits(WaitOther) then WaitOther else WaitError; }
      hs := hs.(state := FinishServerHandshake);
      ret := WaitOk;
    }

    method DoReadChangeCipherSpec() returns (ret: Wait)
      requires hs.state == ReadChangeCipherSpec
      modifies `hs
      ensures ret == WaitChangeCipherSpec && hs == old(hs).(state := ProcessChangeCipherSpec)
    {
      hs := hs.(state := ProcessChangeCipherSpec);
      ret := WaitChangeCipherSpec;
    }

    method DoProcessChangeCipherSpec(e: Env) returns (ret: Wait)
      requires Ready(hs) && hs.state == ProcessChangeCipherSpec
      modifies `hs
      ensures StepProcessChangeCipherSpec(old(hs), hs, ret) && Outcome(mac, e, old(hs), hs, ret)
    {
      ReadyFacts(hs);
      hide Ready, Broken;
      if !e.passes(ReadKeysMade) { return WaitError; }
      hs := hs.(state := ReadNextProto, readKeys := true);
      ret := WaitOk;
    }

    method DoFinishServerHandshake() returns (ret: Wait)
      requires hs.state == FinishServerHandshake
      modifies `hs
      ensures ret == WaitOk && hs == old(hs).(state := Done)
    {
      hs := hs.(state := Done);
      ret := WaitOk;
    }

    // One pass of the loop of ssl_server_handshake.
    method Step(e: Env) returns (ret: Wait)
      requires Inv(mac, hs) && hs.state != Done && (!hs.tls13 ==> Audited(passed, hs))
      modifies `hs, `passed
      ensures StepOk(mac, old(hs), hs, ret) && (!old(hs).tls13 ==> Outcome(mac, e, old(hs), hs, ret))
      ensures ret != WaitError && !hs.tls13 ==> Audited(passed, hs)
      ensures old(passed) <= passed && forall c | c in passed && c !in old(passed) :: e.passes(c)
    {
      ghost var s := hs;
      hide Inv, Audited, StepOk, Outcome, Moves;
      ret := OneStep(e);
      if Advances(ret) && !hs.tls13 {
        NotYet13(mac, s, hs, ret);
        AuditStep(mac, e, s, hs, ret, passed);
        PassedChecks(mac, e, s, hs, ret);
        passed := passed + Checks(e, s);
      } else if ret != WaitError && !hs.tls13 {
        Unmoved(mac, s, hs, ret);
      }
    }

    method OneStep(e: Env) returns (ret: Wait)
      requires Inv(mac, hs) && hs.state != Done
      modifies `hs
      ensures StepOk(mac, old(hs), hs, ret)
      ensures !old(hs).tls13 ==> Outcome(mac, e, old(hs), hs, ret) && Moves(old(hs), hs, ret)
      ensures Advances(ret) && !hs.tls13 && old(hs).state.SelectCertificate? ==> !e.yes(NewerVersion)
    {
      ghost var s := hs;
      if !s.tls13 { assert !s.state.Tls13?; }
      hide Inv, Phase, History, Ready, StepOk, Outcome, Moves;
      if hs.state.Tls13? {
        ret := DoTls13(e);
        KeepTls13(mac, s, hs, ret);
      } else if hs.state.FinishServerHandshake? {
        ret := DoFinishServerHandshake();
        KeepFinish(mac, s);
        PlainOutcome(mac, e, s, hs, ret);
      } else {
        Below13(mac, s);
        if Index(hs.state) <= Index(SendServerHelloDone) {
          ret := StepSend(e);
        } else {
          ret := StepReceive(e);
        }
      }
    }

    method StepSend(e: Env) returns (ret: Wait)
      requires Inv(mac, hs) && Ready(hs) && !hs.state.Tls13? && Index(hs.state) <= Index(SendServerHelloDone)
      modifies `hs
      ensures StepOk(mac, old(hs), hs, ret) && Outcome(mac, e, old(hs), hs, ret) && Moves(old(hs), hs, ret)
      ensures Advances(ret) && !hs.tls13 && old(hs).state.SelectCertificate? ==> !e.yes(NewerVersion)
    {
      ghost var s := hs;
      hide Outcome, Moves;
      hide Inv, Ready, StepOk, FailsOrWaits, StepReadClientHello, StepSelectCertificate, StepSelectParameters;
      hide StepSendServerHello, StepSendServerCertificate, StepSendServerKeyExchange, StepSendServerHelloDone;
      match hs.state {
        case StartAccept =>
          ret := DoStartAccept();
          KeepStart(mac, s);
          PlainOutcome(mac, e, s, hs, ret);
        case ReadClientHello =>
          ret := DoReadClientHello(e);
          KeepHello(mac, e, s, hs, ret);
        case SelectCertificate =>
          ret := DoSelectCertificate(e);
          KeepSelectCertificate(mac, e, s, hs, ret);
        case SelectParameters =>
          ret := DoSelectParameters(e);
          KeepSelectParameters(mac, e, s, hs, ret);
        case SendServerHello =>
          ret := DoSendServerHello(e);
          KeepSendServerHello(mac, e, s, hs, ret);
        case SendServerCertificate =>
          ret := DoSendServerCertificate(e);
          KeepSendServerCertificate(mac, e, s, hs, ret);
        case SendServerKeyExchange =>
          ret := DoSendServerKeyExchange(e);
          KeepSendServerKeyExchange(mac, e, s, hs, ret);
        case SendServerHelloDone =>
          ret := DoSendServerHelloDone(e);
          KeepSendServerHelloDone(mac, e, s, hs, ret);
      }
    }

    method StepReceive(e: Env) returns (ret: Wait)
      requires Inv(mac, hs) && Ready(hs) && Index(SendServerHelloDone) < Index(hs.state) < Index(FinishServerHandshake)
      modifies `hs
      ensures StepOk(mac, old(hs), hs, ret) && Outcome(mac, e, old(hs), hs, ret) && Moves(old(hs), hs, ret)
    {
      ghost var s := hs;
      hide Outcome, Moves;
      hide Inv, Ready, StepOk, FailsOrWaits, StepRead, StepReadClientCertificate, StepReadClientFinished,
          StepSendServerFinished;
      hide StepProcessChangeCipherSpec;
      match hs.state {
        case ReadClientCertificate =>
          ret := DoReadClientCertificate(e);
          KeepReadClientCertificate(mac, s, hs, ret);
        case VerifyClientCertificate =>
          ret := DoVerifyClientCertificate(e);
          KeepVerify(mac, s, hs, ret);
        case ReadClientKeyExchange =>
          ret := DoReadClientKeyExchange(e);
          KeepReadClientKeyExchange(mac, s, hs, ret);
        case ReadClientCertificateVerify =>
          ret := DoReadClientCertificateVerify(e);
          KeepReadClientCertificateVerify(mac, s, hs, ret);
        case ReadChangeCipherSpec =>
          ret := DoReadChangeCipherSpec();
          KeepReadCcs(mac, s);
          PlainOutcome(mac, e, s, hs, ret);
        case ProcessChangeCipherSpec =>
          ret := DoProcessChangeCipherSpec(e);
          KeepProcessCcs(mac, s, hs, ret);
        case ReadNextProto =>
          ret := DoReadNextProto(e);
          KeepReadNextProto(mac, s, hs, ret);
        case ReadChannelId =>
          ret := DoReadChannelId(e);
          KeepReadChannelId(mac, s, hs, ret);
        case ReadClientFinished =>
          ret := DoReadClientFinished(e);
          KeepReadClientFinished(mac, s, hs, ret);
        case SendServerFinished =>
          ret := DoSendServerFinished(e);
          KeepSendServerFinished(mac, e, s, hs, ret);
      }
    }

    // ssl_server_handshake: it terminates because the rank of the state grows with every pass.
    method Handshake(env: int -> Env) returns (ret: Wait)
      requires Inv(mac, hs) && (!hs.tls13 ==> Audited(passed, hs))
      modifies `hs, `passed
      ensures ret != WaitError ==> Inv(mac, hs) && (!hs.tls13 ==> Audited(passed, hs))
      ensures ret == WaitError ==> (!hs.tls13 ==> Broken(hs.log)) && hs.state != Done
      ensures ret == WaitOk ==> hs.state == Done
      ensures hs.log.arrived == old(hs).log.arrived && Ends(mac, env, old(hs), hs, ret)
      ensures old(passed) <= passed && forall c | c in passed && c !in old(passed) :: Answered(env, c)
    {
      hide Inv, Broken, Outcome, Refused, Willing, Audited;
      var i := 0;
      while hs.state != Done
        invariant Inv(mac, hs) && hs.log.arrived == old(hs).log.arrived && (old(hs).tls13 ==> hs.tls13)
        invariant !hs.tls13 ==> Audited(passed, hs)
        invariant old(passed) <= passed && forall c | c in passed && c !in old(passed) :: Answered(env, c)
        invariant !hs.tls13 ==> Rank(old(hs).state, old(hs).resumed) <= Rank(hs.state, hs.resumed)
        decreases 2 * Index(Done) - Rank(hs.state, hs.resumed)
      {
        ghost var s := hs;
        ret := Step(env(i));
        if ret != WaitOk {
          if !hs.tls13 { StepEnds(mac, env, i, s, hs, ret); }
          return;
        }
        i := i + 1;
      }
      ret := WaitOk;
    }

    // An error stays, and then the handshake is not complete. A message is awaited only while none is there.
    ghost predicate Sane()
      reads this
    {
      if wait == WaitError then (!hs.tls13 ==> Broken(hs.log)) && hs.state != Done
      else Inv(mac, hs) && (!hs.tls13 ==> Audited(passed, hs))
           && (wait == WaitMessage && !hs.tls13 ==> Expecting(hs) && hs.log.incoming == [])
    }

    // Nothing is left to do until another message arrives.
    ghost predicate Settled()
      reads this
    {
      || hs.state == Done || hs.tls13 || wait == WaitError
      || (wait == WaitMessage && Expecting(hs) && hs.log.incoming == [])
    }

    lemma {:induction false} ArrivalAudited(event: Event)
      requires Audited(passed, hs)
      ensures Audited(passed, WithArrivals(hs, event.arrivals))
    {
    }

    // Over DTLS messages arrive while a ChangeCipherSpec is awaited too.
    method TakeMessages(event: Event)
      requires Inv(mac, hs) && hs.state != Done && forall m | m in event.arrivals :: !m.isV2Hello
      modifies `hs
      ensures Inv(mac, hs) && hs == WithArrivals(old(hs), Taken(old(hs).state, wait, event))
      ensures event.arrivals == [] ==> hs == old(hs)
      ensures old(Audited(passed, hs)) ==> Audited(passed, hs)
    {
      hide Inv, Audited;
      assert hs == WithArrivals(hs, []);
      if Audited(passed, hs) { ArrivalAudited(event); }
      if wait == WaitMessage || wait == WaitChangeCipherSpec {
        ArrivalKeeps(mac, hs, event.arrivals);
        hs := WithArrivals(hs, event.arrivals);
      }
    }

    // One pass of the loop of ssl_run_handshake: resolve the wait if the event allows it, then run the state machine.
    method Resume(event: Event)
      requires Sane() && forall m | m in event.arrivals :: !m.isV2Hello
      modifies this
      ensures Sane() && old(hs).log.arrived <= hs.log.arrived
      ensures old(wait) == WaitError ==> wait == WaitError && hs == old(hs)
      // Messages are taken while one or a ChangeCipherSpec is awaited, and nothing goes on before its wait is over.
      ensures hs.log.arrived == old(hs).log.arrived + Taken(old(hs).state, old(wait), event)
      ensures (if old(wait) == WaitMessage then event.arrivals == []
               else (old(wait) == WaitFlush || old(wait) == WaitChangeCipherSpec) && !event.resolved) ==>
        wait == old(wait) && hs == WithArrivals(old(hs), Taken(old(hs).state, old(wait), event))
      ensures old(passed) <= passed && forall c | c in passed && c !in old(passed) :: Answered(event.env, c)
      ensures Calm(event) && old(wait) != WaitError && wait == WaitError && !hs.tls13 ==> Refused(mac, hs)
      ensures Calm(event) && event.arrivals == [] ==>
                Settled() || (!old(Settled()) && Rank(old(hs).state, old(hs).resumed) < Rank(hs.state, hs.resumed))
    {
      hide Inv, Broken, Willing, Refused, Expecting, Answered, Audited;
      if wait == WaitError || hs.state == Done { return; }
      TakeMessages(event);
      if wait == WaitMessage && event.arrivals == [] { return; }
      if (wait == WaitFlush || wait == WaitChangeCipherSpec) && !event.resolved { return; }
      wait := Handshake(event.env);
    }
  }

  // Nothing stands in the way of the handshake: what is flushed or awaited is done, and the environment is willing.
  ghost predicate Calm(event: Event) {
    event.resolved && forall i :: Willing(event.env(i))
  }

  lemma {:induction false} StepEnds(mac: Mac, env: int -> Env, i: int, s: Snap, t: Snap, w: Wait)
    requires Inv(mac, s) && StepOk(mac, s, t, w) && w != WaitOk && !t.tls13 && Outcome(mac, env(i), s, t, w)
    ensures w == WaitMessage ==> Expecting(t) && t.log.incoming == []
    ensures w == WaitFlush || w == WaitChangeCipherSpec ==> Rank(s.state, s.resumed) < Rank(t.state, t.resumed)
    ensures (forall j :: Willing(env(j))) ==> Advances(w) || w == WaitMessage || (w == WaitError && Refused(mac, t))
  {
    assert s.state == Tls13 ==> s.tls13;
    hide Inv, Willing, Refused, Checks, MayCome, OnlyRead;
    if forall j :: Willing(env(j)) { WillingOutcome(mac, env(i), s, t, w); }
  }

  lemma {:induction false} NoneListed(order: seq<Kind>)
    ensures Listed(order, {}) == []
    decreases |order|
  {
    if order != [] { NoneListed(order[..|order| - 1]); }
  }

  // ---- Every step keeps the invariant ----

  // A step of TLS 1.2 that fails or waits.
  lemma {:induction false} StaysOk(mac: Mac, s: Snap, t: Snap, w: Wait)
    requires Inv(mac, s) && FailsOrWaits(s, t, w) && !Advances(w)
    ensures StepOk(mac, s, t, w)
  {
    hide Inv, Broken;
  }

  // A step of TLS 1.2 that goes on.
  lemma {:induction false} GoesOk(mac: Mac, s: Snap, t: Snap, w: Wait)
    requires !s.tls13 && !s.state.Tls13? && Advances(w)
    requires !t.tls13 && !t.state.Tls13? && Phase(t) && History(mac, t.log) && Keyed(t)
    requires t.log.arrived == s.log.arrived
    requires Rank(t.state, t.resumed) > Rank(s.state, s.resumed)
    ensures StepOk(mac, s, t, w)
  {
    hide Phase, History, Keyed;
  }

  lemma {:induction false} Below13(mac: Mac, s: Snap)
    requires Inv(mac, s) && !s.state.Tls13? && !s.state.FinishServerHandshake? && !s.state.Done?
    ensures !s.tls13 && Phase(s) && History(mac, s.log) && Keyed(s) && Ready(s)
  {
    hide Phase, Keyed, Listed, KindsOf, SentOf, Hashed, Macs;
  }

  // None of the kinds from position i of the client's order on has been released.
  ghost predicate NotYet(order: seq<Kind>, kinds: set<Kind>, i: nat) {
    forall j | i <= j < |order| :: order[j] !in kinds
  }

  lemma {:induction false} ClientNotYet(got: set<Kind>, i: nat)
    requires i <= 0 ==> ClientHello !in got
    requires i <= 1 ==> Certificate !in got
    requires i <= 2 ==> ClientKeyExchange !in got
    requires i <= 3 ==> CertificateVerify !in got
    requires i <= 4 ==> NextProto !in got
    requires i <= 5 ==> ChannelId !in got
    requires i <= 6 ==> Finished !in got
    ensures NotYet(CLIENT_ORDER, got, i)
  {
  }

  lemma {:induction false} KeepHello(mac: Mac, e: Env, s: Snap, t: Snap, w: Wait)
    requires Inv(mac, s) && s.state == ReadClientHello && StepReadClientHello(e, s, t, w)
    ensures StepOk(mac, s, t, w) && Moves(s, t, w)
  {
    if !Advances(w) {
      StaysOk(mac, s, t, w);
    } else {
      Below13(mac, s);
      hide History, Inv, Keyed;
      KeyStays(s, t);
      GoesOk(mac, s, t, w);
    }
  }

  lemma {:induction false} KeepSelectCertificate(mac: Mac, e: Env, s: Snap, t: Snap, w: Wait)
    requires Inv(mac, s) && s.state == SelectCertificate && StepSelectCertificate(e, s, t, w)
    ensures StepOk(mac, s, t, w) && Moves(s, t, w)
    ensures Advances(w) && !t.tls13 ==> !e.yes(NewerVersion)
  {
    if !Advances(w) {
      StaysOk(mac, s, t, w);
    } else if !t.tls13 {
      Below13(mac, s);
      hide History, Inv, Keyed;
      KeyStays(s, t);
      GoesOk(mac, s, t, w);
    }
  }

  lemma {:induction false} ServerNotYet(sent: set<Kind>, i: nat)
    requires i <= 0 ==> ServerHello !in sent
    requires i <= 1 ==> Certificate !in sent
    requires i <= 2 ==> CertificateStatus !in sent
    requires i <= 3 ==> ServerKeyExchange !in sent
    requires i <= 4 ==> CertificateRequest !in sent
    requires i <= 5 ==> ServerHelloDone !in sent
    requires i <= 6 ==> NewSessionTicket !in sent
    requires i <= 7 ==> ChangeCipherSpec !in sent
    requires i <= 8 ==> Finished !in sent
    ensures NotYet(SERVER_ORDER, sent, i)
  {
  }

  lemma {:induction false} PhaseParameters(e: Env, s: Snap, t: Snap)
    requires Phase(s) && s.state == SelectParameters && StepSelectParameters(e, s, t, WaitOk)
    ensures Moves(s, t, WaitOk)
    ensures Phase(t) && Rank(t.state, t.resumed) > Rank(s.state, s.resumed) && t.log.arrived == s.log.arrived
  {
    hide FailsOrWaits;
  }

  lemma {:induction false} KeepSelectParameters(mac: Mac, e: Env, s: Snap, t: Snap, w: Wait)
    requires Inv(mac, s) && s.state == SelectParameters && StepSelectParameters(e, s, t, w)
    ensures StepOk(mac, s, t, w) && Moves(s, t, w)
  {
    if !Advances(w) {
      StaysOk(mac, s, t, w);
    } else {
      Below13(mac, s);
      hide History, Inv, Keyed, Moves;
      ClientNotYet(s.log.got, 0);
      ReleaseKeeps(mac, s.log, 0);
      hide Phase;
      PhaseParameters(e, s, t);
      KeyStays(s, t);
      GoesOk(mac, s, t, w);
    }
  }

  // The phase after a step, and the history after a message of the server, state by state.
  lemma {:induction false} PhaseServerHello(e: Env, s: Snap, t: Snap)
    requires Phase(s) && s.state == SendServerHello && StepSendServerHello(e, s, t, WaitOk)
    ensures Moves(s, t, WaitOk)
    ensures Phase(t) && Rank(t.state, t.resumed) > Rank(s.state, s.resumed) && t.log.arrived == s.log.arrived
  {
    hide FailsOrWaits;
  }

  lemma {:induction false} HistoryServerHello(mac: Mac, s: Snap, body: seq<Byte>)
    requires Phase(s) && History(mac, s.log) && s.state == SendServerHello
    ensures History(mac, AfterSend(s.log, ServerHello, body))
  {
    hide History;
    ServerNotYet(s.log.sent, 0);
    hide Phase;
    SendKeeps(mac, s.log, 0, body);
  }

  lemma {:induction false} KeepSendServerHello(mac: Mac, e: Env, s: Snap, t: Snap, w: Wait)
    requires Inv(mac, s) && s.state == SendServerHello && StepSendServerHello(e, s, t, w)
    ensures StepOk(mac, s, t, w) && Moves(s, t, w)
  {
    if !Advances(w) {
      StaysOk(mac, s, t, w);
    } else {
      Below13(mac, s);
      hide Moves, History, Inv, Phase, AfterSend, Keyed;
      HistoryServerHello(mac, s, e.body(0));
      PhaseServerHello(e, s, t);
      KeyStays(s, t);
      GoesOk(mac, s, t, w);
    }
  }

  lemma {:induction false} PhaseServerCertificate(e: Env, s: Snap, t: Snap)
    requires Phase(s) && s.state == SendServerCertificate && StepSendServerCertificate(e, s, t, WaitOk)
    ensures Moves(s, t, WaitOk)
    ensures Phase(t) && Rank(t.state, t.resumed) > Rank(s.state, s.resumed) && t.log.arrived == s.log.arrived
  {
    hide FailsOrWaits;
  }

  lemma {:induction false} HistoryServerCertificate(mac: Mac, e: Env, s: Snap, l: Log)
    requires Phase(s) && History(mac, s.log) && s.state == SendServerCertificate && ChainSent(e, s.par, s.log, l)
    ensures History(mac, l)
  {
    hide History;
    ServerNotYet(s.log.sent, 1);
    var k := AfterSend(s.log, Certificate, e.body(0));
    ServerNotYet(k.sent, 2);
    hide Phase;
    SendKeeps(mac, s.log, 1, e.body(0));
    SendKeeps(mac, k, 2, e.body(1));
  }

  lemma {:induction false} KeepSendServerCertificate(mac: Mac, e: Env, s: Snap, t: Snap, w: Wait)
    requires Inv(mac, s) && s.state == SendServerCertificate && StepSendServerCertificate(e, s, t, w)
    ensures StepOk(mac, s, t, w) && Moves(s, t, w)
  {
    if !Advances(w) {
      StaysOk(mac, s, t, w);
    } else {
      Below13(mac, s);
      hide Moves, History, Inv, Phase, ChainSent, Keyed;
      HistoryServerCertificate(mac, e, s, t.log);
      PhaseServerCertificate(e, s, t);
      KeyStays(s, t);
      GoesOk(mac, s, t, w);
    }
  }

  lemma {:induction false} PhaseServerKeyExchange(e: Env, s: Snap, t: Snap)
    requires Phase(s) && s.state == SendServerKeyExchange && StepSendServerKeyExchange(e, s, t, WaitOk)
    ensures Moves(s, t, WaitOk)
    ensures Phase(t) && Rank(t.state, t.resumed) > Rank(s.state, s.resumed) && t.log.arrived == s.log.arrived
  {
    hide FailsOrWaits;
  }

  lemma {:induction false} HistoryServerKeyExchange(mac: Mac, s: Snap, body: seq<Byte>)
    requires Phase(s) && History(mac, s.log) && s.state == SendServerKeyExchange
    ensures History(mac, AfterSend(s.log, ServerKeyExchange, body))
  {
    hide History;
    ServerNotYet(s.log.sent, 3);
    hide Phase;
    SendKeeps(mac, s.log, 3, body);
  }

  lemma {:induction false} KeepSendServerKeyExchange(mac: Mac, e: Env, s: Snap, t: Snap, w: Wait)
    requires Inv(mac, s) && s.state == SendServerKeyExchange && StepSendServerKeyExchange(e, s, t, w)
    ensures StepOk(mac, s, t, w) && Moves(s, t, w)
  {
    if !Advances(w) {
      StaysOk(mac, s, t, w);
    } else {
      Below13(mac, s);
      hide Moves, History, Inv, Phase, AfterSend, Keyed;
      HistoryServerKeyExchange(mac, s, e.body(0));
      PhaseServerKeyExchange(e, s, t);
      KeyStays(s, t);
      GoesOk(mac, s, t, w);
    }
  }

  lemma {:induction false} PhaseServerHelloDone(e: Env, s: Snap, t: Snap)
    requires Phase(s) && s.state == SendServerHelloDone && StepSendServerHelloDone(e, s, t, WaitFlush)
    ensures Moves(s, t, WaitFlush)
    ensures Phase(t) && Rank(t.state, t.resumed) > Rank(s.state, s.resumed) && t.log.arrived == s.log.arrived
  {
    hide FailsOrWaits;
  }

  lemma {:induction false} HistoryServerHelloDone(mac: Mac, e: Env, s: Snap)
    requires Phase(s) && History(mac, s.log) && s.state == SendServerHelloDone
    ensures History(mac, AfterSend(if s.par.certRequest then AfterSend(s.log, CertificateRequest, e.body(0)) else s.log,
                                   ServerHelloDone, e.body(1)))
  {
    hide History;
    ServerNotYet(s.log.sent, 4);
    var k := AfterSend(s.log, CertificateRequest, e.body(0));
    ServerNotYet(s.log.sent, 5);
    ServerNotYet(k.sent, 5);
    hide Phase;
    SendKeeps(mac, s.log, 4, e.body(0));
    SendKeeps(mac, if s.par.certRequest then k else s.log, 5, e.body(1));
  }

  lemma {:induction false} KeepSendServerHelloDone(mac: Mac, e: Env, s: Snap, t: Snap, w: Wait)
    requires Inv(mac, s) && s.state == SendServerHelloDone && StepSendServerHelloDone(e, s, t, w)
    ensures StepOk(mac, s, t, w) && Moves(s, t, w)
  {
    if !Advances(w) {
      StaysOk(mac, s, t, w);
    } else {
      Below13(mac, s);
      hide Moves, History, Inv, Phase, AfterSend, Keyed;
      HistoryServerHelloDone(mac, e, s);
      PhaseServerHelloDone(e, s, t);
      KeyStays(s, t);
      GoesOk(mac, s, t, w);
    }
  }

  lemma {:induction false} PhaseClientCertificate(s: Snap, t: Snap)
    requires Phase(s) && s.state == ReadClientCertificate && StepReadClientCertificate(s, t, WaitOk)
    ensures Moves(s, t, WaitOk)
    ensures Phase(t) && Rank(t.state, t.resumed) > Rank(s.state, s.resumed) && t.log.arrived == s.log.arrived
  {
    CertificateReadPhase(s, t);
    CertificateSendPhase(s, t);
    hide FailsOrWaits, ReadPhase, SendPhase;
  }

  lemma {:induction false} CertificateReadPhase(s: Snap, t: Snap)
    requires Phase(s) && s.state == ReadClientCertificate && StepReadClientCertificate(s, t, WaitOk)
    ensures ReadPhase(Rank(t.state, t.resumed), t, t.log.got)
    ensures Certificate in t.log.got ==> CertificateRequest in s.log.sent
  {
    hide FailsOrWaits;
  }

  lemma {:induction false} CertificateSendPhase(s: Snap, t: Snap)
    requires Phase(s) && s.state == ReadClientCertificate && StepReadClientCertificate(s, t, WaitOk)
    ensures SendPhase(Rank(t.state, t.resumed), t, t.log.sent)
  {
    hide FailsOrWaits, ReadPhase;
  }

  lemma {:induction false} KeepReadClientCertificate(mac: Mac, s: Snap, t: Snap, w: Wait)
    requires Inv(mac, s) && s.state == ReadClientCertificate && StepReadClientCertificate(s, t, w)
    ensures StepOk(mac, s, t, w) && Moves(s, t, w)
  {
    if !Advances(w) {
      StaysOk(mac, s, t, w);
    } else {
      Below13(mac, s);
      hide Moves, History, Inv, Keyed;
      if t.log != s.log {
        ClientNotYet(s.log.got, 1);
        ReleaseKeeps(mac, s.log, 1);
      }
      hide Phase;
      PhaseClientCertificate(s, t);
      if t.log == s.log { KeyStays(s, t); } else { KeyFound(s, t); }
      GoesOk(mac, s, t, w);
    }
  }

  lemma {:induction false} KeepVerify(mac: Mac, s: Snap, t: Snap, w: Wait)
    requires Inv(mac, s) && s.state == VerifyClientCertificate
    requires StepRead(s, t, w, ReadClientKeyExchange, false, Unknown)
    ensures StepOk(mac, s, t, w) && Moves(s, t, w)
  {
    if !Advances(w) {
      StaysOk(mac, s, t, w);
    } else {
      Below13(mac, s);
      hide History, Inv, Keyed;
      KeyStays(s, t);
      GoesOk(mac, s, t, w);
    }
  }

  lemma {:induction false} PhaseClientKeyExchange(s: Snap, t: Snap)
    requires Phase(s) && s.state == ReadClientKeyExchange
             && StepRead(s, t, WaitOk, ReadClientCertificateVerify, true, ClientKeyExchange)
    ensures Moves(s, t, WaitOk)
    ensures Phase(t) && Rank(t.state, t.resumed) > Rank(s.state, s.resumed) && t.log.arrived == s.log.arrived
  {
    hide FailsOrWaits;
  }

  lemma {:induction false} KeepReadClientKeyExchange(mac: Mac, s: Snap, t: Snap, w: Wait)
    requires Inv(mac, s) && s.state == ReadClientKeyExchange
             && StepRead(s, t, w, ReadClientCertificateVerify, true, ClientKeyExchange)
    ensures StepOk(mac, s, t, w) && Moves(s, t, w)
  {
    if !Advances(w) {
      StaysOk(mac, s, t, w);
    } else {
      Below13(mac, s);
      hide Moves, History, Inv, Keyed;
      ClientNotYet(s.log.got, 2);
      ReleaseKeeps(mac, s.log, 2);
      hide Phase;
      PhaseClientKeyExchange(s, t);
      KeyStays(s, t);
      GoesOk(mac, s, t, w);
    }
  }

  lemma {:induction false} PhaseCertificateVerify(s: Snap, t: Snap)
    requires Phase(s) && s.state == ReadClientCertificateVerify
             && StepRead(s, t, WaitOk, ReadChangeCipherSpec, s.ses.peerPubkey, CertificateVerify)
    ensures Moves(s, t, WaitOk)
    ensures Phase(t) && Rank(t.state, t.resumed) > Rank(s.state, s.resumed) && t.log.arrived == s.log.arrived
  {
    hide FailsOrWaits;
  }

  lemma {:induction false} KeepReadClientCertificateVerify(mac: Mac, s: Snap, t: Snap, w: Wait)
    requires Inv(mac, s) && s.state == ReadClientCertificateVerify
             && StepRead(s, t, w, ReadChangeCipherSpec, s.ses.peerPubkey, CertificateVerify)
    ensures StepOk(mac, s, t, w) && Moves(s, t, w)
  {
    if !Advances(w) {
      StaysOk(mac, s, t, w);
    } else {
      Below13(mac, s);
      hide Moves, History, Inv, Keyed;
      if s.ses.peerPubkey {
        ClientNotYet(s.log.got, 3);
        ReleaseKeeps(mac, s.log, 3);
      }
      hide Phase;
      PhaseCertificateVerify(s, t);
      KeyStays(s, t);
      GoesOk(mac, s, t, w);
    }
  }

  lemma {:induction false} PhaseNextProto(s: Snap, t: Snap)
    requires Phase(s) && s.state == ReadNextProto && StepRead(s, t, WaitOk, ReadChannelId, s.par.nextProto, NextProto)
    ensures Moves(s, t, WaitOk)
    ensures Phase(t) && Rank(t.state, t.resumed) > Rank(s.state, s.resumed) && t.log.arrived == s.log.arrived
  {
    hide FailsOrWaits;
  }

  lemma {:induction false} KeepReadNextProto(mac: Mac, s: Snap, t: Snap, w: Wait)
    requires Inv(mac, s) && s.state == ReadNextProto && StepRead(s, t, w, ReadChannelId, s.par.nextProto, NextProto)
    ensures StepOk(mac, s, t, w) && Moves(s, t, w)
  {
    if !Advances(w) {
      StaysOk(mac, s, t, w);
    } else {
      Below13(mac, s);
      hide Moves, History, Inv, Keyed;
      if s.par.nextProto {
        ClientNotYet(s.log.got, 4);
        ReleaseKeeps(mac, s.log, 4);
      }
      hide Phase;
      PhaseNextProto(s, t);
      KeyStays(s, t);
      GoesOk(mac, s, t, w);
    }
  }

  lemma {:induction false} PhaseChannelId(s: Snap, t: Snap)
    requires Phase(s) && s.state == ReadChannelId
    requires StepRead(s, t, WaitOk, ReadClientFinished, s.par.channelId, ChannelId)
    ensures Moves(s, t, WaitOk)
    ensures Phase(t) && Rank(t.state, t.resumed) > Rank(s.state, s.resumed) && t.log.arrived == s.log.arrived
  {
    hide FailsOrWaits;
  }

  lemma {:induction false} KeepReadChannelId(mac: Mac, s: Snap, t: Snap, w: Wait)
    requires Inv(mac, s) && s.state == ReadChannelId
    requires StepRead(s, t, w, ReadClientFinished, s.par.channelId, ChannelId)
    ensures StepOk(mac, s, t, w) && Moves(s, t, w)
  {
    if !Advances(w) {
      StaysOk(mac, s, t, w);
    } else {
      Below13(mac, s);
      hide Moves, History, Inv, Keyed;
      if s.par.channelId {
        ClientNotYet(s.log.got, 5);
        ReleaseKeeps(mac, s.log, 5);
      }
      hide Phase;
      PhaseChannelId(s, t);
      KeyStays(s, t);
      GoesOk(mac, s, t, w);
    }
  }

  lemma {:induction false} PhaseClientFinished(mac: Mac, s: Snap, t: Snap)
    requires Phase(s) && s.state == ReadClientFinished && StepReadClientFinished(mac, s, t, WaitOk)
    ensures Moves(s, t, WaitOk)
    ensures Phase(t) && Rank(t.state, t.resumed) > Rank(s.state, s.resumed) && t.log.arrived == s.log.arrived
    ensures Finished !in s.log.got
  {
    hide FailsOrWaits;
  }

  lemma {:induction false} KeepReadClientFinished(mac: Mac, s: Snap, t: Snap, w: Wait)
    requires Inv(mac, s) && s.state == ReadClientFinished && StepReadClientFinished(mac, s, t, w)
    ensures StepOk(mac, s, t, w) && Moves(s, t, w)
  {
    if !Advances(w) {
      StaysOk(mac, s, t, w);
    } else {
      Below13(mac, s);
      hide Moves, History, Inv, Phase, Keyed;
      PhaseClientFinished(mac, s, t);
      FinishedKeeps(mac, s.log);
      KeyStays(s, t);
      GoesOk(mac, s, t, w);
    }
  }

  lemma {:induction false} PhaseServerFinished(mac: Mac, e: Env, s: Snap, t: Snap)
    requires Phase(s) && s.state == SendServerFinished && StepSendServerFinished(mac, e, s, t, WaitFlush)
    ensures Moves(s, t, WaitFlush)
    ensures Phase(t) && Rank(t.state, t.resumed) > Rank(s.state, s.resumed) && t.log.arrived == s.log.arrived
  {
    FinishedReadPhase(mac, e, s, t);
    FinishedSendPhase(mac, e, s, t);
    hide FailsOrWaits, ReadPhase, SendPhase;
  }

  lemma {:induction false} FinishedReadPhase(mac: Mac, e: Env, s: Snap, t: Snap)
    requires Phase(s) && s.state == SendServerFinished && StepSendServerFinished(mac, e, s, t, WaitFlush)
    ensures ReadPhase(Rank(t.state, t.resumed), t, t.log.got)
  {
    hide FailsOrWaits;
  }

  lemma {:induction false} FinishedSendPhase(mac: Mac, e: Env, s: Snap, t: Snap)
    requires Phase(s) && s.state == SendServerFinished && StepSendServerFinished(mac, e, s, t, WaitFlush)
    ensures SendPhase(Rank(t.state, t.resumed), t, t.log.sent)
  {
    hide FailsOrWaits, ReadPhase;
  }

  lemma {:induction false} HistoryServerFinished(mac: Mac, s: Snap, body: seq<Byte>)
    requires Phase(s) && History(mac, s.log) && s.state == SendServerFinished
    ensures History(mac, AfterFinished(mac, s.log))
    ensures History(mac, AfterFinished(mac, AfterSend(s.log, NewSessionTicket, body)))
  {
    hide History, AfterFinished;
    ServerNotYet(s.log.sent, 6);
    hide Phase;
    SendFinishedKeeps(mac, s.log);
    SendKeeps(mac, s.log, 6, body);
    SendFinishedKeeps(mac, AfterSend(s.log, NewSessionTicket, body));
  }

  lemma {:induction false} KeepSendServerFinished(mac: Mac, e: Env, s: Snap, t: Snap, w: Wait)
    requires Inv(mac, s) && s.state == SendServerFinished && StepSendServerFinished(mac, e, s, t, w)
    ensures StepOk(mac, s, t, w) && Moves(s, t, w)
  {
    if !Advances(w) {
      StaysOk(mac, s, t, w);
    } else {
      Below13(mac, s);
      hide Moves, History, Inv, Phase, AfterSend, AfterFinished, Keyed;
      HistoryServerFinished(mac, s, e.body(0));
      PhaseServerFinished(mac, e, s, t);
      KeyStays(s, t);
      GoesOk(mac, s, t, w);
    }
  }

  lemma {:induction false} PhaseStart(s: Snap)
    requires Phase(s) && s.state == StartAccept
    ensures Phase(s.(state := ReadClientHello))
  {
  }

  lemma {:induction false} PhaseReadCcs(s: Snap)
    requires Phase(s) && s.state == ReadChangeCipherSpec
    ensures Phase(s.(state := ProcessChangeCipherSpec))
  {
  }

  lemma {:induction false} PhaseProcessCcs(s: Snap)
    requires Phase(s) && s.state == ProcessChangeCipherSpec
    ensures Phase(s.(state := ReadNextProto, readKeys := true))
  {
  }

  lemma {:induction false} PhaseDone(s: Snap)
    requires Phase(s) && s.state == FinishServerHandshake
    ensures Phase(s.(state := Done))
  {
  }

  lemma {:induction false} KeepStart(mac: Mac, s: Snap)
    requires Inv(mac, s) && s.state == StartAccept
    ensures StepOk(mac, s, s.(state := ReadClientHello), WaitOk) && Moves(s, s.(state := ReadClientHello), WaitOk)
  {
    Below13(mac, s);
    PhaseStart(s);
    hide Inv, Phase, History, Keyed;
    KeyStays(s, s.(state := ReadClientHello));
    GoesOk(mac, s, s.(state := ReadClientHello), WaitOk);
  }

  lemma {:induction false} KeepReadCcs(mac: Mac, s: Snap)
    requires Inv(mac, s) && s.state == ReadChangeCipherSpec
    ensures StepOk(mac, s, s.(state := ProcessChangeCipherSpec), WaitChangeCipherSpec)
    ensures Moves(s, s.(state := ProcessChangeCipherSpec), WaitChangeCipherSpec)
  {
    Below13(mac, s);
    PhaseReadCcs(s);
    hide Inv, Phase, History, Keyed;
    KeyStays(s, s.(state := ProcessChangeCipherSpec));
    GoesOk(mac, s, s.(state := ProcessChangeCipherSpec), WaitChangeCipherSpec);
  }

  lemma {:induction false} KeepProcessCcs(mac: Mac, s: Snap, t: Snap, w: Wait)
    requires Inv(mac, s) && s.state == ProcessChangeCipherSpec && StepProcessChangeCipherSpec(s, t, w)
    ensures StepOk(mac, s, t, w) && Moves(s, t, w)
  {
    if !Advances(w) {
      StaysOk(mac, s, t, w);
    } else {
      Below13(mac, s);
      PhaseProcessCcs(s);
      hide Inv, Phase, History, Keyed;
      KeyStays(s, t);
      GoesOk(mac, s, t, w);
    }
  }

  lemma {:induction false} KeepFinish(mac: Mac, s: Snap)
    requires Inv(mac, s) && s.state == FinishServerHandshake
    ensures StepOk(mac, s, s.(state := Done), WaitOk) && Moves(s, s.(state := Done), WaitOk)
  {
    if !s.tls13 { PhaseDone(s); }
    hide Phase, History;
  }

  lemma {:induction false} KeepTls13(mac: Mac, s: Snap, t: Snap, w: Wait)
    requires Inv(mac, s) && s.state == Tls13
    requires if w == WaitOk then t == s.(state := FinishServerHandshake)
             else t == s && (w == WaitError || w == WaitOther)
    ensures StepOk(mac, s, t, w)
  {
    hide Phase, History, Broken;
  }

  lemma {:induction false} ArrivalKeeps(mac: Mac, s: Snap, msgs: seq<Message>)
    requires Inv(mac, s) && forall m | m in msgs :: !m.isV2Hello
    ensures Inv(mac, WithArrivals(s, msgs))
  {
    hide ReadPhase, SendPhase, Listed, KindsOf, ReceivedOf, SentOf, Hashed;
    var t := WithArrivals(s, msgs);
    assert s.log.released + (s.log.incoming + msgs) == s.log.released + s.log.incoming + msgs;
    if !s.tls13 {
      SamePhase(s, t);
      SameMacs(mac, s.log, t.log);
    }
  }

  lemma {:induction false} SamePhase(s: Snap, t: Snap)
    requires t == s.(log := t.log) && t.log.got == s.log.got && t.log.sent == s.log.sent
    ensures ReadPhase(Rank(t.state, t.resumed), t, t.log.got) == ReadPhase(Rank(s.state, s.resumed), s, s.log.got)
    ensures SendPhase(Rank(t.state, t.resumed), t, t.log.sent) == SendPhase(Rank(s.state, s.resumed), s, s.log.sent)
  {
  }

  lemma {:induction false} SameMacs(mac: Mac, l: Log, k: Log)
    requires k == l.(incoming := k.incoming, arrived := k.arrived)
    ensures Macs(mac, k) == Macs(mac, l)
  {
  }

  const LAST := 2 * Index(Done)

  // The last events bring no message and nothing stands in the way.
  ghost predicate Quiet(events: seq<Event>) {
    |events| >= LAST && forall k | |events| - LAST <= k < |events| :: Calm(events[k]) && events[k].arrivals == []
  }

  // Any number of events, with any retries: the invariant holds throughout, and a completed handshake is complete. It
  // fails only on a message that the client may not send, and gets as far as the messages that have come allow.
  method Run(server: Server, events: seq<Event>)
    requires server.Sane() && forall e | e in events :: forall m | m in e.arrivals :: !m.isV2Hello
    modifies server
    ensures server.Sane()
    ensures server.hs.state == Done && !server.hs.tls13 ==>
              Complete(server.mac, server.hs) && Proven(server.passed, server.hs)
    // Whatever has been checked was answered during the run.
    ensures forall c | c in server.passed && c !in old(server.passed) :: exists e | e in events :: Answered(e.env, c)
    ensures (forall e | e in events :: Calm(e)) && old(server.wait) != WaitError && server.wait == WaitError ==>
              server.hs.tls13 || Refused(server.mac, server.hs)
    ensures Quiet(events) ==> server.Settled()
  {
    hide Calm, Inv, Refused, Broken, Expecting, Answered, Audited;
    ghost var calm := forall e | e in events :: Calm(e);
    var i := 0;
    while i < |events|
      invariant i <= |events| && server.Sane()
      invariant forall c | c in server.passed && c !in old(server.passed) ::
                  exists e | e in events :: Answered(e.env, c)
      invariant calm && old(server.wait) != WaitError && server.wait == WaitError ==>
                  server.hs.tls13 || Refused(server.mac, server.hs)
      invariant Quiet(events) && |events| - LAST <= i ==>
                  server.Settled() || i - (|events| - LAST) <= Rank(server.hs.state, server.hs.resumed)
    {
      assert events[i] in events;
      server.Resume(events[i]);
      i := i + 1;
    }
    if server.hs.state == Done && !server.hs.tls13 {
      DoneIsComplete(server.mac, server.hs);
      DoneIsProven(server.mac, server.hs, server.passed);
    }
  }

  // What has happened when a TLS 1.2 handshake is done.
  ghost predicate Complete(mac: Mac, s: Snap) {
    && History(mac, s.log) && ClientFinishedOver(mac, s.log)
    && multiset(KindsOf(s.log.released))[Finished] == 1 && multiset(s.log.out)[Finished] == 1
    && s.readKeys && s.writeKeys
    && ClientHello in s.log.got && ServerHello in s.log.sent
    && (ClientKeyExchange in s.log.got <==> !s.resumed)
    && (CertificateVerify in s.log.got <==> ClientChain(s.log.released))
    && (!s.resumed && s.par.conf.certRequired && s.par.certRequest ==> ClientChain(s.log.released))
    && (!s.resumed ==> RequestFits(s.par)) && s.ses.hasEms == s.ses.ems
    && (Certificate in s.log.sent <==> !s.resumed && s.par.certAuth)
    && (CertificateStatus in s.log.sent <==> s.par.statusExpected) && (s.par.statusExpected ==> !s.resumed)
    && (ServerKeyExchange in s.log.sent <==> !s.resumed && s.par.keyExchange)
    && (CertificateRequest in s.log.sent <==> !s.resumed && s.par.certRequest)
    && (Certificate in s.log.got ==> !s.resumed && s.par.certRequest)
    && (!s.par.conf.sslV3 && !s.resumed && s.par.certRequest ==> Certificate in s.log.got)
    && (s.par.conf.sslV3 && Certificate in s.log.got ==> ClientChain(s.log.released))
    && (NewSessionTicket in s.log.sent <==> s.ses.ticketExpected)
    && (NextProto in s.log.got <==> s.par.nextProto) && (ChannelId in s.log.got <==> s.par.channelId)
    && s.log.serverOver + [Sent(Finished, mac(s.log.serverOver, true))] <= s.log.transcript
  }

  lemma {:induction false} ListedOnce(order: seq<Kind>, kinds: set<Kind>, k: Kind)
    requires forall j, l | 0 <= j < l < |order| :: order[j] != order[l]
    ensures multiset(Listed(order, kinds))[k] == if k in order && k in kinds then 1 else 0
    decreases |order|
  {
    if order != [] {
      var front, last := order[..|order| - 1], order[|order| - 1];
      ListedOnce(front, kinds, k);
      assert order == front + [last];
      var rest := if last in kinds then [last] else [];
      assert Listed(order, kinds) == Listed(front, kinds) + rest;
      assert multiset(Listed(order, kinds)) == multiset(Listed(front, kinds)) + multiset(rest);
    }
  }

  lemma {:induction false} PhaseWhenDone(s: Snap)
    requires Phase(s) && s.state == Done
    ensures Finished in s.log.got && Finished in s.log.sent && s.readKeys && s.writeKeys
    ensures ClientHello in s.log.got && ServerHello in s.log.sent
    ensures ClientKeyExchange in s.log.got <==> !s.resumed
    ensures CertificateVerify in s.log.got <==> s.ses.peerPubkey
    ensures !s.resumed && s.par.conf.certRequired && s.par.certRequest ==> s.ses.peerPubkey
    ensures (!s.resumed ==> RequestFits(s.par)) && s.ses.hasEms == s.ses.ems
    ensures Certificate in s.log.sent <==> !s.resumed && s.par.certAuth
    ensures (CertificateStatus in s.log.sent <==> s.par.statusExpected) && (s.par.statusExpected ==> !s.resumed)
    ensures ServerKeyExchange in s.log.sent <==> !s.resumed && s.par.keyExchange
    ensures CertificateRequest in s.log.sent <==> !s.resumed && s.par.certRequest
    ensures Certificate in s.log.got ==> !s.resumed && s.par.certRequest
    ensures !s.par.conf.sslV3 && !s.resumed && s.par.certRequest ==> Certificate in s.log.got
    ensures s.par.conf.sslV3 && Certificate in s.log.got ==> s.ses.peerPubkey
    ensures NewSessionTicket in s.log.sent <==> s.ses.ticketExpected
    ensures (NextProto in s.log.got <==> s.par.nextProto) && (ChannelId in s.log.got <==> s.par.channelId)
  {
  }

  lemma {:induction false} FinishedOnce(s: Log)
    requires Lists(s) && Finished in s.got && Finished in s.sent
    ensures multiset(KindsOf(s.released))[Finished] == 1 && multiset(s.out)[Finished] == 1
  {
    hide Listed, KindsOf, SentOf, Hashed, ReceivedOf;
    assert CLIENT_ORDER[6] == Finished && SERVER_ORDER[8] == Finished;
    ListedOnce(CLIENT_ORDER, s.got, Finished);
    ListedOnce(SERVER_ORDER, s.sent, Finished);
  }

  lemma {:induction false} DoneIsComplete(mac: Mac, s: Snap)
    requires Inv(mac, s) && s.state == Done && !s.tls13
    ensures Complete(mac, s)
  {
    assert Phase(s) && Lists(s.log) && Macs(mac, s.log) && History(mac, s.log);
    assert s.ses.peerPubkey == ClientChain(s.log.released);
    hide Inv, ClientChain, RequestFits, Phase, Lists, ClientFinishedOver, History, Keyed;
    PhaseWhenDone(s);
    FinishedOnce(s.log);
  }

  // What has been checked when a TLS 1.2 handshake is done: a client with a certificate has been authenticated.
  ghost predicate Proven(passed: set<Check>, s: Snap) {
    && {HelloParses, HelloFine, CertificateSelected, CipherChosen, ReadKeysMade, WriteKeysMade} <= passed
    && (!s.resumed ==> {PremasterMade, MasterMade} <= passed)
    && (ClientChain(s.log.released) ==> {ChainVerified, SignatureValid} <= passed)
    && (s.par.channelId ==> ChannelIdVerified in passed)
  }

  lemma {:induction false} DoneIsProven(mac: Mac, s: Snap, passed: set<Check>)
    requires Inv(mac, s) && s.state == Done && !s.tls13 && Audited(passed, s)
    ensures Proven(passed, s)
  {
    assert s.ses.peerPubkey == s.ses.clientCerts == ClientChain(s.log.released) && Phase(s);
    hide History, Keyed, ClientChain, Phase;
    PhaseWhenDone(s);
  }
}
