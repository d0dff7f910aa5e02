/** The cipher a TLS 1.2 server chooses (section 7.4.1.3 of RFC 5246), with equal-preference groups. */
module CipherChoice {
  import opened Bits
  import opened Bytes

  datatype Cipher = Cipher(id: nat, minVersion: nat, maxVersion: nat, mkey: nat, auth: nat)

  // What the server can do: the negotiated version and the masks of ssl_get_compatible_server_ciphers.
  datatype Config = Config(version: nat, maskK: nat, maskA: nat)

  predicate Compatible(c: Cipher, config: Config) {
    && c.minVersion <= config.version <= c.maxVersion
    && BitAnd(c.mkey, config.maskK) != 0
    && BitAnd(c.auth, config.maskA) != 0
  }

  // SSL_kRSA, SSL_kECDHE, SSL_kPSK and SSL_kGENERIC; SSL_aRSA, SSL_aECDSA, SSL_aPSK and SSL_aGENERIC.
  const K_RSA: nat := 1
  const K_ECDHE: nat := 2
  const K_PSK: nat := 4
  const A_RSA: nat := 1
  const A_ECDSA: nat := 2
  const A_PSK: nat := 4

  // The key of the server's certificate, if it has one; an Ed25519 key serves the ECDSA ciphers.
  datatype Key = NoKey | RsaKey | EcKey | OtherKey

  // What the server has: its key, a group in common with the client, and a callback for pre-shared keys.
  datatype Means = Means(key: Key, sharedGroup: bool, psk: bool)

  // The masks are those of what the server has.
  ghost predicate MasksOf(means: Means, maskK: nat, maskA: nat) {
    && maskK < 8 && (Bit(maskK, 0) <==> means.key.RsaKey?) && (Bit(maskK, 1) <==> means.sharedGroup)
    && (Bit(maskK, 2) <==> means.psk)
    && maskA < 8 && (Bit(maskA, 0) <==> means.key.RsaKey?) && (Bit(maskA, 1) <==> means.key.EcKey?)
    && (Bit(maskA, 2) <==> means.psk)
  }

  // ssl_get_compatible_server_ciphers, with ssl_cipher_auth_mask_for_key.
  method CompatibleMasks(means: Means) returns (maskK: nat, maskA: nat)
    ensures MasksOf(means, maskK, maskA)
  {
    hide BitOr, Bit;
    SmallOr();
    maskK, maskA := 0, 0;
    if !means.key.NoKey? {
      maskA := BitOr(maskA, if means.key.RsaKey? then A_RSA else if means.key.EcKey? then A_ECDSA else 0);
      if means.key.RsaKey? { maskK := BitOr(maskK, K_RSA); }
    }
    if means.sharedGroup { maskK := BitOr(maskK, K_ECDHE); }
    if means.psk { maskK, maskA := BitOr(maskK, K_PSK), BitOr(maskA, A_PSK); }
    SmallBits(maskK);
    SmallBits(maskA);
  }

  lemma {:induction false} SmallOr()
    ensures BitOr(0, 0) == 0 && BitOr(0, 1) == 1 && BitOr(0, 2) == 2 && BitOr(1, 2) == 3
    ensures BitOr(0, 4) == 4 && BitOr(1, 4) == 5 && BitOr(2, 4) == 6 && BitOr(3, 4) == 7
  {
  }

  lemma {:induction false} SmallBits(m: nat)
    requires m < 8
    ensures Bit(m, 0) <==> m == 1 || m == 3 || m == 5 || m == 7
    ensures Bit(m, 1) <==> m == 2 || m == 3 || m == 6 || m == 7
    ensures Bit(m, 2) <==> m >= 4
  {
    assert Bit(m, 1) == Bit(m / 2, 0) && Bit(m, 2) == Bit(m / 2, 1) == Bit(m / 2 / 2, 0);
  }

  lemma {:induction false} AndOne(m: nat)
    ensures BitAnd(1, m) != 0 <==> Bit(m, 0)
  {
    assert BitAnd(0, m / 2) == 0;
  }

  lemma {:induction false} AndDouble(a: nat, m: nat)
    requires a > 0
    ensures BitAnd(2 * a, m) != 0 <==> BitAnd(a, m / 2) != 0
  {
    assert 2 * a / 2 == a;
  }

  lemma {:induction false} AndSingle(a: nat, m: nat)
    requires (a == 1 || a == 2 || a == 4 || a == 8) && m < 8
    ensures BitAnd(a, m) != 0 <==> (a == 1 && Bit(m, 0)) || (a == 2 && Bit(m, 1)) || (a == 4 && Bit(m, 2))
  {
    hide BitAnd;
    AndOne(m);
    AndOne(m / 2);
    AndOne(m / 2 / 2);
    AndOne(m / 2 / 2 / 2);
    AndDouble(1, m);
    AndDouble(2, m);
    AndDouble(1, m / 2);
    AndDouble(4, m);
    AndDouble(2, m / 2);
    AndDouble(1, m / 2 / 2);
    assert m / 2 / 2 / 2 == 0;
  }

  /** A cipher can be used exactly if its versions include the one negotiated and the server has what its key exchange
      and its authentication take: an RSA key, a shared group or a pre-shared key; a key of the kind, or a pre-shared
      key. The ciphers of TLS 1.3, whose bits are 8, never can. */
  lemma {:induction false} CompatibleExactly(c: Cipher, means: Means, version: nat, maskK: nat, maskA: nat)
    requires MasksOf(means, maskK, maskA) && c.mkey in {1, 2, 4, 8} && c.auth in {1, 2, 4, 8}
    ensures Compatible(c, Config(version, maskK, maskA)) <==>
      && c.minVersion <= version <= c.maxVersion
      && ((c.mkey == 1 && means.key.RsaKey?) || (c.mkey == 2 && means.sharedGroup) || (c.mkey == 4 && means.psk))
      && ((c.auth == 1 && means.key.RsaKey?) || (c.auth == 2 && means.key.EcKey?) || (c.auth == 4 && means.psk))
  {
    AndSingle(c.mkey, maskK);
    AndSingle(c.auth, maskA);
    hide BitAnd, Bit;
  }

  predicate Eligible(c: Cipher, allow: seq<Cipher>, config: Config) {
    Compatible(c, config) && c in allow
  }

  // The number of the group that element i is in: a 0 flag ends a group.
  function GroupOf(flags: seq<bool>, i: nat): nat
    requires i <= |flags|
  {
    if i == 0 then 0 else GroupOf(flags, i - 1) + if flags[i - 1] then 0 else 1
  }

  // The group of element i has a last element. Lists are built so that every group has one.
  predicate Closed(flags: seq<bool>, i: nat)
    requires i <= |flags|
  {
    GroupOf(flags, i) < GroupOf(flags, |flags|)
  }

  lemma {:induction false} GroupMono(flags: seq<bool>, i: nat, j: nat)
    requires i <= j <= |flags|
    ensures GroupOf(flags, i) <= GroupOf(flags, j)
    decreases j
  {
    if i < j { GroupMono(flags, i, j - 1); }
  }

  // If the last flag is 0, every group is closed.
  lemma {:induction false} AllClosed(flags: seq<bool>, i: nat)
    requires i < |flags| && !flags[|flags| - 1]
    ensures Closed(flags, i)
  {
    GroupMono(flags, i, |flags| - 1);
  }

  // The first position of a cipher.
  function Rank(allow: seq<Cipher>, c: Cipher): (k: nat)
    requires c in allow
    ensures k < |allow| && allow[k] == c && c !in allow[..k]
  {
    if allow[0] == c then 0 else
      var k := Rank(allow[1..], c) + 1;
      assert allow[..k] == [allow[0]] + allow[1..][..k - 1];
      k
  }

  // Element k is eligible, no group before its own has an eligible cipher, and in its group none ranks better.
  ghost predicate Optimal(prio: seq<Cipher>, flags: seq<bool>, allow: seq<Cipher>, config: Config, k: nat) {
    && |flags| == |prio| && k < |prio| && Eligible(prio[k], allow, config) && Closed(flags, k)
    && forall j | 0 <= j < |prio| && Eligible(prio[j], allow, config) ::
         || GroupOf(flags, j) > GroupOf(flags, k)
         || (GroupOf(flags, j) == GroupOf(flags, k) && Rank(allow, prio[j]) >= Rank(allow, prio[k]))
  }

  // There is only one best cipher.
  lemma {:induction false} OptimalUnique(prio: seq<Cipher>, flags: seq<bool>, allow: seq<Cipher>, config: Config,
                                         k: nat, l: nat)
    requires Optimal(prio, flags, allow, config, k) && Optimal(prio, flags, allow, config, l)
    ensures prio[k] == prio[l]
  {
    assert Rank(allow, prio[k]) == Rank(allow, prio[l]);
  }

  // sk_SSL_CIPHER_find.
  method Find(allow: seq<Cipher>, c: Cipher) returns (found: bool, index: nat)
    ensures found <==> c in allow
    ensures found ==> index == Rank(allow, c)
  {
    index := 0;
    while index < |allow|
      invariant index <= |allow| && c !in allow[..index]
    {
      if allow[index] == c {
        RankIs(allow, c, index);
        return true, index;
      }
      assert allow[..index + 1] == allow[..index] + [allow[index]];
      index := index + 1;
    }
    assert allow[..index] == allow;
    found := false;
  }

  lemma {:induction false} RankIs(allow: seq<Cipher>, c: Cipher, k: nat)
    requires k < |allow| && allow[k] == c && c !in allow[..k]
    ensures Rank(allow, c) == k
  {
  }

  // The least rank found in the group that is being looked at, or -1.
  ghost predicate Least(prio: seq<Cipher>, allow: seq<Cipher>, config: Config, i: nat, groupMin: int) {
    && i <= |prio|
    && (groupMin == -1
        || exists k :: 0 <= k < i && Eligible(prio[k], allow, config) && Rank(allow, prio[k]) == groupMin)
    && forall j | 0 <= j < i && Eligible(prio[j], allow, config) :: 0 <= groupMin <= Rank(allow, prio[j])
  }

  // All eligible ciphers so far are in the group that position i continues.
  ghost predicate OneGroup(prio: seq<Cipher>, flags: seq<bool>, allow: seq<Cipher>, config: Config, i: nat) {
    && |flags| == |prio| && i <= |prio|
    && forall j | 0 <= j < i && Eligible(prio[j], allow, config) :: GroupOf(flags, j) == GroupOf(flags, i)
  }

  // At the end of a group, the least rank in it is the answer.
  lemma {:induction false} LeastIsOptimal(prio: seq<Cipher>, flags: seq<bool>, allow: seq<Cipher>, config: Config,
                                          i: nat, groupMin: int) returns (k: nat)
    requires i < |prio| && OneGroup(prio, flags, allow, config, i) && Least(prio, allow, config, i + 1, groupMin)
    requires groupMin != -1 && !flags[i]
    ensures Optimal(prio, flags, allow, config, k) && 0 <= groupMin < |allow| && prio[k] == allow[groupMin]
  {
    k :| 0 <= k < i + 1 && Eligible(prio[k], allow, config) && Rank(allow, prio[k]) == groupMin;
    GroupMono(flags, i + 1, |flags|);
    forall j | 0 <= j < |prio| && Eligible(prio[j], allow, config)
      ensures GroupOf(flags, j) > GroupOf(flags, k)
              || (GroupOf(flags, j) == GroupOf(flags, k) && Rank(allow, prio[j]) >= Rank(allow, prio[k]))
    {
      if j > i { GroupMono(flags, i + 1, j); }
    }
  }

  // Looking at element i: the least rank so far takes it into account.
  lemma {:induction false} LeastStep(prio: seq<Cipher>, allow: seq<Cipher>, config: Config, i: nat, groupMin: int)
    requires i < |prio| && Least(prio, allow, config, i, groupMin)
    ensures !Eligible(prio[i], allow, config) ==> Least(prio, allow, config, i + 1, groupMin)
    ensures Eligible(prio[i], allow, config) ==>
      var index := Rank(allow, prio[i]);
      Least(prio, allow, config, i + 1, if groupMin == -1 || groupMin > index then index else groupMin)
  {
    hide Compatible;
    if Eligible(prio[i], allow, config) {
      assert groupMin == -1 ==> forall j | 0 <= j < i :: !Eligible(prio[j], allow, config);
    }
  }

  // Going on inside a group, or before any eligible cipher was found.
  lemma {:induction false} GroupGoesOn(prio: seq<Cipher>, flags: seq<bool>, allow: seq<Cipher>, config: Config,
                                       i: nat, groupMin: int)
    requires i < |prio| && OneGroup(prio, flags, allow, config, i) && Least(prio, allow, config, i + 1, groupMin)
    requires flags[i] || groupMin == -1
    ensures OneGroup(prio, flags, allow, config, i + 1)
  {
    hide Eligible;
    assert GroupOf(flags, i + 1) == GroupOf(flags, i) + if flags[i] then 0 else 1;
  }

  ghost predicate Best(prio: seq<Cipher>, flags: seq<bool>, allow: seq<Cipher>, config: Config,
                       chosen: Option<Cipher>) {
    |flags| == |prio| &&
    match chosen
    case None => forall i | 0 <= i < |prio| && Eligible(prio[i], allow, config) :: !Closed(flags, i)
    case Some(c) => exists k: nat :: Optimal(prio, flags, allow, config, k) && prio[k] == c
  }

  // The loop of ssl3_choose_cipher. Without flags every cipher is a group of its own.
  method Scan(prio: seq<Cipher>, inGroup: Option<seq<bool>>, allow: seq<Cipher>,
              config: Config) returns (chosen: Option<Cipher>)
    requires inGroup.Some? ==> |inGroup.value| == |prio|
    ensures Best(prio, if inGroup.Some? then inGroup.value else NoGroups(prio), allow, config, chosen)
  {
    ghost var flags := if inGroup.Some? then inGroup.value else NoGroups(prio);
    var groupMin: int := -1;
    var i := 0;
    assert OneGroup(prio, flags, allow, config, 0) && Least(prio, allow, config, 0, -1);
    hide Compatible, GroupOf, Closed, Optimal, OneGroup, Least;
    while i < |prio|
      invariant i <= |prio| && (inGroup.None? ==> groupMin == -1)
      invariant OneGroup(prio, flags, allow, config, i) && Least(prio, allow, config, i, groupMin)
    {
      var c := prio[i];
      LeastStep(prio, allow, config, i, groupMin);
      if Compatible(c, config) {
        var found, index := Find(allow, c);
        if found {
          if inGroup.Some? && inGroup.value[i] {
            if groupMin == -1 || groupMin > index {
              groupMin := index;
            }
          } else {
            if groupMin != -1 && groupMin < index {
              index := groupMin;
            }
            ghost var k := LeastIsOptimal(prio, flags, allow, config, i, index);
            return Some(allow[index]);
          }
        }
      }
      if inGroup.Some? && !inGroup.value[i] && groupMin != -1 {
        ghost var k := LeastIsOptimal(prio, flags, allow, config, i, groupMin);
        return Some(allow[groupMin]);
      }
      GroupGoesOn(prio, flags, allow, config, i, groupMin);
      i := i + 1;
    }
    NoneClosed(prio, flags, allow, config);
    chosen := None;
  }

  // The ciphers known by the two-byte numbers of a list, in order.
  function Listed(bytes: seq<Byte>, known: nat -> Option<Cipher>): seq<Cipher> {
    if |bytes| < 2 then []
    else
      var c := known(bytes[0] * B + bytes[1]);
      (if c.Some? then [c.value] else []) + Listed(bytes[2..], known)
  }

  // What a client that offers these numbers sends.
  ghost function OfferBytes(ids: seq<nat>): seq<Byte>
    requires forall i | 0 <= i < |ids| :: ids[i] < U16
  {
    if ids == [] then [] else U16Bytes(ids[0]) + OfferBytes(ids[1..])
  }

  // The server sees the ciphers that the client offers: each one it knows, once for every time it is offered, in the
  // client's order.
  lemma {:induction false} OfferSeen(ids: seq<nat>, known: nat -> Option<Cipher>)
    requires forall i | 0 <= i < |ids| :: ids[i] < U16
    ensures |OfferBytes(ids)| == 2 * |ids|
    ensures Listed(OfferBytes(ids), known) == Known(ids, known)
  {
    if ids != [] {
      var bytes := OfferBytes(ids);
      assert bytes == U16Bytes(ids[0]) + OfferBytes(ids[1..]) && bytes[2..] == OfferBytes(ids[1..]);
      assert bytes[0] * B + bytes[1] == ids[0];
      OfferSeen(ids[1..], known);
    }
  }

  ghost function Known(ids: seq<nat>, known: nat -> Option<Cipher>): seq<Cipher> {
    if ids == [] then []
    else (if known(ids[0]).Some? then [known(ids[0]).value] else []) + Known(ids[1..], known)
  }

  // ssl_parse_client_cipher_list: unknown numbers are left out, and a list of odd length is refused.
  method ParseClientCipherList(bytes: seq<Byte>, known: nat -> Option<Cipher>) returns (list: Option<seq<Cipher>>)
    ensures list == if |bytes| % 2 == 0 then Some(Listed(bytes, known)) else None
  {
    var rest, sk := bytes, [];
    while rest != []
      invariant |rest| % 2 == |bytes| % 2 && sk + Listed(rest, known) == Listed(bytes, known)
      decreases |rest|
    {
      if |rest| < 2 {
        return None;
      }
      var c := known(rest[0] * B + rest[1]);
      ghost var before := sk;
      if c.Some? {
        sk := sk + [c.value];
      }
      assert sk + Listed(rest[2..], known) == before + Listed(rest, known);
      rest := rest[2..];
    }
    assert sk + Listed([], known) == sk;
    list := Some(sk);
  }

  // ssl3_choose_cipher. With server preference: the eligible cipher that the client ranks best, among those in the
  // first group of the server that has any. Without: the first eligible cipher of the client. None, if the list of
  // the client cannot be parsed.
  method ChooseCipher(clientList: seq<Byte>, known: nat -> Option<Cipher>, server: seq<Cipher>,
                      serverFlags: Option<seq<bool>>, serverPreference: bool, config: Config)
    returns (chosen: Option<Cipher>)
    requires serverFlags.Some? ==> |serverFlags.value| == |server|
    ensures |clientList| % 2 != 0 ==> chosen == None
    ensures |clientList| % 2 == 0 ==>
      ChosenFrom(Listed(clientList, known), server, serverFlags, serverPreference, config, chosen)
  {
    var client := ParseClientCipherList(clientList, known);
    if client.None? {
      return None;
    }
    chosen := ChooseFrom(client.value, server, serverFlags, serverPreference, config);
  }

  ghost predicate ChosenFrom(client: seq<Cipher>, server: seq<Cipher>, serverFlags: Option<seq<bool>>,
                             serverPreference: bool, config: Config, chosen: Option<Cipher>)
    requires serverFlags.Some? ==> |serverFlags.value| == |server|
  {
    && (serverPreference && serverFlags.Some? ==> Best(server, serverFlags.value, client, config, chosen))
    && (serverPreference && serverFlags.Some? && (server != [] ==> !serverFlags.value[|server| - 1]) ==>
          (chosen.None? <==> forall c | c in server :: !Eligible(c, client, config)))
    && (serverPreference && serverFlags.None? ==> FirstEligible(server, client, config, chosen))
    && (!serverPreference ==> FirstEligible(client, server, config, chosen))
  }

  // Its part behind the parsing of the client's list.
  method ChooseFrom(client: seq<Cipher>, server: seq<Cipher>, serverFlags: Option<seq<bool>>, serverPreference: bool,
                    config: Config) returns (chosen: Option<Cipher>)
    requires serverFlags.Some? ==> |serverFlags.value| == |server|
    ensures ChosenFrom(client, server, serverFlags, serverPreference, config, chosen)
  {
    var prio, allow, inGroup := client, server, None;
    if serverPreference {
      prio, inGroup, allow := server, serverFlags, client;
    }
    chosen := Scan(prio, inGroup, allow, config);
    if inGroup.None? {
      BestIsFirst(prio, allow, config, chosen);
    } else {
      BestOfClosed(prio, inGroup.value, allow, config, chosen);
    }
  }

  function NoGroups(prio: seq<Cipher>): (flags: seq<bool>)
    ensures |flags| == |prio|
  {
    seq(|prio|, _ => false)
  }

  ghost predicate FirstEligible(prio: seq<Cipher>, allow: seq<Cipher>, config: Config, chosen: Option<Cipher>) {
    match chosen
    case None => forall i | 0 <= i < |prio| :: !Eligible(prio[i], allow, config)
    case Some(c) => exists k :: 0 <= k < |prio| && prio[k] == c && Eligible(c, allow, config)
                                && forall j | 0 <= j < k :: !Eligible(prio[j], allow, config)
  }

  lemma {:induction false} NoneClosed(prio: seq<Cipher>, flags: seq<bool>, allow: seq<Cipher>, config: Config)
    requires OneGroup(prio, flags, allow, config, |prio|)
    ensures forall i | 0 <= i < |prio| && Eligible(prio[i], allow, config) :: !Closed(flags, i)
  {
  }

  lemma {:induction false} Alone(prio: seq<Cipher>, i: nat)
    requires i <= |prio|
    ensures GroupOf(NoGroups(prio), i) == i
    decreases i
  {
    if i > 0 { Alone(prio, i - 1); }
  }

  lemma {:induction false} BestIsFirst(prio: seq<Cipher>, allow: seq<Cipher>, config: Config, chosen: Option<Cipher>)
    requires Best(prio, NoGroups(prio), allow, config, chosen)
    ensures FirstEligible(prio, allow, config, chosen)
  {
    hide Eligible, GroupOf;
    forall j: nat | j <= |prio| ensures GroupOf(NoGroups(prio), j) == j { Alone(prio, j); }
    if chosen.Some? {
      var k: nat :| Optimal(prio, NoGroups(prio), allow, config, k) && prio[k] == chosen.value;
    }
  }

  // When the last element ends a group, the search fails exactly when no cipher is eligible.
  lemma {:induction false} BestOfClosed(prio: seq<Cipher>, flags: seq<bool>, allow: seq<Cipher>, config: Config,
                                        chosen: Option<Cipher>)
    requires Best(prio, flags, allow, config, chosen)
    ensures (prio != [] ==> !flags[|prio| - 1]) ==> (chosen.None? <==> forall c | c in prio :: !Eligible(c, allow,
        config))
  {
    hide Eligible, GroupOf, Closed;
    if prio != [] && !flags[|prio| - 1] {
      forall i: nat | i < |prio| ensures Closed(flags, i) { AllClosed(flags, i); }
    }
    if chosen.Some? {
      var k: nat :| Optimal(prio, flags, allow, config, k) && prio[k] == chosen.value;
    }
  }
}
