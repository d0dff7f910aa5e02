/** Decoding inverts encoding, for every nesting of submessages; unknown fields do not matter. */
module PbRoundTrip {
  import opened Bits
  import opened Bytes
  import opened PbVarint
  import opened PbSpec
  import opened PbScalars

  const MAX_TAG: int := 0x2000_0000

  // Descriptors: distinct non-zero tags below 2^29 at every level.
  ghost predicate GoodFields(fs: seq<Field>)
    decreases fs, 0
  {
    && (forall i, j | 0 <= i < j < |fs| :: fs[i].tag != fs[j].tag)
    && (forall i | 0 <= i < |fs| :: 0 < fs[i].tag < MAX_TAG && (fs[i].l.Submessage? ==> GoodFields(fs[i].sub)))
  }

  ghost predicate ValidValue(f: Field, v: Value)
    decreases f, 0
  {
    if f.l.Submessage? then v.Msg? && ValidMessage(f.sub, v.slots) else ValidScalar(f, v)
  }

  ghost predicate ValidSlot(f: Field, s: Slot)
    decreases f, 1
  {
    match f.h
    case Required | Singular => s.One? && ValidValue(f, s.v)
    case Optional | Oneof(_) => s.Absent? || (s.One? && ValidValue(f, s.v))
    case Repeated => s.Many? && |s.vs| <= f.arraySize && forall v | v in s.vs :: ValidValue(f, v)
  }

  // At most one member of a oneof is set.
  ghost predicate OneofsExclusive(fs: seq<Field>, m: seq<Slot>)
    requires |m| == |fs|
  {
    forall i, j | 0 <= i < j < |fs| && fs[i].h.Oneof? && fs[i].h == fs[j].h :: m[i].Absent? || m[j].Absent?
  }

  ghost predicate ValidMessage(fs: seq<Field>, m: seq<Slot>)
    decreases fs, 2
  {
    |m| == |fs| && OneofsExclusive(fs, m) && forall i | 0 <= i < |fs| :: ValidSlot(fs[i], m[i])
  }

  // ---- Tags and field lookup ----

  lemma {:induction false} KeyRoundTrip(tag: nat, wireType: nat, rest: seq<Byte>)
    requires tag < MAX_TAG && wireType < 8
    ensures DecodeVarint32(TagBytes(tag, wireType) + rest) == Ok(tag * 8 + wireType, |TagBytes(tag, wireType)|)
    ensures (tag * 8 + wireType) / 8 == tag && (tag * 8 + wireType) % 8 == wireType
  {
    KeyValue(tag, wireType);
    Varint32RoundTrip(tag * 8 + wireType, rest);
  }

  lemma {:induction false} KeyValue(tag: nat, wireType: nat)
    requires tag < MAX_TAG && wireType < 8
    ensures BitOr(Shl(tag, 3, 64), wireType) == tag * 8 + wireType
  {
    Pow2Literals();
    DivMod(tag * Pow2(3), Pow2(64), 0, tag * Pow2(3));
    hide BitOr, Pow2;
    OrCommutes(tag * 8, wireType);
    OrAbove(wireType, tag, 3);
  }

  // From any position the cyclic search finds the field with the tag, if there is exactly one.
  lemma {:induction false} FindFromFinds(fs: seq<Field>, pos: nat, i: nat, steps: nat)
    requires pos < |fs| && i < |fs| && steps <= |fs|
    requires forall j | 0 <= j < |fs| && j != i :: fs[j].tag != fs[i].tag
    requires if i >= pos then i - pos < steps else i + |fs| - pos < steps
    ensures FindFrom(fs, pos, fs[i].tag, steps) == Some(i)
    decreases steps
  {
    if pos != i { FindFromFinds(fs, NextPos(fs, pos), i, steps - 1); }
  }

  lemma {:induction false} FindFinds(fs: seq<Field>, pos: nat, i: nat)
    requires GoodFields(fs) && pos < |fs| && i < |fs|
    ensures Find(fs, pos, fs[i].tag) == Some(i)
  {
    forall j | 0 <= j < |fs| && j != i ensures fs[j].tag != fs[i].tag {
      if j < i { assert fs[j].tag != fs[i].tag; } else { assert fs[i].tag != fs[j].tag; }
    }
    FindFromFinds(fs, pos, i, |fs|);
  }

  // ---- One field at a time ----

  lemma {:induction false} GoodTag(fs: seq<Field>, i: nat)
    requires GoodFields(fs) && i < |fs|
    ensures 0 < fs[i].tag < MAX_TAG
  {
  }

  // The iteration of the loop that reads one field: its key, then its payload e.
  lemma {:induction false} KeyedStep(fs: seq<Field>, i: nat, wireType: nat, s: seq<Byte>, k: nat, st: State)
    requires StateOf(fs, st) && i < |fs| && 1 <= k <= |s| && wireType < 8 && fs[i].tag > 0
    requires DecodeVarint32(s) == Ok(fs[i].tag * 8 + wireType, k)
    requires Find(fs, st.pos, fs[i].tag) == Some(i)
    ensures DecodeStep(fs, s, st) ==
      match DecodeField(fs, i, wireType, s[k..], st.m)
      case Err => Fail
      case Ok(m', used) => Next(State(m', MarkSeen(fs, i, st.seen), i), k + used)
  {
    hide DecodeVarint32, Find, DecodeField;
    var key := fs[i].tag * 8 + wireType;
    DivMod(key, 8, fs[i].tag, wireType);
  }

  lemma {:induction false} Regrouped(key: seq<Byte>, payload: seq<Byte>, rest: seq<Byte>)
    ensures key + payload + rest == key + (payload + rest)
    ensures (key + payload + rest)[|key|..] == payload + rest
    ensures (key + payload + rest)[|key + payload|..] == rest
  {
  }

  // The first n bytes of s are whole fields, and reading them leads from st to st'.
  ghost predicate Reads(fs: seq<Field>, s: seq<Byte>, n: nat, st: State, st': State)
    requires StateOf(fs, st)
    decreases n
  {
    if n == 0 then st' == st
    else
      s != [] && n <= |s| &&
      var r := DecodeStep(fs, s, st);
      r.Next? && r.used <= n && Reads(fs, s[r.used..], n - r.used, r.st, st')
  }

  lemma {:induction false} ReadsUnfold(fs: seq<Field>, s: seq<Byte>, n: nat, st: State, st': State)
    requires StateOf(fs, st)
    ensures Reads(fs, s, 0, st, st)
    ensures n > 0 && Reads(fs, s, n, st, st') ==>
      s != [] && n <= |s| &&
      var r := DecodeStep(fs, s, st); r.Next? && r.used <= n && Reads(fs, s[r.used..], n - r.used, r.st, st')
    ensures n == 0 && Reads(fs, s, n, st, st') ==> st' == st
    ensures s != [] && n <= |s| && DecodeStep(fs, s, st).Next? && DecodeStep(fs, s, st).used <= n ==>
      var r := DecodeStep(fs, s, st);
      Reads(fs, s[r.used..], n - r.used, r.st, st') ==> Reads(fs, s, n, st, st')
  {
    hide DecodeStep;
  }

  // Whole fields, and then more whole fields.
  lemma {:induction false} ReadsMore(fs: seq<Field>, s: seq<Byte>, n: nat, st: State, st1: State, k: nat, st2: State)
    requires StateOf(fs, st) && Reads(fs, s, n, st, st1) && n <= |s|
    requires StateOf(fs, st1) && Reads(fs, s[n..], k, st1, st2) && n + k <= |s|
    ensures Reads(fs, s, n + k, st, st2)
    decreases n
  {
    hide DecodeStep, Reads;
    ReadsUnfold(fs, s, n, st, st1);
    if n == 0 {
      assert s[0..] == s;
    } else {
      var r := DecodeStep(fs, s, st);
      assert s[r.used..][n - r.used..] == s[n..];
      ReadsMore(fs, s[r.used..], n - r.used, r.st, st1, k, st2);
      ReadsUnfold(fs, s, n + k, st, st2);
    }
  }

  lemma {:induction false} ReadsLoop(fs: seq<Field>, s: seq<Byte>, n: nat, st: State, st': State)
    requires StateOf(fs, st) && Reads(fs, s, n, st, st') && n <= |s|
    ensures StateOf(fs, st') && DecodeLoop(fs, s, st) == DecodeLoop(fs, s[n..], st')
    decreases n
  {
    hide DecodeStep, DecodeLoop, Reads;
    ReadsUnfold(fs, s, n, st, st');
    if n == 0 {
      assert s[0..] == s;
    } else {
      var r := DecodeStep(fs, s, st);
      assert s[r.used..][n - r.used..] == s[n..];
      ReadsLoop(fs, s[r.used..], n - r.used, r.st, st');
      LoopUnfold(fs, s, st);
    }
  }

  lemma {:induction false} FieldStep(fs: seq<Field>, i: nat, wireType: nat, e: seq<Byte>, rest: seq<Byte>, st: State)
    requires GoodFields(fs) && StateOf(fs, st) && i < |fs| && wireType < 8
    requires DecodeField(fs, i, wireType, e + rest, st.m).Ok?
    requires DecodeField(fs, i, wireType, e + rest, st.m).used == |e|
    ensures var st' := State(DecodeField(fs, i, wireType, e + rest, st.m).value, MarkSeen(fs, i, st.seen), i);
            && StateOf(fs, st')
            && Reads(fs, TagBytes(fs[i].tag, wireType) + e + rest, |TagBytes(fs[i].tag, wireType) + e|, st, st')
  {
    hide TagBytes, DecodeVarint32, Find, DecodeField, GoodFields, DecodeStep, Reads;
    GoodTag(fs, i);
    FindFinds(fs, st.pos, i);
    var key := TagBytes(fs[i].tag, wireType);
    KeyRoundTrip(fs[i].tag, wireType, e + rest);
    var s := key + e + rest;
    Regrouped(key, e, rest);
    KeyedStep(fs, i, wireType, s, |key|, st);
    var st' := State(DecodeField(fs, i, wireType, e + rest, st.m).value, MarkSeen(fs, i, st.seen), i);
    ReadsUnfold(fs, rest, 0, st', st');
    ReadsUnfold(fs, s, |key + e|, st, st');
  }

  // The struct after the first i fields have been decoded.
  ghost function Partial(fs: seq<Field>, m: seq<Slot>, i: nat): (p: seq<Slot>)
    requires |m| == |fs| && i <= |fs|
    ensures |p| == |fs|
  {
    m[..i] + Defaults(fs)[i..]
  }

  ghost predicate SeenBefore(fs: seq<Field>, seen: set<nat>, i: nat)
    requires i <= |fs|
  {
    forall r | 0 <= r < RequiredBefore(fs, i) && r < MAX_REQUIRED_FIELDS :: r in seen
  }

  lemma {:induction false} SingleItem(fs: seq<Field>, m: seq<Slot>, i: nat, e: seq<Byte>, rest: seq<Byte>, st: State)
    returns (st': State)
    requires GoodFields(fs) && ValidMessage(fs, m) && i < |fs| && StateOf(fs, st)
    requires st.m == Partial(fs, m, i) && SeenBefore(fs, st.seen, i)
    requires !fs[i].h.Repeated? && m[i].One?
    requires DecodeValue(fs[i], e + rest, Zero(fs[i])) == Ok(m[i].v, |e|)
    ensures StateOf(fs, st') && st'.m == Partial(fs, m, i + 1) && SeenBefore(fs, st'.seen, i + 1)
    ensures var b := TagBytes(fs[i].tag, WireType(fs[i].l)) + e; Reads(fs, b + rest, |b|, st, st')
  {
    var f := fs[i];
    assert st.m[i] == DefaultSlot(f);
    ItemDecoded(fs, i, e + rest, st.m, m[i].v, |e|);
    SetMovesOn(fs, m, i);
    SeenMovesOn(fs, i, st.seen);
    hide GoodFields, ValidMessage, TagBytes, Reads, DecodeField, DecodeValue, Partial, SeenBefore, MarkSeen,
        SetOneof;
    FieldStep(fs, i, WireType(f.l), e, rest, st);
    st' := State(DecodeField(fs, i, WireType(f.l), e + rest, st.m).value, MarkSeen(fs, i, st.seen), i);
  }

  lemma {:induction false} ItemDecoded(fs: seq<Field>, i: nat, s: seq<Byte>, p: seq<Slot>, v: Value, used: nat)
    requires |p| == |fs| && i < |fs| && !fs[i].h.Repeated? && p[i] == DefaultSlot(fs[i])
    requires DecodeValue(fs[i], s, Zero(fs[i])) == Ok(v, used)
    ensures DecodeField(fs, i, WireType(fs[i].l), s, p)
         == Ok(if fs[i].h.Oneof? then SetOneof(fs, p, i, v) else p[i := One(v)], used)
  {
    assert Current(fs[i], p[i]) == Zero(fs[i]);
    hide DecodeValue, SetOneof, Zero, DefaultSlot, Current;
  }

  lemma {:induction false} SeenMovesOn(fs: seq<Field>, i: nat, seen: set<nat>)
    requires i < |fs| && SeenBefore(fs, seen, i)
    ensures SeenBefore(fs, MarkSeen(fs, i, seen), i + 1)
  {
  }

  lemma {:induction false} SetMovesOn(fs: seq<Field>, m: seq<Slot>, i: nat)
    requires ValidMessage(fs, m) && i < |fs| && !fs[i].h.Repeated? && m[i].One?
    ensures var p := Partial(fs, m, i);
            (if fs[i].h.Oneof? then SetOneof(fs, p, i, m[i].v) else p[i := One(m[i].v)]) == Partial(fs, m, i + 1)
  {
    assert |m| == |fs| && OneofsExclusive(fs, m);
    hide ValidMessage, OneofsExclusive, ValidSlot, DefaultSlot, Defaults;
    var p, q := Partial(fs, m, i), Partial(fs, m, i + 1);
    if fs[i].h.Oneof? {
      forall j | 0 <= j < |fs| ensures SetOneof(fs, p, i, m[i].v)[j] == q[j] {
        if j != i && fs[j].h == fs[i].h { OneofOthers(fs, m, i, j); }
      }
      assert SetOneof(fs, p, i, m[i].v) == q;
    } else {
      assert p[i := One(m[i].v)] == q;
    }
  }

  // The other members of the oneof of a set field are absent in the partial message.
  lemma {:induction false} OneofOthers(fs: seq<Field>, m: seq<Slot>, i: nat, j: nat)
    requires |m| == |fs| && OneofsExclusive(fs, m) && i < |fs| && j < |fs| && i != j
    requires fs[i].h.Oneof? && fs[j].h == fs[i].h && m[i].One?
    ensures Partial(fs, m, i + 1)[j].Absent?
  {
    PartialAt(fs, m, i + 1, j);
    hide Partial;
    if j < i {
      hide DefaultSlot;
      assert m[j].Absent?;
    } else {
      hide OneofsExclusive;
      assert DefaultSlot(fs[j]) == Absent;
    }
  }

  lemma {:induction false} PartialAt(fs: seq<Field>, m: seq<Slot>, i: nat, j: nat)
    requires |m| == |fs| && i <= |fs| && j < |fs|
    ensures Partial(fs, m, i)[j] == if j < i then m[j] else DefaultSlot(fs[j])
  {
    hide Defaults, DefaultSlot;
    var d := Defaults(fs);
    assert d[j] == DefaultSlot(fs[j]);
  }

  ghost function Below(n: nat): (s: set<nat>)
    ensures forall r: nat :: r in s <==> r < n
  {
    if n == 0 then {} else Below(n - 1) + {n - 1}
  }

  // ---- Fields that are not sent ----

  // A field that pb_check_proto3_default_value lets the encoder leave out has its default value.
  lemma {:induction false} ZeroIsDefault(f: Field, s: Slot)
    requires ValidSlot(f, s) && IsZero(f, s)
    ensures s == DefaultSlot(f)
    decreases f, 0
  {
    if f.h.Singular? {
      if f.l.Submessage? {
        assert ValidMessage(f.sub, s.v.slots);
        AllZeroIsDefault(f.sub, s.v.slots);
      } else if f.l.FixedLengthBytes? {
        assert s.v.b == Zeros(0);
      }
    }
  }

  lemma {:induction false} AllZeroIsDefault(fs: seq<Field>, m: seq<Slot>)
    requires |m| == |fs| && AllZero(fs, m) && forall i | 0 <= i < |fs| :: ValidSlot(fs[i], m[i])
    ensures m == Defaults(fs)
    decreases fs, 1
  {
    if fs != [] {
      ZeroIsDefault(fs[0], m[0]);
      forall i | 0 <= i < |fs| - 1 ensures ValidSlot(fs[1..][i], m[1..][i]) { assert ValidSlot(fs[i + 1], m[i + 1]); }
      AllZeroIsDefault(fs[1..], m[1..]);
    }
  }

  lemma {:induction false} NothingSent(fs: seq<Field>, m: seq<Slot>, i: nat, seen: set<nat>)
    requires |m| == |fs| && i < |fs| && m[i] == DefaultSlot(fs[i]) && !fs[i].h.Required? && SeenBefore(fs, seen, i)
    ensures Partial(fs, m, i + 1) == Partial(fs, m, i) && SeenBefore(fs, seen, i + 1)
  {
    var d := Defaults(fs);
    assert d[i] == m[i];
    hide Defaults, DefaultSlot;
    assert m[..i + 1] + d[i + 1..] == m[..i] + d[i..];
    assert RequiredBefore(fs, i + 1) == RequiredBefore(fs, i);
  }

  // ---- Repeated fields ----

  lemma {:induction false} PackedPayload(fs: seq<Field>, i: nat, vs: seq<Value>, payload: seq<Byte>, rest: seq<Byte>,
                                         m: seq<Slot>)
    requires |m| == |fs| && i < |fs| && fs[i].h.Repeated? && Packable(fs[i].l) && m[i] == Many([])
    requires |payload| < U32 && DecodePacked(fs[i], payload, []) == Some(vs)
    ensures DecodeField(fs, i, WT_STRING, Delimited(payload) + rest, m) == Ok(m[i := Many(vs)], |Delimited(payload)|)
  {
    DelimitedRoundTrip(payload, rest);
    hide Delimited, DecodePacked, TakeDelimited;
  }

  lemma {:induction false} PackedField(fs: seq<Field>, m: seq<Slot>, i: nat, rest: seq<Byte>,
                                       st: State) returns (st': State)
    requires GoodFields(fs) && ValidMessage(fs, m) && i < |fs| && StateOf(fs, st)
    requires st.m == Partial(fs, m, i) && SeenBefore(fs, st.seen, i)
    requires fs[i].h.Repeated? && Packable(fs[i].l) && m[i].Many?
    ensures EncodeItems(fs[i], m[i].vs, true).Some?
    ensures var e := TagBytes(fs[i].tag, WT_STRING) + Delimited(EncodeItems(fs[i], m[i].vs, true).value);
            |e| < U32 ==>
              && StateOf(fs, st') && st'.m == Partial(fs, m, i + 1) && SeenBefore(fs, st'.seen, i + 1)
              && Reads(fs, e + rest, |e|, st, st')
  {
    var f, vs := fs[i], m[i].vs;
    assert ValidSlot(f, m[i]);
    assert ValidScalars(f, vs) by {
      forall v | v in vs ensures ValidScalar(f, v) { assert ValidValue(f, v); }
    }
    PackedRoundTrip(f, vs, []);
    st' := st;
    assert st.m[i] == DefaultSlot(f) == Many([]);
    assert st.m[i := Many(vs)] == Partial(fs, m, i + 1);
    assert RequiredBefore(fs, i + 1) == RequiredBefore(fs, i) && [] + vs == vs;
    hide EncodeItems, GoodFields, ValidMessage, ValidScalars, DecodeField, DecodePacked, Reads, TagBytes, Partial;
    var payload := EncodeItems(f, vs, true).value;
    if |TagBytes(f.tag, WT_STRING) + Delimited(payload)| < U32 {
      PackedPayload(fs, i, vs, payload, rest, st.m);
      FieldStep(fs, i, WT_STRING, Delimited(payload), rest, st);
      st' := State(st.m[i := Many(vs)], MarkSeen(fs, i, st.seen), i);
    }
  }

  // ---- The induction over nested descriptors ----

  lemma {:induction false} ValueRoundTrip(f: Field, v: Value, rest: seq<Byte>)
    requires (f.l.Submessage? ==> GoodFields(f.sub)) && ValidValue(f, v)
    ensures EncodeValue(f, v).Some?
    ensures var b := EncodeValue(f, v).value; |b| < U32 ==> DecodeValue(f, b + rest, Zero(f)) == Ok(v, |b|)
    decreases f, 0
  {
    if f.l.Submessage? {
      MessageRoundTrip(f.sub, v.slots);
      var body := EncodeMessage(f.sub, v.slots).value;
      hide EncodeMessage, DecodeNoInit, GoodFields, ValidMessage;
      if |Delimited(body)| < U32 { DelimitedRoundTrip(body, rest); }
    } else {
      ScalarRoundTrip(f, v, rest);
    }
  }

  // Elements that are not packed, even if they could be: each is one more field of the message.
  lemma {:induction false} UnpackedRoundTrip(fs: seq<Field>, i: nat, vs: seq<Value>, done: seq<Value>,
                                          rest: seq<Byte>, st: State)
    returns (st': State)
    requires GoodFields(fs) && i < |fs| && StateOf(fs, st)
    requires fs[i].h.Repeated? && |done| + |vs| <= fs[i].arraySize
    requires st.m[i] == Many(done) && forall v | v in vs :: ValidValue(fs[i], v)
    ensures EncodeItems(fs[i], vs, false).Some?
    ensures var e := EncodeItems(fs[i], vs, false).value;
            |e| < U32 ==>
              && StateOf(fs, st') && st'.m == st.m[i := Many(done + vs)] && st'.seen == st.seen
              && Reads(fs, e + rest, |e|, st, st')
    decreases fs[i], 1, |vs|
  {
    var f := fs[i];
    st' := st;
    if vs == [] {
      assert done + vs == done && [] + rest == rest;
      assert st.m[i := Many(done)] == st.m;
      ReadsUnfold(fs, rest, 0, st, st);
    } else {
      assert vs[0] in vs && forall v | v in vs[1..] :: v in vs;
      var m1 := st.m[i := Many(done + [vs[0]])];
      var st1 := State(m1, st.seen, i);
      st' := UnpackedRoundTrip(fs, i, vs[1..], done + [vs[0]], rest, st1);
      ItemsUnfold(f, vs);
      var others := EncodeItems(f, vs[1..], false).value;
      ValueRoundTrip(f, vs[0], others + rest);
      var first := EncodeValue(f, vs[0]).value;
      UnpackedStep(fs, i, vs, done, first, others, rest, st, st');
    }
  }

  lemma {:induction false} UnpackedStep(fs: seq<Field>, i: nat, vs: seq<Value>, done: seq<Value>, first: seq<Byte>,
                                        others: seq<Byte>, rest: seq<Byte>, st: State, st': State)
    requires GoodFields(fs) && i < |fs| && StateOf(fs, st) && vs != []
    requires fs[i].h.Repeated? && |done| < fs[i].arraySize && st.m[i] == Many(done)
    requires |first| < U32 ==> DecodeValue(fs[i], first + (others + rest), Zero(fs[i])) == Ok(vs[0], |first|)
    requires var st1 := State(st.m[i := Many(done + [vs[0]])], st.seen, i);
             |others| < U32 ==>
               && StateOf(fs, st') && st'.m == st1.m[i := Many(done + [vs[0]] + vs[1..])] && st'.seen == st.seen
               && Reads(fs, others + rest, |others|, st1, st')
    ensures var e := TagBytes(fs[i].tag, WireType(fs[i].l)) + first + others;
            |e| < U32 ==>
              && StateOf(fs, st') && st'.m == st.m[i := Many(done + vs)] && st'.seen == st.seen
              && Reads(fs, e + rest, |e|, st, st')
  {
    hide DecodeValue, Reads, GoodFields, TagBytes;
    var key := TagBytes(fs[i].tag, WireType(fs[i].l));
    if |key + first + others| < U32 {
      var tail := others + rest;
      assert key + first + others + rest == key + first + tail;
      assert done + [vs[0]] + vs[1..] == done + vs;
      FieldStep(fs, i, WireType(fs[i].l), first, tail, st);
      Regrouped(key, first, tail);
      var st1 := State(st.m[i := Many(done + [vs[0]])], st.seen, i);
      ReadsMore(fs, key + first + tail, |key + first|, st, st1, |others|, st');
    }
  }

  // The encoding of one slot, case by case.
  lemma {:induction false} SlotNotSent(f: Field, s: Slot)
    requires ValidSlot(f, s) && (s.Absent? || s == Many([]) || (f.h.Singular? && IsZero(f, s)))
    ensures EncodeSlot(f, s) == Some([]) && s == DefaultSlot(f) && !f.h.Required?
  {
    hide EncodeItems, EncodeValue, ValidValue, IsZero;
    if f.h.Singular? { ZeroIsDefault(f, s); }
  }

  lemma {:induction false} SlotSent(f: Field, v: Value)
    requires ValidSlot(f, One(v)) && !(f.h.Singular? && IsZero(f, One(v)))
    ensures !f.h.Repeated? && ValidValue(f, v)
    ensures EncodeSlot(f, One(v)) == Append(Some(TagBytes(f.tag, WireType(f.l))), EncodeValue(f, v))
  {
    hide EncodeItems, EncodeValue, ValidValue, IsZero, TagBytes;
  }

  lemma {:induction false} SlotItems(f: Field, vs: seq<Value>)
    requires ValidSlot(f, Many(vs)) && vs != []
    ensures f.h.Repeated? && |vs| <= f.arraySize && DefaultSlot(f) == Many([])
    ensures forall v | v in vs :: ValidValue(f, v)
    ensures !Packable(f.l) ==> EncodeSlot(f, Many(vs)) == EncodeItems(f, vs, false)
    ensures Packable(f.l) && EncodeItems(f, vs, true).Some? ==>
              EncodeSlot(f, Many(vs)) == Some(TagBytes(f.tag, WT_STRING) + Delimited(EncodeItems(f, vs, true).value))
  {
    hide EncodeItems, ValidValue, TagBytes, Delimited;
  }

  lemma {:induction false} SlotRoundTrip(fs: seq<Field>, m: seq<Slot>, i: nat, rest: seq<Byte>,
                                         st: State) returns (st': State)
    requires GoodFields(fs) && ValidMessage(fs, m) && i < |fs| && StateOf(fs, st)
    requires st.m == Partial(fs, m, i) && SeenBefore(fs, st.seen, i)
    ensures EncodeSlot(fs[i], m[i]).Some?
    ensures var e := EncodeSlot(fs[i], m[i]).value;
            |e| < U32 ==>
              && StateOf(fs, st') && st'.m == Partial(fs, m, i + 1) && SeenBefore(fs, st'.seen, i + 1)
              && Reads(fs, e + rest, |e|, st, st')
    decreases fs[i], 2
  {
    var f := fs[i];
    st' := st;
    assert ValidSlot(f, m[i]);
    assert st.m[i] == DefaultSlot(f);
    assert f.l.Submessage? ==> GoodFields(f.sub);
    hide Reads, DecodeStep, DecodeValue, GoodFields, EncodeValue, EncodeItems, EncodeSlot, ValidMessage, ValidSlot;
    hide TagBytes;
    hide DefaultSlot, Delimited;
    assert [] + rest == rest;
    if m[i].Absent? || m[i] == Many([]) || (f.h.Singular? && IsZero(f, m[i])) {
      SlotNotSent(f, m[i]);
      NothingSent(fs, m, i, st.seen);
      ReadsUnfold(fs, rest, 0, st, st);
    } else if m[i].One? {
      SlotSent(f, m[i].v);
      ValueRoundTrip(f, m[i].v, rest);
      var e := EncodeValue(f, m[i].v).value;
      if |TagBytes(f.tag, WireType(f.l)) + e| < U32 {
        st' := SingleItem(fs, m, i, e, rest, st);
      }
    } else if Packable(f.l) {
      SlotItems(f, m[i].vs);
      st' := PackedField(fs, m, i, rest, st);
    } else {
      SlotItems(f, m[i].vs);
      st' := UnpackedRoundTrip(fs, i, m[i].vs, [], rest, st);
      assert [] + m[i].vs == m[i].vs;
      ItemsMoveOn(fs, m, i, st.seen);
    }
  }

  lemma {:induction false} ItemsMoveOn(fs: seq<Field>, m: seq<Slot>, i: nat, seen: set<nat>)
    requires |m| == |fs| && i < |fs| && fs[i].h.Repeated? && SeenBefore(fs, seen, i)
    ensures Partial(fs, m, i)[i := m[i]] == Partial(fs, m, i + 1) && SeenBefore(fs, seen, i + 1)
  {
    hide Defaults;
    assert RequiredBefore(fs, i + 1) == RequiredBefore(fs, i);
    assert Partial(fs, m, i)[i := m[i]] == Partial(fs, m, i + 1);
  }

  // The bytes of a message are those of its first slot, then those of the others.
  lemma {:induction false} MessageUnfold(fs: seq<Field>, m: seq<Slot>, i: nat, j: nat)
    requires |m| == |fs| && i < j <= |fs|
    ensures EncodeMessage(fs[i..j], m[i..j])
         == Append(EncodeSlot(fs[i], m[i]), EncodeMessage(fs[i + 1..j], m[i + 1..j]))
  {
    hide EncodeSlot;
    assert fs[i..j][1..] == fs[i + 1..j] && m[i..j][1..] == m[i + 1..j];
  }

  // The encoding of the slots from i on reads, field by field, as the rest of the message.
  lemma {:induction false} LoopRoundTrip(fs: seq<Field>, m: seq<Slot>, i: nat, st: State) returns (st': State)
    requires GoodFields(fs) && ValidMessage(fs, m) && i <= |fs| && StateOf(fs, st)
    requires st.m == Partial(fs, m, i) && SeenBefore(fs, st.seen, i)
    ensures EncodeMessage(fs[i..|fs|], m[i..|fs|]).Some?
    ensures var b := EncodeMessage(fs[i..|fs|], m[i..|fs|]).value;
            |b| < U32 ==>
              StateOf(fs, st') && st'.m == m && SeenBefore(fs, st'.seen, |fs|) && Reads(fs, b, |b|, st, st')
    decreases fs, 3, |fs| - i
  {
    hide EncodeMessage, EncodeSlot, GoodFields, ValidMessage, Reads, SeenBefore, Partial;
    SameLength(fs, m);
    st' := st;
    if i == |fs| {
      AllSlots(fs, m);
      NoSlots();
      assert fs[i..i] == [] && m[i..i] == [];
      ReadsUnfold(fs, [], 0, st, st);
    } else {
      MessageUnfold(fs, m, i, |fs|);
      var later := EncodeMessage(fs[i + 1..|fs|], m[i + 1..|fs|]);
      var rest := if later.Some? then later.value else [];
      var st1 := SlotRoundTrip(fs, m, i, rest, st);
      var e := EncodeSlot(fs[i], m[i]).value;
      if |e| >= U32 {
        st1 := SomeState(fs, m, i + 1);
      }
      st' := LoopRoundTrip(fs, m, i + 1, st1);
      if |e + rest| < U32 {
        assert (e + rest)[|e|..] == rest;
        ReadsMore(fs, e + rest, |e|, st, st1, |rest|, st');
      }
    }
  }

  lemma {:induction false} AllSlots(fs: seq<Field>, m: seq<Slot>)
    requires |m| == |fs|
    ensures Partial(fs, m, |fs|) == m
  {
  }

  lemma {:induction false} SomeState(fs: seq<Field>, m: seq<Slot>, i: nat) returns (st: State)
    requires |m| == |fs| && 0 < i <= |fs|
    ensures StateOf(fs, st) && st.m == Partial(fs, m, i) && SeenBefore(fs, st.seen, i)
  {
    st := State(Partial(fs, m, i), Below(RequiredBefore(fs, i)), 0);
  }

  // The round trip, by induction over nested submessages: a valid message can be encoded, and if its encoding
  // has fewer than 2^32 bytes, decoding it into a struct set to defaults gives the message back.
  lemma {:induction false} MessageRoundTrip(fs: seq<Field>, m: seq<Slot>)
    requires GoodFields(fs) && ValidMessage(fs, m)
    ensures EncodeMessage(fs, m).Some?
    ensures |EncodeMessage(fs, m).value| < U32 ==> Decode(fs, EncodeMessage(fs, m).value) == Some(m)
    decreases fs, 4
  {
    assert fs[0..|fs|] == fs && m[0..|fs|] == m;
    assert Partial(fs, m, 0) == Defaults(fs);
    var start := InitialState(fs, Defaults(fs));
    var st := LoopRoundTrip(fs, m, 0, start);
    var b := EncodeMessage(fs, m).value;
    if |b| < U32 {
      ReadsLoop(fs, b, |b|, start, st);
      assert b[|b|..] == [];
    }
  }

  lemma {:induction false} SameLength(fs: seq<Field>, m: seq<Slot>)
    requires ValidMessage(fs, m)
    ensures |fs| == |m|
  {
  }

  lemma {:induction false} NoSlots()
    ensures EncodeMessage([], []) == Some([])
  {
  }

  // The slots up to the j-th end at a field boundary of the encoding.
  lemma {:induction false} SlotsAreFields(fs: seq<Field>, m: seq<Slot>, i: nat, j: nat, st: State) returns (st': State)
    requires GoodFields(fs) && ValidMessage(fs, m) && i <= j <= |fs| && StateOf(fs, st)
    requires st.m == Partial(fs, m, i) && SeenBefore(fs, st.seen, i)
    requires EncodeMessage(fs[i..|fs|], m[i..|fs|]).Some?
    requires |EncodeMessage(fs[i..|fs|], m[i..|fs|]).value| < U32
    ensures EncodeMessage(fs[i..j], m[i..j]).Some? && EncodeMessage(fs[j..|fs|], m[j..|fs|]).Some?
    ensures EncodeMessage(fs[i..|fs|], m[i..|fs|]).value
         == EncodeMessage(fs[i..j], m[i..j]).value + EncodeMessage(fs[j..|fs|], m[j..|fs|]).value
    ensures StateOf(fs, st') && st'.m == Partial(fs, m, j)
    ensures Reads(fs, EncodeMessage(fs[i..|fs|], m[i..|fs|]).value, |EncodeMessage(fs[i..j], m[i..j]).value|, st, st')
    decreases j - i
  {
    hide EncodeMessage, EncodeSlot, GoodFields, ValidMessage, Reads, SeenBefore, Partial;
    assert |fs| == |m| by { SameLength(fs, m); }
    st' := st;
    var all := EncodeMessage(fs[i..|fs|], m[i..|fs|]).value;
    if i == j {
      NoSlots();
      assert fs[i..j] == [] && m[i..j] == [] && [] + all == all;
      ReadsUnfold(fs, all, 0, st, st);
    } else {
      MessageUnfold(fs, m, i, |fs|);
      MessageUnfold(fs, m, i, j);
      var e, rest := EncodeSlot(fs[i], m[i]).value, EncodeMessage(fs[i + 1..|fs|], m[i + 1..|fs|]).value;
      var st1 := SlotRoundTrip(fs, m, i, rest, st);
      st' := SlotsAreFields(fs, m, i + 1, j, st1);
      var front, back := EncodeMessage(fs[i + 1..j], m[i + 1..j]).value, EncodeMessage(fs[j..|fs|], m[j..|fs|]).value;
      assert e + (front + back) == e + front + back && (e + rest)[|e|..] == rest;
      ReadsMore(fs, e + rest, |e|, st, st1, |front|, st');
    }
  }
}
