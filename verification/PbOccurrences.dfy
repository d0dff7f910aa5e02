/** Fields that occur more than once on the wire: arrays grow, scalars are replaced, submessages are merged. */
module PbOccurrences {
  import opened Bits
  import opened Bytes
  import opened PbVarint
  import opened PbSpec
  import opened PbScalars
  import opened PbRoundTrip
  import opened PbUnknown

  // ---- Repeated fields ----

  // One occurrence of a repeated field: an element with its own key, or a packed run of elements.
  datatype Occurrence = Single(v: Value) | Run(vs: seq<Value>) {
    function Elements(): seq<Value> {
      match this
      case Single(v) => [v]
      case Run(vs) => vs
    }
  }

  ghost predicate ValidOccurrence(f: Field, o: Occurrence) {
    match o
    case Single(v) => ValidValue(f, v)
    case Run(vs) => Packable(f.l) && ValidScalars(f, vs)
  }

  ghost function OccurrenceBytes(f: Field, o: Occurrence): Option<seq<Byte>> {
    match o
    case Single(v) => Append(Some(TagBytes(f.tag, WireType(f.l))), EncodeValue(f, v))
    case Run(vs) =>
      match EncodeItems(f, vs, true)
      case None => None
      case Some(b) => Some(TagBytes(f.tag, 2) + Delimited(b))
  }

  ghost function AllElements(os: seq<Occurrence>): seq<Value> {
    if os == [] then [] else os[0].Elements() + AllElements(os[1..])
  }

  ghost function AllBytes(f: Field, os: seq<Occurrence>): Option<seq<Byte>> {
    if os == [] then Some([]) else Append(OccurrenceBytes(f, os[0]), AllBytes(f, os[1..]))
  }

  // One more element, whether or not the field could be packed.
  lemma {:induction false} SingleRead(fs: seq<Field>, i: nat, v: Value, done: seq<Value>, rest: seq<Byte>, st: State)
    returns (st': State)
    requires GoodFields(fs) && i < |fs| && StateOf(fs, st) && fs[i].h.Repeated? && |done| < fs[i].arraySize
    requires st.m[i] == Many(done) && ValidValue(fs[i], v)
    ensures OccurrenceBytes(fs[i], Single(v)).Some?
    ensures var e := OccurrenceBytes(fs[i], Single(v)).value;
            |e| < U32 ==>
              && StateOf(fs, st') && st'.m == st.m[i := Many(done + [v])]
              && Reads(fs, e + rest, |e|, st, st')
  {
    assert fs[i].l.Submessage? ==> GoodFields(fs[i].sub);
    hide GoodFields, ValidValue, EncodeValue, DecodeValue, Reads, TagBytes;
    var f := fs[i];
    ValueRoundTrip(f, v, rest);
    var e := EncodeValue(f, v).value;
    st' := st;
    if |TagBytes(f.tag, WireType(f.l)) + e| < U32 {
      SingleDecoded(fs, i, e + rest, v, done, st.m, |e|);
      FieldStep(fs, i, WireType(f.l), e, rest, st);
      st' := State(st.m[i := Many(done + [v])], MarkSeen(fs, i, st.seen), i);
    }
  }

  lemma {:induction false} SingleDecoded(fs: seq<Field>, i: nat, s: seq<Byte>, v: Value, done: seq<Value>, m: seq<Slot>,
                                         used: nat)
    requires |m| == |fs| && i < |fs| && fs[i].h.Repeated? && |done| < fs[i].arraySize && m[i] == Many(done)
    requires DecodeValue(fs[i], s, Zero(fs[i])) == Ok(v, used)
    ensures DecodeField(fs, i, WireType(fs[i].l), s, m) == Ok(m[i := Many(done + [v])], used)
  {
    hide DecodeValue, Zero;
  }

  lemma {:induction false} RunRead(fs: seq<Field>, i: nat, vs: seq<Value>, done: seq<Value>, rest: seq<Byte>, st: State)
    returns (st': State)
    requires GoodFields(fs) && i < |fs| && StateOf(fs, st) && fs[i].h.Repeated? && |done| + |vs| <= fs[i].arraySize
    requires st.m[i] == Many(done) && Packable(fs[i].l) && ValidScalars(fs[i], vs)
    ensures OccurrenceBytes(fs[i], Run(vs)).Some?
    ensures var e := OccurrenceBytes(fs[i], Run(vs)).value;
            |e| < U32 ==>
              && StateOf(fs, st') && st'.m == st.m[i := Many(done + vs)]
              && Reads(fs, e + rest, |e|, st, st')
  {
    hide GoodFields, ValidScalars, EncodeItems, DecodePacked, DecodeField, Reads, TagBytes, Delimited;
    var f := fs[i];
    PackedRoundTrip(f, vs, done);
    var payload := EncodeItems(f, vs, true).value;
    st' := st;
    if |TagBytes(f.tag, 2) + Delimited(payload)| < U32 {
      RunDecoded(fs, i, payload, rest, vs, done, st.m);
      FieldStep(fs, i, 2, Delimited(payload), rest, st);
      st' := State(st.m[i := Many(done + vs)], MarkSeen(fs, i, st.seen), i);
    }
  }

  lemma {:induction false} RunDecoded(fs: seq<Field>, i: nat, payload: seq<Byte>, rest: seq<Byte>, vs: seq<Value>,
                                      done: seq<Value>, m: seq<Slot>)
    requires |m| == |fs| && i < |fs| && fs[i].h.Repeated? && Packable(fs[i].l) && m[i] == Many(done)
    requires |Delimited(payload)| < U32
    requires |payload| < U32 ==> DecodePacked(fs[i], payload, done) == Some(done + vs)
    ensures |payload| < U32
    ensures DecodeField(fs, i, 2, Delimited(payload) + rest, m) == Ok(m[i := Many(done + vs)], |Delimited(payload)|)
  {
    assert |payload| < |Delimited(payload)|;
    DelimitedRoundTrip(payload, rest);
    hide Delimited, DecodePacked, TakeDelimited;
  }

  lemma {:induction false} OccurrenceRead(fs: seq<Field>, i: nat, o: Occurrence, done: seq<Value>, rest: seq<Byte>,
                                          st: State) returns (st': State)
    requires GoodFields(fs) && i < |fs| && StateOf(fs, st) && fs[i].h.Repeated?
    requires st.m[i] == Many(done) && |done| + |o.Elements()| <= fs[i].arraySize && ValidOccurrence(fs[i], o)
    ensures OccurrenceBytes(fs[i], o).Some?
    ensures var e := OccurrenceBytes(fs[i], o).value;
            |e| < U32 ==>
              && StateOf(fs, st') && st'.m == st.m[i := Many(done + o.Elements())]
              && Reads(fs, e + rest, |e|, st, st')
  {
    hide GoodFields, ValidValue, ValidScalars, OccurrenceBytes, Reads;
    match o {
      case Single(v) => st' := SingleRead(fs, i, v, done, rest, st);
      case Run(vs) => st' := RunRead(fs, i, vs, done, rest, st);
    }
  }

  lemma {:induction false} Regrouped(first: seq<Byte>, others: seq<Byte>, rest: seq<Byte>)
    ensures first + others + rest == first + (others + rest)
    ensures (first + (others + rest))[|first|..] == others + rest
  {
    assert first + others + rest == first + (others + rest);
  }

  // Any sequence of occurrences, single or packed, leaves the elements in the order of the wire.
  lemma {:induction false} OccurrencesRead(fs: seq<Field>, i: nat, os: seq<Occurrence>, done: seq<Value>,
                                           rest: seq<Byte>, st: State) returns (st': State)
    requires GoodFields(fs) && i < |fs| && StateOf(fs, st) && fs[i].h.Repeated?
    requires st.m[i] == Many(done) && |done| + |AllElements(os)| <= fs[i].arraySize
    requires forall o | o in os :: ValidOccurrence(fs[i], o)
    ensures AllBytes(fs[i], os).Some?
    ensures var e := AllBytes(fs[i], os).value;
            |e| < U32 ==>
              && StateOf(fs, st') && st'.m == st.m[i := Many(done + AllElements(os))]
              && Reads(fs, e + rest, |e|, st, st')
    decreases |os|
  {
    hide GoodFields, ValidOccurrence, OccurrenceBytes, Reads, Occurrence.Elements;
    var f := fs[i];
    st' := st;
    if os == [] {
      assert done + [] == done && [] + rest == rest && st.m[i := Many(done)] == st.m;
      ReadsUnfold(fs, rest, 0, st, st);
    } else {
      assert os[0] in os && forall o | o in os[1..] :: o in os;
      var now := done + os[0].Elements();
      var mid := State(st.m[i := Many(now)], st.seen, st.pos);
      var _ := OccurrencesRead(fs, i, os[1..], now, rest, mid);
      var others := AllBytes(f, os[1..]).value;
      var st1 := OccurrenceRead(fs, i, os[0], done, others + rest, st);
      var first := OccurrenceBytes(f, os[0]).value;
      if |first + others| < U32 {
        st' := OccurrencesRead(fs, i, os[1..], now, rest, st1);
        assert now + AllElements(os[1..]) == done + AllElements(os);
        Regrouped(first, others, rest);
        ReadsMore(fs, first + (others + rest), |first|, st, st1, |others|, st');
      }
    }
  }

  // ---- Arrays that are full ----

  lemma {:induction false} SingleRefused(fs: seq<Field>, i: nat, v: Value, done: seq<Value>, rest: seq<Byte>, st: State)
    requires GoodFields(fs) && i < |fs| && StateOf(fs, st) && fs[i].h.Repeated? && |done| >= fs[i].arraySize
    requires st.m[i] == Many(done) && OccurrenceBytes(fs[i], Single(v)).Some?
    ensures DecodeLoop(fs, OccurrenceBytes(fs[i], Single(v)).value + rest, st) == None
  {
    hide GoodFields, EncodeValue, DecodeField, TagBytes, DecodeLoop;
    var f := fs[i];
    var key, e := TagBytes(f.tag, WireType(f.l)), EncodeValue(f, v).value;
    FullRefuses(fs, i, e + rest, st.m);
    FieldRefused(fs, i, WireType(f.l), e + rest, st);
    Regrouped(key, e, rest);
  }

  lemma {:induction false} FullRefuses(fs: seq<Field>, i: nat, s: seq<Byte>, m: seq<Slot>)
    requires |m| == |fs| && i < |fs| && fs[i].h.Repeated? && m[i].Many? && |m[i].vs| >= fs[i].arraySize
    ensures DecodeField(fs, i, WireType(fs[i].l), s, m) == Err
  {
  }

  // A field that its decoder refuses ends decoding.
  lemma {:induction false} FieldRefused(fs: seq<Field>, i: nat, wireType: nat, s: seq<Byte>, st: State)
    requires GoodFields(fs) && StateOf(fs, st) && i < |fs| && wireType < 8
    requires DecodeField(fs, i, wireType, s, st.m) == Err
    ensures DecodeLoop(fs, TagBytes(fs[i].tag, wireType) + s, st) == None
  {
    hide TagBytes, DecodeVarint32, Find, DecodeField, GoodFields, DecodeStep;
    GoodTag(fs, i);
    FindFinds(fs, st.pos, i);
    var key := TagBytes(fs[i].tag, wireType);
    KeyRoundTrip(fs[i].tag, wireType, s);
    KeyedStep(fs, i, wireType, key + s, |key|, st);
    LoopUnfold(fs, key + s, st);
  }

  lemma {:induction false} PackedOverflow(f: Field, vs: seq<Value>, done: seq<Value>)
    requires Packable(f.l) && ValidScalars(f, vs) && |done| <= f.arraySize < |done| + |vs|
    requires EncodeItems(f, vs, true).Some? && |EncodeItems(f, vs, true).value| < U32
    ensures DecodePacked(f, EncodeItems(f, vs, true).value, done) == None
    decreases |vs|
  {
    hide EncodeItems, EncodeValue, DecodeScalar, DecodePacked, ValidScalar;
    assert vs[0] in vs && forall v | v in vs[1..] :: v in vs;
    PackedUnfold(f, vs);
    var first, others := EncodeValue(f, vs[0]).value, EncodeItems(f, vs[1..], true).value;
    ScalarRoundTrip(f, vs[0], others);
    if |done| == f.arraySize {
      PackedFull(f, first + others, done);
    } else {
      PackedStep(f, first, others, done, vs[0]);
      PackedOverflow(f, vs[1..], done + [vs[0]]);
    }
  }

  lemma {:induction false} PackedFull(f: Field, payload: seq<Byte>, done: seq<Value>)
    requires |done| >= f.arraySize && DecodeScalar(f, payload).Ok?
    ensures DecodePacked(f, payload, done) == None
  {
  }

  lemma {:induction false} RunRefused(fs: seq<Field>, i: nat, vs: seq<Value>, done: seq<Value>, rest: seq<Byte>,
                                      st: State)
    requires GoodFields(fs) && i < |fs| && StateOf(fs, st) && fs[i].h.Repeated?
    requires |done| <= fs[i].arraySize < |done| + |vs|
    requires st.m[i] == Many(done) && Packable(fs[i].l) && ValidScalars(fs[i], vs)
    requires OccurrenceBytes(fs[i], Run(vs)).Some? && |OccurrenceBytes(fs[i], Run(vs)).value| < U32
    ensures DecodeLoop(fs, OccurrenceBytes(fs[i], Run(vs)).value + rest, st) == None
  {
    hide GoodFields, ValidScalars, EncodeItems, DecodePacked, DecodeField, TagBytes, Delimited;
    var f := fs[i];
    var payload := EncodeItems(f, vs, true).value;
    PayloadShorter(payload);
    PackedOverflow(f, vs, done);
    OverflowRefuses(fs, i, payload, rest, done, st.m);
    FieldRefused(fs, i, 2, Delimited(payload) + rest, st);
    assert TagBytes(f.tag, 2) + Delimited(payload) + rest == TagBytes(f.tag, 2) + (Delimited(payload) + rest);
  }

  lemma {:induction false} PayloadShorter(payload: seq<Byte>)
    ensures |payload| < |Delimited(payload)|
  {
  }

  lemma {:induction false} OverflowRefuses(fs: seq<Field>, i: nat, payload: seq<Byte>, rest: seq<Byte>,
                                           done: seq<Value>, m: seq<Slot>)
    requires |m| == |fs| && i < |fs| && fs[i].h.Repeated? && Packable(fs[i].l) && m[i] == Many(done)
    requires |payload| < U32 && DecodePacked(fs[i], payload, done) == None
    ensures DecodeField(fs, i, 2, Delimited(payload) + rest, m) == Err
  {
    DelimitedRoundTrip(payload, rest);
    hide Delimited, DecodePacked, TakeDelimited;
  }

  // More elements than the array holds, however they are sent, make decoding fail.
  lemma {:induction false} OverflowRefused(fs: seq<Field>, i: nat, os: seq<Occurrence>, done: seq<Value>,
                                           rest: seq<Byte>, st: State)
    requires GoodFields(fs) && i < |fs| && StateOf(fs, st) && fs[i].h.Repeated?
    requires st.m[i] == Many(done) && |done| <= fs[i].arraySize < |done| + |AllElements(os)|
    requires forall o | o in os :: ValidOccurrence(fs[i], o)
    requires AllBytes(fs[i], os).Some? && |AllBytes(fs[i], os).value| < U32
    ensures DecodeLoop(fs, AllBytes(fs[i], os).value + rest, st) == None
    decreases |os|
  {
    hide GoodFields, ValidValue, OccurrenceBytes, Reads, DecodeLoop, ValidScalars;
    var f := fs[i];
    assert os[0] in os && forall o | o in os[1..] :: o in os;
    var first, others := OccurrenceBytes(f, os[0]).value, AllBytes(f, os[1..]).value;
    assert first + others + rest == first + (others + rest) && (first + (others + rest))[|first|..] == others + rest;
    var now := done + os[0].Elements();
    if |now| > f.arraySize {
      match os[0] {
        case Single(v) => SingleRefused(fs, i, v, done, others + rest, st);
        case Run(vs) => RunRefused(fs, i, vs, done, others + rest, st);
      }
    } else {
      var st1;
      match os[0] {
        case Single(v) => st1 := SingleRead(fs, i, v, done, others + rest, st);
        case Run(vs) => st1 := RunRead(fs, i, vs, done, others + rest, st);
      }
      OverflowRefused(fs, i, os[1..], now, rest, st1);
      ReadsLoop(fs, first + (others + rest), |first|, st, st1);
    }
  }

  // ---- Fields with one value ----

  // The struct with field i set, whatever it held; the other members of its oneof are unset.
  ghost predicate IsSet(fs: seq<Field>, m: seq<Slot>, i: nat, v: Value, m': seq<Slot>)
    requires |m| == |fs| && i < |fs|
  {
    && |m'| == |fs| && m'[i] == One(v)
    && forall j | 0 <= j < |fs| && j != i :: m'[j] == if fs[i].h.Oneof? && fs[j].h == fs[i].h then Absent else m[j]
  }

  // The last value of a scalar field stays.
  lemma {:induction false} LastScalarStays(fs: seq<Field>, i: nat, v: Value, rest: seq<Byte>, st: State)
    returns (st': State)
    requires GoodFields(fs) && i < |fs| && StateOf(fs, st) && !fs[i].h.Repeated? && !fs[i].l.Submessage?
    requires ValidScalar(fs[i], v)
    ensures EncodeValue(fs[i], v).Some?
    ensures var e := TagBytes(fs[i].tag, WireType(fs[i].l)) + EncodeValue(fs[i], v).value;
            |e| < U32 ==>
              StateOf(fs, st') && IsSet(fs, st.m, i, v, st'.m) && Reads(fs, e + rest, |e|, st, st')
  {
    hide GoodFields, ValidScalar, EncodeValue, DecodeScalar, Reads, TagBytes;
    var f := fs[i];
    ScalarRoundTrip(f, v, rest);
    var e := EncodeValue(f, v).value;
    st' := st;
    if |TagBytes(f.tag, WireType(f.l)) + e| < U32 {
      FieldStep(fs, i, WireType(f.l), e, rest, st);
      st' := State(DecodeField(fs, i, WireType(f.l), e + rest, st.m).value, MarkSeen(fs, i, st.seen), i);
    }
  }

  // What an occurrence of a submessage is decoded on top of: what is there, but a member of a oneof starts afresh.
  ghost function Base(f: Field, s: Slot): (m: seq<Slot>)
    ensures |m| == |f.sub|
  {
    if !f.h.Oneof? && s.One? && s.v.Msg? && |s.v.slots| == |f.sub| then s.v.slots else Defaults(f.sub)
  }

  lemma {:induction false} SubmessageRead(fs: seq<Field>, i: nat, payload: seq<Byte>, rest: seq<Byte>, st: State)
    returns (st': State)
    requires GoodFields(fs) && i < |fs| && StateOf(fs, st) && !fs[i].h.Repeated? && fs[i].l.Submessage?
    requires |payload| < U32 && DecodeNoInit(fs[i].sub, payload, Base(fs[i], st.m[i])).Some?
    ensures StateOf(fs, st')
    ensures IsSet(fs, st.m, i, Msg(DecodeNoInit(fs[i].sub, payload, Base(fs[i], st.m[i])).value), st'.m)
    ensures var e := TagBytes(fs[i].tag, 2) + Delimited(payload); Reads(fs, e + rest, |e|, st, st')
  {
    DelimitedRoundTrip(payload, rest);
    hide GoodFields, Delimited, TakeDelimited, DecodeNoInit, Reads, TagBytes;
    FieldStep(fs, i, 2, Delimited(payload), rest, st);
    st' := State(DecodeField(fs, i, 2, Delimited(payload) + rest, st.m).value, MarkSeen(fs, i, st.seen), i);
  }

  // ---- Merging ----

  lemma {:induction false} FindAnywhere(fs: seq<Field>, p: nat, q: nat, tag: nat)
    requires GoodFields(fs) && (fs != [] ==> p < |fs| && q < |fs|)
    ensures Find(fs, p, tag) == Find(fs, q, tag)
  {
    hide GoodFields, Find;
    if i :| 0 <= i < |fs| && fs[i].tag == tag {
      FindFinds(fs, p, i);
      FindFinds(fs, q, i);
    } else {
      FindNothing(fs, p, tag);
      FindNothing(fs, q, tag);
    }
  }

  // Neither the position of the iterator nor the required fields seen before matter to what is decoded.
  lemma {:induction false} StepForgets(fs: seq<Field>, s: seq<Byte>, st: State, su: State)
    requires GoodFields(fs) && StateOf(fs, st) && StateOf(fs, su) && s != [] && st.m == su.m && su.seen <= st.seen
    ensures var r, q := DecodeStep(fs, s, st), DecodeStep(fs, s, su);
            if r.Next? then q.Next? && r.used == q.used && r.st.m == q.st.m && q.st.seen <= r.st.seen else q == r
  {
    hide DecodeVarint32, Find, DecodeField, SkipField, GoodFields, RequiredBefore;
    var key := DecodeVarint32(s);
    if key.Ok? { FindAnywhere(fs, st.pos, su.pos, key.value / 8); }
  }

  lemma {:induction false} LoopForgets(fs: seq<Field>, s: seq<Byte>, st: State, su: State)
    requires GoodFields(fs) && StateOf(fs, st) && StateOf(fs, su) && st.m == su.m && su.seen <= st.seen
    ensures var r, q := DecodeLoop(fs, s, st), DecodeLoop(fs, s, su);
            if r.Some? then q.Some? && r.value.m == q.value.m && q.value.seen <= r.value.seen else q.None?
    decreases |s|
  {
    hide GoodFields, DecodeLoop, DecodeStep;
    LoopUnfold(fs, s, st);
    LoopUnfold(fs, s, su);
    if s != [] {
      StepForgets(fs, s, st, su);
      var r, q := DecodeStep(fs, s, st), DecodeStep(fs, s, su);
      if r.Next? { LoopForgets(fs, s[r.used..], r.st, q.st); }
    }
  }

  lemma {:induction false} ReadsLocal(fs: seq<Field>, s: seq<Byte>, t: seq<Byte>, n: nat, st: State, st': State)
    requires StateOf(fs, st) && Reads(fs, s, n, st, st') && SameFront(s, t, n)
    ensures Reads(fs, t, n, st, st')
    decreases n
  {
    hide DecodeStep, Reads, SameFront;
    ReadsUnfold(fs, s, n, st, st');
    if n == 0 {
      ReadsUnfold(fs, t, 0, st, st);
    } else {
      var r := DecodeStep(fs, s, st);
      SameFrontDrop(s, t, n, r.used);
      StepLocal(fs, s, t, st);
      ReadsLocal(fs, s[r.used..], t[r.used..], n - r.used, r.st, st');
      ReadsUnfold(fs, t, n, st, st');
    }
  }

  // Decoding whole fields and then more on top of them is decoding both at once.
  lemma {:induction false} DecodeConcatenation(fs: seq<Field>, p: seq<Byte>, q: seq<Byte>, m: seq<Slot>, st: State)
    requires GoodFields(fs) && |m| == |fs| && Reads(fs, p, |p|, InitialState(fs, m), st) && StateOf(fs, st)
    requires DecodeNoInit(fs, q, st.m).Some?
    ensures DecodeNoInit(fs, p + q, m) == DecodeNoInit(fs, q, st.m)
  {
    hide GoodFields, Reads, DecodeLoop, RequiredBefore;
    var start := InitialState(fs, m);
    assert SameFront(p, p + q, |p|) by { assert (p + q)[..|p|] == p[..|p|]; }
    ReadsLocal(fs, p, p + q, |p|, start, st);
    ReadsLoop(fs, p + q, |p|, start, st);
    assert (p + q)[|p|..] == q;
    LoopForgets(fs, q, st, InitialState(fs, st.m));
  }

  // Two occurrences of a submessage are merged: they leave what one occurrence with both contents leaves.
  lemma {:induction false} SubmessagesMerge(fs: seq<Field>, i: nat, p: seq<Byte>, q: seq<Byte>, rest: seq<Byte>,
                                            st: State, sub: State) returns (both: State, one: State)
    requires GoodFields(fs) && i < |fs| && StateOf(fs, st) && fs[i].l.Submessage?
    requires !fs[i].h.Repeated? && !fs[i].h.Oneof? && |p + q| < U32
    requires var g := fs[i].sub;
             && Reads(g, p, |p|, InitialState(g, Base(fs[i], st.m[i])), sub) && StateOf(g, sub)
             && AllRequiredSeen(g, sub.seen) && DecodeNoInit(g, q, sub.m).Some?
    ensures StateOf(fs, both) && StateOf(fs, one) && both.m == one.m
    ensures var a, b := TagBytes(fs[i].tag, 2) + Delimited(p), TagBytes(fs[i].tag, 2) + Delimited(q);
            Reads(fs, a + b + rest, |a + b|, st, both)
    ensures var c := TagBytes(fs[i].tag, 2) + Delimited(p + q); Reads(fs, c + rest, |c|, st, one)
  {
    hide GoodFields, Reads, DecodeNoInit, AllRequiredSeen, TagBytes, Delimited, DecodeStep, IsSet, Base;
    var f, g := fs[i], fs[i].sub;
    SubIsGood(fs, i);
    var base := Base(f, st.m[i]);
    var a, b := TagBytes(f.tag, 2) + Delimited(p), TagBytes(f.tag, 2) + Delimited(q);
    WholeDecodes(g, p, base, sub);
    DecodeConcatenation(g, p, q, base, sub);
    one := SubmessageRead(fs, i, p + q, rest, st);
    var mid := SubmessageRead(fs, i, p, b + rest, st);
    SetOnce(fs, st.m, i, sub.m, mid.m);
    both := SubmessageRead(fs, i, q, rest, mid);
    SetTwice(fs, st.m, i, Msg(sub.m), mid.m, Msg(DecodeNoInit(g, q, sub.m).value), both.m, one.m);
    assert a + b + rest == a + (b + rest) && (a + (b + rest))[|a|..] == b + rest;
    ReadsMore(fs, a + (b + rest), |a|, st, mid, |b|, both);
  }

  lemma {:induction false} SubIsGood(fs: seq<Field>, i: nat)
    requires GoodFields(fs) && i < |fs| && fs[i].l.Submessage?
    ensures GoodFields(fs[i].sub)
  {
  }

  lemma {:induction false} SetOnce(fs: seq<Field>, m: seq<Slot>, i: nat, slots: seq<Slot>, m1: seq<Slot>)
    requires |m| == |fs| && i < |fs| && IsSet(fs, m, i, Msg(slots), m1) && |slots| == |fs[i].sub|
    ensures !fs[i].h.Oneof? ==> Base(fs[i], m1[i]) == slots
  {
  }

  lemma {:induction false} SetTwice(fs: seq<Field>, m: seq<Slot>, i: nat, u: Value, m1: seq<Slot>, v: Value,
                                    m2: seq<Slot>, m3: seq<Slot>)
    requires |m| == |m1| == |fs| && i < |fs| && IsSet(fs, m, i, u, m1)
    requires IsSet(fs, m1, i, v, m2) && IsSet(fs, m, i, v, m3)
    ensures m2 == m3
  {
  }

  lemma {:induction false} WholeDecodes(fs: seq<Field>, p: seq<Byte>, m: seq<Slot>, st: State)
    requires |m| == |fs| && Reads(fs, p, |p|, InitialState(fs, m), st) && StateOf(fs, st)
    requires AllRequiredSeen(fs, st.seen)
    ensures DecodeNoInit(fs, p, m) == Some(st.m)
  {
    hide Reads, DecodeStep, AllRequiredSeen;
    ReadsLoop(fs, p, |p|, InitialState(fs, m), st);
    assert p[|p|..] == [];
  }
}
