/** A reader whose descriptor lacks some of the fields still reads all the others. */
module PbReader {
  import opened Bits
  import opened Bytes
  import opened PbVarint
  import opened PbSpec
  import opened PbRoundTrip
  import opened PbWire
  import opened PbUnknown

  // The elements that are kept, in order.
  ghost function Select<T>(xs: seq<T>, keep: seq<bool>): seq<T>
    requires |xs| == |keep|
  {
    if xs == [] then []
    else
      var n := |xs| - 1;
      Select(xs[..n], keep[..n]) + if keep[n] then [xs[n]] else []
  }

  ghost function Count(keep: seq<bool>): nat {
    if keep == [] then 0 else Count(keep[..|keep| - 1]) + if keep[|keep| - 1] then 1 else 0
  }

  lemma {:induction false} CountUpTo(keep: seq<bool>, i: nat, j: nat)
    requires i < j <= |keep|
    ensures Count(keep[..i + 1]) == Count(keep[..i]) + if keep[i] then 1 else 0
    ensures Count(keep[..i + 1]) <= Count(keep[..j])
    decreases j
  {
    assert keep[..i + 1][..i] == keep[..i];
    if i + 1 < j {
      CountUpTo(keep, i, j - 1);
      assert keep[..j][..j - 1] == keep[..j - 1];
    }
  }

  lemma {:induction false} SelectLength<T>(xs: seq<T>, keep: seq<bool>)
    requires |xs| == |keep|
    ensures |Select(xs, keep)| == Count(keep)
    decreases |xs|
  {
    if xs != [] { SelectLength(xs[..|xs| - 1], keep[..|keep| - 1]); }
  }

  // A kept element stands where as many kept ones precede it.
  lemma {:induction false} SelectAt<T>(xs: seq<T>, keep: seq<bool>, i: nat)
    requires |xs| == |keep| && i < |xs| && keep[i]
    ensures Count(keep[..i]) < |Select(xs, keep)| && Select(xs, keep)[Count(keep[..i])] == xs[i]
    decreases |xs|
  {
    var n := |xs| - 1;
    SelectLength(xs[..n], keep[..n]);
    if i < n {
      SelectAt(xs[..n], keep[..n], i);
      assert keep[..n][..i] == keep[..i];
    }
  }

  // Where the element at position p comes from.
  lemma {:induction false} Origin(keep: seq<bool>, p: nat) returns (i: nat)
    requires p < Count(keep)
    ensures i < |keep| && keep[i] && Count(keep[..i]) == p
    decreases |keep|
  {
    var n := |keep| - 1;
    if p < Count(keep[..n]) {
      i := Origin(keep[..n], p);
      assert keep[..n][..i] == keep[..i];
    } else {
      i := n;
    }
  }

  lemma {:induction false} OriginOf(fs: seq<Field>, m: seq<Slot>, keep: seq<bool>, p: nat) returns (i: nat)
    requires |fs| == |m| == |keep| && p < |Select(fs, keep)|
    ensures i < |fs| && keep[i] && Count(keep[..i]) == p
    ensures p < |Select(m, keep)| && Select(fs, keep)[p] == fs[i] && Select(m, keep)[p] == m[i]
  {
    SelectLength(fs, keep);
    i := Origin(keep, p);
    SelectAt(fs, keep, i);
    SelectAt(m, keep, i);
  }

  lemma {:induction false} OriginsInOrder(keep: seq<bool>, i: nat, j: nat)
    requires i < |keep| && j < |keep| && keep[i] && keep[j] && Count(keep[..i]) < Count(keep[..j])
    ensures i < j
  {
    if j < i { CountUpTo(keep, j, i); }
  }

  lemma {:induction false} SelectedGood(fs: seq<Field>, m: seq<Slot>, keep: seq<bool>)
    requires GoodFields(fs) && ValidMessage(fs, m) && |keep| == |fs|
    ensures |m| == |fs| && GoodFields(Select(fs, keep)) && ValidMessage(Select(fs, keep), Select(m, keep))
  {
    SelectLength(fs, keep);
    SelectLength(m, keep);
    hide Select, ValidSlot;
    var gs, ms := Select(fs, keep), Select(m, keep);
    forall p | 0 <= p < |gs|
      ensures 0 < gs[p].tag < MAX_TAG && (gs[p].l.Submessage? ==> GoodFields(gs[p].sub)) && ValidSlot(gs[p], ms[p])
    {
      var i := OriginOf(fs, m, keep, p);
    }
    forall p, q | 0 <= p < q < |gs|
      ensures gs[p].tag != gs[q].tag
      ensures gs[p].h.Oneof? && gs[p].h == gs[q].h ==> ms[p].Absent? || ms[q].Absent?
    {
      var i := OriginOf(fs, m, keep, p);
      var j := OriginOf(fs, m, keep, q);
      OriginsInOrder(keep, i, j);
    }
  }

  // The tag of a field that was left out is unknown.
  lemma {:induction false} LeftOutUnknown(fs: seq<Field>, m: seq<Slot>, keep: seq<bool>, i: nat)
    requires GoodFields(fs) && |fs| == |m| == |keep| && i < |fs| && !keep[i]
    ensures forall p | 0 <= p < |Select(fs, keep)| :: Select(fs, keep)[p].tag != fs[i].tag
  {
    hide Select;
    forall p | 0 <= p < |Select(fs, keep)| ensures Select(fs, keep)[p].tag != fs[i].tag {
      var j := OriginOf(fs, m, keep, p);
      if j < i { assert fs[j].tag != fs[i].tag; } else { assert fs[i].tag != fs[j].tag; }
    }
  }

  // ---- What an unknown field was encoded to is skipped ----

  // A key and a well-formed payload of its type.
  lemma {:induction false} TokenSkipped(gs: seq<Field>, tag: nat, wireType: nat, payload: seq<Byte>, rest: seq<Byte>,
                                        st: State)
    requires StateOf(gs, st) && 0 < tag < MAX_TAG && wireType < 8 && WellFormed(wireType, payload)
    requires forall p | 0 <= p < |gs| :: gs[p].tag != tag
    ensures var b := TagBytes(tag, wireType) + payload; Reads(gs, b + rest, |b|, st, st)
  {
    hide DecodeVarint32, SkipField, WellFormed, FindFrom, Find, TagBytes, DecodeStep, Reads;
    var key := TagBytes(tag, wireType);
    KeyRoundTrip(tag, wireType, payload + rest);
    FindNothing(gs, st.pos, tag);
    SkipMore(payload, rest, wireType);
    var s := key + payload + rest;
    Regrouped(key, payload, rest);
    SkippedStep(gs, s, |key|, tag, wireType, |payload|, st);
    ReadsUnfold(gs, rest, 0, st, st);
    ReadsUnfold(gs, s, |key + payload|, st, st);
  }

  // The elements of an array that is not packed.
  lemma {:induction false} ItemsSkipped(gs: seq<Field>, f: Field, vs: seq<Value>, rest: seq<Byte>, st: State)
    requires StateOf(gs, st) && 0 < f.tag < MAX_TAG && forall p | 0 <= p < |gs| :: gs[p].tag != f.tag
    requires EncodeItems(f, vs, false).Some? && |EncodeItems(f, vs, false).value| < U32
    ensures var b := EncodeItems(f, vs, false).value; Reads(gs, b + rest, |b|, st, st)
    decreases |vs|
  {
    hide EncodeValue, TagBytes, Reads, WellFormed;
    if vs == [] {
      ReadsUnfold(gs, rest, 0, st, st);
      assert [] + rest == rest;
    } else {
      var key, first, others := TagBytes(f.tag, WireType(f.l)), EncodeValue(f, vs[0]).value,
                                EncodeItems(f, vs[1..], false).value;
      assert EncodeItems(f, vs, false).value == key + first + others;
      ItemsSkipped(gs, f, vs[1..], rest, st);
      PayloadMatchesKey(f, vs[0]);
      TokenSkipped(gs, f.tag, WireType(f.l), first, others + rest, st);
      assert key + first + others + rest == key + first + (others + rest);
      assert (key + first + (others + rest))[|key + first|..] == others + rest;
      ReadsMore(gs, key + first + (others + rest), |key + first|, st, st, |others|, st);
    }
  }

  lemma {:induction false} SlotSkipped(gs: seq<Field>, f: Field, s: Slot, rest: seq<Byte>, st: State)
    requires StateOf(gs, st) && 0 < f.tag < MAX_TAG && forall p | 0 <= p < |gs| :: gs[p].tag != f.tag
    requires ValidSlot(f, s) && EncodeSlot(f, s).Some? && |EncodeSlot(f, s).value| < U32
    ensures var b := EncodeSlot(f, s).value; Reads(gs, b + rest, |b|, st, st)
  {
    hide EncodeItems, EncodeValue, EncodeSlot, TagBytes, Reads, WellFormed, ValidSlot, ValidValue, IsZero, Delimited;
    assert [] + rest == rest;
    if s.Absent? || s == Many([]) || (f.h.Singular? && IsZero(f, s)) {
      SlotNotSent(f, s);
      ReadsUnfold(gs, rest, 0, st, st);
    } else if s.One? {
      SlotSent(f, s.v);
      PayloadMatchesKey(f, s.v);
      TokenSkipped(gs, f.tag, WireType(f.l), EncodeValue(f, s.v).value, rest, st);
    } else {
      SlotItems(f, s.vs);
      if Packable(f.l) {
        PackedSkipped(gs, f, s.vs, rest, st);
      } else {
        ItemsSkipped(gs, f, s.vs, rest, st);
      }
    }
  }

  lemma {:induction false} PackedSkipped(gs: seq<Field>, f: Field, vs: seq<Value>, rest: seq<Byte>, st: State)
    requires StateOf(gs, st) && 0 < f.tag < MAX_TAG && forall p | 0 <= p < |gs| :: gs[p].tag != f.tag
    requires ValidSlot(f, Many(vs)) && vs != [] && Packable(f.l)
    requires EncodeSlot(f, Many(vs)).Some? && |EncodeSlot(f, Many(vs)).value| < U32
    ensures var b := EncodeSlot(f, Many(vs)).value; Reads(gs, b + rest, |b|, st, st)
  {
    SlotItems(f, vs);
    hide EncodeItems, TagBytes, Reads, Delimited, LengthPrefixed;
    var body := EncodeItems(f, vs, true).value;
    DelimitedLength(body);
    DelimitedIsPrefixed(body);
    TokenSkipped(gs, f.tag, 2, Delimited(body), rest, st);
  }

  // ---- The theorem ----

  lemma {:induction false} ReaderLoop(fs: seq<Field>, m: seq<Slot>, keep: seq<bool>, i: nat, st: State)
    returns (st': State)
    requires GoodFields(fs) && ValidMessage(fs, m) && |fs| == |m| == |keep| && i <= |fs|
    requires StateOf(Select(fs, keep), st) && |Select(fs, keep)| == |Select(m, keep)| == Count(keep)
    requires Count(keep[..i]) <= Count(keep)
    requires st.m == Partial(Select(fs, keep), Select(m, keep), Count(keep[..i]))
    requires SeenBefore(Select(fs, keep), st.seen, Count(keep[..i]))
    requires EncodeMessage(fs[i..|fs|], m[i..|fs|]).Some?
    requires |EncodeMessage(fs[i..|fs|], m[i..|fs|]).value| < U32
    ensures var gs, b := Select(fs, keep), EncodeMessage(fs[i..|fs|], m[i..|fs|]).value;
            && StateOf(gs, st') && st'.m == Select(m, keep) && SeenBefore(gs, st'.seen, |gs|)
            && Reads(gs, b, |b|, st, st')
    decreases |fs| - i
  {
    hide EncodeMessage, EncodeSlot, GoodFields, ValidMessage, Reads, SeenBefore, Partial, Select, Count;
    var gs, ms, p := Select(fs, keep), Select(m, keep), Count(keep[..i]);
    if i == |fs| {
      assert keep[..i] == keep && fs[i..i] == [] && m[i..i] == [];
      NoSlots();
      AllSlots(gs, ms);
      ReadsUnfold(gs, [], 0, st, st);
      st' := st;
    } else {
      MessageUnfold(fs, m, i, |fs|);
      var e, rest := EncodeSlot(fs[i], m[i]).value, EncodeMessage(fs[i + 1..|fs|], m[i + 1..|fs|]).value;
      CountUpTo(keep, i, |fs|);
      assert keep[..|fs|] == keep;
      SelectedGood(fs, m, keep);
      var st1 := st;
      if keep[i] {
        SelectAt(fs, keep, i);
        SelectAt(m, keep, i);
        st1 := SlotRoundTrip(gs, ms, p, rest, st);
      } else {
        LeftOutUnknown(fs, m, keep, i);
        GoodTag(fs, i);
        SlotIsValid(fs, m, i);
        SlotSkipped(gs, fs[i], m[i], rest, st);
      }
      st' := ReaderLoop(fs, m, keep, i + 1, st1);
      assert (e + rest)[|e|..] == rest;
      ReadsMore(gs, e + rest, |e|, st, st1, |rest|, st');
    }
  }

  lemma {:induction false} SlotIsValid(fs: seq<Field>, m: seq<Slot>, i: nat)
    requires ValidMessage(fs, m) && i < |fs|
    ensures ValidSlot(fs[i], m[i])
  {
  }

  // Whatever fields the reader does not know, it reads exactly the others: the encoding of a valid message, decoded
  // with a descriptor from which any fields were left out, gives the message without them.
  lemma {:induction false} ReaderLacksFields(fs: seq<Field>, m: seq<Slot>, keep: seq<bool>)
    requires GoodFields(fs) && ValidMessage(fs, m) && |keep| == |fs|
    ensures |m| == |fs| && EncodeMessage(fs, m).Some?
    ensures |EncodeMessage(fs, m).value| < U32 ==>
      Decode(Select(fs, keep), EncodeMessage(fs, m).value) == Some(Select(m, keep))
  {
    hide EncodeMessage, GoodFields, ValidMessage, Reads, Select, Count, Partial, SeenBefore, Decode;
    MessageRoundTrip(fs, m);
    SelectedGood(fs, m, keep);
    SelectLength(fs, keep);
    SelectLength(m, keep);
    var gs, ms, b := Select(fs, keep), Select(m, keep), EncodeMessage(fs, m).value;
    if |b| < U32 {
      assert fs[0..|fs|] == fs && m[0..|fs|] == m && keep[..0] == [];
      NoneKept();
      StartsPartial(gs, ms);
      var start := InitialState(gs, Defaults(gs));
      var st := ReaderLoop(fs, m, keep, 0, start);
      ReadsAll(gs, b, st);
    }
  }

  lemma {:induction false} ReadsAll(gs: seq<Field>, b: seq<Byte>, st: State)
    requires Reads(gs, b, |b|, InitialState(gs, Defaults(gs)), st) && StateOf(gs, st) && SeenBefore(gs, st.seen, |gs|)
    ensures Decode(gs, b) == Some(st.m)
  {
    hide Reads, DecodeStep;
    ReadsLoop(gs, b, |b|, InitialState(gs, Defaults(gs)), st);
    assert b[|b|..] == [];
  }

  lemma {:induction false} NoneKept()
    ensures Count([]) == 0
  {
  }
}
