/** Fields with unknown tags are skipped without a trace, wherever they stand. */
module PbUnknown {
  import opened Bits
  import opened Bytes
  import opened PbVarint
  import opened PbSpec
  import opened PbRoundTrip
  import opened PbWire

  // ---- What one step of the decoder does depends only on the bytes it consumes ----

  lemma {:induction false} DelimitedLocal(s: seq<Byte>, t: seq<Byte>)
    requires TakeDelimited(s).Ok? && SameFront(s, t, TakeDelimited(s).used)
    ensures TakeDelimited(t) == TakeDelimited(s)
  {
    var n, k := TakeDelimited(s).used, DecodeVarint32(s).used;
    assert s[..n][..k] == s[..k] && t[..n][..k] == t[..k];
    Varint32Local(s, t);
    hide DecodeVarint32;
    assert s[..n][k..] == s[k..n] && t[..n][k..] == t[k..n];
  }

  lemma {:induction false} SkipVarintLocal(s: seq<Byte>, t: seq<Byte>)
    requires SkipVarint(s).Ok? && SameFront(s, t, SkipVarint(s).used)
    ensures SkipVarint(t) == SkipVarint(s)
    decreases |s|
  {
    SameFrontTail(s, t, SkipVarint(s).used, 1);
    if s[0] >= 0x80 { SkipVarintLocal(s[1..], t[1..]); }
  }

  lemma {:induction false} SkipLocal(s: seq<Byte>, t: seq<Byte>, wireType: nat)
    requires SkipField(s, wireType).Ok? && SameFront(s, t, SkipField(s, wireType).used)
    ensures SkipField(t, wireType) == SkipField(s, wireType)
  {
    if wireType == WT_VARINT { SkipVarintLocal(s, t); }
    if wireType == WT_STRING { DelimitedLocal(s, t); }
  }

  lemma {:induction false} ScalarLocal(f: Field, s: seq<Byte>, t: seq<Byte>)
    requires DecodeScalar(f, s).Ok? && SameFront(s, t, DecodeScalar(f, s).used)
    ensures DecodeScalar(f, t) == DecodeScalar(f, s)
  {
    hide IntOf, BlobOf, TakeDelimited, FromLittleEndian, ReadGroup;
    if f.l.Varint? || f.l.UVarint? || f.l.SVarint? {
      VarintLocal(s, t, 0, 0);
    } else if !f.l.Fixed32? && !f.l.Fixed64? {
      DelimitedLocal(s, t);
    }
  }

  lemma {:induction false} ValueLocal(f: Field, s: seq<Byte>, t: seq<Byte>, current: Value)
    requires DecodeValue(f, s, current).Ok? && SameFront(s, t, DecodeValue(f, s, current).used)
    ensures DecodeValue(f, t, current) == DecodeValue(f, s, current)
  {
    hide DecodeScalar, TakeDelimited, DecodeNoInit;
    if f.l.Submessage? { DelimitedLocal(s, t); } else { ScalarLocal(f, s, t); }
  }

  lemma {:induction false} FieldLocal(fs: seq<Field>, i: nat, wireType: nat, s: seq<Byte>, t: seq<Byte>, m: seq<Slot>)
    requires |m| == |fs| && i < |fs|
    requires DecodeField(fs, i, wireType, s, m).Ok? && SameFront(s, t, DecodeField(fs, i, wireType, s, m).used)
    ensures DecodeField(fs, i, wireType, t, m) == DecodeField(fs, i, wireType, s, m)
  {
    var f := fs[i];
    hide DecodeValue, TakeDelimited, DecodePacked, SetOneof;
    if f.h.Repeated? && wireType == WT_STRING && Packable(f.l) {
      DelimitedLocal(s, t);
    } else {
      ValueLocal(f, s, t, if f.h.Repeated? then Zero(f) else Current(f, m[i]));
    }
  }

  lemma {:induction false} SameFrontDrop(s: seq<Byte>, t: seq<Byte>, n: nat, k: nat)
    requires SameFront(s, t, n) && k <= n
    ensures SameFront(s, t, k) && SameFront(s[k..], t[k..], n - k)
  {
    assert s[..n][..k] == s[..k] && t[..n][..k] == t[..k];
    SameFrontTail(s, t, n, k);
  }

  lemma {:induction false} StepLocal(fs: seq<Field>, s: seq<Byte>, t: seq<Byte>, st: State)
    requires StateOf(fs, st) && s != [] && DecodeStep(fs, s, st).Next? && SameFront(s, t, DecodeStep(fs, s, st).used)
    ensures t != [] && DecodeStep(fs, t, st) == DecodeStep(fs, s, st)
  {
    hide DecodeVarint32, DecodeField, SkipField, Find;
    var n, k := DecodeStep(fs, s, st).used, DecodeVarint32(s).used;
    SameFrontDrop(s, t, n, k);
    Varint32Local(s, t);
    var key := DecodeVarint32(s).value;
    var i := Find(fs, st.pos, key / 8);
    if i.Some? {
      FieldLocal(fs, i.value, key % 8, s[k..], t[k..], st.m);
    } else {
      SkipLocal(s[k..], t[k..], key % 8);
    }
  }

  // ---- Unknown fields ----

  // The first n bytes of s are whole fields, as the decoder reads them from state st.
  ghost predicate AtBoundary(fs: seq<Field>, s: seq<Byte>, n: nat, st: State)
    requires StateOf(fs, st)
    decreases n
  {
    n == 0 ||
    (s != [] && n <= |s| &&
     var r := DecodeStep(fs, s, st);
     r.Next? && r.used <= n && AtBoundary(fs, s[r.used..], n - r.used, r.st))
  }

  lemma {:induction false} BoundaryStep(fs: seq<Field>, s: seq<Byte>, n: nat, st: State)
    requires StateOf(fs, st) && AtBoundary(fs, s, n, st) && n > 0
    ensures s != [] && n <= |s| && DecodeStep(fs, s, st).Next?
    ensures var r := DecodeStep(fs, s, st); r.used <= n && AtBoundary(fs, s[r.used..], n - r.used, r.st)
  {
    hide DecodeStep;
  }

  // A well-formed field whose tag is not in the descriptor.
  ghost predicate UnknownField(fs: seq<Field>, u: seq<Byte>, tag: nat, wireType: nat, payload: seq<Byte>) {
    && 0 < tag < MAX_TAG && wireType < 8
    && (forall i | 0 <= i < |fs| :: fs[i].tag != tag)
    && WellFormed(wireType, payload)
    && u == TagBytes(tag, wireType) + payload
  }

  lemma {:induction false} FindFromNothing(fs: seq<Field>, pos: nat, tag: nat, steps: nat)
    requires pos < |fs| && steps <= |fs| && forall i | 0 <= i < |fs| :: fs[i].tag != tag
    ensures FindFrom(fs, pos, tag, steps) == None
    decreases steps
  {
    if steps > 0 { FindFromNothing(fs, NextPos(fs, pos), tag, steps - 1); }
  }

  lemma {:induction false} FindNothing(fs: seq<Field>, pos: nat, tag: nat)
    requires (fs != [] ==> pos < |fs|) && forall i | 0 <= i < |fs| :: fs[i].tag != tag
    ensures Find(fs, pos, tag) == None
  {
    if fs != [] { FindFromNothing(fs, pos, tag, |fs|); }
  }

  lemma {:induction false} SkippedStep(fs: seq<Field>, s: seq<Byte>, k: nat, tag: nat, wireType: nat, n: nat, st: State)
    requires StateOf(fs, st) && 1 <= k <= |s| && tag > 0 && wireType < 8
    requires DecodeVarint32(s) == Ok(tag * 8 + wireType, k) && Find(fs, st.pos, tag) == None
    requires SkipField(s[k..], wireType) == Ok((), n)
    ensures DecodeStep(fs, s, st) == Next(st, k + n)
  {
    hide DecodeVarint32, Find, SkipField;
    var key := tag * 8 + wireType;
    DivMod(key, 8, tag, wireType);
  }

  lemma {:induction false} SkipMore(payload: seq<Byte>, rest: seq<Byte>, wireType: nat)
    requires WellFormed(wireType, payload)
    ensures SkipField(payload + rest, wireType) == Ok((), |payload|)
  {
    hide SkipField, WellFormed;
    assert (payload + rest)[..|payload|] == payload;
    SkipsExactly(payload + rest, wireType, |payload|);
  }

  lemma {:induction false} UnknownStep(fs: seq<Field>, u: seq<Byte>, tag: nat, wireType: nat, payload: seq<Byte>,
                                       rest: seq<Byte>, st: State)
    requires StateOf(fs, st) && UnknownField(fs, u, tag, wireType, payload)
    ensures DecodeLoop(fs, u + rest, st) == DecodeLoop(fs, rest, st)
  {
    hide DecodeVarint32, SkipField, WellFormed, FindFrom, Find, TagBytes, DecodeStep, DecodeLoop;
    var key := TagBytes(tag, wireType);
    KeyRoundTrip(tag, wireType, payload + rest);
    FindNothing(fs, st.pos, tag);
    SkipMore(payload, rest, wireType);
    var s := u + rest;
    Regrouped(key, payload, rest);
    SkippedStep(fs, s, |key|, tag, wireType, |payload|, st);
    LoopUnfold(fs, s, st);
  }

  lemma {:induction false} InsertTail(s: seq<Byte>, u: seq<Byte>, n: nat, k: nat)
    requires k <= n <= |s|
    ensures (s[..n] + u + s[n..])[k..] == s[k..][..n - k] + u + s[k..][n - k..]
    ensures SameFront(s, s[..n] + u + s[n..], k)
  {
  }

  // Transparency: a well-formed unknown field inserted at any field boundary, whatever the input and wherever
  // the iterator was left, changes neither the decoded message nor success.
  lemma {:induction false} UnknownFieldIgnored(fs: seq<Field>, s: seq<Byte>, n: nat, st: State,
                                               u: seq<Byte>, tag: nat, wireType: nat, payload: seq<Byte>)
    requires StateOf(fs, st) && n <= |s| && AtBoundary(fs, s, n, st) && UnknownField(fs, u, tag, wireType, payload)
    ensures DecodeLoop(fs, s[..n] + u + s[n..], st) == DecodeLoop(fs, s, st)
    decreases n
  {
    hide DecodeStep, DecodeLoop, AtBoundary, UnknownField, SameFront;
    var t := s[..n] + u + s[n..];
    if n == 0 {
      assert t == u + s;
      UnknownStep(fs, u, tag, wireType, payload, s, st);
    } else {
      BoundaryStep(fs, s, n, st);
      var r := DecodeStep(fs, s, st);
      var k := r.used;
      InsertTail(s, u, n, k);
      StepLocal(fs, s, t, st);
      LoopUnfold(fs, s, st);
      LoopUnfold(fs, t, st);
      UnknownFieldIgnored(fs, s[k..], n - k, r.st, u, tag, wireType, payload);
    }
  }

  lemma {:induction false} UnknownFieldTransparent(fs: seq<Field>, s: seq<Byte>, n: nat, m: seq<Slot>,
                                                   u: seq<Byte>, tag: nat, wireType: nat, payload: seq<Byte>)
    requires |m| == |fs| && n <= |s| && AtBoundary(fs, s, n, InitialState(fs, m))
    requires UnknownField(fs, u, tag, wireType, payload)
    ensures DecodeNoInit(fs, s[..n] + u + s[n..], m) == DecodeNoInit(fs, s, m)
  {
    UnknownFieldIgnored(fs, s, n, InitialState(fs, m), u, tag, wireType, payload);
  }

  lemma {:induction false} ReadsToBoundary(fs: seq<Field>, s: seq<Byte>, n: nat, st: State, st': State)
    requires StateOf(fs, st) && Reads(fs, s, n, st, st')
    ensures AtBoundary(fs, s, n, st)
    decreases n
  {
    hide DecodeStep, Reads;
    ReadsUnfold(fs, s, n, st, st');
    if n > 0 {
      var r := DecodeStep(fs, s, st);
      ReadsToBoundary(fs, s[r.used..], n - r.used, r.st, st');
    }
  }

  // In the encoding of a message an unknown field may stand between any two slots, in front or at the end: decoding
  // gives the same message.
  lemma {:induction false} UnknownInEncoding(fs: seq<Field>, m: seq<Slot>, j: nat, u: seq<Byte>, tag: nat,
                                             wireType: nat, payload: seq<Byte>)
    requires GoodFields(fs) && ValidMessage(fs, m) && j <= |fs| && UnknownField(fs, u, tag, wireType, payload)
    requires EncodeMessage(fs, m).Some? && |EncodeMessage(fs, m).value| < U32
    ensures |m| == |fs| && EncodeMessage(fs[0..j], m[0..j]).Some? && EncodeMessage(fs[j..|fs|], m[j..|fs|]).Some?
    ensures var front, back := EncodeMessage(fs[0..j], m[0..j]).value, EncodeMessage(fs[j..|fs|], m[j..|fs|]).value;
            EncodeMessage(fs, m) == Some(front + back) && Decode(fs, front + u + back) == Some(m)
  {
    MessageRoundTrip(fs, m);
    SameLength(fs, m);
    StartsPartial(fs, m);
    hide EncodeMessage, GoodFields, ValidMessage, Reads, AtBoundary, DecodeNoInit, UnknownField, SeenBefore, Partial;
    var start := InitialState(fs, Defaults(fs));
    assert fs[0..|fs|] == fs && m[0..|m|] == m;
    var st := SlotsAreFields(fs, m, 0, j, start);
    var front, back := EncodeMessage(fs[0..j], m[0..j]).value, EncodeMessage(fs[j..|fs|], m[j..|fs|]).value;
    var b, n := front + back, |front|;
    ReadsToBoundary(fs, b, n, start, st);
    UnknownFieldTransparent(fs, b, n, Defaults(fs), u, tag, wireType, payload);
    assert b[..n] == front && b[n..] == back;
  }

  lemma {:induction false} StartsPartial(fs: seq<Field>, m: seq<Slot>)
    requires |m| == |fs|
    ensures var start := InitialState(fs, Defaults(fs));
            StateOf(fs, start) && start.m == Partial(fs, m, 0) && SeenBefore(fs, start.seen, 0)
  {
    assert Partial(fs, m, 0) == Defaults(fs);
  }

  // A zero byte where a key should stand ends the message: what follows is not read.
  lemma {:induction false} ZeroEnds(fs: seq<Field>, rest: seq<Byte>, st: State)
    requires StateOf(fs, st)
    ensures DecodeLoop(fs, [0] + rest, st) == Some(st)
  {
    hide Find, DecodeField, SkipField;
    LoopUnfold(fs, [0] + rest, st);
  }

  // Tag 0 is unknown to every descriptor that has fields, but the empty descriptor stops on it: there the
  // iterator stands on the terminator, whose own tag is 0, and the field decoder refuses its size.
  lemma {:induction false} TagZero(fs: seq<Field>, wireType: nat, rest: seq<Byte>, st: State)
    requires StateOf(fs, st) && 0 < wireType < 8 && forall i | 0 <= i < |fs| :: fs[i].tag != 0
    ensures var s := [wireType] + rest;
            var r := DecodeStep(fs, s, st);
            if fs == [] then r == Fail
            else
              && (r.Next? ==> r.st == st && 1 <= r.used <= |s| && WellFormed(wireType, rest[..r.used - 1]))
              && (r == Fail ==> forall n: nat | n <= |rest| :: !WellFormed(wireType, rest[..n]))
              && r != Stop
  {
    var s := [wireType] + rest;
    assert s[1..] == rest && DecodeVarint32(s) == Ok(wireType, 1);
    assert wireType / 8 == 0 && wireType % 8 == wireType;
    hide DecodeVarint32, SkipField, DecodeField, WellFormed;
    if fs != [] { FindFromNothing(fs, st.pos, 0, |fs|); }
    forall n: nat ensures SkipField(rest, wireType) == Ok((), n) <==> n <= |rest| && WellFormed(wireType, rest[..n]) {
      SkipsExactly(rest, wireType, n);
    }
  }
}
