/** Which required fields pb_decode_noinit misses, in terms of the tags on the wire. */
module PbMissing {
  import opened Bytes
  import opened PbVarint
  import opened PbSpec
  import opened PbRequired
  import opened PbRoundTrip

  // The tags of the fields that the loop reads, known or not, in order.
  ghost function WireTags(fs: seq<Field>, s: seq<Byte>, st: State): seq<nat>
    requires StateOf(fs, st)
    decreases |s|
  {
    if s == [] then []
    else
      match DecodeStep(fs, s, st)
      case Next(st', used) => [DecodeVarint32(s).value / 8] + WireTags(fs, s[used..], st')
      case _ => []
  }

  lemma {:induction false} RequiredApart(fs: seq<Field>, i: nat, j: nat)
    requires i < |fs| && j < |fs| && i != j && fs[i].h.Required? && fs[j].h.Required?
    ensures RequiredBefore(fs, i) != RequiredBefore(fs, j)
  {
    if i < j { RequiredMono(fs, i + 1, j); } else { RequiredMono(fs, j + 1, i); }
  }

  lemma {:induction false} RequiredAt(fs: seq<Field>, r: nat, n: nat) returns (i: nat)
    requires n <= |fs| && r < RequiredBefore(fs, n)
    ensures i < n && fs[i].h.Required? && RequiredBefore(fs, i) == r
    decreases n
  {
    if r < RequiredBefore(fs, n - 1) { i := RequiredAt(fs, r, n - 1); } else { i := n - 1; }
  }

  lemma {:induction false} StepMarks(fs: seq<Field>, s: seq<Byte>, st: State, i: nat)
    requires GoodFields(fs) && StateOf(fs, st) && s != [] && DecodeStep(fs, s, st).Next?
    requires i < |fs| && fs[i].h.Required? && RequiredBefore(fs, i) < MAX_REQUIRED_FIELDS
    ensures DecodeVarint32(s).Ok?
    ensures RequiredBefore(fs, i) in DecodeStep(fs, s, st).st.seen
            <==> RequiredBefore(fs, i) in st.seen || DecodeVarint32(s).value / 8 == fs[i].tag
  {
    FindFinds(fs, st.pos, i);
    hide DecodeVarint32, DecodeField, SkipField, GoodFields;
    var found := Find(fs, st.pos, DecodeVarint32(s).value / 8);
    if found.Some? && found.value != i && fs[found.value].h.Required? {
      RequiredApart(fs, i, found.value);
    }
  }

  lemma {:induction false} SeenMeansSent(fs: seq<Field>, s: seq<Byte>, st: State, i: nat)
    requires GoodFields(fs) && StateOf(fs, st) && DecodeLoop(fs, s, st).Some?
    requires i < |fs| && fs[i].h.Required? && RequiredBefore(fs, i) < MAX_REQUIRED_FIELDS
    ensures RequiredBefore(fs, i) in DecodeLoop(fs, s, st).value.seen
            <==> RequiredBefore(fs, i) in st.seen || fs[i].tag in WireTags(fs, s, st)
    decreases |s|
  {
    hide DecodeStep, DecodeVarint32, GoodFields, RequiredBefore;
    if s != [] && DecodeStep(fs, s, st).Next? {
      var step := DecodeStep(fs, s, st);
      StepMarks(fs, s, st, i);
      SeenMeansSent(fs, s[step.used..], step.st, i);
    }
  }

  // The final check passes exactly when every one of the first 64 required fields was on the wire, whatever the
  // order of the fields and wherever the iterator stood.
  lemma {:induction false} MissingExactly(fs: seq<Field>, s: seq<Byte>, m: seq<Slot>)
    requires GoodFields(fs) && |m| == |fs|
    ensures DecodeNoInit(fs, s, m).Some? <==>
      && DecodeLoop(fs, s, InitialState(fs, m)).Some?
      && forall i | 0 <= i < |fs| && fs[i].h.Required? && RequiredBefore(fs, i) < 64 ::
           fs[i].tag in WireTags(fs, s, InitialState(fs, m))
  {
    hide DecodeLoop, WireTags, GoodFields, RequiredBefore;
    var st := InitialState(fs, m);
    if DecodeLoop(fs, s, st).Some? {
      var seen := DecodeLoop(fs, s, st).value.seen;
      forall i | 0 <= i < |fs| && fs[i].h.Required? && RequiredBefore(fs, i) < MAX_REQUIRED_FIELDS
        ensures RequiredBefore(fs, i) in seen <==> fs[i].tag in WireTags(fs, s, st)
        ensures RequiredBefore(fs, i) < RequiredBefore(fs, |fs|)
      {
        SeenMeansSent(fs, s, st, i);
        NotLast(fs, i);
      }
      if r: nat :| r < RequiredBefore(fs, |fs|) && r < MAX_REQUIRED_FIELDS && r !in seen {
        var i := RequiredAt(fs, r, |fs|);
        assert fs[i].tag !in WireTags(fs, s, st);
      }
    }
  }

  lemma {:induction false} NotLast(fs: seq<Field>, i: nat)
    requires i < |fs| && fs[i].h.Required?
    ensures RequiredBefore(fs, i) < RequiredBefore(fs, |fs|)
  {
    RequiredMono(fs, i + 1, |fs|);
  }
}
