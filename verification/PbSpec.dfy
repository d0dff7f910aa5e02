/** nanopb messages, and what pb_encode and pb_decode compute on them. */
module PbSpec {
  import opened Bits
  import opened Bytes
  import opened PbVarint

  datatype LType =
    | Varint | UVarint | SVarint | Fixed32 | Fixed64 | BytesField | StringField | Submessage | FixedLengthBytes

  // Singular is an optional field without a has_ flag. The members of a oneof share a group.
  datatype HType = Required | Optional | Singular | Repeated | Oneof(group: nat)

  // pb_field_t for statically allocated fields; sub are the fields of a submessage. The two offsets place the
  // field in its struct, relative to the previous field and to the data.
  datatype Field = Field(tag: nat, h: HType, l: LType, dataOffset: nat, sizeOffset: int, dataSize: nat,
                         arraySize: nat, sub: seq<Field>)

  // The contents of one C value; a string is the text before its terminator.
  datatype Value = Num(n: int) | Blob(b: seq<Byte>) | Msg(slots: seq<Slot>)

  // What the message struct holds for one field. An absent field has no value of its own.
  datatype Slot = Absent | One(v: Value) | Many(vs: seq<Value>)

  // Wire types.
  const WT_VARINT := 0
  const WT_64BIT := 1
  const WT_STRING := 2
  const WT_32BIT := 5

  const MAX_REQUIRED_FIELDS := 64
  // offsetof(pb_bytes_array_t, bytes) with 32-bit sizes.
  const BYTES_OFFSET := 4

  predicate IntSize(n: nat) {
    n == 1 || n == 2 || n == 4 || n == 8
  }

  predicate Packable(l: LType) {
    l.Varint? || l.UVarint? || l.SVarint? || l.Fixed32? || l.Fixed64?
  }

  function WireType(l: LType): nat {
    match l
    case Varint | UVarint | SVarint => WT_VARINT
    case Fixed32 => WT_32BIT
    case Fixed64 => WT_64BIT
    case _ => WT_STRING
  }

  function Zeros(n: nat): seq<Byte> {
    seq(n, _ => 0)
  }

  // pb_message_set_to_defaults, for fields without a default value of their own.
  function Zero(f: Field): Value
    decreases f, 0
  {
    match f.l
    case BytesField | StringField => Blob([])
    case FixedLengthBytes => Blob(Zeros(f.dataSize))
    case Submessage => Msg(Defaults(f.sub))
    case _ => Num(0)
  }

  function DefaultSlot(f: Field): Slot
    decreases f, 1
  {
    match f.h
    case Required | Singular => One(Zero(f))
    case Optional | Oneof(_) => Absent
    case Repeated => Many([])
  }

  function Defaults(fs: seq<Field>): (m: seq<Slot>)
    ensures |m| == |fs|
    ensures forall i | 0 <= i < |fs| :: m[i] == DefaultSlot(fs[i])
    decreases fs, 2
  {
    if fs == [] then [] else [DefaultSlot(fs[0])] + Defaults(fs[1..])
  }

  // The struct matches its descriptor, as pb_encode demands.
  ghost predicate ShapedValue(f: Field, v: Value)
    decreases f, 0
  {
    match f.l
    case BytesField => v.Blob?
    case StringField => v.Blob? && |v.b| <= f.dataSize && 0 !in v.b
    case FixedLengthBytes => v.Blob? && |v.b| == f.dataSize
    case Submessage => v.Msg? && Shaped(f.sub, v.slots)
    case _ => v.Num? && FitsBytes(v.n, Width(f))
  }

  // A C integer of k bytes, signed or unsigned, can hold no other numbers.
  predicate FitsBytes(n: int, k: nat) {
    0 < n + Pow2(8 * k) && n < Pow2(8 * k)
  }

  // The bytes of an integer field: data_size, which the descriptor macros make 4 and 8 for fixed-width fields.
  function Width(f: Field): nat {
    if f.l.Fixed32? then 4 else if f.l.Fixed64? then 8 else f.dataSize
  }

  ghost predicate ShapedSlot(f: Field, s: Slot)
    decreases f, 1
  {
    match f.h
    case Required | Singular => s.One? && ShapedValue(f, s.v)
    case Optional | Oneof(_) => s.Absent? || (s.One? && ShapedValue(f, s.v))
    case Repeated => s.Many? && forall v | v in s.vs :: ShapedValue(f, v)
  }

  ghost predicate Shaped(fs: seq<Field>, m: seq<Slot>)
    decreases fs, 2
  {
    |m| == |fs| && forall i | 0 <= i < |fs| :: ShapedSlot(fs[i], m[i])
  }

  // ---- Encoding ----

  function TagBytes(tag: nat, wireType: nat): seq<Byte> {
    VarintBytes(BitOr(Shl(tag, 3, 64), wireType))
  }

  // The length is cast to a 64-bit number.
  function Delimited(b: seq<Byte>): seq<Byte> {
    VarintBytes(|b| % U64) + b
  }

  function Append(a: Option<seq<Byte>>, b: Option<seq<Byte>>): Option<seq<Byte>> {
    if a.None? || b.None? then None else Some(a.value + b.value)
  }

  // The field encoders pb_enc_*.
  function EncodeValue(f: Field, v: Value): Option<seq<Byte>>
    decreases f, 0
  {
    match (f.l, v)
    case (Varint, Num(n)) => if IntSize(f.dataSize) then Some(VarintBytes(n % U64)) else None
    case (UVarint, Num(n)) => if IntSize(f.dataSize) then Some(VarintBytes(n % U64)) else None
    case (SVarint, Num(n)) => if IntSize(f.dataSize) then Some(VarintBytes(ZigZag(n))) else None
    case (Fixed32, Num(n)) => Some(LittleEndian(n % U32, 4))
    case (Fixed64, Num(n)) => Some(LittleEndian(n % U64, 8))
    case (BytesField, Blob(b)) => if |b| + BYTES_OFFSET > f.dataSize then None else Some(Delimited(b))
    case (StringField, Blob(b)) => Some(Delimited(b))
    case (FixedLengthBytes, Blob(b)) => Some(Delimited(b))
    case (Submessage, Msg(slots)) =>
      (match EncodeMessage(f.sub, slots)
       case None => None
       case Some(b) => Some(Delimited(b)))
    case _ => None
  }

  // Array elements one after the other, each with its own tag or, when packed, without.
  function EncodeItems(f: Field, vs: seq<Value>, packed: bool): Option<seq<Byte>>
    decreases f, 1, |vs|
  {
    if vs == [] then Some([])
    else
      Append(Append(if packed then Some([]) else Some(TagBytes(f.tag, WireType(f.l))), EncodeValue(f, vs[0])),
             EncodeItems(f, vs[1..], packed))
  }

  // pb_check_proto3_default_value.
  predicate IsZero(f: Field, s: Slot)
    decreases f, 0
  {
    match f.h
    case Required => false
    case Repeated => s == Many([])
    case Oneof(_) | Optional => s.Absent?
    case Singular =>
      match f.l
      case FixedLengthBytes => f.dataSize == 0
      case Submessage => s.One? && s.v.Msg? && AllZero(f.sub, s.v.slots)
      case BytesField | StringField => s == One(Blob([]))
      case _ => s == One(Num(0))
  }

  predicate AllZero(fs: seq<Field>, m: seq<Slot>)
    decreases fs, 1
  {
    |fs| == |m| && (fs == [] || (IsZero(fs[0], m[0]) && AllZero(fs[1..], m[1..])))
  }

  // encode_basic_field and encode_array.
  function EncodeSlot(f: Field, s: Slot): Option<seq<Byte>>
    decreases f, 2
  {
    match (f.h, s)
    case (Repeated, Many(vs)) =>
      if vs == [] then Some([])
      else if |vs| > f.arraySize then None
      else if Packable(f.l) then
        (match EncodeItems(f, vs, true)
         case None => None
         case Some(b) => Some(TagBytes(f.tag, WT_STRING) + Delimited(b)))
      else EncodeItems(f, vs, false)
    case (Optional, Absent) => Some([])
    case (Oneof(_), Absent) => Some([])
    case (_, One(v)) =>
      if f.h.Repeated? then None
      else if f.h.Singular? && IsZero(f, s) then Some([])
      else Append(Some(TagBytes(f.tag, WireType(f.l))), EncodeValue(f, v))
    case _ => None
  }

  // pb_encode.
  function EncodeMessage(fs: seq<Field>, m: seq<Slot>): Option<seq<Byte>>
    decreases fs, 3
  {
    if |fs| != |m| then None
    else if fs == [] then Some([])
    else Append(EncodeSlot(fs[0], m[0]), EncodeMessage(fs[1..], m[1..]))
  }

  // ---- Decoding ----

  // pb_skip_varint.
  function SkipVarint(s: seq<Byte>): (r: Dec<()>)
    ensures r.Ok? ==> 1 <= r.used <= |s|
    decreases |s|
  {
    if s == [] then Err
    else if s[0] < 0x80 then Ok((), 1)
    else
      match SkipVarint(s[1..])
      case Err => Err
      case Ok(_, used) => Ok((), used + 1)
  }

  // A length, and that many bytes.
  function TakeDelimited(s: seq<Byte>): (r: Dec<seq<Byte>>)
    ensures r.Ok? ==> |r.value| < r.used <= |s|
  {
    match DecodeVarint32(s)
    case Err => Err
    case Ok(len, used) => if len <= |s| - used then Ok(s[used..used + len], used + len) else Err
  }

  // pb_skip_field.
  function SkipField(s: seq<Byte>, wireType: nat): (r: Dec<()>)
    ensures r.Ok? ==> r.used <= |s|
  {
    if wireType == WT_VARINT then SkipVarint(s)
    else if wireType == WT_64BIT then if |s| >= 8 then Ok((), 8) else Err
    else if wireType == WT_32BIT then if |s| >= 4 then Ok((), 4) else Err
    else if wireType == WT_STRING then
      match TakeDelimited(s)
      case Err => Err
      case Ok(_, used) => Ok((), used)
    else Err
  }

  // The casts of pb_dec_varint: through int32_t unless the field has 64 bits, then to the field size.
  function NarrowSigned(v: int, size: nat): Option<int> {
    if IntSize(size) && Signed(v % U64, 8 * size) == v then Some(v) else None
  }

  function VarintToField(u: nat, size: nat): Option<int> {
    NarrowSigned(if size == 8 then Signed(u, 64) else Signed(u, 32), size)
  }

  function UVarintToField(u: nat, size: nat): Option<int> {
    if IntSize(size) && u % Pow2(8 * size) == u then Some(u) else None
  }

  // The value that pb_dec_varint, pb_dec_uvarint or pb_dec_svarint stores for a decoded varint.
  function IntOf(f: Field, u: nat): Option<int> {
    match f.l
    case Varint => VarintToField(u, f.dataSize)
    case UVarint => UVarintToField(u, f.dataSize)
    case _ => NarrowSigned(UnZigZag(u % Pow2(64)), f.dataSize)
  }

  function DecodeInt(f: Field, s: seq<Byte>): (r: Dec<Value>)
    ensures r.Ok? ==> 1 <= r.used <= |s|
  {
    match DecodeVarint(s)
    case Err => Err
    case Ok(u, used) =>
      match IntOf(f, u)
      case None => Err
      case Some(n) => Ok(Num(n), used)
  }

  function DecodeFixed(s: seq<Byte>, size: nat): (r: Dec<Value>)
    ensures r.Ok? ==> r.used == size <= |s|
  {
    if size <= |s| then Ok(Num(FromLittleEndian(s[..size])), size) else Err
  }

  // The text of a buffer: everything before the first zero byte.
  function Text(b: seq<Byte>): seq<Byte> {
    if b == [] || b[0] == 0 then [] else [b[0]] + Text(b[1..])
  }

  // What pb_dec_bytes, pb_dec_string and pb_dec_fixed_length_bytes make of a delimited payload.
  function BlobOf(f: Field, b: seq<Byte>): Option<seq<Byte>> {
    match f.l
    case BytesField => if |b| + BYTES_OFFSET > f.dataSize then None else Some(b)
    case StringField => if |b| + 1 > f.dataSize || |b| + 1 == U32 then None else Some(Text(b))
    case _ => if |b| == 0 then Some(Zeros(f.dataSize)) else if |b| != f.dataSize then None else Some(b)
  }

  function DecodeBlob(f: Field, s: seq<Byte>): (r: Dec<Value>)
    ensures r.Ok? ==> 1 <= r.used <= |s|
  {
    match TakeDelimited(s)
    case Err => Err
    case Ok(b, used) =>
      match BlobOf(f, b)
      case None => Err
      case Some(c) => Ok(Blob(c), used)
  }

  // Fields that are not submessages: pb_dec_varint and its siblings.
  function DecodeScalar(f: Field, s: seq<Byte>): (r: Dec<Value>)
    ensures r.Ok? ==> 1 <= r.used <= |s|
  {
    match f.l
    case Varint | UVarint | SVarint => DecodeInt(f, s)
    case Fixed32 => DecodeFixed(s, 4)
    case Fixed64 => DecodeFixed(s, 8)
    case _ => DecodeBlob(f, s)
  }

  // The iterator wraps around at the end of the descriptor.
  function NextPos(fs: seq<Field>, pos: nat): (p: nat)
    requires pos < |fs|
    ensures p < |fs|
  {
    if pos + 1 == |fs| then 0 else pos + 1
  }

  // pb_field_iter_find from position pos: the first field with the tag, searching cyclically.
  function FindFrom(fs: seq<Field>, pos: nat, tag: nat, steps: nat): (r: Option<nat>)
    requires pos < |fs| && steps <= |fs|
    ensures r.Some? ==> r.value < |fs| && fs[r.value].tag == tag
    decreases steps
  {
    if steps == 0 then None
    else if fs[pos].tag == tag then Some(pos)
    else FindFrom(fs, NextPos(fs, pos), tag, steps - 1)
  }

  function Find(fs: seq<Field>, pos: nat, tag: nat): (r: Option<nat>)
    requires fs != [] ==> pos < |fs|
    ensures r.Some? ==> r.value < |fs| && fs[r.value].tag == tag
  {
    if fs == [] then None else FindFrom(fs, pos, tag, |fs|)
  }

  // The number of required fields among the first n, which is required_field_index at position n.
  function RequiredBefore(fs: seq<Field>, n: nat): nat
    requires n <= |fs|
  {
    if n == 0 then 0 else RequiredBefore(fs, n - 1) + if fs[n - 1].h.Required? then 1 else 0
  }

  // The state of one level of decoding: the struct, the required fields seen and the iterator position.
  datatype State = State(m: seq<Slot>, seen: set<nat>, pos: nat)

  ghost predicate StateOf(fs: seq<Field>, st: State) {
    |st.m| == |fs| && (fs != [] ==> st.pos < |fs|)
  }

  function InitialState(fs: seq<Field>, m: seq<Slot>): State {
    State(m, {}, 0)
  }

  // Every one of the first 64 required fields occurred.
  predicate AllRequiredSeen(fs: seq<Field>, seen: set<nat>) {
    forall r | 0 <= r < RequiredBefore(fs, |fs|) && r < MAX_REQUIRED_FIELDS :: r in seen
  }

  function MarkSeen(fs: seq<Field>, i: nat, seen: set<nat>): set<nat>
    requires i < |fs|
  {
    var r := RequiredBefore(fs, i);
    if fs[i].h.Required? && r < MAX_REQUIRED_FIELDS then seen + {r} else seen
  }

  // Setting which_ to one member of a oneof leaves the others unset.
  function SetOneof(fs: seq<Field>, m: seq<Slot>, i: nat, v: Value): (m': seq<Slot>)
    requires |m| == |fs| && i < |fs|
    ensures |m'| == |m|
  {
    seq(|m|, j requires 0 <= j < |m| =>
      if j == i then One(v) else if fs[j].h == fs[i].h then Absent else m[j])
  }

  // What a field decoder finds at its destination.
  function Current(f: Field, s: Slot): Value {
    if s.One? && !f.h.Oneof? then s.v else Zero(f)
  }

  // decode_static_field.
  function DecodeField(fs: seq<Field>, i: nat, wireType: nat, s: seq<Byte>, m: seq<Slot>): (r: Dec<seq<Slot>>)
    requires |m| == |fs| && i < |fs|
    ensures r.Ok? ==> r.used <= |s| && |r.value| == |fs|
    decreases |s|, 3
  {
    var f := fs[i];
    if f.h.Repeated? then
      var vs := if m[i].Many? then m[i].vs else [];
      if wireType == WT_STRING && Packable(f.l) then
        match TakeDelimited(s)
        case Err => Err
        case Ok(payload, used) =>
          match DecodePacked(f, payload, vs)
          case None => Err
          case Some(vs') => Ok(m[i := Many(vs')], used)
      else if |vs| >= f.arraySize then Err
      else
        match DecodeValue(f, s, Zero(f))
        case Err => Err
        case Ok(v, used) => Ok(m[i := Many(vs + [v])], used)
    else
      match DecodeValue(f, s, Current(f, m[i]))
      case Err => Err
      case Ok(v, used) => Ok(if f.h.Oneof? then SetOneof(fs, m, i, v) else m[i := One(v)], used)
  }

  function DecodePacked(f: Field, payload: seq<Byte>, vs: seq<Value>): Option<seq<Value>>
    decreases |payload|, 0
  {
    if payload == [] then Some(vs)
    else if |vs| >= f.arraySize then None
    else
      match DecodeScalar(f, payload)
      case Err => None
      case Ok(v, used) => DecodePacked(f, payload[used..], vs + [v])
  }

  // A field decoder; a submessage is decoded on top of what is there.
  function DecodeValue(f: Field, s: seq<Byte>, current: Value): (r: Dec<Value>)
    ensures r.Ok? ==> r.used <= |s|
    decreases |s|, 2
  {
    if f.l.Submessage? then
      match TakeDelimited(s)
      case Err => Err
      case Ok(payload, used) =>
        var m := if current.Msg? && |current.slots| == |f.sub| then current.slots else Defaults(f.sub);
        match DecodeNoInit(f.sub, payload, m)
        case None => Err
        case Some(m') => Ok(Msg(m'), used)
    else DecodeScalar(f, s)
  }

  datatype StepResult = Fail | Stop | Next(st: State, used: nat)

  // One iteration of the loop of pb_decode_noinit.
  function DecodeStep(fs: seq<Field>, s: seq<Byte>, st: State): (r: StepResult)
    requires StateOf(fs, st) && s != []
    ensures r.Next? ==> 1 <= r.used <= |s| && StateOf(fs, r.st)
    decreases |s|, 0
  {
    match DecodeVarint32(s)
    case Err => Fail
    case Ok(key, k) =>
      var tag, wireType := key / 8, key % 8;
      if key == 0 then Stop
      else
        match Find(fs, st.pos, tag)
        case Some(i) =>
          (match DecodeField(fs, i, wireType, s[k..], st.m)
           case Err => Fail
           case Ok(m', used) => Next(State(m', MarkSeen(fs, i, st.seen), i), k + used))
        case None =>
          if fs == [] && tag == 0 then Fail
          else
            match SkipField(s[k..], wireType)
            case Err => Fail
            case Ok(_, used) => Next(st, k + used)
  }

  function DecodeLoop(fs: seq<Field>, s: seq<Byte>, st: State): (r: Option<State>)
    requires StateOf(fs, st)
    ensures r.Some? ==> StateOf(fs, r.value)
    decreases |s|, 1
  {
    if s == [] then Some(st)
    else
      match DecodeStep(fs, s, st)
      case Fail => None
      case Stop => Some(st)
      case Next(st', used) => DecodeLoop(fs, s[used..], st')
  }

  lemma {:induction false} LoopUnfold(fs: seq<Field>, s: seq<Byte>, st: State)
    requires StateOf(fs, st)
    ensures DecodeLoop(fs, s, st) ==
      if s == [] then Some(st)
      else match DecodeStep(fs, s, st)
           case Fail => None
           case Stop => Some(st)
           case Next(st', used) => DecodeLoop(fs, s[used..], st')
  {
    hide DecodeStep;
  }

  // pb_decode_noinit.
  function DecodeNoInit(fs: seq<Field>, s: seq<Byte>, m: seq<Slot>): (r: Option<seq<Slot>>)
    requires |m| == |fs|
    ensures r.Some? ==> |r.value| == |fs|
    decreases |s|, 2
  {
    match DecodeLoop(fs, s, InitialState(fs, m))
    case None => None
    case Some(st) => if AllRequiredSeen(fs, st.seen) then Some(st.m) else None
  }

  // pb_decode.
  function Decode(fs: seq<Field>, s: seq<Byte>): Option<seq<Slot>> {
    DecodeNoInit(fs, s, Defaults(fs))
  }
}
