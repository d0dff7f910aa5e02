/** The cyclic field iterator of nanopb and the places it visits in the message struct. */
module PbIter {
  import opened Bytes
  import opened PbSpec

  const SIZE_MAX: int := U32 - 1

  // The addresses of the data and of the size field.
  datatype Place = Place(data: int, size: int)

  // The space a static field takes in the struct.
  function Extent(f: Field): nat {
    if f.h.Repeated? then f.dataSize * f.arraySize else f.dataSize
  }

  // A later member of the same union.
  predicate SharesUnion(prev: Field, f: Field) {
    prev.h.Oneof? && f.h.Oneof? && f.dataOffset == SIZE_MAX
  }

  // Where a scan from the first field arrives.
  function PlaceAt(fs: seq<Field>, dest: int, pos: nat): Place
    requires pos < |fs|
  {
    var f := fs[pos];
    if pos == 0 then Place(dest + f.dataOffset, dest + f.dataOffset + f.sizeOffset)
    else
      var prev := PlaceAt(fs, dest, pos - 1);
      if SharesUnion(fs[pos - 1], f) then prev
      else
        var data := prev.data + Extent(fs[pos - 1]) + f.dataOffset;
        Place(data, data + f.sizeOffset)
  }

  /** pb_field_iter_t. An empty descriptor leaves the iterator on the terminator, which has tag 0. */
  class FieldIter {
    const start: seq<Field>
    const dest: int
    var pos: nat
    var pData: int
    var pSize: int
    var requiredFieldIndex: nat

    ghost predicate Valid()
      reads this
    {
      if start == [] then pos == 0 && requiredFieldIndex == 0
      else pos < |start| && Place(pData, pSize) == PlaceAt(start, dest, pos)
           && requiredFieldIndex == RequiredBefore(start, pos)
    }

    // pb_field_iter_begin.
    constructor (fields: seq<Field>, dest: int)
      ensures Valid() && start == fields && this.dest == dest && pos == 0
    {
      start, this.dest := fields, dest;
      pos, requiredFieldIndex := 0, 0;
      var offset := if fields == [] then 0 else fields[0].dataOffset;
      var sizeOffset := if fields == [] then 0 else fields[0].sizeOffset;
      pData := dest + offset;
      pSize := dest + offset + sizeOffset;
    }

    method Restart()
      requires start != []
      modifies this
      ensures Valid() && pos == 0
    {
      pos, requiredFieldIndex := 0, 0;
      pData := dest + start[0].dataOffset;
      pSize := pData + start[0].sizeOffset;
    }

    // pb_field_iter_next: false when it wraps around to the first field.
    method Next() returns (more: bool)
      requires Valid()
      modifies this
      ensures Valid()
      ensures more <==> old(pos) + 1 < |start|
      ensures start != [] ==> pos == NextPos(start, old(pos))
      ensures start == [] ==> pos == 0
    {
      if start == [] {
        return false;
      }
      var prev := start[pos];
      if pos + 1 == |start| {
        Restart();
        return false;
      }
      pos := pos + 1;
      var prevSize := prev.dataSize;
      if SharesUnion(prev, start[pos]) {
        return true;
      } else if prev.h.Repeated? {
        prevSize := prevSize * prev.arraySize;
      }
      if prev.h.Required? {
        requiredFieldIndex := requiredFieldIndex + 1;
      }
      pData := pData + prevSize + start[pos].dataOffset;
      pSize := pData + start[pos].sizeOffset;
      return true;
    }

    // pb_field_iter_find, which starts where the iterator stands and comes back to it if there is no such field.
    method FindTag(tag: nat) returns (found: bool)
      requires Valid()
      modifies this
      ensures Valid()
      ensures start != [] ==>
        && found == Find(start, old(pos), tag).Some?
        && pos == if found then Find(start, old(pos), tag).value else old(pos)
      ensures start == [] ==> (found <==> tag == 0) && pos == 0
    {
      if start == [] {
        return tag == 0;
      }
      var first := pos;
      ghost var steps := |start|;
      ghost var done := 0;
      while true
        invariant Valid() && 1 <= steps <= |start| && done + steps == |start|
        invariant pos == if first + done < |start| then first + done else first + done - |start|
        invariant FindFrom(start, first, tag, |start|) == FindFrom(start, pos, tag, steps)
        decreases steps
      {
        if start[pos].tag == tag {
          return true;
        }
        var _ := Next();
        steps, done := steps - 1, done + 1;
        if pos == first {
          return false;
        }
      }
    }
  }

  // From any position the search succeeds exactly when some field has the tag.
  lemma {:induction false} FindExists(fs: seq<Field>, pos: nat, tag: nat)
    requires pos < |fs|
    ensures Find(fs, pos, tag).Some? <==> exists i :: 0 <= i < |fs| && fs[i].tag == tag
  {
    if i :| 0 <= i < |fs| && fs[i].tag == tag {
      FindFromSome(fs, pos, i, |fs|);
    }
  }

  lemma {:induction false} FindFromSome(fs: seq<Field>, pos: nat, i: nat, steps: nat)
    requires pos < |fs| && i < |fs| && steps <= |fs|
    requires if i >= pos then i - pos < steps else i + |fs| - pos < steps
    ensures FindFrom(fs, pos, fs[i].tag, steps).Some?
    decreases steps
  {
    if fs[pos].tag != fs[i].tag { FindFromSome(fs, NextPos(fs, pos), i, steps - 1); }
  }

  // ---- The macros of pb.h ----

  // A struct member: its offset, and the offset of its has_, _count or which_ member (its own, if it has none).
  datatype Member = Member(offset: nat, sizeMember: nat, field: Field, inUnion: bool)

  // PB_DATAOFFSET_FIRST, PB_DATAOFFSET_OTHER and PB_DATAOFFSET_UNION, and pb_delta.
  ghost predicate Describes(ms: seq<Member>, fs: seq<Field>) {
    && |ms| == |fs|
    && forall i | 0 <= i < |fs| ::
         && fs[i] == ms[i].field
         && fs[i].sizeOffset == ms[i].sizeMember - ms[i].offset
         && (ms[i].inUnion ==> i > 0 && fs[i - 1].h.Oneof? && fs[i].h.Oneof? && fs[i].dataOffset == SIZE_MAX
                               && ms[i].offset == ms[i - 1].offset && ms[i].sizeMember == ms[i - 1].sizeMember)
         && (!ms[i].inUnion ==> fs[i].dataOffset != SIZE_MAX)
         && (!ms[i].inUnion && i == 0 ==> fs[i].dataOffset == ms[i].offset)
         && (!ms[i].inUnion && i > 0 ==> fs[i].dataOffset == ms[i].offset - ms[i - 1].offset - Extent(fs[i - 1]))
  }

  // The relative offsets that the macros compute lead the iterator to every member of the struct.
  lemma {:induction false} IteratorVisitsMembers(ms: seq<Member>, fs: seq<Field>, dest: int, i: nat)
    requires Describes(ms, fs) && i < |fs|
    ensures PlaceAt(fs, dest, i) == Place(dest + ms[i].offset, dest + ms[i].sizeMember)
    decreases i
  {
    hide Extent;
    if i == 0 {
      assert !ms[0].inUnion && fs[0].sizeOffset == ms[0].sizeMember - ms[0].offset;
    } else {
      IteratorVisitsMembers(ms, fs, dest, i - 1);
      var prev := PlaceAt(fs, dest, i - 1);
      assert prev == Place(dest + ms[i - 1].offset, dest + ms[i - 1].sizeMember);
      if ms[i].inUnion {
        assert SharesUnion(fs[i - 1], fs[i]);
      } else {
        assert !SharesUnion(fs[i - 1], fs[i]);
        assert prev.data + Extent(fs[i - 1]) + fs[i].dataOffset == dest + ms[i].offset;
      }
    }
  }
}
