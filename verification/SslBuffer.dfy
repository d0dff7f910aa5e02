/** The record buffer of libssl, with its 16-bit fields, and a transport that may write short or fail. */
module SslBuffer {
  import opened Bytes

  const ALIGN_PAYLOAD: nat := 8
  const MAX_CAP: nat := 0xffff

  /** A BIO: what each call does is decided by the next number of its script. */
  class Transport {
    var script: seq<int>
    var taken: seq<Byte>

    constructor (script: seq<int>)
      ensures this.script == script && taken == []
    {
      this.script, taken := script, [];
    }

    // BIO_write: at most as many bytes are taken as were offered; zero and below is a failure.
    method Write(data: seq<Byte>) returns (ret: int)
      requires data != []
      modifies this
      ensures ret == if |old(script)| > 0 then Min(old(script)[0], |data|) else -1
      ensures taken == if ret > 0 then old(taken) + data[..ret] else old(taken)
      ensures script == if |old(script)| > 0 then old(script)[1..] else []
    {
      ret := -1;
      if |script| > 0 {
        ret, script := Min(script[0], |data|), script[1..];
      }
      if ret > 0 {
        taken := taken + data[..ret];
      }
    }

    // BIO_flush.
    method Flush() returns (ret: int)
      modifies this
      ensures taken == old(taken)
      ensures ret == (if |old(script)| > 0 then old(script)[0] else 1)
      ensures script == if |old(script)| > 0 then old(script)[1..] else []
    {
      ret := 1;
      if |script| > 0 {
        ret, script := script[0], script[1..];
      }
    }
  }

  // The offset that aligns the record body, for memory allocated at the given address.
  function AlignedOffset(headerLen: nat, address: nat): (offset: nat)
    ensures offset < ALIGN_PAYLOAD && (address + offset + headerLen) % ALIGN_PAYLOAD == 0
  {
    (0 - headerLen - address) % ALIGN_PAYLOAD
  }

  // Adding to a 16-bit number.
  function Add16(a: nat, b: nat): (c: nat)
    requires a < U16 && b < U16
    ensures c < U16
  {
    if a + b < U16 then a + b else a + b - U16
  }

  // What data() shows after size bytes at offset in memory have been consumed up to c.
  function Remainder(memory: seq<Byte>, offset: nat, size: nat, c: nat): seq<Byte>
    requires offset < U16 && size < U16 && offset + size <= |memory| && c <= size
  {
    memory[Add16(offset, c)..][..size - c]
  }

  // The 16-bit offset can wrap around. Consuming always leaves the rest of the data exactly when the data ends
  // within the first 2^16 bytes of the allocated memory.
  lemma {:induction false} ConsumeExactly(offset: nat, size: nat)
    requires offset < U16 && size < U16
    ensures offset + size <= U16 <==>
      forall memory: seq<Byte>, c: nat | offset + size <= |memory| && c <= size ::
        Remainder(memory, offset, size, c) == memory[offset..offset + size][c..]
  {
    if offset + size <= U16 {
      forall memory: seq<Byte>, c: nat | offset + size <= |memory| && c <= size
        ensures Remainder(memory, offset, size, c) == memory[offset..offset + size][c..]
      {
        RemainderIs(memory, offset, size, c);
      }
    } else {
      var memory: seq<Byte> := seq(offset + size, i => if i == U16 then 1 else 0);
      var c := U16 - offset;
      assert Remainder(memory, offset, size, c)[0] == memory[0] == 0;
      assert memory[offset..offset + size][c..][0] == memory[U16] == 1;
    }
  }

  lemma {:induction false} Add16Small(a: nat, b: nat)
    requires a < U16 && b < U16
    ensures Add16(a, b) <= a + b && Add16(0, 0) == 0 && (a + b < U16 ==> Add16(a, b) == a + b)
    ensures a + b == U16 ==> Add16(a, b) == 0
  {
  }

  lemma {:induction false} RemainderShown(memory: seq<Byte>, offset: nat, size: nat, c: nat)
    requires offset < U16 && size < U16 && offset + size <= |memory| && c <= size
    ensures var o := Add16(offset, c);
            o + (size - c) <= |memory| && memory[o..o + (size - c)] == Remainder(memory, offset, size, c)
  {
  }

  lemma {:induction false} RemainderIs(memory: seq<Byte>, offset: nat, size: nat, c: nat)
    requires offset < U16 && size < U16 && offset + size <= |memory| && c <= size && offset + size <= U16
    ensures Remainder(memory, offset, size, c) == memory[offset..offset + size][c..]
  {
    if c == size && offset + c == U16 { assert Remainder(memory, offset, size, c) == []; }
  }

  // What flushing comes to: its result, the bytes taken, those left and their offset, and the script from there on.
  datatype Flow = Flow(ret: int, taken: seq<Byte>, rest: seq<Byte>, offset: nat, script: seq<int>)

  ghost function Flowing(memory: seq<Byte>, offset: nat, size: nat, script: seq<int>): (f: Flow)
    requires offset < U16 && size < U16 && offset + size <= |memory|
    decreases size
  {
    if size == 0 then Flow(1, [], [], 0, script)
    else
      var ret := if script == [] then -1 else Min(script[0], size);
      var rest := if script == [] then [] else script[1..];
      var data := memory[offset..offset + size];
      if ret <= 0 then Flow(ret, [], data, offset, rest)
      else
        var f := Flowing(memory, Add16(offset, ret), size - ret, rest);
        f.(taken := data[..ret] + f.taken)
  }

  // After some of it f, which began when t0 had been taken, goes on as g, now that t has been taken.
  ghost predicate Continues(f: Flow, t0: seq<Byte>, g: Flow, t: seq<Byte>) {
    t0 + f.taken == t + g.taken && f.ret == g.ret && f.rest == g.rest && f.offset == g.offset && f.script == g.script
  }

  lemma {:induction false} FlowDone(memory: seq<Byte>, offset: nat, script: seq<int>)
    requires offset < U16 && offset <= |memory|
    ensures Flowing(memory, offset, 0, script) == Flow(1, [], [], 0, script)
  {
  }

  lemma {:induction false} FlowContinues(memory: seq<Byte>, offset: nat, size: nat, script: seq<int>, t: seq<Byte>,
                                         ret: int)
    requires 0 < size && offset < U16 && size < U16 && offset + size <= |memory|
    requires script != [] && 0 < ret == Min(script[0], size)
    ensures Add16(offset, ret) + (size - ret) <= |memory|
    ensures Continues(Flowing(memory, offset, size, script), t,
                      Flowing(memory, Add16(offset, ret), size - ret, script[1..]),
                      t + memory[offset..offset + size][..ret])
  {
  }

  // The transport fails at once.
  lemma {:induction false} FlowStalls(memory: seq<Byte>, offset: nat, size: nat, script: seq<int>)
    requires 0 < size && offset < U16 && size < U16 && offset + size <= |memory|
    requires script == [] || script[0] <= 0
    ensures Flowing(memory, offset, size, script)
         == Flow(if script == [] then -1 else script[0], [], memory[offset..offset + size], offset,
                 if script == [] then [] else script[1..])
  {
  }

  // The transport takes something with every call, of which there are n at least.
  ghost predicate Willing(script: seq<int>, n: int) {
    n <= |script| && forall i | 0 <= i < |script| :: script[i] > 0
  }

  // A transport that takes something with every call takes everything, and keeps to that for what comes next.
  lemma {:induction false} FlowCompletes(memory: seq<Byte>, offset: nat, size: nat, script: seq<int>, more: nat)
    requires offset < U16 && size < U16 && offset + size <= |memory| && Willing(script, size + more)
    ensures var f := Flowing(memory, offset, size, script);
            && f.ret == 1 && f.rest == [] && Willing(f.script, more)
            && (offset + size <= U16 ==> f.taken == memory[offset..offset + size])
    decreases size
  {
    if size > 0 {
      var ret := Min(script[0], size);
      FlowCompletes(memory, Add16(offset, ret), size - ret, script[1..], more);
      if offset + size <= U16 {
        var data := memory[offset..offset + size];
        RemainderShown(memory, offset, size, ret);
        RemainderIs(memory, offset, size, ret);
        assert data[..ret] + data[ret..] == data;
      }
    }
  }

  // The transport takes n bytes and then fails.
  lemma {:induction false} FlowBreaks(memory: seq<Byte>, offset: nat, size: nat, n: nat)
    requires 0 < n < size && offset < U16 && size < U16 && offset + size <= |memory|
    ensures var f := Flowing(memory, offset, size, [n]);
            && f.ret == -1 && f.taken == memory[offset..offset + size][..n] && f.script == []
            && f.rest == Remainder(memory, offset, size, n)
  {
    hide Add16;
    var script := [n];
    assert script[1..] == [];
    assert Add16(offset, n) + (size - n) <= |memory| by { RemainderShown(memory, offset, size, n); }
    FlowStalls(memory, Add16(offset, n), size - n, []);
  }

  /** SSLBuffer. */
  class Buffer {
    var buf: array?<Byte>
    var offset: nat
    var size: nat
    var cap: nat

    ghost predicate Valid()
      reads this, buf
    {
      && offset < U16 && size <= cap <= MAX_CAP
      && (buf == null ==> offset == 0 && cap == 0)
      && (buf != null ==> offset + cap <= buf.Length)
    }

    // data() and size().
    function Contents(): (s: seq<Byte>)
      requires Valid()
      reads this, buf
      ensures |s| == size
    {
      if buf == null then [] else buf[offset..offset + size]
    }

    ghost function Sending(script: seq<int>): Flow
      requires Valid()
      reads this, buf
    {
      Flowing(if buf == null then [] else buf[..], offset, size, script)
    }

    // No consumption can make the offset wrap around.
    predicate Safe()
      reads this
    {
      offset + size <= U16
    }

    constructor ()
      ensures Valid() && size == 0 && buf == null && offset == 0
    {
      buf, offset, size, cap := null, 0, 0, 0;
    }

    method Clear()
      modifies this
      ensures Valid() && size == 0 && buf == null && offset == 0
    {
      buf, offset, size, cap := null, 0, 0, 0;
    }

    // EnsureCap, where the memory allocator returns the given address.
    method EnsureCap(headerLen: nat, newCap: nat, address: nat) returns (ok: bool)
      requires Valid()
      modifies this
      ensures Valid() && Contents() == old(Contents()) && size == old(size)
      ensures ok <==> newCap <= MAX_CAP
      ensures ok ==> cap >= newCap
      ensures if ok && old(cap) < newCap
              then && fresh(buf) && offset == AlignedOffset(headerLen, address) && cap == newCap
                   && forall k | 0 <= k < offset :: buf[k] == 0
              else buf == old(buf) && offset == old(offset) && cap == old(cap)
    {
      if newCap > MAX_CAP { return false; }
      if cap >= newCap { return true; }
      var newBuf := new Byte[newCap + ALIGN_PAYLOAD - 1](_ => 0);
      var newOffset := AlignedOffset(headerLen, address);
      CopyTo(newBuf, newOffset);
      buf, offset, cap := newBuf, newOffset, newCap;
      return true;
    }

    // The OPENSSL_memcpy of EnsureCap.
    method CopyTo(dest: array<Byte>, start: nat)
      requires Valid() && start + size <= dest.Length && dest != buf
      modifies dest
      ensures dest[start..start + size] == Contents()
      ensures forall k | 0 <= k < start :: dest[k] == old(dest[k])
    {
      ghost var data := Contents();
      var i := 0;
      while i < size
        invariant i <= size && dest[start..start + i] == data[..i] && Contents() == data
        invariant forall k | 0 <= k < start :: dest[k] == old(dest[k])
      {
        assert buf[offset + i] == data[i];
        dest[start + i] := buf[offset + i];
        i := i + 1;
      }
    }

    // A copy into remaining(), then DidWrite, which aborts if there is no room.
    method Append(data: seq<Byte>)
      requires Valid() && |data| <= cap - size
      modifies this, buf
      ensures Valid() && Contents() == old(Contents()) + data
      ensures buf == old(buf) && offset == old(offset) && cap == old(cap) && size == old(size) + |data|
      ensures buf != null ==> forall k | 0 <= k < offset :: buf[k] == old(buf[k])
    {
      ghost var before := Contents();
      var i := 0;
      while i < |data|
        modifies buf
        invariant i <= |data| && Valid() && buf == old(buf)
        invariant buf != null ==> buf[offset..offset + size + i] == before + data[..i]
        invariant buf != null ==> forall k | 0 <= k < offset :: buf[k] == old(buf[k])
      {
        buf[offset + size + i] := data[i];
        i := i + 1;
      }
      size := size + |data|;
      assert before + data[..i] == before + data;
    }

    // Consume, which aborts if there are not that many bytes.
    method Consume(len: nat)
      requires Valid() && len <= size
      modifies this
      ensures Valid() && buf == old(buf) && size == old(size) - len && cap == old(cap) - len
      ensures offset == Add16(old(offset), len)
      ensures old(Safe()) ==> Safe() && Contents() == old(Contents())[len..]
    {
      hide Add16, Remainder;
      ghost var memory := if buf == null then [] else buf[..];
      assert Contents() == if buf == null then [] else memory[offset..offset + size];
      Add16Small(offset, len);
      if buf != null {
        RemainderShown(memory, offset, size, len);
        if Safe() { RemainderIs(memory, offset, size, len); }
      }
      offset := Add16(offset, len);
      size := size - len;
      cap := cap - len;
    }

    // tls_write_buffer_flush: the transport takes the contents from the front.
    method Flush(bio: Transport) returns (ret: int)
      requires Valid()
      modifies this, bio
      ensures Valid() && (buf == old(buf) || buf == null)
      ensures if ret > 0 then ret == 1 && size == 0 && buf == null && offset == 0 else 0 < size <= old(size)
      ensures old(Safe()) ==> Safe() && bio.taken + Contents() == old(bio.taken + Contents())
      ensures old(bio.taken) <= bio.taken
      ensures var f := old(Sending(bio.script));
              && ret == f.ret && bio.script == f.script && Contents() == f.rest && offset == f.offset
              && bio.taken == old(bio.taken) + f.taken
    {
      hide Flowing;
      ghost var f := Sending(bio.script);
      while size != 0
        invariant Valid() && buf == old(buf) && size <= old(size)
        invariant old(Safe()) ==> Safe() && bio.taken + Contents() == old(bio.taken + Contents())
        invariant old(bio.taken) <= bio.taken
        invariant Continues(f, old(bio.taken), Sending(bio.script), bio.taken)
        decreases size
      {
        ret := WriteFront(bio);
        if ret <= 0 { return; }
      }
      FlowDone(if buf == null then [] else buf[..], offset, bio.script);
      Clear();
      return 1;
    }

    // One pass of its loop.
    method WriteFront(bio: Transport) returns (ret: int)
      requires Valid() && size != 0
      modifies this, bio
      ensures Valid() && buf == old(buf)
      ensures ret == if |old(bio.script)| > 0 then Min(old(bio.script)[0], old(size)) else -1
      ensures if ret > 0 then size == old(size) - ret && offset == Add16(old(offset), ret)
              else size == old(size) && offset == old(offset)
      ensures bio.taken == if ret > 0 then old(bio.taken) + old(Contents())[..ret] else old(bio.taken)
      ensures old(Safe()) ==> Safe() && bio.taken + Contents() == old(bio.taken + Contents())
      ensures old(bio.taken) <= bio.taken
      ensures ret > 0 ==> Continues(old(Sending(bio.script)), old(bio.taken), Sending(bio.script), bio.taken)
      ensures ret <= 0 ==> old(Sending(bio.script)) == Flow(ret, [], Contents(), offset, bio.script)
    {
      hide Flowing, Continues;
      ghost var data, taken, memory, script := Contents(), bio.taken, buf[..], bio.script;
      ret := bio.Write(Contents());
      if ret <= 0 {
        FlowStalls(memory, offset, size, script);
        return;
      }
      FlowContinues(memory, offset, size, script, taken, ret);
      Consume(ret);
      assert taken + data == taken + data[..ret] + data[ret..];
    }
  }

  // A buffer of size bytes in which the byte at the wrap differs from the first byte of the memory.
  method OddFill(headerLen: nat, cap: nat, address: nat, size: nat) returns (b: Buffer)
    requires size <= cap <= MAX_CAP && AlignedOffset(headerLen, address) + size > U16
    ensures fresh(b) && b.Valid() && b.size == size && b.buf != null && fresh(b.buf)
    ensures b.offset == AlignedOffset(headerLen, address) && b.buf[0] != b.buf[U16]
  {
    hide AlignedOffset;
    b := new Buffer();
    var ok := b.EnsureCap(headerLen, cap, address);
    var wrap := U16 - b.offset;
    var fill := seq(size, i => if i == wrap then 1 else 0);
    b.Append(fill);
    assert b.Contents() == [] + fill && b.Contents()[wrap] == b.buf[U16];
  }

  // A fill that ends beyond the first 2^16 bytes of its memory can lose data: for every such layout there are contents,
  // and a short write that takes them up to the wrap, after which the buffer shows bytes that were never put in.
  method FillThatBreaks(headerLen: nat, cap: nat, address: nat, size: nat)
    returns (b: Buffer, bio: Transport, ghost data: seq<Byte>)
    requires size <= cap <= MAX_CAP && AlignedOffset(headerLen, address) + size > U16
    ensures b.Valid() && |data| == size && bio.taken + b.Contents() != data
  {
    hide AlignedOffset;
    b := OddFill(headerLen, cap, address, size);
    var wrap := U16 - b.offset;
    bio := new Transport([wrap]);
    data := b.Contents();
    assert data[wrap] == b.buf[U16];
    var ret := b.WriteFront(bio);
    assert (bio.taken + b.Contents())[wrap] == b.buf[0];
  }
}
