/** The byte array as a value: its record (bytearray.c:13-18) and what each
    Get/Set/Append operation does to it (bytearray.c:161-320). The class in
    bytearray.dfy is proved against these functions; the lemmas here state what
    the library promises about them. */
module BufferSpec {
  import opened ByteOrder

  datatype Option<T> = None | Some(value: T)

  /** The record of a byte array: the bytes of its storage, the capacity it may
      address, the length written so far and its byte order. Nothing checks that
      `len` stays within `capacity` (Attach and the Set operations can break it). */
  datatype Buf = Buf(mem: seq<byte>, capacity: nat, len: nat, endian: Endian)

  /** The storage holds at least `capacity` bytes. */
  predicate Wf(b: Buf)
  {
    b.capacity <= |b.mem|
  }

  /** What a write operation returns (`ok`) and the record afterwards. */
  datatype Outcome = Outcome(ok: bool, after: Buf)

  /** `after` has the same storage size, capacity and byte order as `b`. */
  predicate SameShape(b: Buf, after: Buf)
  {
    |after.mem| == |b.mem| && after.capacity == b.capacity && after.endian == b.endian
  }

  /** The record after `bytes` are copied into storage at `at` and the length
      is advanced by their number: exactly the bytes in [at, at + |bytes|)
      change. */
  function Advance(b: Buf, at: nat, bytes: seq<byte>): (r: Buf)
    requires at + |bytes| <= |b.mem|
    ensures SameShape(b, r) && r.len == b.len + |bytes|
    ensures r.mem[at..at + |bytes|] == bytes
    ensures forall i :: 0 <= i < |b.mem| && !(at <= i < at + |bytes|) ==> r.mem[i] == b.mem[i]
  {
    b.(mem := b.mem[..at] + bytes + b.mem[at + |bytes|..], len := b.len + |bytes|)
  }

  // ---------------------------------------------------------------- bytes

  /** byteArraySetBytes: succeeds iff the bytes fit below `capacity`; then
      copies them at `offset` and adds their number to `len`, whatever `len`
      was. */
  function SetBytes(b: Buf, offset: nat, bytes: seq<byte>): (r: Outcome)
    requires Wf(b)
    ensures Wf(r.after) && SameShape(b, r.after)
    ensures r.ok <==> offset + |bytes| <= b.capacity
    ensures r.ok ==> r.after == Advance(b, offset, bytes)
    ensures !r.ok ==> r.after == b
  {
    if offset + |bytes| <= b.capacity then Outcome(true, Advance(b, offset, bytes))
    else Outcome(false, b)
  }

  /** byteArrayAppendBytes: succeeds iff the bytes fit between `len` and
      `capacity`; the valid bytes then grow by exactly `bytes`. */
  function AppendBytes(b: Buf, bytes: seq<byte>): (r: Outcome)
    requires Wf(b)
    ensures Wf(r.after) && SameShape(b, r.after)
    ensures r.ok <==> b.len + |bytes| <= b.capacity
    ensures r.ok ==> r.after == Advance(b, b.len, bytes)
    ensures r.ok ==> r.after.mem[..r.after.len] == b.mem[..b.len] + bytes
    ensures !r.ok ==> r.after == b
    ensures b.len <= b.capacity ==> r.after.len <= r.after.capacity
  {
    if b.len + |bytes| <= b.capacity then
      var after := Advance(b, b.len, bytes);
      assert after.mem[..after.len] == b.mem[..b.len] + bytes by {
        assert after.mem[..after.len] == after.mem[..b.len] + after.mem[b.len..after.len];
      }
      Outcome(true, after)
    else Outcome(false, b)
  }

  /** byteArrayGetBytes: the `length` bytes at `offset`, when they lie below
      `len`. The C code returns a pointer to them; the class returns the storage
      and the offset. Reading past the storage, which C allows once `len`
      exceeds `capacity`, is excluded by the precondition. */
  function GetBytes(b: Buf, offset: nat, length: nat): (r: Option<seq<byte>>)
    requires Wf(b) && (offset + length <= b.len ==> offset + length <= b.capacity)
    ensures r.Some? <==> offset + length <= b.len
    ensures r.Some? ==> |r.value| == length
    ensures forall i :: r.Some? && 0 <= i < length ==> r.value[i] == b.mem[offset + i]
  {
    if offset + length <= b.len then Some(b.mem[offset..offset + length]) else None
  }

  // ---------------------------------------------------------------- scalars

  /** byteArrayGetByte: the byte at `offset` when `offset < len`. */
  function GetByte(b: Buf, offset: nat): (r: Option<byte>)
    requires Wf(b) && (offset < b.len ==> offset < b.capacity)
    ensures r.Some? <==> offset < b.len
    ensures r.Some? ==> r.value == b.mem[offset]
  {
    if offset < b.len then Some(b.mem[offset]) else None
  }

  /** byteArraySetByte: one byte at `offset`, `len` advanced by one. */
  function SetByte(b: Buf, offset: nat, x: byte): (r: Outcome)
    requires Wf(b)
    ensures r.ok <==> offset + 1 <= b.capacity
    ensures r.ok ==> r.after == Advance(b, offset, [x])
    ensures !r.ok ==> r.after == b
  {
    SetBytes(b, offset, [x])
  }

  /** byteArrayAppendByte: one byte at `len`, when `len + 1 <= capacity`. */
  function AppendByte(b: Buf, x: byte): (r: Outcome)
    requires Wf(b)
    ensures r.ok <==> b.len + 1 <= b.capacity
    ensures r.ok ==> r.after == Advance(b, b.len, [x])
    ensures !r.ok ==> r.after == b
  {
    AppendBytes(b, [x])
  }

  /** byteArrayGetHalfword on a host of order `host`: the two bytes at
      `offset` loaded in host order and swapped when the orders differ. The
      value is the one the buffer's order lays out as those bytes. */
  function GetHalfword(host: Endian, b: Buf, offset: nat): (r: Option<bv16>)
    requires Wf(b) && (offset + 2 <= b.len ==> offset + 2 <= b.capacity)
    ensures r.Some? <==> offset + 2 <= b.len
    ensures r.Some? ==> Bytes16(b.endian, r.value) == b.mem[offset..offset + 2]
  {
    if offset + 2 <= b.len then Some(HostLoad16(host, b.endian, b.mem[offset..offset + 2]))
    else None
  }

  /** byteArraySetHalfword on a host of order `host`: swap when the orders
      differ, store in host order; the bytes written are the halfword in the
      buffer's order, whatever the host. */
  function SetHalfword(host: Endian, b: Buf, offset: nat, v: bv16): (r: Outcome)
    requires Wf(b)
    ensures r.ok <==> offset + 2 <= b.capacity
    ensures r.ok ==> r.after == Advance(b, offset, Bytes16(b.endian, v))
    ensures !r.ok ==> r.after == b
  {
    SetBytes(b, offset, HostStore16(host, b.endian, v))
  }

  /** byteArrayAppendHalfword on a host of order `host`. */
  function AppendHalfword(host: Endian, b: Buf, v: bv16): (r: Outcome)
    requires Wf(b)
    ensures r.ok <==> b.len + 2 <= b.capacity
    ensures r.ok ==> r.after == Advance(b, b.len, Bytes16(b.endian, v))
    ensures !r.ok ==> r.after == b
  {
    AppendBytes(b, HostStore16(host, b.endian, v))
  }

  /** byteArrayGetWord on a host of order `host`. */
  function GetWord(host: Endian, b: Buf, offset: nat): (r: Option<bv32>)
    requires Wf(b) && (offset + 4 <= b.len ==> offset + 4 <= b.capacity)
    ensures r.Some? <==> offset + 4 <= b.len
    ensures r.Some? ==> Bytes32(b.endian, r.value) == b.mem[offset..offset + 4]
  {
    if offset + 4 <= b.len then Some(HostLoad32(host, b.endian, b.mem[offset..offset + 4]))
    else None
  }

  /** byteArraySetWord on a host of order `host`. */
  function SetWord(host: Endian, b: Buf, offset: nat, v: bv32): (r: Outcome)
    requires Wf(b)
    ensures r.ok <==> offset + 4 <= b.capacity
    ensures r.ok ==> r.after == Advance(b, offset, Bytes32(b.endian, v))
    ensures !r.ok ==> r.after == b
  {
    SetBytes(b, offset, HostStore32(host, b.endian, v))
  }

  /** byteArrayAppendWord on a host of order `host`. */
  function AppendWord(host: Endian, b: Buf, v: bv32): (r: Outcome)
    requires Wf(b)
    ensures r.ok <==> b.len + 4 <= b.capacity
    ensures r.ok ==> r.after == Advance(b, b.len, Bytes32(b.endian, v))
    ensures !r.ok ==> r.after == b
  {
    AppendBytes(b, HostStore32(host, b.endian, v))
  }

  // ---------------------------------------------------------------- buffers

  /** byteArrayAppendByteArray once both arguments are present and distinct:
      success with no change when `src` is empty, otherwise an append of the
      first `src.len` bytes of `src`. Copying from past `src`'s storage, which C
      allows once `src.len` exceeds its capacity, is excluded by the
      precondition. */
  function AppendBuffer(dest: Buf, src: Buf): (r: Outcome)
    requires Wf(dest) && Wf(src)
    requires src.len == 0 || dest.len + src.len > dest.capacity || src.len <= src.capacity
    ensures Wf(r.after) && SameShape(dest, r.after)
    ensures src.len == 0 ==> r == Outcome(true, dest)
    ensures src.len != 0 ==> (r.ok <==> dest.len + src.len <= dest.capacity)
    ensures r.ok && src.len != 0 ==> r.after == Advance(dest, dest.len, src.mem[..src.len])
    ensures r.ok && src.len != 0 ==>
      r.after.mem[..r.after.len] == dest.mem[..dest.len] + src.mem[..src.len]
    ensures !r.ok ==> r.after == dest
    ensures dest.len <= dest.capacity ==> r.after.len <= r.after.capacity
  {
    if src.len == 0 then Outcome(true, dest)
    else if dest.len + src.len <= dest.capacity then AppendBytes(dest, src.mem[..src.len])
    else Outcome(false, dest)
  }

  // ---------------------------------------------------------------- lemmas

  /** An Append is a Set at the current length: both check the same bound and
      write the same bytes. */
  lemma {:induction false} AppendIsSetAtLength(host: Endian, b: Buf, bytes: seq<byte>, h: bv16, w: bv32)
    requires Wf(b)
    ensures AppendBytes(b, bytes) == SetBytes(b, b.len, bytes)
    ensures AppendHalfword(host, b, h) == SetHalfword(host, b, b.len, h)
    ensures AppendWord(host, b, w) == SetWord(host, b, b.len, w)
  {
  }

  /** Round trip through an Append: reading back at the old length returns
      the value appended, for either byte order and either host. */
  lemma {:induction false} AppendRoundTrip(host: Endian, b: Buf, x: byte, h: bv16, w: bv32, bytes: seq<byte>)
    requires Wf(b)
    ensures var r := AppendByte(b, x); r.ok ==> GetByte(r.after, b.len) == Some(x)
    ensures var r := AppendHalfword(host, b, h); r.ok ==> GetHalfword(host, r.after, b.len) == Some(h)
    ensures var r := AppendWord(host, b, w); r.ok ==> GetWord(host, r.after, b.len) == Some(w)
    ensures var r := AppendBytes(b, bytes); r.ok ==> GetBytes(r.after, b.len, |bytes|) == Some(bytes)
  {
    SetRoundTrip(host, b, b.len, x, h, w, bytes);
    AppendIsSetAtLength(host, b, bytes, h, w);
  }

  /** Round trip through a Set at an offset no greater than the length: the
      same offset reads back the value written. */
  lemma {:induction false} SetRoundTrip(host: Endian, b: Buf, offset: nat, x: byte, h: bv16, w: bv32, bytes: seq<byte>)
    requires Wf(b) && offset <= b.len
    ensures var r := SetByte(b, offset, x); r.ok ==> GetByte(r.after, offset) == Some(x)
    ensures var r := SetHalfword(host, b, offset, h); r.ok ==> GetHalfword(host, r.after, offset) == Some(h)
    ensures var r := SetWord(host, b, offset, w); r.ok ==> GetWord(host, r.after, offset) == Some(w)
    ensures var r := SetBytes(b, offset, bytes); r.ok ==> GetBytes(r.after, offset, |bytes|) == Some(bytes)
  {
    var rh := SetHalfword(host, b, offset, h);
    if rh.ok {
      var g := GetHalfword(host, rh.after, offset);
      RoundTrip16(b.endian, h, rh.after.mem[offset..offset + 2]);
      RoundTrip16(b.endian, g.value, rh.after.mem[offset..offset + 2]);
    }
    var rw := SetWord(host, b, offset, w);
    if rw.ok {
      var g := GetWord(host, rw.after, offset);
      RoundTrip32(b.endian, w, rw.after.mem[offset..offset + 4]);
      RoundTrip32(b.endian, g.value, rw.after.mem[offset..offset + 4]);
    }
  }

  /** The Set operations do not keep the length within the capacity: a Set
      inside already written data still advances the length, past the
      capacity of a full buffer. */
  lemma SetCanExceedCapacity()
    ensures var r := SetByte(Buf([0, 0], 2, 2, Big), 0, 7); r.ok && r.after.len == 3 > r.after.capacity
  {
  }

  /** A Set beyond the length succeeds, yet the advanced length does not reach
      the bytes written, so reading them back fails. */
  lemma SetPastLengthIsUnreadable(host: Endian)
    ensures var b := Buf([0, 0, 0, 0, 0, 0, 0, 0], 8, 0, Little);
      var r := SetHalfword(host, b, 6, 0x1234);
      r.ok && r.after.len == 2 && GetHalfword(host, r.after, 6) == None
  {
  }

  /** After a successful Set, the offset reads back the value written exactly
      when it lay no further than the old length: the converse of
      SetRoundTrip, for every width. */
  lemma {:induction false} SetReadBackIff(host: Endian, b: Buf, offset: nat, x: byte, h: bv16, w: bv32, bytes: seq<byte>)
    requires Wf(b)
    ensures var r := SetByte(b, offset, x);
      r.ok ==> (GetByte(r.after, offset) == Some(x) <==> offset <= b.len)
    ensures var r := SetHalfword(host, b, offset, h);
      r.ok ==> (GetHalfword(host, r.after, offset) == Some(h) <==> offset <= b.len)
    ensures var r := SetWord(host, b, offset, w);
      r.ok ==> (GetWord(host, r.after, offset) == Some(w) <==> offset <= b.len)
    ensures var r := SetBytes(b, offset, bytes);
      r.ok ==> (GetBytes(r.after, offset, |bytes|) == Some(bytes) <==> offset <= b.len)
  {
    if offset <= b.len {
      SetRoundTrip(host, b, offset, x, h, w, bytes);
    }
  }

  /** Reading back a word from a borrowed region: the bytes 78 56 34 12 read
      in big-endian order give 0x78563412 on either host, and in
      little-endian order give 0x12345678. */
  lemma AttachedWordExample(host: Endian)
    ensures GetWord(host, Buf([0x78, 0x56, 0x34, 0x12], 4, 4, Big), 0) == Some(0x78563412)
    ensures GetWord(host, Buf([0x78, 0x56, 0x34, 0x12], 4, 4, Little), 0) == Some(0x12345678)
  {
    var s: seq<byte> := [0x78, 0x56, 0x34, 0x12];
    RoundTrip32(Big, 0x78563412, s);
    RoundTrip32(Little, 0x12345678, s);
    assert Bytes32(Big, 0x78563412) == s;
    assert Bytes32(Little, 0x12345678) == s;
  }

  // ---------------------------------------------------------------- call sequences

  /** One call of a write operation of the library. */
  datatype Call =
    | SetByteCall(offset: nat, x: byte)
    | AppendByteCall(x: byte)
    | SetHalfwordCall(offset: nat, h: bv16)
    | AppendHalfwordCall(h: bv16)
    | SetWordCall(offset: nat, w: bv32)
    | AppendWordCall(w: bv32)
    | SetBytesCall(offset: nat, bytes: seq<byte>)
    | AppendBytesCall(bytes: seq<byte>)

  predicate IsAppend(c: Call)
  {
    c.AppendByteCall? || c.AppendHalfwordCall? || c.AppendWordCall? || c.AppendBytesCall?
  }

  function Step(host: Endian, b: Buf, c: Call): (r: Outcome)
    requires Wf(b)
    ensures Wf(r.after) && SameShape(b, r.after) && r.after.len >= b.len
  {
    match c
    case SetByteCall(offset, x) => SetByte(b, offset, x)
    case AppendByteCall(x) => AppendByte(b, x)
    case SetHalfwordCall(offset, h) => SetHalfword(host, b, offset, h)
    case AppendHalfwordCall(h) => AppendHalfword(host, b, h)
    case SetWordCall(offset, w) => SetWord(host, b, offset, w)
    case AppendWordCall(w) => AppendWord(host, b, w)
    case SetBytesCall(offset, bytes) => SetBytes(b, offset, bytes)
    case AppendBytesCall(bytes) => AppendBytes(b, bytes)
  }

  /** The record after a sequence of calls, each applied to the record the
      previous one left (a failed call leaves it as it was). */
  function Run(host: Endian, b: Buf, calls: seq<Call>): Buf
    requires Wf(b)
    decreases |calls|
  {
    if calls == [] then b else Run(host, Step(host, b, calls[0]).after, calls[1..])
  }

  /** No sequence of calls changes the capacity, the byte order or the storage,
      and none decreases the length. */
  lemma {:induction false} RunKeepsShape(host: Endian, b: Buf, calls: seq<Call>)
    requires Wf(b)
    ensures var r := Run(host, b, calls); Wf(r) && SameShape(b, r) && r.len >= b.len
    decreases |calls|
  {
    if calls != [] {
      RunKeepsShape(host, Step(host, b, calls[0]).after, calls[1..]);
    }
  }

  /** A single call leaves the same record on a little-endian and on a
      big-endian host. */
  lemma StepHostIndependent(h1: Endian, h2: Endian, b: Buf, c: Call)
    requires Wf(b)
    ensures Step(h1, b, c) == Step(h2, b, c)
  {
  }

  /** The bytes in storage after any sequence of calls depend on the buffer's
      byte order only, never on the host's. */
  lemma {:induction false} RunHostIndependent(h1: Endian, h2: Endian, b: Buf, calls: seq<Call>)
    requires Wf(b)
    ensures Run(h1, b, calls) == Run(h2, b, calls)
    decreases |calls|
  {
    if calls != [] {
      StepHostIndependent(h1, h2, b, calls[0]);
      RunHostIndependent(h1, h2, Step(h1, b, calls[0]).after, calls[1..]);
    }
  }

  /** Appends alone keep the length within the capacity. */
  lemma {:induction false} AppendsKeepBound(host: Endian, b: Buf, calls: seq<Call>)
    requires Wf(b) && b.len <= b.capacity
    requires forall i :: 0 <= i < |calls| ==> IsAppend(calls[i])
    ensures Run(host, b, calls).len <= b.capacity
    decreases |calls|
  {
    if calls != [] {
      var next := Step(host, b, calls[0]).after;
      AppendsKeepBound(host, next, calls[1..]);
    }
  }
}
