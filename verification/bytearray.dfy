/** The byte array object of bytearray.c: a record over a storage region that
    the operations update in place. Each operation is proved against the
    function of the same name in BufferSpec, on the host order NativeOrder. */
module ByteArrays {
  import opened ByteOrder
  import BufferSpec

  /** What byteArrayGetBytes hands back: a view into the storage starting at
      `start`, not a copy. */
  datatype Span = Span(data: array<byte>, start: nat)

  class ByteArray {
    var storage: array<byte>
    var capacity: nat
    var len: nat
    var endian: Endian

    /** The storage holds at least `capacity` bytes. `len` is not bounded:
        Attach and the Set operations can take it past `capacity`. */
    ghost predicate Valid()
      reads this
    {
      capacity <= storage.Length
    }

    /** The record as a value. */
    ghost function State(): (b: BufferSpec.Buf)
      reads this, storage
      ensures Valid() ==> BufferSpec.Wf(b)
    {
      BufferSpec.Buf(storage[..], capacity, len, endian)
    }

    /** byteArrayCreate: new storage of `capacity` bytes and an empty buffer.
        Only the record is zeroed; the storage's contents are left as the
        allocator returns them, so nothing is promised about them. */
    constructor Create(capacity: nat, endian: Endian)
      ensures Valid() && fresh(storage) && storage.Length == capacity
      ensures this.capacity == capacity && len == 0 && this.endian == endian
    {
      storage := new byte[capacity];
      this.capacity := capacity;
      len := 0;
      this.endian := endian;
    }

    /** byteArrayAttach: a buffer over the caller's region, which must hold
        `capacity` bytes. The initial length is taken as given, even beyond
        `capacity`, and the bytes already there are not touched. */
    constructor Attach(capacity: nat, storage: array<byte>, length: nat, endian: Endian)
      requires capacity <= storage.Length
      ensures Valid() && this.storage == storage
      ensures this.capacity == capacity && len == length && this.endian == endian
    {
      this.capacity := capacity;
      this.storage := storage;
      len := length;
      this.endian := endian;
    }

    /** Copies `bytes` into storage at `at` and advances the length by their
        number: the memcpy and the pointer stores of the Set and Append
        operations, followed by their update of `len`. */
    method CopyIn(at: nat, bytes: seq<byte>)
      requires Valid() && at + |bytes| <= capacity
      modifies this`len, storage
      ensures Valid()
      ensures State() == BufferSpec.Advance(old(State()), at, bytes)
    {
      ghost var before := storage[..];
      forall i | at <= i < at + |bytes| {
        storage[i] := bytes[i - at];
      }
      len := len + |bytes|;
      assert storage[..] == before[..at] + bytes + before[at + |bytes|..];
    }

    // ------------------------------------------------------------ bytes

    /** byteArrayGetByte. */
    method GetByte(offset: nat) returns (r: BufferSpec.Option<byte>)
      requires Valid() && (offset < len ==> offset < capacity)
      ensures r == BufferSpec.GetByte(State(), offset)
    {
      if offset < len {
        r := BufferSpec.Some(storage[offset]);
      } else {
        r := BufferSpec.None;
      }
    }

    /** byteArraySetByte: writes at `offset` if it lies below `capacity`, and
        advances `len` by one in any case of success. */
    method SetByte(offset: nat, x: byte) returns (ok: bool)
      requires Valid()
      modifies this`len, storage
      ensures Valid()
      ensures ok <==> offset + 1 <= capacity
      ensures BufferSpec.Outcome(ok, State()) == BufferSpec.SetByte(old(State()), offset, x)
    {
      if offset + 1 <= capacity {
        CopyIn(offset, [x]);
        ok := true;
      } else {
        ok := false;
      }
    }

    /** byteArrayAppendByte. */
    method AppendByte(x: byte) returns (ok: bool)
      requires Valid()
      modifies this`len, storage
      ensures Valid()
      ensures ok <==> old(len) + 1 <= capacity
      ensures BufferSpec.Outcome(ok, State()) == BufferSpec.AppendByte(old(State()), x)
      ensures ok ==> storage[..len] == old(storage[..len]) + [x]
      ensures old(len) <= capacity ==> len <= capacity
    {
      if len + 1 <= capacity {
        CopyIn(len, [x]);
        ok := true;
      } else {
        ok := false;
      }
    }

    // ------------------------------------------------------------ halfwords

    /** byteArrayGetHalfword: a 16-bit load in host order, swapped when the
        buffer's order is not the host's. */
    method GetHalfword(offset: nat) returns (r: BufferSpec.Option<bv16>)
      requires Valid() && (offset + 2 <= len ==> offset + 2 <= capacity)
      ensures r == BufferSpec.GetHalfword(NativeOrder, State(), offset)
      ensures r.Some? ==> Bytes16(endian, r.value) == storage[offset..offset + 2]
    {
      if offset + 2 <= len {
        var raw := Value16(NativeOrder, storage[offset..offset + 2]);
        r := BufferSpec.Some(if endian != NativeOrder then Swap16(raw) else raw);
      } else {
        r := BufferSpec.None;
      }
    }

    /** byteArraySetHalfword: swapped when the orders differ, stored in host
        order, so the storage holds the halfword in the buffer's order. */
    method SetHalfword(offset: nat, v: bv16) returns (ok: bool)
      requires Valid()
      modifies this`len, storage
      ensures Valid()
      ensures ok <==> offset + 2 <= capacity
      ensures ok ==> storage[offset..offset + 2] == Bytes16(endian, v)
      ensures BufferSpec.Outcome(ok, State()) == BufferSpec.SetHalfword(NativeOrder, old(State()), offset, v)
    {
      if offset + 2 <= capacity {
        var x := if endian != NativeOrder then Swap16(v) else v;
        CopyIn(offset, Bytes16(NativeOrder, x));
        ok := true;
      } else {
        ok := false;
      }
    }

    /** byteArrayAppendHalfword. */
    method AppendHalfword(v: bv16) returns (ok: bool)
      requires Valid()
      modifies this`len, storage
      ensures Valid()
      ensures ok <==> old(len) + 2 <= capacity
      ensures BufferSpec.Outcome(ok, State()) == BufferSpec.AppendHalfword(NativeOrder, old(State()), v)
      ensures ok ==> storage[..len] == old(storage[..len]) + Bytes16(endian, v)
      ensures old(len) <= capacity ==> len <= capacity
    {
      if len + 2 <= capacity {
        var x := if endian != NativeOrder then Swap16(v) else v;
        CopyIn(len, Bytes16(NativeOrder, x));
        ok := true;
      } else {
        ok := false;
      }
    }

    // ------------------------------------------------------------ words

    /** byteArrayGetWord. */
    method GetWord(offset: nat) returns (r: BufferSpec.Option<bv32>)
      requires Valid() && (offset + 4 <= len ==> offset + 4 <= capacity)
      ensures r == BufferSpec.GetWord(NativeOrder, State(), offset)
      ensures r.Some? ==> Bytes32(endian, r.value) == storage[offset..offset + 4]
    {
      if offset + 4 <= len {
        var raw := Value32(NativeOrder, storage[offset..offset + 4]);
        r := BufferSpec.Some(if endian != NativeOrder then Swap32(raw) else raw);
      } else {
        r := BufferSpec.None;
      }
    }

    /** byteArraySetWord. */
    method SetWord(offset: nat, v: bv32) returns (ok: bool)
      requires Valid()
      modifies this`len, storage
      ensures Valid()
      ensures ok <==> offset + 4 <= capacity
      ensures ok ==> storage[offset..offset + 4] == Bytes32(endian, v)
      ensures BufferSpec.Outcome(ok, State()) == BufferSpec.SetWord(NativeOrder, old(State()), offset, v)
    {
      if offset + 4 <= capacity {
        var x := if endian != NativeOrder then Swap32(v) else v;
        CopyIn(offset, Bytes32(NativeOrder, x));
        ok := true;
      } else {
        ok := false;
      }
    }

    /** byteArrayAppendWord. */
    method AppendWord(v: bv32) returns (ok: bool)
      requires Valid()
      modifies this`len, storage
      ensures Valid()
      ensures ok <==> old(len) + 4 <= capacity
      ensures BufferSpec.Outcome(ok, State()) == BufferSpec.AppendWord(NativeOrder, old(State()), v)
      ensures ok ==> storage[..len] == old(storage[..len]) + Bytes32(endian, v)
      ensures old(len) <= capacity ==> len <= capacity
    {
      if len + 4 <= capacity {
        var x := if endian != NativeOrder then Swap32(v) else v;
        CopyIn(len, Bytes32(NativeOrder, x));
        ok := true;
      } else {
        ok := false;
      }
    }

    // ------------------------------------------------------------ byte ranges

    /** byteArrayGetBytes: a view of `length` bytes at `offset`, when they lie
        below `len`. */
    method GetBytes(offset: nat, length: nat) returns (r: BufferSpec.Option<Span>)
      requires Valid() && (offset + length <= len ==> offset + length <= capacity)
      ensures r.Some? <==> offset + length <= len
      ensures r.Some? ==> r.value == Span(storage, offset)
      ensures r.Some? ==>
        BufferSpec.GetBytes(State(), offset, length) == BufferSpec.Some(storage[offset..offset + length])
    {
      if offset + length <= len {
        r := BufferSpec.Some(Span(storage, offset));
      } else {
        r := BufferSpec.None;
      }
    }

    /** byteArraySetBytes: copies `bytes` at `offset` if they fit below
        `capacity`, and advances `len` by their number. */
    method SetBytes(offset: nat, bytes: seq<byte>) returns (ok: bool)
      requires Valid()
      modifies this`len, storage
      ensures Valid()
      ensures ok <==> offset + |bytes| <= capacity
      ensures ok ==> storage[offset..offset + |bytes|] == bytes && len == old(len) + |bytes|
      ensures BufferSpec.Outcome(ok, State()) == BufferSpec.SetBytes(old(State()), offset, bytes)
    {
      if offset + |bytes| <= capacity {
        CopyIn(offset, bytes);
        ok := true;
      } else {
        ok := false;
      }
    }

    /** byteArrayAppendBytes. */
    method AppendBytes(bytes: seq<byte>) returns (ok: bool)
      requires Valid()
      modifies this`len, storage
      ensures Valid()
      ensures ok <==> old(len) + |bytes| <= capacity
      ensures BufferSpec.Outcome(ok, State()) == BufferSpec.AppendBytes(old(State()), bytes)
      ensures ok ==> storage[..len] == old(storage[..len]) + bytes
      ensures old(len) <= capacity ==> len <= capacity
    {
      if len + |bytes| <= capacity {
        CopyIn(len, bytes);
        ok := true;
      } else {
        ok := false;
      }
    }
  }

  // -------------------------------------------------------------- getters

  /** byteArrayGetCapacity: 0 for an absent buffer. */
  function CapacityOf(b: ByteArray?): (r: nat)
    reads b
    ensures b == null ==> r == 0
    ensures b != null ==> r == b.capacity
  {
    if b == null then 0 else b.capacity
  }

  /** byteArrayGetLength: 0 for an absent buffer. */
  function LengthOf(b: ByteArray?): (r: nat)
    reads b
    ensures b == null ==> r == 0
    ensures b != null ==> r == b.len
  {
    if b == null then 0 else b.len
  }

  /** byteArrayGetDataPointer: null for an absent buffer. */
  function DataPointerOf(b: ByteArray?): (r: array?<byte>)
    reads b
    ensures b == null ==> r == null
    ensures b != null ==> r == b.storage
  {
    if b == null then null else b.storage
  }

  // -------------------------------------------------------------- buffers

  /** byteArrayAppendByteArray: fails when either buffer is absent or both
      are the same buffer; succeeds without change when `src` is empty;
      otherwise appends the valid bytes of `src` to `dest` if they fit. */
  method AppendByteArray(dest: ByteArray?, src: ByteArray?) returns (ok: bool)
    requires dest != null ==> dest.Valid()
    requires src != null ==> src.Valid()
    requires (dest != null && src != null && dest != src && src.len != 0 &&
              dest.len + src.len <= dest.capacity) ==> src.len <= src.capacity
    modifies if dest == null then {} else {dest, dest.storage}
    ensures dest != null ==> dest.Valid() && dest.storage == old(dest.storage)
    ensures dest == null || src == null || dest == src ==> !ok
    ensures dest != null && (src == null || dest == src) ==> dest.State() == old(dest.State())
    ensures dest != null && src != null && dest != src ==>
      BufferSpec.Outcome(ok, dest.State()) == BufferSpec.AppendBuffer(old(dest.State()), old(src.State()))
    ensures ok && src.len != 0 ==>
      dest.storage[..dest.len] == old(dest.storage[..dest.len]) + old(src.storage[..src.len])
    ensures src != null && src != dest && (dest == null || src.storage != dest.storage) ==>
      src.State() == old(src.State())
  {
    if dest != null && src != null && dest != src {
      if src.len == 0 {
        return true;
      }
      if dest.len + src.len <= dest.capacity {
        var bytes := src.storage[..src.len];
        dest.CopyIn(dest.len, bytes);
        ok := true;
      } else {
        ok := false;
      }
    } else {
      ok := false;
    }
  }

  // -------------------------------------------------------------- demonstration

  /** The bytes the six appends of test/main.c:28-33 lay out in a big-endian
      buffer: every value most significant byte first, 14 bytes in all. */
  lemma ScenarioLayout()
    ensures [0x01, 0x02] + Bytes16(Big, 0x1112) + Bytes16(Big, 0x1314)
              + Bytes32(Big, 0x21222324) + Bytes32(Big, 0x25262728)
         == [0x01, 0x02, 0x11, 0x12, 0x13, 0x14, 0x21, 0x22, 0x23, 0x24, 0x25, 0x26, 0x27, 0x28]
  {
    assert Bytes16(Big, 0x1112) == [0x11, 0x12];
    assert Bytes16(Big, 0x1314) == [0x13, 0x14];
    assert Bytes32(Big, 0x21222324) == [0x21, 0x22, 0x23, 0x24];
    assert Bytes32(Big, 0x25262728) == [0x25, 0x26, 0x27, 0x28];
  }

  /** The six appends of test/main.c:28-33 to an empty big-endian buffer with
      room for them. */
  method AppendScenario(arr: ByteArray)
    requires arr.Valid() && arr.len == 0 && 14 <= arr.capacity && arr.endian == Big
    modifies arr`len, arr.storage
    ensures arr.Valid() && arr.len == 14
    ensures arr.storage[..arr.len]
         == [0x01, 0x02, 0x11, 0x12, 0x13, 0x14, 0x21, 0x22, 0x23, 0x24, 0x25, 0x26, 0x27, 0x28]
  {
    var ok := arr.AppendByte(0x01);
    ok := arr.AppendByte(0x02);
    assert arr.storage[..arr.len] == [0x01, 0x02];
    ok := arr.AppendHalfword(0x1112);
    ok := arr.AppendHalfword(0x1314);
    ok := arr.AppendWord(0x21222324);
    ok := arr.AppendWord(0x25262728);
    assert arr.storage[..arr.len] == [0x01, 0x02] + Bytes16(Big, 0x1112) + Bytes16(Big, 0x1314)
                                     + Bytes32(Big, 0x21222324) + Bytes32(Big, 0x25262728);
    ScenarioLayout();
  }

  /** The storage of the attached buffer of test/main.c:22-23: the word
      0x12345678 as the host stores it, which is 78 56 34 12 on the
      little-endian host. */
  method HostWordRegion() returns (region: array<byte>)
    ensures fresh(region) && region[..] == Bytes32(NativeOrder, 0x12345678)
    ensures region[..] == [0x78, 0x56, 0x34, 0x12]
  {
    var s := Bytes32(NativeOrder, 0x12345678);
    region := new byte[] [s[0], s[1], s[2], s[3]];
  }

  /** The calls of test/main.c: the six appends lay out every value most
      significant byte first, and appending the big-endian buffer attached to
      the host's word 0x12345678 copies its bytes as they lie in memory, 18
      bytes in all. */
  method Demo() returns (bytes: seq<byte>)
    ensures bytes == [0x01, 0x02, 0x11, 0x12, 0x13, 0x14, 0x21, 0x22, 0x23, 0x24, 0x25, 0x26, 0x27, 0x28]
                     + Bytes32(NativeOrder, 0x12345678)
    ensures bytes == [0x01, 0x02, 0x11, 0x12, 0x13, 0x14, 0x21, 0x22, 0x23, 0x24, 0x25, 0x26, 0x27, 0x28,
                      0x78, 0x56, 0x34, 0x12]
  {
    var arr := new ByteArray.Create(100, Big);
    var ii := HostWordRegion();
    var arr2 := new ByteArray.Attach(4, ii, 4, Big);
    AppendScenario(arr);
    ghost var head := arr.storage[..arr.len];
    ghost var tail := arr2.storage[..arr2.len];
    assert tail == [0x78, 0x56, 0x34, 0x12];
    var ok := AppendByteArray(arr, arr2);
    assert ok;
    bytes := arr.storage[..arr.len];
    assert bytes == head + tail;
    assert head + tail == [0x01, 0x02, 0x11, 0x12, 0x13, 0x14, 0x21, 0x22, 0x23, 0x24, 0x25, 0x26, 0x27, 0x28,
                           0x78, 0x56, 0x34, 0x12];
  }

  /** A big-endian buffer attached to the full 4-byte region holding the
      host's word 0x12345678 (test/main.c:22-24): appending a byte fails, and
      the word read at offset 0 is 0x78563412 on the little-endian host, since
      Attach leaves the caller's bytes as they are and the read applies the
      buffer's order. */
  method AttachedRead() returns (appendToFull: bool, word: BufferSpec.Option<bv32>)
    ensures !appendToFull
    ensures word == BufferSpec.Some(Value32(Big, Bytes32(NativeOrder, 0x12345678)))
    ensures word == BufferSpec.Some(0x78563412)
  {
    var region := HostWordRegion();
    var arr := new ByteArray.Attach(4, region, 4, Big);
    appendToFull := arr.AppendByte(0x00);
    word := arr.GetWord(0);
    BufferSpec.AttachedWordExample(NativeOrder);
    RoundTrip32(Big, 0x78563412, region[..]);
  }
}
