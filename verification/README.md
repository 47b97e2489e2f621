# bytearray in Dafny

A model of `bytearray.c`, a small C library for a fixed-capacity byte buffer.
A buffer is a record of four fields: a storage region, its `capacity`, a
length `len` (the write cursor), and a byte order (MSB = big-endian, LSB =
little-endian). The library has:

- offset-addressed and appending writes of bytes, 16-bit halfwords, 32-bit
  words and byte ranges, each refused when it would not fit in `capacity`;
- reads of the same kinds, each refused unless it lies below `len`;
- appending one buffer to another.

Halfwords and words go through the buffer's byte order. A value is swapped
when that order differs from the host's, then stored or loaded through a
pointer in host order.

The project has three modules:

- `ByteOrder` (`byteorder.dfy`) covers:
  - the two byte-swap routines;
  - the memory image of a 16- or 32-bit value in either order (`Bytes16`, `Bytes32`) and its inverse (`Value16`, `Value32`);
  - the host store and load: swap when the orders differ, then a pointer access in host order. The proofs show that the bytes stored and the value loaded depend only on the buffer's order, for both host orders.
- `BufferSpec` (`bufferspec.dfy`) models a buffer as a value `Buf(mem, capacity, len, endian)`:
  - every operation is a function returning `Outcome(ok, after)` or an `Option`;
  - lemmas cover the round trips, the cursor quirk of the Set operations and sequences of calls.
- `ByteArrays` (`bytearray.dfy`) covers:
  - the imperative form: `class ByteArray`, whose storage is an `array<byte>` that the methods update in place. Every method is proved equal to its `BufferSpec` function on the host order `NativeOrder`;
  - the null-tolerant getters and `AppendByteArray`;
  - the calls made by `test/main.c`.

Behaviours of the code that the model keeps:

- `byteArrayCreate` zeroes the record but not the storage it allocates (bytearray.c:101-102). `Create` therefore promises nothing about the initial contents.
- Nothing keeps `len` within `capacity`:
  - the Set operations add the written size to `len` wherever they write (bytearray.c:175, 213, 255, 290);
  - `byteArrayAttach` takes any initial length (bytearray.c:129).

  `SetCanExceedCapacity` exhibits the first. `AppendsKeepBound` proves that the appending operations alone keep the bound.
- A Set beyond the current length succeeds, but its value cannot be read back, because `len` does not reach it. `SetReadBackIff` proves that a successful Set reads back exactly when its offset is at most the old length.
- The six appends of `test/main.c:28-33` write 1 + 1 + 2 + 2 + 4 + 4 = 14 bytes: `01 02 11 12 13 14 21 22 23 24 25 26 27 28`. Appending the attached buffer at line 34 adds the 4 bytes of the host's word 0x12345678, 18 bytes in all (`Demo`).
- `bytearray.h` declares the order values as `BYTEARRAY_LITTLEENDIAN` and `BYTEARRAY_BIGENDIAN`. `bytearray.c` uses `BYTEARRAY_MSB` and `BYTEARRAY_LSB`. The model reads MSB as `Big` and LSB as `Little`.

## Model

| member | source | states |
|---|---|---|
| ByteOrder.Swap16 | bytearray.c:82-84 | the result's high byte is the argument's low byte and its low byte the argument's high byte |
| ByteOrder.Swap32 | bytearray.c:92-94 | the result's four bytes are the argument's four bytes in reverse order |
| ByteOrder.SwapInvolution | bytearray.c:82-94 | swapping twice gives the value back, for halfwords and words; 0x1112 swaps to 0x1211 and 0x12345678 to 0x78563412 |
| ByteOrder.SwapReversesLayout16 | bytearray.c:82-84 | a swapped halfword lies in memory in one order exactly as the original lies in the other |
| ByteOrder.SwapReversesLayout32 | bytearray.c:92-94 | a swapped word lies in memory in one order exactly as the original lies in the other |
| ByteOrder.Value16 | bytearray.c:195 | the halfword read from two bytes in a given order is the one that order lays out as those bytes |
| ByteOrder.Value32 | bytearray.c:237 | the word read from four bytes in a given order is the one that order lays out as those bytes |
| ByteOrder.HostStore16 | bytearray.c:209-212 | the bytes a halfword store leaves (swap if the orders differ, then a host-order store) are the halfword in the buffer's order, for either host |
| ByteOrder.HostStore32 | bytearray.c:251-254 | the same for a word store |
| ByteOrder.HostLoad16 | bytearray.c:195-199 | the value a halfword load returns (host-order load, then swap if the orders differ) is the one the buffer's order lays out as the bytes read, for either host |
| ByteOrder.HostLoad32 | bytearray.c:237-241 | the same for a word load |
| ByteOrder.RoundTrip16 | bytearray.c:192-232 | reading back the bytes a halfword is laid out as gives the halfword, and laying out the halfword read from two bytes gives those bytes |
| ByteOrder.RoundTrip32 | bytearray.c:234-274 | the same round trips for words |
| ByteOrder.LayoutInjective16 | bytearray.c:206-232 | two halfwords laid out as the same bytes in the same order are equal |
| ByteOrder.LayoutInjective32 | bytearray.c:248-274 | two words laid out as the same bytes in the same order are equal |
| ByteOrder.HostLoadIndependent | bytearray.c:62-74 | a halfword or word load returns the same value whatever the host's order |
| BufferSpec.Advance | bytearray.c:289-290 | writing a run of bytes at an offset and adding its length to `len`: the run is at the offset, every other byte, the capacity and the order are unchanged |
| BufferSpec.SetBytes | bytearray.c:286-295 | succeeds iff offset + length <= capacity; on success the bytes are copied at the offset and `len` grows by their number; on failure nothing changes |
| BufferSpec.AppendBytes | bytearray.c:297-306 | succeeds iff len + length <= capacity; on success the valid prefix becomes the old prefix followed by the bytes; `len <= capacity` is kept; on failure nothing changes |
| BufferSpec.GetBytes | bytearray.c:276-284 | yields the `length` bytes at the offset iff offset + length <= len |
| BufferSpec.GetByte | bytearray.c:161-169 | yields the byte at the offset iff offset < len |
| BufferSpec.SetByte | bytearray.c:171-180 | succeeds iff offset + 1 <= capacity; then the byte is at the offset and `len` grows by one; otherwise nothing changes |
| BufferSpec.AppendByte | bytearray.c:182-190 | succeeds iff len + 1 <= capacity; then the byte is written at `len` and `len` grows by one; otherwise nothing changes |
| BufferSpec.GetHalfword | bytearray.c:192-204 | yields a value iff offset + 2 <= len; the buffer's order lays that value out as the two bytes at the offset |
| BufferSpec.SetHalfword | bytearray.c:206-218 | succeeds iff offset + 2 <= capacity; then the halfword's bytes in the buffer's order are at the offset and `len` grows by two, for either host; otherwise nothing changes |
| BufferSpec.AppendHalfword | bytearray.c:220-232 | succeeds iff len + 2 <= capacity; then the halfword's bytes in the buffer's order are written at `len` and `len` grows by two; otherwise nothing changes |
| BufferSpec.GetWord | bytearray.c:234-246 | yields a value iff offset + 4 <= len; the buffer's order lays that value out as the four bytes at the offset |
| BufferSpec.SetWord | bytearray.c:248-260 | succeeds iff offset + 4 <= capacity; then the word's bytes in the buffer's order are at the offset and `len` grows by four; otherwise nothing changes |
| BufferSpec.AppendWord | bytearray.c:262-274 | succeeds iff len + 4 <= capacity; then the word's bytes in the buffer's order are written at `len` and `len` grows by four; otherwise nothing changes |
| BufferSpec.AppendBuffer | bytearray.c:308-320 | an empty source succeeds without change; otherwise succeeds iff the lengths sum to at most the destination's capacity, and then the destination's valid prefix is followed by the source's; on failure nothing changes |
| BufferSpec.AppendIsSetAtLength | bytearray.c:182-190 | each append is the corresponding Set at offset `len` |
| BufferSpec.AppendRoundTrip | bytearray.c:220-232 | after a successful append of a byte, halfword, word or byte range, reading at the old length returns what was appended |
| BufferSpec.SetRoundTrip | bytearray.c:206-218 | after a successful Set at an offset not beyond the old length, reading at that offset returns the value written, for bytes, halfwords, words and ranges |
| BufferSpec.SetReadBackIff | bytearray.c:171-295 | after a successful Set of a byte, halfword, word or byte range, the offset reads back the value written if and only if it was at most the old length |
| BufferSpec.SetCanExceedCapacity | bytearray.c:171-180 | a successful SetByte on a full buffer takes `len` past `capacity` |
| BufferSpec.SetPastLengthIsUnreadable | bytearray.c:206-218 | a SetHalfword at offset 6 of an empty 8-byte buffer succeeds, yet leaves `len` at 2, so the halfword cannot be read back |
| BufferSpec.AttachedWordExample | bytearray.c:234-246 | the bytes 78 56 34 12 read as a word are 0x78563412 in a big-endian buffer and 0x12345678 in a little-endian one, on either host |
| BufferSpec.Step | bytearray.c:171-306 | any write call keeps the buffer well formed, keeps its capacity and order, and never decreases `len` |
| BufferSpec.RunKeepsShape | bytearray.c:171-306 | a sequence of write calls keeps capacity and order and never decreases `len` |
| BufferSpec.StepHostIndependent | bytearray.c:62-74 | a write call has the same outcome whatever the host's order |
| BufferSpec.RunHostIndependent | bytearray.c:62-74 | a sequence of write calls ends in the same buffer whatever the host's order |
| BufferSpec.AppendsKeepBound | bytearray.c:182-306 | a sequence of append calls on a buffer with `len <= capacity` keeps `len <= capacity` |
| ByteArrays.ByteArray.Create | bytearray.c:96-110 | fresh storage of `capacity` bytes, length 0, the given capacity and order |
| ByteArrays.ByteArray.Attach | bytearray.c:121-132 | a buffer over the caller's storage with the given capacity, length (unchecked) and order; the storage is not touched |
| ByteArrays.ByteArray.CopyIn | bytearray.c:289-290 | the bytes are copied into storage at the offset and `len` grows by their number; the new record is `BufferSpec.Advance` of the old one |
| ByteArrays.ByteArray.GetByte | bytearray.c:161-169 | returns `BufferSpec.GetByte` of the record and changes nothing |
| ByteArrays.ByteArray.SetByte | bytearray.c:171-180 | the result and the new record are `BufferSpec.SetByte` of the old record |
| ByteArrays.ByteArray.AppendByte | bytearray.c:182-190 | the result and the new record are `BufferSpec.AppendByte` of the old record; on success the valid prefix gains the byte; `len <= capacity` is kept |
| ByteArrays.ByteArray.GetHalfword | bytearray.c:192-204 | returns `BufferSpec.GetHalfword` of the record on the native host and changes nothing |
| ByteArrays.ByteArray.SetHalfword | bytearray.c:206-218 | the result and the new record are `BufferSpec.SetHalfword` of the old record on the native host |
| ByteArrays.ByteArray.AppendHalfword | bytearray.c:220-232 | the result and the new record are `BufferSpec.AppendHalfword` of the old record; on success the valid prefix gains the halfword's bytes in the buffer's order |
| ByteArrays.ByteArray.GetWord | bytearray.c:234-246 | returns `BufferSpec.GetWord` of the record on the native host and changes nothing |
| ByteArrays.ByteArray.SetWord | bytearray.c:248-260 | the result and the new record are `BufferSpec.SetWord` of the old record on the native host |
| ByteArrays.ByteArray.AppendWord | bytearray.c:262-274 | the result and the new record are `BufferSpec.AppendWord` of the old record; on success the valid prefix gains the word's bytes in the buffer's order |
| ByteArrays.ByteArray.GetBytes | bytearray.c:276-284 | a view into the storage at the offset iff offset + length <= len, whose bytes are `BufferSpec.GetBytes` of the record; changes nothing |
| ByteArrays.ByteArray.SetBytes | bytearray.c:286-295 | the result and the new record are `BufferSpec.SetBytes` of the old record |
| ByteArrays.ByteArray.AppendBytes | bytearray.c:297-306 | the result and the new record are `BufferSpec.AppendBytes` of the old record; on success the valid prefix is the old prefix followed by the bytes |
| ByteArrays.CapacityOf | bytearray.c:140-145 | the capacity, or 0 for an absent buffer |
| ByteArrays.LengthOf | bytearray.c:147-152 | the length, or 0 for an absent buffer |
| ByteArrays.DataPointerOf | bytearray.c:154-159 | the storage, or null for an absent buffer |
| ByteArrays.AppendByteArray | bytearray.c:308-320 | fails when either buffer is absent or both are the same; otherwise the result and `dest`'s new record are `BufferSpec.AppendBuffer` of the old records; on success `dest`'s valid prefix is followed by `src`'s; `src` is unchanged |
| ByteArrays.ScenarioLayout | test/main.c:28-33 | the six appended values laid out big-endian are the bytes 01 02 11 12 13 14 21 22 23 24 25 26 27 28 |
| ByteArrays.AppendScenario | test/main.c:28-33 | the six appends to an empty big-endian buffer leave length 14 and those 14 bytes |
| ByteArrays.HostWordRegion | test/main.c:22-23 | the region holds the word 0x12345678 as the host stores it, which is 78 56 34 12 on the little-endian host |
| ByteArrays.Demo | test/main.c:19-35 | the calls of the test program leave in the created buffer the 14 appended bytes followed by the host's layout of 0x12345678: 01 02 11 12 13 14 21 22 23 24 25 26 27 28 78 56 34 12 |
| ByteArrays.AttachedRead | test/main.c:22-24 | appending a byte to the full attached buffer fails, and its word at offset 0 is the host's bytes of 0x12345678 read big-endian, 0x78563412 on the little-endian host |

## Left out

- `byteArrayDelete` and `byteArrayDetach` (bytearray.c:112-119, 134-138) only release memory. Deallocation is not part of the model.
- Allocation failure: `Create` and `Attach` always succeed. The code returns NULL when the allocator fails. The allocator macros (bytearray.c:20-60) are not modelled.
- Absent (NULL) buffers: the getters and `AppendByteArray` accept an absent buffer. The other operations are methods of a `ByteArray` object, which cannot be null, so their "absent buffer → false" path is not modelled.
- Integer width: offsets, lengths and capacities are unbounded naturals. The `size_t` sums `offset + length` and `len + length` can wrap around in C. For example, an offset near `SIZE_MAX` passes a bounds check. This is not modelled.
- Pointer casts: the halfword and word pointer stores and loads of the code are modelled as byte-wise encoding and decoding in host order. Misalignment and strict-aliasing behaviour are not modelled.
- Byte ranges: `SetBytes` and `AppendBytes` take a `seq<byte>` instead of a pointer and a length. A source range that overlaps the buffer's own storage (undefined for `memcpy`) is not modelled.
- `NativeOrder`: the class methods run on a little-endian host. A big-endian host is covered only through the `host` parameter of the `BufferSpec` functions and the host-independence lemmas.
- `ByteArrays.ByteArray.GetByte`, `GetHalfword`, `GetWord`, `GetBytes`: these require `offset + size <= len ==> offset + size <= capacity`. The code does not check this. Without it, a buffer whose `len` exceeds `capacity` would be read outside its storage.
- `BufferSpec.GetByte`, `GetHalfword`, `GetWord`, `GetBytes`: the same precondition, for the same reason.
- `ByteArrays.AppendByteArray`: for the same reason it requires that a copy it would perform stays within `src`'s capacity. When two buffers share storage, the source bytes are taken before the copy (`memmove` semantics). The code's `memcpy` on an overlapping region is undefined.
- `BufferSpec.AppendBuffer`: the same precondition on `src`'s capacity.
- `BufferSpec.SetRoundTrip`: it is stated only for offsets not beyond the old length. Beyond it, a Set succeeds but its value cannot be read back (`SetReadBackIff`, `SetPastLengthIsUnreadable`).
- `BufferSpec.Step`: it covers the write calls only. The read calls change nothing, which the class methods state by having no `modifies` clause.
- Printing in `test/main.c` (`alog`, `printf`) is not modelled.
