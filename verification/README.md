# Fixed-capacity byte buffer — a Dafny model

This project models the byte buffer of `src/byte_utils.{c,h}` in bug00r/utils.
The buffer is a record with these fields:

- a storage area whose length is the capacity (`size`);
- an append cursor (`offset`), which stays between 0 and the capacity;
- an overflow mode: Truncate, Skip or Ring;
- two ownership flags: `alloc` (the buffer owns its storage) and `allocObj` (the record itself was allocated by `byte_buffer_new`).

The C file implements only part of the interface:

- the lifecycle: `init`, `init_new` and `free`;
- the three fill primitives;
- `is_alloc`.

Everything else is a stub that fails an assertion. This covers `clear`, the mode accessors, append, replace, insert, prepend, the four buffer-source operations and join. For these, the model follows the header's comments and the expected contents that `test/test_byte_utils.c` asserts. One write engine reproduces every asserted result:

- **append** writes at the cursor and advances it;
- **replace** writes from an index and keeps the cursor;
- **insert** captures the tail from its index and writes the new bytes followed by the captured tail from that index, as one write, and keeps the cursor;
- **prepend** is insert at 0.

Every write goes through the overflow mode:

- Truncate keeps the part that fits.
- Skip drops a write that would run past the capacity. The storage is always full, so Skip drops every non-empty insert and prepend.
- Ring carries on from index 0.

The buffer is an immutable value, and every operation is a pure function. The files are:

- `bytes.dfy` (module `Bytes`): bytes, `memset` regions and C string literals.
- `byte_buffer.dfy` (module `ByteBuffer`): the record, the constructors, release, the fills, clear, the mode accessors and the ownership query.
- `writes.dfy` (module `Writes`): the write engine on raw storage. It has a reference definition for each mode:
  - `Overlay`, for a write that fits or is clipped;
  - `RingPlacement`, which places byte `j` at slot `(pos + j) mod size` so that the last byte placed on a slot wins.
- `edits.dfy` (module `Edits`): append, replace, insert, prepend, their single-byte and buffer-source forms, join, and the invariant over arbitrary call sequences.
- `test_oracles.dfy` (module `TestOracles`): the call sequences of the test program and the contents it expects, stated over the test's own string literals.
- `findings.dfy` (module `Findings`): code as written where it departs from what its tests expect.

Modelling choices:

- Capacities and indices are unbounded naturals. The width of `size_t` matters only in `fill_range`'s clipping test, and `Findings` writes that wrap-around out.
- A byte is an integer in 0..255.
- A released buffer has empty storage.
- Storage that comes from `malloc`, or from the caller in `init`, is a parameter. The model says nothing about its initial contents.

## Model

| member | source | states |
|---|---|---|
| ByteBuffer.Init | src/byte_utils.c:4-18 | The buffer wraps the caller's storage unchanged. Cursor 0, capacity is the storage length, not owning, `allocObj` false, mode as given. The result is valid and ownership-consistent. |
| ByteBuffer.InitNew | src/byte_utils.c:22-35 | Cursor 0, capacity as requested, owns its storage, `allocObj` false, mode as given. The result is valid and ownership-consistent. |
| ByteBuffer.New | src/byte_utils.h:28-29 | Cursor 0, capacity as requested, owns both the record and its storage (`allocObj` implies `alloc`), mode as given. |
| ByteBuffer.Free | src/byte_utils.c:38-51 | Storage goes back to the allocator exactly when the buffer owns it. The record is left with no storage, size 0 and cursor 0. Flags and mode are kept. |
| ByteBuffer.FillComplete | src/byte_utils.c:54-61 | Every byte becomes the fill byte. Capacity, cursor, mode and flags are unchanged. |
| ByteBuffer.FillToEnd | src/byte_utils.c:64-71 | Bytes before the index keep their value and bytes from the index on become the fill byte. An index at or past the capacity changes nothing. |
| ByteBuffer.FillRangeCount | src/byte_utils.c:77-81 | The count written from a start inside the buffer is `min(cnt, size - start)`, and 0 from a start outside it. Start plus count never passes the capacity. |
| ByteBuffer.FillRange | src/byte_utils.c:74-83 | Inside the buffer, exactly the bytes in `[start, start + cnt)` become the fill byte and all others keep their value. A start at or past the capacity changes nothing. |
| ByteBuffer.FillRangeToCapacity | src/byte_utils.c:74-83 | A range fill that reaches the capacity is the same as a fill to the end from its start. |
| ByteBuffer.FillRangeWholeIsComplete | src/byte_utils.c:54-83 | A range from 0 that covers the capacity is a complete fill. |
| ByteBuffer.Clear | test/test_byte_utils.c:338-345 | Every byte becomes 0 and the cursor returns to 0. Capacity, mode and flags are unchanged. The cursor reset is what lets the appends after the clear at test line 547 land (see `TestOracles.AppendFormattedOracle`). |
| ByteBuffer.ClearIdempotent | test/test_byte_utils.c:338-345 | Clearing twice is the same as clearing once. |
| ByteBuffer.SetMode | src/byte_utils.h:53 | Only the mode changes. Storage, cursor and flags are kept. |
| ByteBuffer.GetMode | src/byte_utils.h:55 | The mode read back is the buffer's own: setting it again changes nothing. |
| ByteBuffer.ModeRoundTrip | test/test_byte_utils.c:364-368 | Reading the mode returns the one last set, and setting the mode just read changes nothing. |
| ByteBuffer.IsAlloc | src/byte_utils.c:103-106 | The query is true exactly when releasing the buffer gives its storage back to the allocator. A record that owns itself consistently also owns its storage. |
| ByteBuffer.IsAllocFollowsConstructor | src/byte_utils.c:103-106 | The ownership query is false after `init` and true after `init_new` and `new`. It is still true after releasing an `init_new` buffer. |
| Writes.WriteByte | src/byte_utils.h:13-15 | A byte at a cursor inside the buffer overwrites that slot and advances the cursor. Past the capacity, Ring writes slot 0 and leaves the cursor at 1. The other modes change nothing. |
| Writes.ByteByByte | src/byte_utils.h:13-15 | Writing byte by byte never changes the capacity. From a cursor inside the buffer, the cursor never passes the capacity. |
| Writes.TruncateWrite | src/byte_utils.h:13 | The clipped write equals the overlay of the bytes on the storage. The cursor ends at `min(pos + n, size)`. |
| Writes.SkipWrite | src/byte_utils.h:14 | A write that would run past the capacity leaves storage and cursor untouched. A write that fits is the overlay, and the cursor advances by its length. |
| Writes.WriteBytes | src/byte_utils.h:11-16 | A write in any mode keeps the capacity. From a cursor inside the buffer, it keeps the cursor within the capacity. |
| Writes.ByteByByteSplit | src/byte_utils.h:59-61 | Writing `xs + ys` is writing `xs`, then writing `ys` from where the cursor ended. |
| Writes.ByteByByteFits | src/byte_utils.h:13-15 | A write that fits overlays the bytes at the cursor in every mode, and the cursor advances by the write's length. |
| Writes.ByteByByteFull | src/byte_utils.h:13-14 | In Truncate and Skip, a cursor at or past the capacity drops every byte. |
| Writes.TruncateIsByteByByte | src/byte_utils.h:13 | Truncate's clipped copy equals writing its bytes one at a time. |
| Writes.SkipIsAllOrNothing | src/byte_utils.h:14 | Skip equals the byte-by-byte write when that write fits, and otherwise changes nothing. |
| Writes.WriteByteIsOneByteWrite | src/byte_utils.h:59-60 | A one-byte write equals the write of a one-element sequence, in every mode. |
| Writes.RingIsModular | src/byte_utils.h:15 | A Ring write, byte by byte, equals the modular placement. Each slot holds the last byte placed on it, and the cursor ends one past the last slot written. |
| Writes.RingCursorStep | src/byte_utils.h:15 | The cursor after a Ring write is where the next byte goes, and one more byte moves it on by one slot. |
| Writes.RingWrapsToStart | src/byte_utils.h:15 | A Ring write from a cursor at or past the capacity carries on from index 0. |
| Edits.AppendByte | src/byte_utils.h:59-60 | Inside the buffer, the byte lands at the cursor and the cursor moves on by one. At the capacity, Ring writes slot 0 and sets the cursor to 1, and the other modes change nothing. |
| Edits.AppendBytes | src/byte_utils.h:59-61 | Truncate overlays the bytes at the cursor and clips the cursor at the capacity. Skip writes all the bytes or, on overflow, leaves the buffer unchanged. Ring follows the modular placement. |
| Edits.AppendByteIsOneByteAppend | src/byte_utils.h:59-61 | A single-byte append is the append of a one-byte sequence. |
| Edits.AppendEachIsByteByByte | src/byte_utils.h:59-61 | Appending bytes one call at a time is the byte-by-byte write of the engine. |
| Edits.AppendEachIsAppend | test/test_byte_utils.c:384-402 | In Truncate and Ring, appending bytes one call at a time is the same as one append of the whole sequence. |
| Edits.AppendFits | src/byte_utils.h:59-61 | An append that fits writes all of its bytes at the cursor and advances the cursor by their number, in every mode. |
| Edits.TruncateFullIsNoOp | src/byte_utils.h:13 | In Truncate, a full buffer ignores every further append. |
| Edits.Replace | src/byte_utils.h:64-66 | The bytes are written from the index and the cursor is kept. Truncate overlays the bytes; Skip writes all or nothing; Ring places them from the index, or from 0 when the index is past the end. An index past the end is a no-op in Truncate and Skip. |
| Edits.RingFromIndex | src/byte_utils.h:15 | A Ring write from any index lands where the modular placement from its start says. |
| Edits.ReplaceIsRelocatedAppend | src/byte_utils.h:64-66 | For an index inside the buffer, replace is an append from the index, with the cursor put back afterwards. |
| Edits.ReplaceByte | src/byte_utils.h:64 | Inside the buffer, exactly one slot changes, and the cursor is kept. Past the end, Truncate and Skip change nothing and Ring overwrites slot 0. |
| Edits.Insert | src/byte_utils.h:69-71 | An index past the end is a no-op. Truncate gives the head, then the inserted bytes, then the old tail, cut at the capacity. Skip keeps the shifted content only when it fits, which it never does for a non-empty insert, so Skip leaves the buffer unchanged. Ring places the inserted bytes and the old tail modularly from the index. The cursor is always kept. |
| Edits.InsertShape | src/byte_utils.h:69-71 | The write of an insert gives the shifted content cut at the capacity in Truncate, the all-or-nothing shifted content in Skip, and the modular placement in Ring. |
| Edits.InsertShifted | src/byte_utils.h:69-71 | Laying the new bytes and the old tail over the storage from the index is the shifted content cut at the capacity. |
| Edits.InsertOverflows | src/byte_utils.h:14 | In Skip, the shifted content fits only when nothing is inserted, and then it is the old content, so the insert changes nothing. |
| Edits.InsertIsTwoWrites | src/byte_utils.h:69-71 | In Truncate and Ring, the single write of an insert equals writing the new bytes and then the captured tail from where that write stopped. |
| Edits.InsertShiftsRight | src/byte_utils.h:69-71 | In Truncate, after an insert the head is unchanged and the inserted bytes read back. Every old tail byte that still fits sits `n` places further right. |
| Edits.InsertByte | src/byte_utils.h:69 | In Truncate, the tail shifts right by one and the last byte drops. Skip changes nothing. Ring places the byte and the old tail modularly from the index. An index past the end is a no-op. |
| Edits.Prepend | src/byte_utils.h:74-76 | Insert at 0. In Truncate, the new bytes go in front and the old content moves right, cut at the capacity. Skip changes nothing. In Ring, `n` bytes with `n` at most the capacity rotate the content right by `n`. |
| Edits.RingPrependRotates | src/byte_utils.h:15 | In Ring, prepending `n` bytes, with `n` at most the capacity, rotates the buffer right by `n`. The old content survives whole, and the tail coming round overwrites every prepended byte. |
| Edits.PrependByte | src/byte_utils.h:74 | Truncate puts the byte in front and drops the last byte. Skip changes nothing. Ring rotates the content right by one, so the last byte comes to the front. |
| Edits.AppendBuffer | src/byte_utils.h:79 | The source's whole storage is appended. In Truncate, it is overlaid at the cursor, and the cursor is clipped at the capacity. In Skip, an overflowing source changes nothing. In Ring, the source follows the modular placement from the cursor. A fitting source lands at the cursor, which then advances by the source's capacity. |
| Edits.PrependBuffer | src/byte_utils.h:80 | In Truncate, the source's bytes go in front and the destination's content moves right, cut at the capacity. Skip changes nothing. In Ring, a source no larger than the destination rotates the destination right by the source's size. |
| Edits.ReplaceBuffer | src/byte_utils.h:81 | The cursor is kept. Truncate overlays the source's bytes from the index. Skip overlays them only when they fit. Ring places them modularly from the index, or from 0 past the end. |
| Edits.InsertBuffer | src/byte_utils.h:82 | In Truncate, the source's bytes are inserted at the index and the tail shifts right, cut at the capacity. Skip changes nothing. Ring places the source and the old tail modularly from the index. |
| Edits.Join | src/byte_utils.h:84-87 | The result is a new buffer whose content is A followed by B, whose capacity is the sum of both, and whose cursor is at the end. It owns itself and its storage and has the requested mode. |
| Edits.JoinFrom | src/byte_utils.h:84-87 | The same holds whatever bytes the freshly allocated storage held. |
| Edits.OverlayBoth | src/byte_utils.h:84-87 | Writing A and then B over storage of exactly their combined length gives A followed by B. |
| Edits.JoinIgnoresFreshContent | src/byte_utils.h:84-87 | The result of join does not depend on the initial contents of the new storage. |
| Edits.Apply | src/byte_utils.h:18-26 | Every operation on a valid buffer keeps the capacity and the ownership flags, and keeps the cursor within the capacity. Only a mode change alters the mode. |
| Edits.Run | src/byte_utils.h:18-26 | Any sequence of operations keeps the capacity and the ownership flags, and keeps the cursor within the capacity. Without a mode change, the mode is kept too. |
| TestOracles.Bands | test/test_byte_utils.c:806-810 | Four range fills give bands of 5 'A', 'B', 'C' and 'D'. |
| TestOracles.FillToEndOracle | test/test_byte_utils.c:127-182 | Filling to the end from 3 and from 19 gives the asserted contents. Filling from 20 changes nothing. |
| TestOracles.FillRangeHeadOracle | test/test_byte_utils.c:196-219 | Range (0, 5) writes the first five bytes. |
| TestOracles.FillRangeMiddleOracle | test/test_byte_utils.c:222-246 | Range (5, 5) writes bytes 5 to 9. |
| TestOracles.FillRangeTailOracle | test/test_byte_utils.c:249-269 | Range (14, 6) writes the last six bytes. |
| TestOracles.FillRangeOverlongOracle | test/test_byte_utils.c:272-284 | Range (0, 23) is cut at the capacity. |
| TestOracles.FillRangeOverlongFromMiddleOracle | test/test_byte_utils.c:287-306 | Range (5, 23) is cut at the capacity. |
| TestOracles.FillRangePastEndOracle | test/test_byte_utils.c:309-319 | A range starting at 26 changes nothing. |
| TestOracles.AppendByteOracle | test/test_byte_utils.c:382-402 | After a clear, nine single-byte appends land at 0 to 8, the rest stays 0, and the cursor is 9. |
| TestOracles.AppendBytesTruncateOracle | test/test_byte_utils.c:475-540 | Appending 10, then 6, then 10 bytes in Truncate keeps exactly the first 20 bytes, and the cursor ends at 20. |
| TestOracles.AppendFormattedOracle | test/test_byte_utils.c:475-560 | Starting from the full buffer, with cursor 20, that the three truncating appends leave, a clear and a fill with 'A' are followed by the two rendered appends. The result is "[47.222][FU]AAAAAAAA" with the cursor at 12. |
| TestOracles.AppendBytesSkipOracle | test/test_byte_utils.c:574-638 | In Skip, the two fitting appends succeed and the overflowing third leaves the buffer unchanged. |
| TestOracles.AppendBytesRingOracle | test/test_byte_utils.c:658-707 | In Ring, 26 bytes give "KLMNOP6789ABCDEFGHIJ" with the cursor at 6. |
| TestOracles.ReplaceByteOracle | test/test_byte_utils.c:729-740 | Mixed byte replaces and appends give "CCABAAAAABAAAAAAAAAB" with the cursor at 2. A replace at 20 is a no-op. |
| TestOracles.ReplaceBytesOracle | test/test_byte_utils.c:759-790 | Replaces keep the cursor, which stays at 13. The contents are "012VWXYZ89CCCAAAAAAA" and then "012[47.222]CCAA[LOL]". |
| TestOracles.InsertByteOracle | test/test_byte_utils.c:805-817 | Byte inserts at 0, 6 and 19 give "EAAAAAFBBBBBCCCCCDDG". An insert at 29 is a no-op. |
| TestOracles.InsertBytesOracle | test/test_byte_utils.c:836-864 | Inserts give "EEAAAAFFFABBBBBCCCGG" and then "EEA[47.222]AA[TADA]A". An insert at 29 is a no-op. |
| TestOracles.PrependByteOracle | test/test_byte_utils.c:878-890 | Four byte prepends give "HGFEAAAAABBBBBCCCCCD". |
| TestOracles.PrependBytesOracle | test/test_byte_utils.c:909-945 | Prepends shift and cut at the capacity. An oversized prefix keeps only its first 20 bytes. |
| TestOracles.AppendBufferOracle | test/test_byte_utils.c:960-988 | Appending a 10-byte and then a 5-byte source gives "BBBBBBBBBBCCCCCAAAAA". |
| TestOracles.PrependBufferOracle | test/test_byte_utils.c:1007-1035 | Prepending both sources gives "CCCCCBBBBBBBBBBAAAAA". |
| TestOracles.ReplaceBufferOracle | test/test_byte_utils.c:1055-1083 | Replacing at 4 and then at 6 gives "AAAABBCCCCCBBBAAAAAA". |
| TestOracles.InsertBufferOracle | test/test_byte_utils.c:1103-1130 | Inserting at 0 and then at 3 gives "BBBCCCCCBBBBBBBAAAAA". |
| TestOracles.JoinOracle | test/test_byte_utils.c:1150-1174 | Joining 20 'A' with 10 'B' gives capacity 30, cursor 30, both ownership flags set, and A×20 followed by B×10. |
| Findings.FillRangeCountAsWritten | src/byte_utils.c:79-81 | With the `size_t` sum taken modulo 2^64, the count agrees with the clipped count whenever the sum does not wrap. |
| Findings.FillRangeAsWrittenOverrunsOnlyOnWrap | src/byte_utils.c:79-81 | The as-written count runs past the capacity exactly when `cnt + start` wraps to a value below the capacity. The corrected count never runs past it. |
| Findings.FillRangeAsWrittenCounterexample | src/byte_utils.c:79-81 | With capacity 20, start 1 and `cnt = SIZE_MAX`, the as-written count is SIZE_MAX instead of 19. |
| Findings.InitAsWritten | src/byte_utils.c:4-18 | `init` writes every field but `allocObj`. It agrees with the corrected `Init` only on a record whose `allocObj` is already false. |
| Findings.InitNewAsWritten | src/byte_utils.c:22-35 | `init_new` writes every field but `allocObj`. It agrees with the corrected `InitNew` only on a record whose `allocObj` is already false. |
| Findings.InitKeepsStaleAllocObj | src/byte_utils.c:4-35 | On a record whose `allocObj` is set, `init` and `init_new` leave it set. After `init` the record claims to own itself but not its storage. |

## Left out

- Null records: `init`, `init_new`, `free` and the three fills do nothing on a null record. `is_alloc` dereferences its argument unchecked, so on null its behaviour is undefined. The stubs fail their assertion whatever the argument. The model has no null values.
- The `*_fmt` variants (`printf`-style rendering, including `%.3f`): they are modelled as the byte operation on text that is already rendered, and the test oracles use the rendered strings.
- Memory management: `malloc`, its failure, and the initial content of allocated storage. Allocated storage is a parameter with unspecified content.
- ByteBuffer.Free: follows the C definition, which takes a single pointer. The header declares a double pointer (`ByteBuffer**`). The model does not release the record of a `byte_buffer_new` buffer, and it does not null the caller's handle, which the test asserts at line 86.
- ByteBuffer.New: `byte_buffer_new` is declared in the header but has no body. Its result follows the test's assertions at lines 75-82.
- Edits.Join: follows the header's three-parameter signature with a result mode. The C stub takes two parameters.
- The typedef names differ between the header (`ByteBuffer`, `ByteBufferMode`) and the C file (`byte_buffer_t`, `byte_buffer_mode_t`). This is a naming matter only.
- The single-byte overflow loops at test/test_byte_utils.c:414-417, 433-436 and 453-456 start at index 27, past capacity 20, so they assert nothing. The overflowing single-byte rule (Ring writes slot 0 and sets the cursor to 1) is therefore taken from the header's Ring comment alone.
- Exact fit in Skip mode: when a write ends exactly at the capacity, the model performs it. Only writes that strictly overflow are dropped. Neither code nor tests decide this boundary. Join in Skip mode needs the exact-fit write to produce A followed by B.
- Skip-mode insert: an insert is modelled as one write of the new bytes followed by the captured tail, so Skip drops it whole, as the header says for inserts (src/byte_utils.h:14). Writing the new bytes and the tail as two separate writes would overwrite without shifting in Skip. `Edits.InsertIsTwoWrites` shows the two forms agree in Truncate and Ring. No test exercises insert or prepend in Skip or Ring.
- Aliasing: a buffer used as both source and destination is read before the write, because values cannot alias.
- `src/defs.h` (logging macros), and the XSLT and XML glue in `src/xslt_utils.*` and `src/xml_source.c`: these are foreign library calls and I/O, outside the buffer.

## Findings

| source | as written | input that shows it | evidently intended | confidence | as-written member | corrected member |
|---|---|---|---|---|---|---|
| src/byte_utils.c:80 | `alignedCnt + startIndex < buffer->size` is computed in `size_t` and can wrap, so a huge `cnt` passes the test unclipped | capacity 20, `startIndex` 1, `cnt` SIZE_MAX: the sum wraps to 0 < 20 and `memset` is asked for SIZE_MAX bytes from index 1 | clip the count to `size - startIndex`, as the else branch of the ternary at line 80 does and as the overlong-range tests at test/test_byte_utils.c:272-306 expect | high, not executed | Findings.FillRangeCountAsWritten | ByteBuffer.FillRangeCount |
| src/byte_utils.c:9-17 | `byte_buffer_init` never writes `allocObj`, so an uninitialised record keeps whatever it held | the test's stack record at test/test_byte_utils.c:42 with `allocObj` set, which the assertion at line 51 would reject | `allocObj` set to false | medium, not executed | Findings.InitAsWritten | ByteBuffer.Init |
| src/byte_utils.c:26-34 | `byte_buffer_init_new` never writes `allocObj` either | a record reused after a buffer with `allocObj` set; the test asserts false at line 66 | `allocObj` set to false | medium, not executed | Findings.InitNewAsWritten | ByteBuffer.InitNew |
