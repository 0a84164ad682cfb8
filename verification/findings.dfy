/**
  Three places where the C code does not do what its own tests and comments
  say, each modelled as written next to a counterexample. The rest of the
  model uses the corrected definitions in `ByteBuffer`.
 */
module Findings {
  import opened Bytes
  import opened ByteBuffer

  // ---------------------------------------------------------------------
  // fill_range: the clipping test adds two size_t values and can wrap

  /**
    The byte count `byte_buffer_fill_range` hands to `memset`, with the sum
    `cnt + startIndex` taken modulo the width of `size_t` as C computes it.
   */
  function FillRangeCountAsWritten(size: nat, start: nat, cnt: nat): (k: nat)
    requires size < SizeModulus && start < SizeModulus && cnt < SizeModulus
    ensures start >= size ==> k == 0
    ensures start < size && cnt + start < SizeModulus ==> k == FillRangeCount(size, start, cnt)
  {
    if start < size then
      if (cnt + start) % SizeModulus < size then cnt else size - start
    else
      0
  }

  /**
    The as-written count runs past the capacity exactly when the sum wraps
    to a value below the capacity; the corrected count never does.
   */
  lemma FillRangeAsWrittenOverrunsOnlyOnWrap(size: nat, start: nat, cnt: nat)
    requires size < SizeModulus && start < SizeModulus && cnt < SizeModulus
    requires start < size
    ensures start + FillRangeCountAsWritten(size, start, cnt) > size
            <==> cnt + start >= SizeModulus && cnt + start - SizeModulus < size
    ensures start + FillRangeCount(size, start, cnt) <= size
  {
    if cnt + start >= SizeModulus {
      assert (cnt + start) % SizeModulus == cnt + start - SizeModulus;
    }
  }

  /** A 20-byte buffer, start 1 and `cnt == SIZE_MAX`: `memset` is asked for SIZE_MAX bytes from index 1. */
  lemma FillRangeAsWrittenCounterexample()
    ensures FillRangeCountAsWritten(20, 1, SizeModulus - 1) == SizeModulus - 1
    ensures 1 + FillRangeCountAsWritten(20, 1, SizeModulus - 1) > 20
    ensures FillRangeCount(20, 1, SizeModulus - 1) == 19
  {
    assert (SizeModulus - 1 + 1) % SizeModulus == 0;
  }

  // ---------------------------------------------------------------------
  // init and init_new never write allocObj

  /** `byte_buffer_init` on the record `rec`: every field but `allocObj` is written. */
  function InitAsWritten(rec: Buffer, mode: Mode, storage: seq<Byte>): (r: Buffer)
    ensures r.allocObj == rec.allocObj
    ensures !r.alloc && r.mode == mode && r.offset == 0 && r.data == storage
    ensures !rec.allocObj ==> r == Init(mode, storage)
  {
    rec.(alloc := false, mode := mode, offset := 0, data := storage)
  }

  /** `byte_buffer_init_new` on the record `rec`: every field but `allocObj` is written. */
  function InitNewAsWritten(rec: Buffer, mode: Mode, storage: seq<Byte>): (r: Buffer)
    ensures r.allocObj == rec.allocObj
    ensures r.alloc && r.mode == mode && r.offset == 0 && r.Size() == |storage|
    ensures !rec.allocObj ==> r == InitNew(mode, storage)
  {
    rec.(alloc := true, mode := mode, offset := 0, data := storage)
  }

  /**
    A record whose `allocObj` is still set, as an uninitialised or reused
    record may have it: init leaves a buffer that claims to own itself but
    not its storage, and init_new one that claims to own itself. Both
    corrected constructors clear the flag.
   */
  lemma InitKeepsStaleAllocObj(mode: Mode, storage: seq<Byte>)
    ensures var stale := New(mode, storage);
            && InitAsWritten(stale, mode, storage).allocObj
            && !InitAsWritten(stale, mode, storage).OwnershipConsistent()
            && InitNewAsWritten(stale, mode, storage).allocObj
    ensures !Init(mode, storage).allocObj && !InitNew(mode, storage).allocObj
  {
  }
}
