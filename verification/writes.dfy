/**
  The cursor-driven write that append, replace and insert all share: bytes
  go into the storage starting at a cursor, and the buffer's mode decides
  what happens to bytes that would land past the capacity.

  The cursor here is any natural number. Append starts it at the buffer's
  offset, replace and insert at a caller-supplied index, which may lie past
  the capacity.
 */
module Writes {
  import opened Bytes
  import opened ByteBuffer

  /** The storage after a write and the cursor it left behind. */
  datatype Written = Written(data: seq<Byte>, cursor: nat)

  /** `xs` laid over `data` from `pos`, with whatever falls past the end of `data` dropped. */
  function Overlay(data: seq<Byte>, pos: nat, xs: seq<Byte>): (r: seq<Byte>)
    ensures |r| == |data|
    ensures forall i :: 0 <= i < |data| ==> r[i] == (if pos <= i < pos + |xs| then xs[i - pos] else data[i])
  {
    seq(|data|, i requires 0 <= i < |data| => if pos <= i < pos + |xs| then xs[i - pos] else data[i])
  }

  /**
    One byte at the cursor. Past the capacity, Ring mode restarts at index 0
    and leaves the cursor at 1; the other modes drop the byte.
   */
  function WriteByte(data: seq<Byte>, mode: Mode, pos: nat, x: Byte): (r: Written)
    ensures |r.data| == |data|
    ensures pos < |data| ==> r == Written(Overlay(data, pos, [x]), pos + 1)
    ensures pos >= |data| && mode == Ring && |data| > 0 ==> r == Written(Overlay(data, 0, [x]), 1)
    ensures pos >= |data| && (mode != Ring || |data| == 0) ==> r == Written(data, pos)
  {
    if pos < |data| then
      Written(data[pos := x], pos + 1)
    else if mode == Ring && |data| > 0 then
      Written(data[0 := x], 1)
    else
      Written(data, pos)
  }

  /** One `WriteByte` per byte of `xs`, in order. */
  function ByteByByte(data: seq<Byte>, mode: Mode, pos: nat, xs: seq<Byte>): (r: Written)
    ensures |r.data| == |data|
    ensures pos <= |data| ==> r.cursor <= |data|
    decreases |xs|
  {
    if xs == [] then
      Written(data, pos)
    else
      var w := WriteByte(data, mode, pos, xs[0]);
      ByteByByte(w.data, mode, w.cursor, xs[1..])
  }

  /** Truncate: write the prefix of `xs` that fits before the capacity. */
  function TruncateWrite(data: seq<Byte>, pos: nat, xs: seq<Byte>): (r: Written)
    ensures r.data == Overlay(data, pos, xs)
    ensures pos <= |data| ==> r.cursor == Min(pos + |xs|, |data|)
    ensures pos > |data| ==> r.cursor == pos
  {
    if pos < |data| then
      var k := Min(|xs|, |data| - pos);
      Written(data[..pos] + xs[..k] + data[pos + k..], pos + k)
    else
      Written(data, pos)
  }

  /** Skip: write all of `xs` or, when it would run past the capacity, none of it. */
  function SkipWrite(data: seq<Byte>, pos: nat, xs: seq<Byte>): (r: Written)
    ensures |r.data| == |data|
    ensures pos + |xs| > |data| ==> r == Written(data, pos)
    ensures pos + |xs| <= |data| ==> r == Written(Overlay(data, pos, xs), pos + |xs|)
  {
    if pos + |xs| > |data| then
      Written(data, pos)
    else
      Written(data[..pos] + xs + data[pos + |xs|..], pos + |xs|)
  }

  /** The write of a byte sequence, dispatched once on the mode. Ring mode writes byte by byte. */
  function WriteBytes(data: seq<Byte>, mode: Mode, pos: nat, xs: seq<Byte>): (r: Written)
    ensures |r.data| == |data|
    ensures pos <= |data| ==> r.cursor <= |data|
  {
    match mode
    case Truncate => TruncateWrite(data, pos, xs)
    case Skip => SkipWrite(data, pos, xs)
    case Ring => ByteByByte(data, Ring, pos, xs)
  }

  // ---------------------------------------------------------------------
  // Byte-by-byte writing

  /** Writing `xs + ys` is writing `xs`, then `ys` from wherever the cursor ended. */
  lemma {:induction false} ByteByByteSplit(data: seq<Byte>, mode: Mode, pos: nat, xs: seq<Byte>, ys: seq<Byte>)
    ensures ByteByByte(data, mode, pos, xs + ys)
            == (var w := ByteByByte(data, mode, pos, xs); ByteByByte(w.data, mode, w.cursor, ys))
    decreases |xs|
  {
    if xs == [] {
      assert xs + ys == ys;
    } else {
      var w := WriteByte(data, mode, pos, xs[0]);
      assert (xs + ys)[0] == xs[0];
      assert (xs + ys)[1..] == xs[1..] + ys;
      ByteByByteSplit(w.data, mode, w.cursor, xs[1..], ys);
    }
  }

  /** The last byte of a byte-by-byte write is one `WriteByte` after the rest. */
  lemma ByteByByteSnoc(data: seq<Byte>, mode: Mode, pos: nat, xs: seq<Byte>, x: Byte)
    ensures ByteByByte(data, mode, pos, xs + [x])
            == (var w := ByteByByte(data, mode, pos, xs); WriteByte(w.data, mode, w.cursor, x))
  {
    ByteByByteSplit(data, mode, pos, xs, [x]);
    var w := ByteByByte(data, mode, pos, xs);
    assert [x][1..] == [];
  }

  /** A write that fits before the capacity never wraps, whatever the mode: it lays `xs` over `data`. */
  lemma {:induction false} ByteByByteFits(data: seq<Byte>, mode: Mode, pos: nat, xs: seq<Byte>)
    requires pos + |xs| <= |data|
    ensures ByteByByte(data, mode, pos, xs) == Written(Overlay(data, pos, xs), pos + |xs|)
    decreases |xs|
  {
    if xs != [] {
      var w := WriteByte(data, mode, pos, xs[0]);
      ByteByByteFits(w.data, mode, w.cursor, xs[1..]);
      assert Overlay(w.data, pos + 1, xs[1..]) == Overlay(data, pos, xs);
    }
  }

  /** With the cursor at or past the capacity, Truncate and Skip drop every byte. */
  lemma {:induction false} ByteByByteFull(data: seq<Byte>, mode: Mode, pos: nat, xs: seq<Byte>)
    requires mode != Ring && pos >= |data|
    ensures ByteByByte(data, mode, pos, xs) == Written(data, pos)
    decreases |xs|
  {
    if xs != [] {
      ByteByByteFull(data, mode, pos, xs[1..]);
    }
  }

  // ---------------------------------------------------------------------
  // Truncate and Skip against the byte-by-byte reference

  /** Truncate's clipped copy is exactly what appending its bytes one at a time does. */
  lemma {:induction false} TruncateIsByteByByte(data: seq<Byte>, pos: nat, xs: seq<Byte>)
    ensures TruncateWrite(data, pos, xs) == ByteByByte(data, Truncate, pos, xs)
    decreases |xs|
  {
    if xs == [] {
      assert Overlay(data, pos, xs) == data;
    } else if pos >= |data| {
      ByteByByteFull(data, Truncate, pos, xs);
      assert Overlay(data, pos, xs) == data;
    } else {
      var w := WriteByte(data, Truncate, pos, xs[0]);
      TruncateIsByteByByte(w.data, w.cursor, xs[1..]);
      assert Overlay(w.data, pos + 1, xs[1..]) == Overlay(data, pos, xs);
    }
  }

  /** Skip writes what the byte-by-byte append writes when it fits, and nothing otherwise. */
  lemma SkipIsAllOrNothing(data: seq<Byte>, pos: nat, xs: seq<Byte>)
    ensures SkipWrite(data, pos, xs)
            == if pos + |xs| <= |data| then ByteByByte(data, Skip, pos, xs) else Written(data, pos)
  {
    if pos + |xs| <= |data| {
      ByteByByteFits(data, Skip, pos, xs);
    }
  }

  /** Writing one byte is writing the one-byte sequence, in every mode. */
  lemma WriteByteIsOneByteWrite(data: seq<Byte>, mode: Mode, pos: nat, x: Byte)
    ensures WriteByte(data, mode, pos, x) == WriteBytes(data, mode, pos, [x])
  {
    var w := WriteByte(data, mode, pos, x);
    assert ByteByByte(data, mode, pos, [x]) == ByteByByte(w.data, mode, w.cursor, []);
    if mode == Truncate {
      TruncateIsByteByByte(data, pos, [x]);
    } else if mode == Skip {
      SkipIsAllOrNothing(data, pos, [x]);
    }
  }

  // ---------------------------------------------------------------------
  // Ring mode as modular placement

  /** Where the `j`-th byte of a Ring write that starts at `pos` lands. */
  function RingSlot(size: nat, pos: nat, j: nat): (k: nat)
    requires size > 0
    ensures k < size
  {
    (pos + j) % size
  }

  /** Which byte of a write, if any, is the last to land on a slot. */
  datatype Last = Never | At(j: nat)

  /** The last of the first `n` bytes of a Ring write that lands on slot `k`. */
  function RingLast(size: nat, pos: nat, n: nat, k: nat): (r: Last)
    requires size > 0
    ensures r.At? ==> r.j < n && RingSlot(size, pos, r.j) == k
    ensures r.At? ==> forall j :: r.j < j < n ==> RingSlot(size, pos, j) != k
    ensures r.Never? ==> forall j :: 0 <= j < n ==> RingSlot(size, pos, j) != k
  {
    if n == 0 then Never
    else if RingSlot(size, pos, n - 1) == k then At(n - 1)
    else RingLast(size, pos, n - 1, k)
  }

  /** The last byte to land on slot `k` is the `j`-th when it lands there and no later one does. */
  lemma RingLastIs(size: nat, pos: nat, n: nat, k: nat, j: nat)
    requires size > 0 && j < n && RingSlot(size, pos, j) == k
    requires forall i :: j < i < n ==> RingSlot(size, pos, i) != k
    ensures RingLast(size, pos, n, k) == At(j)
  {
  }

  /** From 0, the first lap of a Ring write lands on the slot with its own number. */
  lemma RingSlotWithin(size: nat, j: nat)
    requires j < size
    ensures RingSlot(size, 0, j) == j
  {
    ModUnique(j, size, 0, j);
  }

  /** From 0, the second lap of a Ring write lands `size` slots back. */
  lemma RingSlotBeyond(size: nat, j: nat)
    requires size <= j < 2 * size
    ensures RingSlot(size, 0, j) == j - size
  {
    ModUnique(j, size, 1, j - size);
  }

  /** Where the cursor is after a Ring write of `n` bytes: one past the last slot written. */
  function RingCursor(size: nat, pos: nat, n: nat): (c: nat)
    requires size > 0
    ensures n > 0 ==> 0 < c <= size
    ensures n == 0 ==> c == pos
  {
    if n == 0 then pos else RingSlot(size, pos, n - 1) + 1
  }

  /** Every slot holds the last byte placed on it, or its old content when no byte was. */
  function RingPlacement(data: seq<Byte>, pos: nat, xs: seq<Byte>): (r: Written)
    requires |data| > 0
    ensures |r.data| == |data|
  {
    Written(
      seq(|data|, k requires 0 <= k < |data| =>
        match RingLast(|data|, pos, |xs|, k)
        case At(j) => xs[j]
        case Never => data[k]),
      RingCursor(|data|, pos, |xs|))
  }

  lemma {:induction false} MulAtLeast(s: int, d: int)
    requires s > 0 && d >= 1
    ensures s * d >= s
    decreases d
  {
    if d > 1 {
      MulAtLeast(s, d - 1);
      assert s * d == s * (d - 1) + s;
    }
  }

  /** Quotient and remainder are unique: a decomposition with the remainder in range gives `%`. */
  lemma ModUnique(a: int, s: int, q: int, r: int)
    requires s > 0 && a == s * q + r && 0 <= r < s
    ensures a % s == r
  {
    var q', r' := a / s, a % s;
    assert a == s * q' + r';
    if q' < q {
      assert s * (q - q') == r' - r;
      MulAtLeast(s, q - q');
    } else if q < q' {
      assert s * (q' - q) == r - r';
      MulAtLeast(s, q' - q);
    }
  }

  /** Stepping a position forward by one steps its slot forward, wrapping to 0 after the last. */
  lemma ModStep(a: nat, s: nat)
    requires s > 0
    ensures (a + 1) % s == if a % s + 1 < s then a % s + 1 else 0
  {
    var q, r := a / s, a % s;
    assert a == s * q + r;
    if r + 1 < s {
      ModUnique(a + 1, s, q, r + 1);
    } else {
      assert s * (q + 1) == s * q + s;
      ModUnique(a + 1, s, q + 1, 0);
    }
  }

  /** The cursor a Ring write leaves is where its next byte goes, and one more byte moves it on by one slot. */
  lemma RingCursorStep(size: nat, pos: nat, n: nat)
    requires size > 0 && pos <= size
    ensures RingCursor(size, pos, n) <= size
    ensures RingCursor(size, pos, n) < size ==> RingCursor(size, pos, n) == RingSlot(size, pos, n)
    ensures RingCursor(size, pos, n) == size ==> RingSlot(size, pos, n) == 0
    ensures RingCursor(size, pos, n + 1) == RingSlot(size, pos, n) + 1
  {
    if n == 0 {
      if pos < size {
        ModUnique(pos, size, 0, pos);
      } else {
        ModUnique(pos, size, 1, 0);
      }
    } else {
      ModStep(pos + n - 1, size);
    }
  }

  /**
    A Ring write places its `j`-th byte at slot `(pos + j) mod size`: each slot
    ends up holding the last byte placed there, and the cursor rests one past
    the last slot written.
   */
  lemma {:induction false} RingIsModular(data: seq<Byte>, pos: nat, xs: seq<Byte>)
    requires |data| > 0 && pos <= |data|
    ensures ByteByByte(data, Ring, pos, xs) == RingPlacement(data, pos, xs)
    decreases |xs|
  {
    if xs == [] {
      assert RingPlacement(data, pos, xs).data == data;
    } else {
      var n := |xs| - 1;
      var ys, x := xs[..n], xs[n];
      assert xs == ys + [x];
      ByteByByteSnoc(data, Ring, pos, ys, x);
      RingIsModular(data, pos, ys);
      var w := RingPlacement(data, pos, ys);
      var size := |data|;
      RingCursorStep(size, pos, n);
      var slot := RingSlot(size, pos, n);
      var after := WriteByte(w.data, Ring, w.cursor, x);
      assert after == Written(w.data[slot := x], slot + 1);
      var want := RingPlacement(data, pos, xs);
      assert want.cursor == slot + 1;
      forall k | 0 <= k < size
        ensures after.data[k] == want.data[k]
      {
        if k != slot {
          assert RingLast(size, pos, |xs|, k) == RingLast(size, pos, n, k);
        }
      }
      assert after.data == want.data;
    }
  }

  /** A Ring write whose cursor is at or past the capacity carries on at index 0. */
  lemma RingWrapsToStart(data: seq<Byte>, pos: nat, xs: seq<Byte>)
    requires |data| > 0 && pos >= |data| && xs != []
    ensures ByteByByte(data, Ring, pos, xs) == ByteByByte(data, Ring, 0, xs)
  {
  }
}
