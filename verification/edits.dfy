/**
  The operations the C header declares on top of the cursor write: append,
  replace, insert and prepend of bytes, their single-byte and buffer-source
  forms, and join.

  Append writes at the buffer's cursor and advances it. Replace writes from
  an index and leaves the cursor where it was. Insert captures the tail from
  its index and writes the new bytes followed by the captured tail from that
  index, as one write, leaving the cursor where it was. Every write goes
  through the buffer's overflow mode.
 */
module Edits {
  import opened Bytes
  import opened ByteBuffer
  import opened Writes

  /** Mode and ownership are the same in both records. */
  predicate SameSettings(a: Buffer, b: Buffer)
  {
    a.mode == b.mode && a.alloc == b.alloc && a.allocObj == b.allocObj
  }

  /** Where a Ring write from `index` starts: an index past the capacity wraps to 0. */
  function RingStart(size: nat, index: nat): (start: nat)
    ensures size > 0 ==> start < size
  {
    if index < size then index else 0
  }

  // ---------------------------------------------------------------------
  // Append

  function AppendByte(b: Buffer, x: Byte): (r: Buffer)
    requires b.Valid()
    ensures r.Valid() && r.Size() == b.Size() && SameSettings(r, b)
    ensures b.offset < b.Size() ==> r.data == b.data[b.offset := x] && r.offset == b.offset + 1
    ensures b.offset == b.Size() && b.mode == Ring && b.Size() > 0 ==> r.data == b.data[0 := x] && r.offset == 1
    ensures b.offset == b.Size() && (b.mode != Ring || b.Size() == 0) ==> r == b
  {
    var w := WriteByte(b.data, b.mode, b.offset, x);
    b.(data := w.data, offset := w.cursor)
  }

  function AppendBytes(b: Buffer, xs: seq<Byte>): (r: Buffer)
    requires b.Valid()
    ensures r.Valid() && r.Size() == b.Size() && SameSettings(r, b)
    ensures b.mode == Truncate ==>
              r.data == Overlay(b.data, b.offset, xs) && r.offset == Min(b.offset + |xs|, b.Size())
    ensures b.mode == Skip && b.offset + |xs| > b.Size() ==> r == b
    ensures b.mode == Skip && b.offset + |xs| <= b.Size() ==>
              r.data == Overlay(b.data, b.offset, xs) && r.offset == b.offset + |xs|
    ensures b.mode == Ring && b.Size() > 0 ==>
              r.data == RingPlacement(b.data, b.offset, xs).data
              && r.offset == RingCursor(b.Size(), b.offset, |xs|)
  {
    var w := WriteBytes(b.data, b.mode, b.offset, xs);
    assert b.mode == Ring && b.Size() > 0 ==> w == RingPlacement(b.data, b.offset, xs) by {
      if b.mode == Ring && b.Size() > 0 {
        RingIsModular(b.data, b.offset, xs);
      }
    }
    b.(data := w.data, offset := w.cursor)
  }

  /** A single-byte append is the append of a one-byte sequence, in every mode. */
  lemma AppendByteIsOneByteAppend(b: Buffer, x: Byte)
    requires b.Valid()
    ensures AppendByte(b, x) == AppendBytes(b, [x])
  {
    WriteByteIsOneByteWrite(b.data, b.mode, b.offset, x);
  }

  /** One `AppendByte` per byte of `xs`, as a caller's loop over single bytes does. */
  function AppendEach(b: Buffer, xs: seq<Byte>): (r: Buffer)
    requires b.Valid()
    ensures r.Valid() && r.Size() == b.Size() && SameSettings(r, b)
    decreases |xs|
  {
    if xs == [] then b else AppendEach(AppendByte(b, xs[0]), xs[1..])
  }

  lemma {:induction false} AppendEachIsByteByByte(b: Buffer, xs: seq<Byte>)
    requires b.Valid()
    ensures var w := ByteByByte(b.data, b.mode, b.offset, xs);
            AppendEach(b, xs) == b.(data := w.data, offset := w.cursor)
    decreases |xs|
  {
    if xs != [] {
      AppendEachIsByteByByte(AppendByte(b, xs[0]), xs[1..]);
    }
  }

  /**
    In Truncate and Ring mode, appending bytes one at a time is appending them
    all at once. Skip differs: single bytes fill up to the capacity, where a
    sequence that does not fit is dropped whole.
   */
  lemma AppendEachIsAppend(b: Buffer, xs: seq<Byte>)
    requires b.Valid() && b.mode != Skip
    ensures AppendEach(b, xs) == AppendBytes(b, xs)
  {
    AppendEachIsByteByByte(b, xs);
    if b.mode == Truncate {
      TruncateIsByteByByte(b.data, b.offset, xs);
    }
  }

  /** An append that fits before the capacity writes all of `xs` at the cursor, whatever the mode. */
  lemma AppendFits(b: Buffer, xs: seq<Byte>)
    requires b.Valid()
    ensures b.offset + |xs| <= b.Size() ==>
              AppendBytes(b, xs) == b.(data := Overlay(b.data, b.offset, xs), offset := b.offset + |xs|)
  {
    if b.offset + |xs| <= b.Size() {
      ByteByByteFits(b.data, b.mode, b.offset, xs);
    }
  }

  /** Truncate keeps a buffer full: once the cursor reaches the capacity, appends change nothing. */
  lemma TruncateFullIsNoOp(b: Buffer, xs: seq<Byte>)
    requires b.Valid() && b.mode == Truncate && b.offset == b.Size()
    ensures AppendBytes(b, xs) == b
  {
    assert Overlay(b.data, b.offset, xs) == b.data;
  }

  // ---------------------------------------------------------------------
  // Replace

  /** Writes `xs` from `index` through the mode's overflow rule, keeping the cursor. */
  function Replace(b: Buffer, index: nat, xs: seq<Byte>): (r: Buffer)
    requires b.Valid()
    ensures r.Valid() && r.Size() == b.Size() && r.offset == b.offset && SameSettings(r, b)
    ensures b.mode == Truncate ==> r.data == Overlay(b.data, index, xs)
    ensures b.mode == Skip ==>
              r.data == (if index + |xs| <= b.Size() then Overlay(b.data, index, xs) else b.data)
    ensures b.mode == Ring && b.Size() > 0 ==>
              r.data == RingPlacement(b.data, RingStart(b.Size(), index), xs).data
    ensures index >= b.Size() && b.mode != Ring ==> r == b
  {
    if b.mode == Ring && b.Size() > 0 then
      RingFromIndex(b.data, index, xs);
      b.(data := WriteBytes(b.data, b.mode, index, xs).data)
    else
      var r := b.(data := WriteBytes(b.data, b.mode, index, xs).data);
      assert index >= b.Size() ==> Overlay(b.data, index, xs) == b.data;
      r
  }

  /** A Ring write from any index lands where the modular placement from its start says. */
  lemma RingFromIndex(data: seq<Byte>, index: nat, xs: seq<Byte>)
    requires |data| > 0
    ensures ByteByByte(data, Ring, index, xs).data == RingPlacement(data, RingStart(|data|, index), xs).data
  {
    if index >= |data| && xs != [] {
      RingWrapsToStart(data, index, xs);
    }
    RingIsModular(data, RingStart(|data|, index), xs);
    if index >= |data| && xs == [] {
      assert RingPlacement(data, 0, xs).data == data;
    }
  }

  /** Replace is an append from `index` with the cursor put back afterwards. */
  lemma ReplaceIsRelocatedAppend(b: Buffer, index: nat, xs: seq<Byte>)
    requires b.Valid() && index <= b.Size()
    ensures Replace(b, index, xs) == AppendBytes(b.(offset := index), xs).(offset := b.offset)
  {
  }

  function ReplaceByte(b: Buffer, index: nat, x: Byte): (r: Buffer)
    requires b.Valid()
    ensures r.Valid() && r.Size() == b.Size() && r.offset == b.offset && SameSettings(r, b)
    ensures index < b.Size() ==> r.data == b.data[index := x]
    ensures index >= b.Size() && b.mode != Ring ==> r == b
    ensures index >= b.Size() && b.mode == Ring && b.Size() > 0 ==> r.data == b.data[0 := x]
  {
    WriteByteIsOneByteWrite(b.data, b.mode, index, x);
    assert index < b.Size() ==> Overlay(b.data, index, [x]) == b.data[index := x];
    assert b.Size() > 0 ==> Overlay(b.data, 0, [x]) == b.data[0 := x];
    Replace(b, index, [x])
  }

  // ---------------------------------------------------------------------
  // Insert and prepend

  /**
    Inserts `xs` at `index`: `xs` followed by the old tail from `index` is
    written from `index` as one write, so the tail moves right by `|xs|` and
    the mode decides what becomes of the bytes pushed past the capacity.
    Truncate drops them; Skip drops the whole insert, since the storage is
    always full and a non-empty insert always pushes bytes out; Ring carries
    them on from index 0. An index at or past the capacity changes nothing.
   */
  function Insert(b: Buffer, index: nat, xs: seq<Byte>): (r: Buffer)
    requires b.Valid()
    ensures r.Valid() && r.Size() == b.Size() && r.offset == b.offset && SameSettings(r, b)
    ensures index >= b.Size() ==> r == b
    ensures b.mode == Truncate && index < b.Size() ==>
              r.data == (b.data[..index] + xs + b.data[index..])[..b.Size()]
    ensures b.mode == Skip && index < b.Size() ==>
              r.data == (var shifted := b.data[..index] + xs + b.data[index..];
                         if |shifted| <= b.Size() then shifted else b.data)
    ensures b.mode == Skip ==> r == b
    ensures b.mode == Ring && index < b.Size() ==>
              r.data == RingPlacement(b.data, index, xs + b.data[index..]).data
  {
    if index < b.Size() then
      var w := WriteBytes(b.data, b.mode, index, xs + b.data[index..]);
      InsertShape(b.data, b.mode, index, xs);
      b.(data := w.data)
    else
      b
  }

  /**
    The write of an insert, per mode: the shifted contents cut at the
    capacity in Truncate, the shifted contents only when they fit (and so
    never, unless `xs` is empty) in Skip, the modular placement in Ring.
   */
  lemma InsertShape(data: seq<Byte>, mode: Mode, index: nat, xs: seq<Byte>)
    requires index < |data|
    ensures var shifted := data[..index] + xs + data[index..];
            var w := WriteBytes(data, mode, index, xs + data[index..]);
            && (mode == Truncate ==> w.data == shifted[..|data|])
            && (mode == Skip ==> w.data == (if |shifted| <= |data| then shifted else data))
            && (mode == Skip ==> w.data == data)
            && (mode == Ring ==> w.data == RingPlacement(data, index, xs + data[index..]).data)
  {
    match mode
    case Truncate => InsertShifted(data, index, xs);
    case Skip => InsertOverflows(data, index, xs);
    case Ring => RingIsModular(data, index, xs + data[index..]);
  }

  /** Laying `xs` and the tail over the storage from `index` is the shifted contents cut at the capacity. */
  lemma InsertShifted(data: seq<Byte>, index: nat, xs: seq<Byte>)
    requires index < |data|
    ensures Overlay(data, index, xs + data[index..]) == (data[..index] + xs + data[index..])[..|data|]
  {
    var tail := data[index..];
    var shifted := data[..index] + xs + tail;
    var o := Overlay(data, index, xs + tail);
    forall i | 0 <= i < |data|
      ensures o[i] == shifted[i]
    {
      if i >= index {
        assert shifted[i] == (xs + tail)[i - index];
      }
    }
  }

  /** The shifted contents fit the storage only when nothing is inserted, and then they are the storage itself. */
  lemma InsertOverflows(data: seq<Byte>, index: nat, xs: seq<Byte>)
    requires index < |data|
    ensures var shifted := data[..index] + xs + data[index..];
            && SkipWrite(data, index, xs + data[index..]).data == (if |shifted| <= |data| then shifted else data)
            && SkipWrite(data, index, xs + data[index..]).data == data
  {
    var tail := data[index..];
    if xs == [] {
      assert xs + tail == tail;
      assert data[..index] + xs + tail == data;
      assert Overlay(data, index, tail) == data;
    }
  }

  /**
    Outside Skip mode the single write of an insert equals two appends: `xs`
    written from `index`, then the captured tail `data[index..]` written from
    where that write's cursor stopped.
   */
  lemma InsertIsTwoWrites(data: seq<Byte>, mode: Mode, index: nat, xs: seq<Byte>)
    requires index < |data| && mode != Skip
    ensures var tail := data[index..];
            var w1 := WriteBytes(data, mode, index, xs);
            WriteBytes(data, mode, index, xs + tail) == WriteBytes(w1.data, mode, w1.cursor, tail)
  {
    var tail := data[index..];
    var w1 := WriteBytes(data, mode, index, xs);
    ByteByByteSplit(data, mode, index, xs, tail);
    if mode == Truncate {
      TruncateIsByteByByte(data, index, xs + tail);
      TruncateIsByteByByte(data, index, xs);
      TruncateIsByteByByte(w1.data, w1.cursor, tail);
    }
  }

  function InsertByte(b: Buffer, index: nat, x: Byte): (r: Buffer)
    requires b.Valid()
    ensures r.Valid() && r.Size() == b.Size() && r.offset == b.offset && SameSettings(r, b)
    ensures index >= b.Size() ==> r == b
    ensures b.mode == Truncate && index < b.Size() ==>
              r.data == (b.data[..index] + [x] + b.data[index..])[..b.Size()]
    ensures b.mode == Skip ==> r == b
    ensures b.mode == Ring && index < b.Size() ==>
              r.data == RingPlacement(b.data, index, [x] + b.data[index..]).data
  {
    Insert(b, index, [x])
  }

  /**
    Insert at index 0. In Truncate mode the new bytes go in front and the old
    content moves right; Skip refuses; in Ring mode the pushed-out end comes
    round to the front.
   */
  function Prepend(b: Buffer, xs: seq<Byte>): (r: Buffer)
    requires b.Valid()
    ensures r.Valid() && r.Size() == b.Size() && r.offset == b.offset && SameSettings(r, b)
    ensures b.Size() == 0 ==> r == b
    ensures b.mode == Truncate && b.Size() > 0 ==> r.data == (xs + b.data)[..b.Size()]
    ensures b.mode == Skip ==> r == b
    ensures b.mode == Ring && b.Size() > 0 ==> r.data == RingPlacement(b.data, 0, xs + b.data).data
    ensures b.mode == Ring && 0 < |xs| <= b.Size() ==>
              r.data == b.data[b.Size() - |xs|..] + b.data[..b.Size() - |xs|]
  {
    InsertAtFront(b.data, xs);
    assert b.mode == Ring && 0 < |xs| <= b.Size() ==>
             RingPlacement(b.data, 0, xs + b.data).data
             == b.data[b.Size() - |xs|..] + b.data[..b.Size() - |xs|] by {
      if b.mode == Ring && 0 < |xs| <= b.Size() {
        RingPrependRotates(b.data, xs);
      }
    }
    Insert(b, 0, xs)
  }

  /** The shifted contents of an insert at index 0, written without the index. */
  lemma InsertAtFront(data: seq<Byte>, xs: seq<Byte>)
    ensures data[..0] + xs + data[0..] == xs + data
    ensures xs + data[0..] == xs + data
  {
    assert data[..0] == [] && data[0..] == data;
  }

  /**
    In Ring mode, prepending `n` bytes to a buffer of at least `n` bytes
    rotates it right by `n`: the old content survives whole and the
    prepended bytes are all overwritten by the tail coming round.
   */
  lemma RingPrependRotates(data: seq<Byte>, xs: seq<Byte>)
    requires 0 < |xs| <= |data|
    ensures RingPlacement(data, 0, xs + data).data == data[|data| - |xs|..] + data[..|data| - |xs|]
  {
    var size, n := |data|, |xs|;
    var ys := xs + data;
    var p := RingPlacement(data, 0, ys).data;
    var want := data[size - n..] + data[..size - n];
    forall k | 0 <= k < size
      ensures p[k] == want[k]
    {
      if k < n {
        RingSlotBeyond(size, k + size);
        forall j | k + size < j < |ys|
          ensures RingSlot(size, 0, j) != k
        {
          RingSlotBeyond(size, j);
        }
        RingLastIs(size, 0, |ys|, k, k + size);
        assert ys[k + size] == data[k + size - n];
      } else {
        RingSlotWithin(size, k);
        forall j | k < j < |ys|
          ensures RingSlot(size, 0, j) != k
        {
          if j < size {
            RingSlotWithin(size, j);
          } else {
            RingSlotBeyond(size, j);
          }
        }
        RingLastIs(size, 0, |ys|, k, k);
        assert ys[k] == data[k - n];
      }
    }
  }

  function PrependByte(b: Buffer, x: Byte): (r: Buffer)
    requires b.Valid()
    ensures r.Valid() && r.Size() == b.Size() && r.offset == b.offset && SameSettings(r, b)
    ensures b.mode == Truncate && b.Size() > 0 ==> r.data == ([x] + b.data)[..b.Size()]
    ensures b.mode == Skip ==> r == b
    ensures b.mode == Ring && b.Size() > 0 ==>
              r.data == [b.data[b.Size() - 1]] + b.data[..b.Size() - 1]
  {
    Prepend(b, [x])
  }

  /** In Truncate mode an insert reads back what was inserted, keeps the head and moves the tail right by `|xs|`. */
  lemma InsertShiftsRight(b: Buffer, index: nat, xs: seq<Byte>)
    requires b.Valid() && b.mode == Truncate && index < b.Size()
    ensures var r := Insert(b, index, xs);
            && (forall i :: 0 <= i < index ==> r.data[i] == b.data[i])
            && (forall j :: 0 <= j < |xs| && index + j < b.Size() ==> r.data[index + j] == xs[j])
            && (forall i :: index + |xs| <= i < b.Size() ==> r.data[i] == b.data[i - |xs|])
  {
    var r := Insert(b, index, xs);
    var whole := b.data[..index] + xs + b.data[index..];
    assert r.data == whole[..b.Size()];
    forall i | 0 <= i < index
      ensures r.data[i] == b.data[i]
    {
      assert r.data[i] == whole[i];
    }
    forall j | 0 <= j < |xs| && index + j < b.Size()
      ensures r.data[index + j] == xs[j]
    {
      assert r.data[index + j] == whole[index + j];
    }
    forall i | index + |xs| <= i < b.Size()
      ensures r.data[i] == b.data[i - |xs|]
    {
      assert r.data[i] == whole[i] == b.data[index..][i - index - |xs|];
    }
  }

  // ---------------------------------------------------------------------
  // Buffer sources

  /** Appends the whole storage of `src`; `src` itself is only read. */
  function AppendBuffer(dest: Buffer, src: Buffer): (r: Buffer)
    requires dest.Valid()
    ensures r.Valid() && r.Size() == dest.Size() && SameSettings(r, dest)
    ensures dest.mode == Truncate ==>
              r.data == Overlay(dest.data, dest.offset, src.data)
              && r.offset == Min(dest.offset + src.Size(), dest.Size())
    ensures dest.mode == Skip && dest.offset + src.Size() > dest.Size() ==> r == dest
    ensures dest.offset + src.Size() <= dest.Size() ==>
              r.data == Overlay(dest.data, dest.offset, src.data) && r.offset == dest.offset + src.Size()
    ensures dest.mode == Ring && dest.Size() > 0 ==>
              r.data == RingPlacement(dest.data, dest.offset, src.data).data
              && r.offset == RingCursor(dest.Size(), dest.offset, src.Size())
  {
    AppendFits(dest, src.data);
    AppendBytes(dest, src.data)
  }

  /** Prepends the whole storage of `src`. */
  function PrependBuffer(dest: Buffer, src: Buffer): (r: Buffer)
    requires dest.Valid()
    ensures r.Valid() && r.Size() == dest.Size() && r.offset == dest.offset && SameSettings(r, dest)
    ensures dest.mode == Truncate && dest.Size() > 0 ==> r.data == (src.data + dest.data)[..dest.Size()]
    ensures dest.mode == Skip ==> r == dest
    ensures dest.mode == Ring && dest.Size() > 0 ==>
              r.data == RingPlacement(dest.data, 0, src.data + dest.data).data
    ensures dest.mode == Ring && 0 < src.Size() <= dest.Size() ==>
              r.data == dest.data[dest.Size() - src.Size()..] + dest.data[..dest.Size() - src.Size()]
  {
    Prepend(dest, src.data)
  }

  /** Writes the whole storage of `src` from `index`, keeping the cursor. */
  function ReplaceBuffer(dest: Buffer, src: Buffer, index: nat): (r: Buffer)
    requires dest.Valid()
    ensures r.Valid() && r.Size() == dest.Size() && r.offset == dest.offset && SameSettings(r, dest)
    ensures dest.mode == Truncate ==> r.data == Overlay(dest.data, index, src.data)
    ensures dest.mode == Skip ==>
              r.data == (if index + src.Size() <= dest.Size() then Overlay(dest.data, index, src.data) else dest.data)
    ensures dest.mode == Ring && dest.Size() > 0 ==>
              r.data == RingPlacement(dest.data, RingStart(dest.Size(), index), src.data).data
    ensures index >= dest.Size() && dest.mode != Ring ==> r == dest
  {
    Replace(dest, index, src.data)
  }

  /** Inserts the whole storage of `src` at `index`. */
  function InsertBuffer(dest: Buffer, src: Buffer, index: nat): (r: Buffer)
    requires dest.Valid()
    ensures r.Valid() && r.Size() == dest.Size() && r.offset == dest.offset && SameSettings(r, dest)
    ensures index >= dest.Size() ==> r == dest
    ensures dest.mode == Truncate && index < dest.Size() ==>
              r.data == (dest.data[..index] + src.data + dest.data[index..])[..dest.Size()]
    ensures dest.mode == Skip ==> r == dest
    ensures dest.mode == Ring && index < dest.Size() ==>
              r.data == RingPlacement(dest.data, index, src.data + dest.data[index..]).data
  {
    Insert(dest, index, src.data)
  }

  // ---------------------------------------------------------------------
  // Join

  /** A fresh record of both sizes together, owning itself and its storage, into which `a` and then `b` are appended. */
  function Join(a: Buffer, b: Buffer, mode: Mode): (r: Buffer)
    ensures r.data == a.data + b.data
    ensures r.Size() == a.Size() + b.Size() && r.offset == r.Size()
    ensures r.alloc && r.allocObj && r.mode == mode && r.OwnershipConsistent()
  {
    JoinFrom(a, b, mode, Rep(a.Size() + b.Size(), 0))
  }

  /** Join, starting from whatever bytes the fresh storage held. */
  function JoinFrom(a: Buffer, b: Buffer, mode: Mode, storage: seq<Byte>): (r: Buffer)
    requires |storage| == a.Size() + b.Size()
    ensures r.data == a.data + b.data && r.offset == r.Size()
    ensures r.alloc && r.allocObj && r.mode == mode
  {
    var blank := New(mode, storage);
    AppendFits(blank, a.data);
    var withA := AppendBytes(blank, a.data);
    assert withA.data == Overlay(storage, 0, a.data) && withA.offset == a.Size();
    AppendFits(withA, b.data);
    OverlayBoth(storage, a.data, b.data);
    AppendBytes(withA, b.data)
  }

  /** Laying `a` and then `b` over storage exactly their combined length leaves `a + b`. */
  lemma OverlayBoth(storage: seq<Byte>, a: seq<Byte>, b: seq<Byte>)
    requires |storage| == |a| + |b|
    ensures Overlay(Overlay(storage, 0, a), |a|, b) == a + b
  {
  }

  /** The result of a join does not depend on what the freshly allocated storage held. */
  lemma JoinIgnoresFreshContent(a: Buffer, b: Buffer, mode: Mode, storage: seq<Byte>)
    requires |storage| == a.Size() + b.Size()
    ensures JoinFrom(a, b, mode, storage) == Join(a, b, mode)
  {
  }

  // ---------------------------------------------------------------------
  // Call sequences

  /** One call a client can make on a buffer it holds. */
  datatype Call =
    | FillAll(fill: Byte)
    | FillFrom(index: nat, fill: Byte)
    | FillSpan(start: nat, cnt: nat, fill: Byte)
    | ClearAll
    | ChangeMode(mode: Mode)
    | AppendOne(x: Byte)
    | AppendMany(xs: seq<Byte>)
    | ReplaceOne(index: nat, x: Byte)
    | ReplaceMany(index: nat, xs: seq<Byte>)
    | InsertOne(index: nat, x: Byte)
    | InsertMany(index: nat, xs: seq<Byte>)
    | PrependOne(x: Byte)
    | PrependMany(xs: seq<Byte>)
    | AppendFrom(src: Buffer)
    | PrependFrom(src: Buffer)
    | ReplaceFrom(src: Buffer, index: nat)
    | InsertFrom(src: Buffer, index: nat)

  /** Every call keeps the capacity, the ownership flags and the cursor within the capacity. */
  function Apply(b: Buffer, c: Call): (r: Buffer)
    requires b.Valid()
    ensures r.Valid() && r.Size() == b.Size()
    ensures r.alloc == b.alloc && r.allocObj == b.allocObj
    ensures !c.ChangeMode? ==> r.mode == b.mode
  {
    match c
    case FillAll(fill) => FillComplete(b, fill)
    case FillFrom(index, fill) => FillToEnd(b, index, fill)
    case FillSpan(start, cnt, fill) => FillRange(b, start, cnt, fill)
    case ClearAll => Clear(b)
    case ChangeMode(mode) => SetMode(b, mode)
    case AppendOne(x) => AppendByte(b, x)
    case AppendMany(xs) => AppendBytes(b, xs)
    case ReplaceOne(index, x) => ReplaceByte(b, index, x)
    case ReplaceMany(index, xs) => Replace(b, index, xs)
    case InsertOne(index, x) => InsertByte(b, index, x)
    case InsertMany(index, xs) => Insert(b, index, xs)
    case PrependOne(x) => PrependByte(b, x)
    case PrependMany(xs) => Prepend(b, xs)
    case AppendFrom(src) => AppendBuffer(b, src)
    case PrependFrom(src) => PrependBuffer(b, src)
    case ReplaceFrom(src, index) => ReplaceBuffer(b, src, index)
    case InsertFrom(src, index) => InsertBuffer(b, src, index)
  }

  /**
    Any sequence of calls on a well-formed buffer leaves it well formed: the
    capacity and the ownership flags never change and the cursor never
    passes the capacity.
   */
  function Run(b: Buffer, cs: seq<Call>): (r: Buffer)
    requires b.Valid()
    ensures r.Valid() && r.Size() == b.Size()
    ensures r.alloc == b.alloc && r.allocObj == b.allocObj
    ensures (forall i :: 0 <= i < |cs| ==> !cs[i].ChangeMode?) ==> r.mode == b.mode
    decreases |cs|
  {
    if cs == [] then b else Run(Apply(b, cs[0]), cs[1..])
  }
}
