/**
  The fixed-capacity byte buffer record and the part of it the C library
  implements: the three constructors, release, the fill primitives, clear,
  the mode accessors and the ownership query.

  The record is a value. Its capacity is the length of `data`; a released
  record holds no storage, which is the empty sequence here.
 */
module ByteBuffer {
  import opened Bytes

  /** What an append-family write does when it would run past the capacity. */
  datatype Mode =
    | Truncate  // keep the part that fits, drop the rest
    | Skip      // drop the whole write
    | Ring      // continue writing from index 0

  datatype Buffer = Buffer(
    allocObj: bool,     // the record itself came from `New`
    alloc: bool,        // the storage belongs to the buffer
    mode: Mode,
    offset: nat,        // where the next append writes
    data: seq<Byte>)    // the storage; its length is the capacity
  {
    function Size(): (n: nat)
    {
      |data|
    }

    /** The cursor never passes the capacity. */
    predicate Valid()
    {
      offset <= Size()
    }

    /** Only a record built by `New` may own itself, and it always owns its storage. */
    predicate OwnershipConsistent()
    {
      allocObj ==> alloc
    }
  }

  /** What release hands back: the emptied record and whether storage was given back to the allocator. */
  datatype Released = Released(buffer: Buffer, storageFreed: bool)

  /** Wraps storage the caller owns. `storage` stands for the caller's region of `rawBuffSize` bytes. */
  function Init(mode: Mode, storage: seq<Byte>): (r: Buffer)
    ensures r.Valid() && r.OwnershipConsistent()
    ensures r.offset == 0 && r.Size() == |storage| && r.data == storage
    ensures !r.alloc && !r.allocObj && r.mode == mode
  {
    Buffer(false, false, mode, 0, storage)
  }

  /**
    Gives a caller-provided record storage of its own. `storage` stands for
    the block `malloc` returns; C leaves its bytes unspecified, so any
    content is allowed.
   */
  function InitNew(mode: Mode, storage: seq<Byte>): (r: Buffer)
    ensures r.Valid() && r.OwnershipConsistent()
    ensures r.offset == 0 && r.Size() == |storage|
    ensures r.alloc && !r.allocObj && r.mode == mode
  {
    Buffer(false, true, mode, 0, storage)
  }

  /** A record and its storage, both owned by the buffer. */
  function New(mode: Mode, storage: seq<Byte>): (r: Buffer)
    ensures r.Valid() && r.OwnershipConsistent()
    ensures r.offset == 0 && r.Size() == |storage|
    ensures r.alloc && r.allocObj && r.mode == mode
  {
    Buffer(true, true, mode, 0, storage)
  }

  /**
    Release: storage goes back to the allocator only when the buffer owns it;
    the record keeps its flags and mode but is left with no storage, size 0
    and cursor 0.
   */
  function Free(b: Buffer): (r: Released)
    ensures r.buffer.Size() == 0 && r.buffer.offset == 0 && r.buffer.Valid()
    ensures r.storageFreed <==> b.alloc
    ensures r.buffer.alloc == b.alloc && r.buffer.allocObj == b.allocObj && r.buffer.mode == b.mode
  {
    Released(b.(data := [], offset := 0), b.alloc)
  }

  /** Every byte becomes `fill`; the cursor stays. */
  function FillComplete(b: Buffer, fill: Byte): (r: Buffer)
    ensures r.Size() == b.Size() && r.offset == b.offset
    ensures forall i :: 0 <= i < r.Size() ==> r.data[i] == fill
    ensures r.mode == b.mode && r.alloc == b.alloc && r.allocObj == b.allocObj
  {
    b.(data := Rep(b.Size(), fill))
  }

  /** Bytes from `index` to the end become `fill`; an index at or past the capacity changes nothing. */
  function FillToEnd(b: Buffer, index: nat, fill: Byte): (r: Buffer)
    ensures r.Size() == b.Size() && r.offset == b.offset
    ensures forall i :: 0 <= i < r.Size() ==> r.data[i] == (if i < index then b.data[i] else fill)
    ensures index >= b.Size() ==> r == b
    ensures r.mode == b.mode && r.alloc == b.alloc && r.allocObj == b.allocObj
  {
    if index < b.Size() then
      b.(data := b.data[..index] + Rep(b.Size() - index, fill))
    else
      b
  }

  /** How many bytes a range fill writes: the requested count, clipped at the capacity. */
  function FillRangeCount(size: nat, start: nat, cnt: nat): (k: nat)
    ensures start < size ==> k == Min(cnt, size - start)
    ensures start >= size ==> k == 0
    ensures start + k <= size || k == 0
  {
    if start < size then
      if cnt + start < size then cnt else size - start
    else
      0
  }

  /** `cnt` bytes from `start` become `fill`, never at or past the capacity. */
  function FillRange(b: Buffer, start: nat, cnt: nat, fill: Byte): (r: Buffer)
    ensures r.Size() == b.Size() && r.offset == b.offset
    ensures forall i :: 0 <= i < r.Size() ==>
              r.data[i] == (if start <= i < start + cnt then fill else b.data[i])
    ensures start >= b.Size() ==> r == b
    ensures r.mode == b.mode && r.alloc == b.alloc && r.allocObj == b.allocObj
  {
    if start < b.Size() then
      var k := FillRangeCount(b.Size(), start, cnt);
      b.(data := b.data[..start] + Rep(k, fill) + b.data[start + k..])
    else
      b
  }

  /** Every byte becomes zero and the cursor returns to the start. */
  function Clear(b: Buffer): (r: Buffer)
    ensures r.Valid() && r.offset == 0 && r.Size() == b.Size()
    ensures forall i :: 0 <= i < r.Size() ==> r.data[i] == 0
    ensures r.mode == b.mode && r.alloc == b.alloc && r.allocObj == b.allocObj
  {
    FillComplete(b, 0).(offset := 0)
  }

  function SetMode(b: Buffer, mode: Mode): (r: Buffer)
    ensures r.mode == mode
    ensures r.data == b.data && r.offset == b.offset
    ensures r.alloc == b.alloc && r.allocObj == b.allocObj
  {
    b.(mode := mode)
  }

  /** The mode a buffer holds: setting it back changes nothing. */
  function GetMode(b: Buffer): (m: Mode)
    ensures SetMode(b, m) == b
  {
    b.mode
  }

  /** Whether the buffer owns its storage, which is exactly when release gives that storage back. */
  function IsAlloc(b: Buffer): (owns: bool)
    ensures owns <==> Free(b).storageFreed
    ensures b.allocObj && b.OwnershipConsistent() ==> owns
  {
    b.alloc
  }

  /** Reading the mode gives back the one last set, whatever it was before. */
  lemma ModeRoundTrip(b: Buffer, m: Mode)
    ensures GetMode(SetMode(b, m)) == m
    ensures SetMode(b, GetMode(b)) == b
  {
  }

  /** The ownership query reports whether the buffer allocated its storage, for each way of building one. */
  lemma IsAllocFollowsConstructor(mode: Mode, storage: seq<Byte>)
    ensures !IsAlloc(Init(mode, storage))
    ensures IsAlloc(InitNew(mode, storage))
    ensures IsAlloc(New(mode, storage))
    ensures IsAlloc(Free(InitNew(mode, storage)).buffer)
  {
  }

  /** Clearing twice is clearing once. */
  lemma ClearIdempotent(b: Buffer)
    ensures Clear(Clear(b)) == Clear(b)
  {
  }

  /** A range that reaches the capacity fills the same bytes as a fill to the end. */
  lemma FillRangeToCapacity(b: Buffer, start: nat, cnt: nat, fill: Byte)
    requires start + cnt >= b.Size()
    ensures FillRange(b, start, cnt, fill) == FillToEnd(b, start, fill)
  {
    var r1 := FillRange(b, start, cnt, fill);
    var r2 := FillToEnd(b, start, fill);
    assert r1.data == r2.data by {
      assert |r1.data| == |r2.data|;
      forall i | 0 <= i < |r1.data|
        ensures r1.data[i] == r2.data[i]
      {
      }
    }
  }

  /** A range starting at 0 that covers the capacity is a complete fill. */
  lemma FillRangeWholeIsComplete(b: Buffer, cnt: nat, fill: Byte)
    requires cnt >= b.Size()
    ensures FillRange(b, 0, cnt, fill) == FillComplete(b, fill)
  {
    var r1 := FillRange(b, 0, cnt, fill);
    var r2 := FillComplete(b, fill);
    assert r1.data == r2.data;
  }
}
