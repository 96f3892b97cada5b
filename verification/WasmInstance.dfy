/** What the glue sees of a WebAssembly instance: a linear memory whose
    `ArrayBuffer` is detached whenever the memory grows, `malloc` and `realloc`,
    and the table of externrefs. The bodies stand in for compiled code; callers
    rely on the contracts alone, which leave the placement of every block, and
    whether a call grows the memory or traps, open. */
module WasmInstance {
  import opened Wrappers
  import opened Utf

  const ADDRESS_SPACE: nat := 0x1_0000_0000
  const PAGE: nat := 0x1_0000

  type Address = p: nat | p < ADDRESS_SPACE

  type Heap = map<nat, seq<Byte>>

  datatype JsValue = Undefined | Null | Boolean(b: bool) | Other(id: int)

  /** JavaScript's `x >>> 0` on the i32 an export returns. */
  function ToUint32(x: int): Address {
    x % ADDRESS_SPACE
  }

  /** The i32 with the bits of the address `p`. */
  function AsInt32(p: Address): (x: int)
    ensures ToUint32(x) == p && -0x8000_0000 <= x < 0x8000_0000 && (x == p || x == p - ADDRESS_SPACE)
  {
    if p < ADDRESS_SPACE / 2 then p else p - ADDRESS_SPACE
  }

  // ----- Bytes and blocks -----

  function Splice(data: seq<Byte>, at: nat, bytes: seq<Byte>): (r: seq<Byte>)
    requires at + |bytes| <= |data|
    ensures |r| == |data|
  {
    data[..at] + bytes + data[at + |bytes|..]
  }

  ghost predicate Inside(size: nat, blocks: map<nat, nat>, p: nat)
    requires p in blocks
  {
    0 < blocks[p] && p + blocks[p] <= size
  }

  ghost predicate Apart(blocks: map<nat, nat>, p: nat, q: nat)
    requires p in blocks && q in blocks
  {
    p + blocks[p] <= q || q + blocks[q] <= p
  }

  /** The live blocks lie inside the memory and apart from one another. */
  ghost predicate Laid(size: nat, blocks: map<nat, nat>) {
    (forall p | p in blocks :: Inside(size, blocks, p)) &&
    (forall p, q | p in blocks && q in blocks && p != q :: Apart(blocks, p, q))
  }

  /** What every live block holds. */
  ghost function Contents(data: seq<Byte>, blocks: map<nat, nat>): Heap
    requires Laid(|data|, blocks)
  {
    map p | p in blocks :: assert Inside(|data|, blocks, p); data[p..p + blocks[p]]
  }

  lemma ContentsAre(data: seq<Byte>, blocks: map<nat, nat>, h: Heap)
    requires Laid(|data|, blocks) && h.Keys == blocks.Keys
    requires forall q | q in blocks :: q + blocks[q] <= |data| && h[q] == data[q..q + blocks[q]]
    ensures h == Contents(data, blocks)
  {
  }

  /** A write inside one block changes that block alone. */
  lemma WriteInBlock(data: seq<Byte>, blocks: map<nat, nat>, p: nat, at: nat, bytes: seq<Byte>)
    requires Laid(|data|, blocks) && p in blocks && at + |bytes| <= blocks[p]
    ensures Contents(Splice(data, p + at, bytes), blocks)
         == Contents(data, blocks)[p := Splice(Contents(data, blocks)[p], at, bytes)]
  {
    hide Splice;
    var d, h := Splice(data, p + at, bytes), Contents(data, blocks)[p := Splice(Contents(data, blocks)[p], at, bytes)];
    forall q | q in blocks
      ensures Inside(|data|, blocks, q) && h[q] == d[q..q + blocks[q]]
    {
      if q == p {
        SpliceWithin(data, p, blocks[p], at, bytes);
      } else {
        assert Apart(blocks, p, q);
        SpliceElsewhere(data, p + at, bytes, q, q + blocks[q]);
      }
    }
    ContentsAre(d, blocks, h);
  }

  lemma SpliceWithin(data: seq<Byte>, p: nat, size: nat, at: nat, bytes: seq<Byte>)
    requires p + size <= |data| && at + |bytes| <= size
    ensures Splice(data, p + at, bytes)[p..p + size] == Splice(data[p..p + size], at, bytes)
  {
  }

  lemma SpliceElsewhere(data: seq<Byte>, at: nat, bytes: seq<Byte>, from: nat, to: nat)
    requires at + |bytes| <= |data| && from <= to <= |data|
    requires to <= at || at + |bytes| <= from
    ensures Splice(data, at, bytes)[from..to] == data[from..to]
  {
    var d := Splice(data, at, bytes);
    assert forall i | from <= i < to :: d[i] == data[i];
  }

  /** Bytes added behind the blocks disturb none of them. */
  lemma MoreMemory(data: seq<Byte>, more: seq<Byte>, blocks: map<nat, nat>)
    requires Laid(|data|, blocks)
    ensures Laid(|data + more|, blocks)
    ensures Contents(data + more, blocks) == Contents(data, blocks)
  {
    forall p | p in blocks
      ensures (data + more)[p..p + blocks[p]] == data[p..p + blocks[p]]
    {
    }
  }

  /** A block can be laid behind all others. */
  lemma RoomBehind(memory: nat, blocks: map<nat, nat>, p: nat, size: nat)
    requires 0 < size && p + size <= memory && Laid(p, blocks)
    ensures p !in blocks && Laid(memory, blocks) && Laid(memory, blocks[p := size])
  {
    assert p !in blocks by {
      assert forall q | q in blocks :: Inside(p, blocks, q) && q < p;
    }
    RoomFor(memory, blocks, p, size);
  }

  lemma RoomFor(memory: nat, blocks: map<nat, nat>, p: nat, size: nat)
    requires 0 < size && p + size <= memory && Laid(p, blocks) && p !in blocks
    ensures Laid(memory, blocks) && Laid(memory, blocks[p := size])
  {
  }

  lemma BlockAdded(data: seq<Byte>, blocks: map<nat, nat>, p: nat, size: nat)
    requires p !in blocks && Laid(|data|, blocks) && Laid(|data|, blocks[p := size])
    ensures p + size <= |data|
    ensures Contents(data, blocks[p := size]) == Contents(data, blocks)[p := data[p..p + size]]
  {
    var more := blocks[p := size];
    assert forall q | q in more :: Inside(|data|, more, q);
    assert p in more && p + size <= |data|;
    ContentsAre(data, more, Contents(data, blocks)[p := data[p..p + size]]);
  }

  lemma BlockFreed(data: seq<Byte>, blocks: map<nat, nat>, p: nat)
    requires Laid(|data|, blocks)
    ensures Laid(|data|, blocks - {p})
    ensures Contents(data, blocks - {p}) == Contents(data, blocks) - {p}
  {
    var others := blocks - {p};
    assert forall q | q in others :: Inside(|data|, blocks, q) && others[q] == blocks[q];
    assert forall q, r | q in others && r in others && q != r :: Apart(blocks, q, r);
    ContentsAre(data, others, Contents(data, blocks) - {p});
  }

  lemma RoomLeft(memory: nat, blocks: map<nat, nat>, p: nat, size: nat)
    requires Laid(memory, blocks) && p in blocks && 0 < size <= blocks[p]
    ensures Laid(memory, blocks[p := size])
  {
    var cut := blocks[p := size];
    forall q, r | q in cut && r in cut && q != r
      ensures Apart(cut, q, r)
    {
      assert Apart(blocks, q, r);
    }
    forall q | q in cut
      ensures Inside(memory, cut, q)
    {
      assert Inside(memory, blocks, q);
    }
  }

  lemma BlockCut(data: seq<Byte>, blocks: map<nat, nat>, p: nat, size: nat)
    requires Laid(|data|, blocks) && p in blocks && 0 < size <= blocks[p]
    requires Laid(|data|, blocks[p := size])
    ensures Contents(data, blocks[p := size]) == (Contents(data, blocks) - {p})[p := Contents(data, blocks)[p][..size]]
  {
    var cut := blocks[p := size];
    assert forall q | q in cut :: Inside(|data|, blocks, q);
    assert data[p..p + size] == data[p..p + blocks[p]][..size];
    ContentsAre(data, cut, (Contents(data, blocks) - {p})[p := Contents(data, blocks)[p][..size]]);
  }

  /** The block at `p` goes, its bytes are written into a new one at `q`. */
  lemma BlockMoved(data: seq<Byte>, blocks: map<nat, nat>, p: nat, q: nat, size: nat, bytes: seq<Byte>)
    requires Laid(|data|, blocks) && |bytes| <= size && q !in blocks
    requires Laid(|data|, (blocks - {p})[q := size])
    ensures q + size <= |data|
    ensures Contents(Splice(data, q, bytes), (blocks - {p})[q := size])
         == (Contents(data, blocks) - {p})[q := bytes + data[q + |bytes|..q + size]]
  {
    hide Contents, Splice;
    var others := blocks - {p};
    assert Inside(|data|, others[q := size], q);
    BlockFreed(data, blocks, p);
    BlockAdded(data, others, q, size);
    WriteInBlock(data, others[q := size], q, 0, bytes);
    SpliceAtFront(data[q..q + size], bytes);
    assert data[q..q + size][|bytes|..] == data[q + |bytes|..q + size];
  }

  lemma SpliceAtFront(data: seq<Byte>, bytes: seq<Byte>)
    requires |bytes| <= |data|
    ensures Splice(data, 0, bytes) == bytes + data[|bytes|..]
  {
  }

  /** The block at `p` has become one of `size` bytes at `q`, and keeps the bytes both have. */
  ghost predicate Resized(before: Heap, after: Heap, p: nat, q: nat, size: nat)
    requires p in before
  {
    (q == p || q !in before) && q in after && |after[q]| == size && after == (before - {p})[q := after[q]] &&
    var keep := if |before[p]| < size then |before[p]| else size;
    after[q][..keep] == before[p][..keep]
  }

  // ----- Little-endian 32-bit words -----

  function U32Bytes(x: nat): (b: seq<Byte>)
    requires x < ADDRESS_SPACE
    ensures |b| == 4
  {
    [x % 0x100, x / 0x100 % 0x100, x / 0x1_0000 % 0x100, x / 0x100_0000]
  }

  function U32At(data: seq<Byte>, at: nat): nat
    requires at + 4 <= |data|
  {
    data[at] as int + 0x100 * data[at + 1] as int + 0x1_0000 * data[at + 2] as int + 0x100_0000 * data[at + 3] as int
  }

  function U32sAt(data: seq<Byte>, at: nat, len: nat): (xs: seq<nat>)
    requires at + 4 * len <= |data|
    ensures |xs| == len
  {
    seq(len, i requires 0 <= i < len => U32At(data, at + 4 * i))
  }

  lemma Bytes4(x: nat)
    ensures x == x % 0x100 + 0x100 * (x / 0x100 % 0x100) + 0x1_0000 * (x / 0x1_0000 % 0x100) + 0x100_0000 * (x / 0x100_0000)
  {
    assert x / 0x1_0000 == x / 0x100 / 0x100;
    assert x / 0x100_0000 == x / 0x1_0000 / 0x100;
  }

  lemma U32RoundTrip(data: seq<Byte>, at: nat, x: nat)
    requires x < ADDRESS_SPACE && at + 4 <= |data| && data[at..at + 4] == U32Bytes(x)
    ensures U32At(data, at) == x
  {
    Bytes4(x);
    assert data[at] == data[at..at + 4][0];
    assert data[at + 1] == data[at..at + 4][1];
    assert data[at + 2] == data[at..at + 4][2];
    assert data[at + 3] == data[at..at + 4][3];
  }

  /** The number whose bytes these are, the least significant first. */
  function LittleEndian(b: seq<Byte>): nat {
    if b == [] then 0 else b[0] as int + 0x100 * LittleEndian(b[1..])
  }

  lemma U32IsLittleEndian(data: seq<Byte>, at: nat)
    requires at + 4 <= |data|
    ensures U32At(data, at) == LittleEndian(data[at..at + 4]) < ADDRESS_SPACE
    ensures U32Bytes(U32At(data, at)) == data[at..at + 4]
  {
    hide U32Bytes;
    var b := data[at..at + 4];
    assert b == [b[0], b[1], b[2], b[3]];
    FourBytes(b[0], b[1], b[2], b[3]);
  }

  lemma FourBytes(a: Byte, b: Byte, c: Byte, d: Byte)
    ensures var x := a as int + 0x100 * b as int + 0x1_0000 * c as int + 0x100_0000 * d as int;
            LittleEndian([a, b, c, d]) == x < ADDRESS_SPACE && U32Bytes(x) == [a, b, c, d]
  {
    hide U32Bytes;
    assert [a, b, c, d][1..] == [b, c, d] && [b, c, d][1..] == [c, d] && [c, d][1..] == [d] && [d][1..] == [];
    assert LittleEndian([d]) == d as int;
    assert LittleEndian([c, d]) == c as int + 0x100 * d as int;
    assert LittleEndian([b, c, d]) == b as int + 0x100 * c as int + 0x1_0000 * d as int;
    BytesOfSum(a, b, c, d);
  }

  lemma BytesOfSum(a: nat, b: nat, c: nat, d: nat)
    requires a < 0x100 && b < 0x100 && c < 0x100 && d < 0x100
    ensures U32Bytes(a + 0x100 * b + 0x1_0000 * c + 0x100_0000 * d) == [a, b, c, d]
  {
    var x := a + 0x100 * b + 0x1_0000 * c + 0x100_0000 * d;
    assert x / 0x100 == b + 0x100 * c + 0x1_0000 * d;
    assert x / 0x1_0000 == x / 0x100 / 0x100 == c + 0x100 * d;
    assert x / 0x100_0000 == x / 0x1_0000 / 0x100 == d;
  }

  // ----- The instance -----

  class ArrayBuffer {
    var data: seq<Byte>
    var detached: bool

    constructor (data: seq<Byte>)
      ensures this.data == data && !detached
    {
      this.data := data;
      detached := false;
    }

    /** `byteLength`, of the buffer and of every view over the whole of it. */
    function ByteLength(): nat
      reads this
    {
      if detached then 0 else |data|
    }

    /** `view[i] = b`: silently dropped when `i` is out of range or the buffer gone. */
    method Store(i: nat, b: Byte)
      modifies this
      ensures detached == old(detached)
      ensures data == if i < old(ByteLength()) then old(data)[i := b] else old(data)
    {
      if i < ByteLength() {
        data := data[i := b];
      }
    }

    /** `TypedArray.set` and `DataView.setUint32`: they throw rather than write past `end`. */
    method Set(at: nat, end: nat, bytes: seq<Byte>) returns (thrown: bool)
      requires end <= ByteLength()
      modifies this
      ensures detached == old(detached) && (thrown <==> end < at + |bytes|)
      ensures data == if end < at + |bytes| then old(data) else Splice(old(data), at, bytes)
    {
      thrown := end < at + |bytes|;
      if !thrown {
        data := Splice(data, at, bytes);
      }
    }
  }

  /** An instance. The low `reserved` bytes hold its static data and its stack; the
      allocator's blocks lie behind them. `traps` counts the calls that have trapped. */
  class Instance {
    const reserved: nat
    var buffer: ArrayBuffer
    var blocks: map<nat, nat>
    var externrefs: map<nat, JsValue>
    var nextSlot: nat
    ghost var traps: nat

    ghost predicate Valid()
      reads this, buffer
    {
      !buffer.detached && PAGE <= |buffer.data| <= ADDRESS_SPACE && Laid(|buffer.data|, blocks) &&
      0 < reserved <= |buffer.data| && (forall p | p in blocks :: reserved <= p) &&
      forall i | i in externrefs :: i < nextSlot
    }

    ghost function Heap(): Heap
      requires Valid()
      reads this, buffer
    {
      Contents(buffer.data, blocks)
    }

    /** The bytes no allocation may touch. */
    ghost function Static(): seq<Byte>
      requires Valid()
      reads this, buffer
    {
      buffer.data[..reserved]
    }

    constructor (pages: nat, reserved: nat)
      requires 1 <= pages <= 0x1_0000 && 0 < reserved <= PAGE
      ensures Valid() && fresh(buffer) && Heap() == map[] && externrefs == map[] && traps == 0
    {
      this.reserved := reserved;
      buffer := new ArrayBuffer(seq(pages * PAGE, _ => 0));
      blocks, externrefs, nextSlot, traps := map[], map[], 0, 0;
    }

    /** `memory.grow`: a new buffer takes over and the old one is detached. */
    method Grow(more: nat)
      requires Valid() && |buffer.data| + more <= ADDRESS_SPACE
      modifies this`buffer, buffer
      ensures Valid() && Heap() == old(Heap()) && Static() == old(Static())
      ensures fresh(buffer) && old(buffer).detached && blocks == old(blocks)
      ensures |buffer.data| == old(|buffer.data|) + more && Laid(old(|buffer.data|), blocks)
    {
      var was, zeros := buffer, seq(more, _ => 0);
      MoreMemory(was.data, zeros, blocks);
      buffer := new ArrayBuffer(was.data + zeros);
      was.detached := true;
    }

    /** `__wbindgen_start`: what the module does first, before anything is asked of it. */
    method Start()
      requires Valid()
      modifies this, buffer
      ensures Valid() && (buffer == old(buffer) || (fresh(buffer) && old(buffer).detached))
    {
      if |buffer.data| + PAGE <= ADDRESS_SPACE {
        Grow(PAGE);
      }
    }

    /** Memory never shrinks, and is replaced only when it grows; `was` is the buffer before. */
    twostate predicate MemoryKept(was: ArrayBuffer)
      reads this, buffer, was
    {
      (buffer == was || (fresh(buffer) && was.detached)) && old(|was.data|) <= |buffer.data|
    }

    /** `__wbindgen_malloc`: a new block of `size` bytes, `None` when it traps. Nothing is
        reserved for no bytes; the address answered is then no block's, and not 0. */
    method Malloc(size: Address, align: nat) returns (r: Option<int>)
      requires Valid() && 0 < align <= PAGE
      modifies this`buffer, this`blocks, this`traps, buffer
      ensures Valid() && MemoryKept(old(buffer)) && Static() == old(Static())
      ensures traps == old(traps) + if r.None? then 1 else 0
      ensures r.None? || size == 0 ==> Heap() == old(Heap())
      ensures r.Some? ==> 0 < ToUint32(r.value) && ToUint32(r.value) + size <= |buffer.data|
      ensures r.Some? && 0 < size ==>
                var p := ToUint32(r.value);
                p !in old(Heap()) && p in Heap() && |Heap()[p]| == size && Heap() == old(Heap())[p := Heap()[p]]
    {
      var p := |buffer.data|;
      if size == 0 {
        return Some(align);
      } else if ADDRESS_SPACE < p + size {
        traps := traps + 1;
        return None;
      }
      Grow(size);
      RoomBehind(|buffer.data|, blocks, p, size);
      BlockAdded(buffer.data, blocks, p, size);
      blocks := blocks[p := size];
      return Some(AsInt32(p));
    }

    /** `__wbindgen_realloc`: the block may move; the bytes both sizes share stay. What becomes
        of a block that is none, or is resized to nothing, is left open. */
    method Realloc(p: nat, oldSize: Address, newSize: Address, align: nat) returns (r: Option<int>)
      requires Valid()
      modifies this`buffer, this`blocks, this`traps, buffer
      ensures Valid() && MemoryKept(old(buffer))
      ensures traps == old(traps) + if r.None? then 1 else 0
      ensures old(IsBlock(p, oldSize)) && 0 < newSize ==>
                Static() == old(Static()) &&
                if r.None? then Heap() == old(Heap())
                else Resized(old(Heap()), Heap(), p, ToUint32(r.value), newSize)
    {
      if p !in blocks || blocks[p] != oldSize || newSize == 0 {
        traps := traps + 1;
        return None;
      }
      if newSize <= oldSize {
        RoomLeft(|buffer.data|, blocks, p, newSize);
        BlockCut(buffer.data, blocks, p, newSize);
        assert Inside(|buffer.data|, blocks, p);
        blocks := blocks[p := newSize];
        return Some(AsInt32(p));
      }
      r := MoveBlock(p, oldSize, newSize);
    }

    ghost predicate IsBlock(p: nat, size: nat)
      reads this
    {
      p in blocks && blocks[p] == size
    }

    method MoveBlock(p: nat, oldSize: nat, size: nat) returns (r: Option<int>)
      requires Valid() && p in blocks && blocks[p] == oldSize < size
      modifies this`buffer, this`blocks, this`traps, buffer
      ensures Valid() && MemoryKept(old(buffer)) && Static() == old(Static())
      ensures traps == old(traps) + if r.None? then 1 else 0
      ensures r.None? ==> Heap() == old(Heap())
      ensures r.Some? ==> Resized(old(Heap()), Heap(), p, ToUint32(r.value), size)
    {
      assert Inside(|buffer.data|, blocks, p);
      var q, bytes := |buffer.data|, buffer.data[p..p + oldSize];
      if ADDRESS_SPACE < q + size {
        traps := traps + 1;
        return None;
      }
      Grow(size);
      ghost var grown := buffer.data;
      var were := blocks;
      RoomBehind(|grown|, were, q, size);
      RoomBehind(|grown|, were - {p}, q, size);
      blocks := (were - {p})[q := size];
      var thrown := buffer.Set(q, |buffer.data|, bytes);
      BlockMoved(grown, were, p, q, size, bytes);
      SpliceElsewhere(grown, q, bytes, 0, reserved);
      return Some(AsInt32(q));
    }

    /** `__externref_table_alloc`: a slot not in use; its bookkeeping may grow the memory. */
    method TableAlloc() returns (r: Option<Address>)
      requires Valid()
      modifies this, buffer
      ensures Valid() && Heap() == old(Heap()) && MemoryKept(old(buffer)) && Static() == old(Static())
      ensures traps == old(traps) + if r.None? then 1 else 0
      ensures r.None? ==> externrefs == old(externrefs)
      ensures r.Some? ==> r.value !in old(externrefs) && externrefs == old(externrefs)[r.value := Undefined]
    {
      if ADDRESS_SPACE <= nextSlot {
        traps := traps + 1;
        return None;
      }
      r := Some(nextSlot);
      externrefs := externrefs[nextSlot := Undefined];
      nextSlot := nextSlot + 1;
    }

    /** `__wbindgen_externrefs.set`. */
    method TableSet(i: nat, v: JsValue)
      requires Valid() && i in externrefs
      modifies this`externrefs
      ensures Valid() && Heap() == old(Heap()) && externrefs == old(externrefs)[i := v]
    {
      externrefs := externrefs[i := v];
    }

    /** `__externref_table_dealloc`. */
    method TableDealloc(i: nat)
      requires Valid()
      modifies this`externrefs
      ensures Valid() && Heap() == old(Heap()) && externrefs == old(externrefs) - {i}
    {
      externrefs := externrefs - {i};
    }

    /** `__externref_drop_slice`: frees the slots named by `len` words at `ptr`. */
    method DropSlice(ptr: nat, len: nat)
      requires Valid() && ptr + 4 * len <= |buffer.data|
      modifies this`externrefs
      ensures Valid() && Heap() == old(Heap())
      ensures externrefs == old(externrefs) - set x | x in U32sAt(buffer.data, ptr, len)
    {
      ghost var xs := U32sAt(buffer.data, ptr, len);
      for i := 0 to len
        invariant Valid() && Heap() == old(Heap())
        invariant externrefs == old(externrefs) - set x | x in xs[..i]
      {
        TableDealloc(U32At(buffer.data, ptr + 4 * i));
        assert xs[..i + 1] == xs[..i] + [xs[i]];
      }
      assert xs[..len] == xs;
    }
  }
}
