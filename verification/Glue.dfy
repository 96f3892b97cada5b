/** The hand-written half of the JavaScript bindings: strings and arrays of
    values cross into linear memory and back, through views that are cached and
    must never outlive the buffer they look at. */
module Glue {
  import opened Wrappers
  import opened Utf
  import opened WasmInstance

  const MAX_SAFARI_DECODE_BYTES: nat := 2146435072

  /** `subarray(start, end)` of a view over the whole buffer. */
  datatype Span = Span(buffer: ArrayBuffer, start: nat, end: nat)

  function Clamp(i: nat, size: nat): nat {
    if i < size then i else size
  }

  /** A fatal decoder that ignores the byte order mark, and what it has been fed. */
  class TextDecoder {
    var fed: nat
    var calls: nat

    constructor ()
      ensures fed == 0 && calls == 0
    {
      fed, calls := 0, 0;
    }

    method Decode(bytes: seq<Byte>) returns (r: Option<seq<Unit>>)
      modifies this
      ensures r == Utf.Decode(bytes)
      ensures fed == old(fed) + |bytes| && calls == old(calls) + 1
    {
      fed, calls := fed + |bytes|, calls + 1;
      r := Utf.Decode(bytes);
    }
  }

  class Bindings {
    /** Whether this engine tells a detached buffer apart (`ArrayBuffer.prototype.detached`). */
    const tellsDetached: bool
    /** Whether its `TextEncoder` has `encodeInto`, or gets the stand-in. */
    const hasEncodeInto: bool
    var wasm: Instance
    var cachedDataView: ArrayBuffer?
    var cachedUint8Array: ArrayBuffer?
    var vectorLen: nat
    var decoder: TextDecoder
    var numBytesDecoded: nat

    /** A cached view is absent, looks at the memory's own buffer, or can be seen to be dead. */
    ghost predicate NeverStale(view: ArrayBuffer?)
      reads this, wasm, view
    {
      view == null || view == wasm.buffer || view.detached
    }

    /** No decoder is fed the limit, unless by one text that long on its own. */
    ghost predicate DecoderRested()
      reads this, decoder
    {
      decoder.fed <= numBytesDecoded &&
      (numBytesDecoded < MAX_SAFARI_DECODE_BYTES || decoder.calls == 1)
    }

    ghost predicate ViewsValid()
      reads this, wasm, wasm.buffer, cachedDataView, cachedUint8Array
    {
      wasm.Valid() && NeverStale(cachedDataView) && NeverStale(cachedUint8Array)
    }

    ghost predicate Valid()
      reads this, wasm, wasm.buffer, cachedDataView, cachedUint8Array, decoder
    {
      ViewsValid() && DecoderRested()
    }

    constructor (instance: Instance, tellsDetached: bool, hasEncodeInto: bool)
      requires instance.Valid()
      ensures Valid() && wasm == instance && fresh(decoder)
    {
      this.tellsDetached, this.hasEncodeInto := tellsDetached, hasEncodeInto;
      wasm, cachedDataView, cachedUint8Array := instance, null, null;
      vectorLen, numBytesDecoded := 0, 0;
      decoder := new TextDecoder();
    }

    /** `__wbg_finalize_init`: another instance's views are forgotten with it, before the new one
        starts and may grow its memory. */
    method FinalizeInit(instance: Instance)
      requires instance.Valid() && DecoderRested()
      modifies this`wasm, this`cachedDataView, this`cachedUint8Array, instance, instance.buffer
      ensures Valid() && wasm == instance && cachedDataView == null && cachedUint8Array == null
    {
      wasm := instance;
      cachedDataView := null;
      cachedUint8Array := null;
      wasm.Start();
    }

    /** Any call into the instance may grow its memory; the cached views survive it. */
    method MemoryGrows(more: nat)
      requires Valid() && |wasm.buffer.data| + more <= ADDRESS_SPACE
      modifies wasm`buffer, wasm.buffer
      ensures Valid() && wasm.Heap() == old(wasm.Heap()) && wasm.Static() == old(wasm.Static()) && fresh(wasm.buffer)
    {
      wasm.Grow(more);
    }

    // ----- Views -----

    method GetDataViewMemory0() returns (mem: ArrayBuffer)
      requires ViewsValid()
      modifies this`cachedDataView
      ensures ViewsValid() && mem == wasm.buffer
    {
      if cachedDataView == null || (tellsDetached && cachedDataView.detached)
         || (!tellsDetached && cachedDataView != wasm.buffer) {
        cachedDataView := wasm.buffer;
      }
      mem := cachedDataView;
    }

    method GetUint8ArrayMemory0() returns (mem: ArrayBuffer)
      requires ViewsValid()
      modifies this`cachedUint8Array
      ensures ViewsValid() && mem == wasm.buffer
    {
      if cachedUint8Array == null || cachedUint8Array.ByteLength() == 0 {
        cachedUint8Array := wasm.buffer;
      }
      mem := cachedUint8Array;
    }

    method Subarray(start: nat, end: nat) returns (span: Span)
      requires ViewsValid() && start <= end
      modifies this`cachedUint8Array
      ensures ViewsValid()
      ensures span == Span(wasm.buffer, Clamp(start, |wasm.buffer.data|), Clamp(end, |wasm.buffer.data|))
    {
      var mem := GetUint8ArrayMemory0();
      span := Span(mem, Clamp(start, mem.ByteLength()), Clamp(end, mem.ByteLength()));
    }

    // ----- Strings -----

    /** `encodeInto`: as many whole scalar values as fit. The stand-in writes all or throws. */
    method EncodeInto(src: seq<Unit>, dst: Span) returns (thrown: bool, read: nat, written: nat)
      requires dst.start <= dst.end <= dst.buffer.ByteLength() && !dst.buffer.detached
      modifies dst.buffer
      ensures !dst.buffer.detached && (thrown <==> !hasEncodeInto && dst.end - dst.start < |Utf8(src)|)
      ensures thrown ==> dst.buffer.data == old(dst.buffer.data)
      ensures !thrown ==>
                read <= |src| && written <= |Utf8(src)| && dst.start + written <= dst.end
                && Utf8(src) == Utf8(src)[..written] + Utf8(src[read..])
                && dst.buffer.data == Splice(old(dst.buffer.data), dst.start, Utf8(src)[..written])
                && (read < |src| ==> dst.end < dst.start + written + |EncodeScalar(First(src[read..]))|)
    {
      if hasEncodeInto {
        thrown := false;
        read, written := EncodeWhatFits(src, dst);
      } else {
        var buf := Utf8(src);
        thrown := dst.buffer.Set(dst.start, dst.end, buf);
        read, written := |src|, |buf|;
        assert src[read..] == [] && buf[..written] == buf;
      }
    }

    /** `passStringToWasm0` without `realloc`: encode, then copy. A text of 4 GiB or more is
        asked room for modulo 2^32, and then `set` throws. */
    method PassEncoded(arg: seq<Unit>) returns (r: Option<Address>)
      requires Valid()
      modifies this`cachedUint8Array, this`vectorLen, wasm`buffer, wasm`blocks, wasm`traps, wasm.buffer
      ensures Valid() && (wasm.buffer == old(wasm.buffer) || fresh(wasm.buffer)) && wasm.Static() == old(wasm.Static())
      ensures r.None? <==> old(wasm.traps) < wasm.traps || ADDRESS_SPACE <= |Utf8(arg)|
      ensures r.None? ==> Spared(old(wasm.Heap()), wasm.Heap()) && vectorLen == old(vectorLen)
      ensures r.Some? ==> Passed(old(wasm.Heap()), wasm.Heap(), r.value, Utf8(arg)) && vectorLen == |Utf8(arg)|
    {
      hide Contents, Utf8, Splice, Laid;
      ghost var h := wasm.Heap();
      var buf := Utf8(arg);
      var raw :- wasm.Malloc(ToUint32(|buf|), 1);
      var ptr := ToUint32(raw);
      var view := Subarray(ptr, ptr + |buf|);
      ghost var data := wasm.buffer.data;
      var thrown := view.buffer.Set(view.start, view.end, buf);
      if thrown {
        return None;
      }
      if buf == [] {
        SpliceNothing(data, ptr);
      } else {
        InBlock(data, wasm.blocks, ptr);
        WriteInBlock(data, wasm.blocks, ptr, 0, buf);
        SpliceAll(Contents(data, wasm.blocks)[ptr], buf);
        SpliceElsewhere(data, ptr, buf, 0, wasm.reserved);
      }
      vectorLen := |buf|;
      return Some(ptr);
    }

    /** The leading ASCII units go straight into memory at `ptr`, and nothing else changes. */
    method CopyAscii(arg: seq<Unit>, ptr: nat) returns (offset: nat)
      requires Valid()
      modifies this`cachedUint8Array, wasm.buffer
      ensures Valid() && |wasm.buffer.data| == old(|wasm.buffer.data|)
      ensures offset == AsciiLen(arg) <= |arg| && (forall i | 0 <= i < offset :: arg[i] < 0x80)
      ensures ptr + |arg| <= |wasm.buffer.data| ==>
                wasm.buffer.data == Splice(old(wasm.buffer.data), ptr, arg[..offset])
    {
      hide Contents, Splice, Laid;
      var mem := GetUint8ArrayMemory0();
      ghost var was := mem.data;
      offset := 0;
      if ptr <= |was| { SpliceNothing(was, ptr); }
      while offset < |arg|
        invariant Valid() && mem == wasm.buffer && offset <= |arg| && |mem.data| == |was|
        invariant forall i | 0 <= i < offset :: arg[i] < 0x80
        invariant ptr + |arg| <= |was| ==> mem.data == Splice(was, ptr, arg[..offset])
      {
        var code := arg[offset];
        if code > 0x7F {
          break;
        }
        if ptr + |arg| <= |was| {
          assert arg[..offset + 1] == arg[..offset] + [code];
          StoreIsSplice(mem.data, ptr + offset, code);
          SpliceOn(was, ptr, arg[..offset], [code]);
        }
        mem.Store(ptr + offset, code);
        offset := offset + 1;
      }
      AsciiLenIs(arg, offset);
    }

    /** The view from `at` to `end`, or to the end of the memory: where there is room for it, `encodeInto`
        consumes all of `src` and writes its encoding there and nothing else. */
    method EncodeIntoView(src: seq<Unit>, at: nat, end: nat) returns (thrown: bool, read: nat, written: nat)
      requires Valid() && at <= end
      modifies this`cachedUint8Array, wasm.buffer
      ensures Valid() && |wasm.buffer.data| == old(|wasm.buffer.data|)
      ensures at + |Utf8(src)| <= Clamp(end, |wasm.buffer.data|) ==>
                !thrown && read == |src| && written == |Utf8(src)|
                && wasm.buffer.data == Splice(old(wasm.buffer.data), at, Utf8(src))
    {
      hide Contents, Utf8, Splice, Laid, First, EncodeScalar;
      var view := Subarray(at, end);
      thrown, read, written := EncodeInto(src, view);
      if at + |Utf8(src)| <= Clamp(end, |wasm.buffer.data|) {
        AllRead(src, read, written, view.end - at);
      }
    }

    /** What `PassRemainder` is given: a block for the whole string that begins with its ASCII. */
    ghost predicate Begun(arg: seq<Unit>, ptr: nat, offset: nat)
      requires wasm.Valid() && offset <= |arg| && forall i | 0 <= i < offset :: arg[i] < 0x80
      reads this`wasm, wasm, wasm.buffer
    {
      ptr in wasm.Heap() && |wasm.Heap()[ptr]| == |arg| && wasm.Heap()[ptr][..offset] == arg[..offset]
    }

    /** The first `realloc`, to `offset + 3 * length` bytes modulo 2^32. */
    method GrowBlock(arg: seq<Unit>, ptr: nat, offset: nat, room: nat) returns (r: Option<Address>)
      requires Valid() && offset <= |arg| && (forall i | 0 <= i < offset :: arg[i] < 0x80)
      modifies wasm`buffer, wasm`blocks, wasm`traps, wasm.buffer
      ensures Valid() && (wasm.buffer == old(wasm.buffer) || fresh(wasm.buffer))
      ensures old(Begun(arg, ptr, offset)) && 0 < ToUint32(room) ==>
                wasm.traps == old(wasm.traps) + (if r.None? then 1 else 0) && wasm.Static() == old(wasm.Static())
                && (r.None? ==> wasm.Heap() == old(wasm.Heap()))
                && (r.Some? ==> wasm.IsBlock(r.value, ToUint32(room)) && r.value + ToUint32(room) <= |wasm.buffer.data|
                                && r.value in wasm.Heap() && |wasm.Heap()[r.value]| == ToUint32(room)
                                && wasm.Heap() - {r.value} == old(wasm.Heap()) - {ptr})
      ensures old(Begun(arg, ptr, offset)) && |arg| <= room < ADDRESS_SPACE && 0 < room && r.Some? ==>
                wasm.Heap()[r.value][..offset] == arg[..offset]
    {
      hide Contents, Splice, Laid, Resized;
      ghost var h, begun := wasm.Heap(), Begun(arg, ptr, offset) && 0 < ToUint32(room);
      if begun { InBlock(wasm.buffer.data, wasm.blocks, ptr); }
      var raw :- wasm.Realloc(ptr, ToUint32(|arg|), ToUint32(room), 1);
      var p := ToUint32(raw);
      if begun {
        NewBlock(h, wasm.Heap(), ptr, p, ToUint32(room));
        InBlock(wasm.buffer.data, wasm.blocks, p);
        if |arg| <= room < ADDRESS_SPACE { PrefixKept(h, wasm.Heap(), ptr, p, room, arg[..offset]); }
      }
      return Some(p);
    }

    /** The block grows to three bytes a unit and takes the encoded rest behind the prefix. Where the
        size wraps, the rest is written all the same, over the end of the block. */
    method EncodeRest(arg: seq<Unit>, ptr: nat, offset: nat) returns (r: Option<Address>, len: nat)
      requires Valid() && offset < |arg| && (forall i | 0 <= i < offset :: arg[i] < 0x80)
      modifies this`cachedUint8Array, wasm`buffer, wasm`blocks, wasm`traps, wasm.buffer
      ensures Valid() && (wasm.buffer == old(wasm.buffer) || fresh(wasm.buffer))
      ensures old(Begun(arg, ptr, offset)) && offset + 3 * (|arg| - offset) < ADDRESS_SPACE ==>
                wasm.traps == old(wasm.traps) + (if r.None? then 1 else 0) && wasm.Static() == old(wasm.Static())
                && (r.None? ==> wasm.Heap() == old(wasm.Heap()))
                && (r.Some? ==> len == |Utf8(arg)| && wasm.Heap() - {r.value} == old(wasm.Heap()) - {ptr}
                                && Encoded(arg, r.value, offset + 3 * (|arg| - offset)))
      ensures old(Begun(arg, ptr, offset)) && Wraps(arg, offset) && r.Some?
              && r.value + offset + |Utf8(arg[offset..])| <= |wasm.buffer.data| ==>
                wasm.IsBlock(r.value, ToUint32(offset + 3 * (|arg| - offset)))
                && ToUint32(offset + 3 * (|arg| - offset)) < len == offset + |Utf8(arg[offset..])|
                && wasm.buffer.data[r.value + offset..r.value + len] == Utf8(arg[offset..])
    {
      hide Contents, Utf8, Splice, Laid, Wraps, ToUint32;
      var rest := if offset != 0 then arg[offset..] else arg;
      assert rest == arg[offset..];
      var room := offset + 3 * |rest|;
      ghost var begun := Begun(arg, ptr, offset);
      RoomArrives(arg, offset);
      r := GrowBlock(arg, ptr, offset, room);
      if r.None? {
        return None, 0;
      }
      var p := r.value;
      ghost var was := wasm.buffer.data;
      if begun && room < ADDRESS_SPACE {
        RestWritten(was, wasm.blocks, p, arg, offset, wasm.reserved);
      }
      var thrown, read, written := EncodeIntoView(rest, p + offset, p + room);
      if thrown {
        return None, 0;
      }
      len := offset + written;
      if begun && Wraps(arg, offset) && p + offset + |Utf8(rest)| <= |was| {
        SpliceHolds(was, p + offset, Utf8(rest));
      }
    }

    /** The block at `p`, of `room` bytes, begins with the UTF-8 of `arg`. */
    ghost predicate Encoded(arg: seq<Unit>, p: nat, room: nat)
      requires wasm.Valid()
      reads this`wasm, wasm, wasm.buffer
    {
      p in wasm.Heap() && |wasm.Heap()[p]| == room && 0 < |Utf8(arg)| <= room
      && wasm.Heap()[p][..|Utf8(arg)|] == Utf8(arg)
    }

    /** From the first unit that is not ASCII: grow to three bytes a unit, encode
        behind the prefix, and cut the block to what was written. */
    method PassRemainder(arg: seq<Unit>, ptr: nat, offset: nat) returns (r: Option<Address>, len: nat)
      requires Valid() && offset < |arg| && (forall i | 0 <= i < offset :: arg[i] < 0x80)
      modifies this`cachedUint8Array, wasm`buffer, wasm`blocks, wasm`traps, wasm.buffer
      ensures Valid() && (wasm.buffer == old(wasm.buffer) || fresh(wasm.buffer))
      ensures old(Begun(arg, ptr, offset)) && offset + 3 * (|arg| - offset) < ADDRESS_SPACE ==>
                wasm.traps == old(wasm.traps) + (if r.None? then 1 else 0) && wasm.Static() == old(wasm.Static())
                && (r.None? ==> Spared(old(wasm.Heap()) - {ptr}, wasm.Heap()))
                && (r.Some? ==> len == |Utf8(arg)|
                                && Passed(old(wasm.Heap()) - {ptr}, wasm.Heap(), r.value, Utf8(arg)))
    {
      hide Contents, Utf8, Splice, Laid, Resized;
      ghost var room := offset + 3 * (|arg| - offset);
      ghost var fits := Begun(arg, ptr, offset) && room < ADDRESS_SPACE;
      r, len := EncodeRest(arg, ptr, offset);
      if r.None? {
        return;
      }
      ghost var p, before := r.value, wasm.Heap();
      if fits { InBlock(wasm.buffer.data, wasm.blocks, p); }
      var raw := wasm.Realloc(r.value, ToUint32(offset + 3 * (|arg| - offset)), ToUint32(len), 1);
      if raw.None? {
        return None, 0;
      }
      r := Some(ToUint32(raw.value));
      if fits { CutToSize(before, wasm.Heap(), p, r.value, Utf8(arg)); }
    }

    /** A block as long as the string, with its ASCII prefix in it. */
    method AllocateAndCopy(arg: seq<Unit>) returns (r: Option<Address>, offset: nat)
      requires Valid()
      modifies this`cachedUint8Array, wasm`buffer, wasm`blocks, wasm`traps, wasm.buffer
      ensures Valid() && (wasm.buffer == old(wasm.buffer) || fresh(wasm.buffer))
      ensures offset <= |arg| && (forall i | 0 <= i < offset :: arg[i] < 0x80)
      ensures r.Some? ==> offset == AsciiLen(arg)
      ensures |arg| < ADDRESS_SPACE ==>
                wasm.traps == old(wasm.traps) + (if r.None? then 1 else 0) && wasm.Static() == old(wasm.Static())
                && (r.None? || arg == [] ==> wasm.Heap() == old(wasm.Heap()))
                && (r.Some? && arg != [] ==> r.value !in old(wasm.Heap()) && Begun(arg, r.value, offset)
                                             && wasm.Heap() - {r.value} == old(wasm.Heap()))
    {
      hide Contents, Utf8, Splice, Laid;
      ghost var h := wasm.Heap();
      var raw := wasm.Malloc(ToUint32(|arg|), 1);
      if raw.None? {
        return None, 0;
      }
      var ptr := ToUint32(raw.value);
      ghost var data := wasm.buffer.data;
      offset := CopyAscii(arg, ptr);
      if |arg| < ADDRESS_SPACE {
        if arg != [] { InBlock(data, wasm.blocks, ptr); }
        AsciiCopied(data, wasm.blocks, ptr, arg, offset, wasm.reserved);
        assert arg != [] ==> h[ptr := Contents(data, wasm.blocks)[ptr]] - {ptr} == h;
      }
      r := Some(ptr);
    }

    /** `passStringToWasm0` with `realloc`. */
    method PassReallocated(arg: seq<Unit>) returns (r: Option<Address>)
      requires Valid()
      modifies this`cachedUint8Array, this`vectorLen, wasm`buffer, wasm`blocks, wasm`traps, wasm.buffer
      ensures Valid() && (wasm.buffer == old(wasm.buffer) || fresh(wasm.buffer))
      ensures Room(arg) < ADDRESS_SPACE ==>
                wasm.Static() == old(wasm.Static()) && (r.None? <==> old(wasm.traps) < wasm.traps)
                && (r.None? ==> Spared(old(wasm.Heap()), wasm.Heap()) && vectorLen == old(vectorLen))
                && (r.Some? ==> Passed(old(wasm.Heap()), wasm.Heap(), r.value, Utf8(arg)) && vectorLen == |Utf8(arg)|)
    {
      hide Contents, Utf8, Splice, Laid;
      var ptr, offset := AllocateAndCopy(arg);
      if ptr.None? {
        return None;
      }
      AsciiPrefix(arg, offset);
      if offset != |arg| {
        var passed, written := PassRemainder(arg, ptr.value, offset);
        if passed.None? {
          return None;
        }
        ptr, offset := passed, written;
      } else {
        ThreeBytesPerUnit(arg[offset..]);
        assert arg[offset..] == [] && arg[..offset] == arg == Utf8(arg);
        if |arg| < ADDRESS_SPACE && arg != [] {
          assert wasm.Heap()[ptr.value] == wasm.Heap()[ptr.value][..offset];
        }
      }
      vectorLen := offset;
      r := ptr;
    }

    /** The sizes a string is asked room for survive the passage as i32. */
    ghost predicate Crosses(arg: seq<Unit>, hasRealloc: bool) {
      if hasRealloc then Room(arg) < ADDRESS_SPACE else |Utf8(arg)| < ADDRESS_SPACE
    }

    /** `passStringToWasm0`: either way in, the memory gains one block that holds
        the UTF-8 of `arg`, `WASM_VECTOR_LEN` is its length, and no other block and no
        static byte changes, unless an allocation traps. */
    method PassStringToWasm0(arg: seq<Unit>, hasRealloc: bool) returns (r: Option<Address>)
      requires Valid()
      modifies this`cachedUint8Array, this`vectorLen, wasm`buffer, wasm`blocks, wasm`traps, wasm.buffer
      ensures Valid() && (wasm.buffer == old(wasm.buffer) || fresh(wasm.buffer))
      ensures Crosses(arg, hasRealloc) ==>
                wasm.Static() == old(wasm.Static()) && (r.None? <==> old(wasm.traps) < wasm.traps)
                && (r.None? ==> Spared(old(wasm.Heap()), wasm.Heap()) && vectorLen == old(vectorLen))
                && (r.Some? ==> Passed(old(wasm.Heap()), wasm.Heap(), r.value, Utf8(arg)) && vectorLen == |Utf8(arg)|)
    {
      if !hasRealloc {
        r := PassEncoded(arg);
      } else {
        r := PassReallocated(arg);
      }
    }

    /** `decodeText`: a decoder about to reach the limit is replaced by a fresh one,
        and the answer is the same either way. `None` is the decoder's TypeError. */
    method DecodeText(ptr: nat, len: nat) returns (r: Option<seq<Unit>>)
      requires Valid()
      modifies this`cachedUint8Array, this`numBytesDecoded, this`decoder, decoder
      ensures Valid() && (decoder == old(decoder) || fresh(decoder))
      ensures decoder == old(decoder) <==> old(numBytesDecoded) + len < MAX_SAFARI_DECODE_BYTES
      ensures numBytesDecoded == if decoder == old(decoder) then old(numBytesDecoded) + len else len
      ensures r == Decode(Window(wasm.buffer.data, ptr, ptr + len))
    {
      hide Utf.Decode, Contents, Laid;
      numBytesDecoded := numBytesDecoded + len;
      if numBytesDecoded >= MAX_SAFARI_DECODE_BYTES {
        decoder := new TextDecoder();
        numBytesDecoded := len;
      }
      var view := Subarray(ptr, ptr + len);
      r := decoder.Decode(view.buffer.data[view.start..view.end]);
    }

    /** `getStringFromWasm0`. */
    method GetStringFromWasm0(ptr: int, len: nat) returns (r: Option<seq<Unit>>)
      requires Valid()
      modifies this`cachedUint8Array, this`numBytesDecoded, this`decoder, decoder
      ensures Valid() && (decoder == old(decoder) || fresh(decoder))
      ensures r == Decode(Window(wasm.buffer.data, ToUint32(ptr), ToUint32(ptr) + len))
    {
      r := DecodeText(ToUint32(ptr), len);
    }

    /** What was passed in is read back with its lone surrogates replaced: unchanged
        when it had none. Holds from every state of the views and the decoder, and
        if the memory grows in between; only an allocation that traps prevents it. */
    method StringThereAndBack(arg: seq<Unit>, hasRealloc: bool, more: nat) returns (r: Option<seq<Unit>>)
      requires Valid()
      modifies this, wasm`buffer, wasm`blocks, wasm`traps, wasm.buffer, decoder
      ensures Valid()
      ensures Crosses(arg, hasRealloc) ==> (r.None? <==> old(wasm.traps) < wasm.traps)
      ensures Crosses(arg, hasRealloc) && r.Some? ==> r.value == ToWellFormed(arg) && (WellFormed(arg) ==> r.value == arg)
    {
      hide Contents, Utf8, Laid, Window, Room;
      var ptr :- PassStringToWasm0(arg, hasRealloc);
      if |wasm.buffer.data| + more <= ADDRESS_SPACE {
        MemoryGrows(more);
      }
      r := GetStringFromWasm0(AsInt32(ptr), vectorLen);
      if Crosses(arg, hasRealloc) {
        PassedIsRead(wasm.buffer.data, wasm.blocks, ptr, Utf8(arg));
      }
      EncodedDecodes(arg);
      ToWellFormedFixes(arg);
    }

    // ----- Arrays of values -----

    method AddToExternrefTable0(obj: JsValue) returns (r: Option<Address>)
      requires Valid()
      modifies wasm, wasm.buffer
      ensures Valid() && wasm.Heap() == old(wasm.Heap()) && wasm.Static() == old(wasm.Static())
      ensures wasm.buffer == old(wasm.buffer) || fresh(wasm.buffer)
      ensures old(|wasm.buffer.data|) <= |wasm.buffer.data|
      ensures wasm.traps == old(wasm.traps) + if r.None? then 1 else 0
      ensures r.None? ==> wasm.externrefs == old(wasm.externrefs)
      ensures r.Some? ==> r.value !in old(wasm.externrefs) && wasm.externrefs == old(wasm.externrefs)[r.value := obj]
    {
      var idx :- wasm.TableAlloc();
      wasm.TableSet(idx, obj);
      return Some(idx);
    }

    /** What is read from a slot not in use is left open. */
    method TakeFromExternrefTable0(idx: nat) returns (value: JsValue)
      requires Valid()
      modifies wasm`externrefs
      ensures Valid() && wasm.Heap() == old(wasm.Heap())
      ensures idx in old(wasm.externrefs) ==> value == old(wasm.externrefs)[idx]
      ensures wasm.externrefs == old(wasm.externrefs) - {idx}
    {
      value := if idx in wasm.externrefs then wasm.externrefs[idx] else Undefined;
      wasm.TableDealloc(idx);
    }

    /** The first `|slots|` words of the block at `ptr` are `slots`, and there is room for one more. */
    ghost predicate ListsSoFar(ptr: Address, slots: seq<Address>)
      requires wasm.Valid()
      reads this`wasm, wasm, wasm.buffer
    {
      ptr in wasm.Heap() && 4 * |slots| + 4 <= |wasm.Heap()[ptr]| && wasm.Heap()[ptr][..4 * |slots|] == Words(slots)
    }

    /** One turn of the loop: a slot for `v`, named by the word at `ptr + 4 * i`. A word past the
        end of the memory throws. */
    method PassValue(v: JsValue, ptr: Address, i: nat, ghost slots: seq<Address>) returns (r: Option<Address>)
      requires Valid() && i == |slots|
      modifies this`cachedDataView, wasm, wasm.buffer
      ensures Valid() && (wasm.buffer == old(wasm.buffer) || fresh(wasm.buffer))
      ensures old(|wasm.buffer.data|) <= |wasm.buffer.data|
      ensures r.Some? ==> ptr + 4 * i + 4 <= |wasm.buffer.data|
      ensures r.Some? ==> r.value !in old(wasm.externrefs) && wasm.externrefs == old(wasm.externrefs)[r.value := v]
      ensures old(ListsSoFar(ptr, slots)) ==>
                wasm.Static() == old(wasm.Static()) && wasm.traps == old(wasm.traps) + (if r.None? then 1 else 0)
                && (r.None? ==> wasm.Heap() == old(wasm.Heap()))
                && (r.Some? ==> ptr in wasm.Heap() && wasm.Heap() == old(wasm.Heap())[ptr := wasm.Heap()[ptr]]
                                && |wasm.Heap()[ptr]| == |old(wasm.Heap()[ptr])|
                                && wasm.Heap()[ptr][..4 * i + 4] == Words(slots + [r.value]))
    {
      hide Contents, Splice, Laid, Words;
      ghost var listed := ListsSoFar(ptr, slots);
      var add :- AddToExternrefTable0(v);
      var mem := GetDataViewMemory0();
      ghost var data := mem.data;
      if listed {
        InBlock(data, wasm.blocks, ptr);
        WordWritten(wasm.Heap()[ptr], slots, add);
        WriteInBlock(data, wasm.blocks, ptr, 4 * i, U32Bytes(add));
        SpliceElsewhere(data, ptr + 4 * i, U32Bytes(add), 0, wasm.reserved);
      }
      var thrown := mem.Set(ptr + 4 * i, mem.ByteLength(), U32Bytes(add));
      if thrown {
        return None;
      }
      return Some(add);
    }

    /** `passArrayJsValueToWasm0`: each value gets a slot of its own, and the block
        at the answer lists the slots. The table may grow the memory at every step.
        An array of 2^30 values or more is asked room for modulo 2^32: it never crosses. */
    method PassArrayJsValueToWasm0(values: seq<JsValue>) returns (r: Option<Address>)
      requires Valid()
      modifies this`cachedDataView, this`vectorLen, wasm, wasm.buffer
      ensures Valid() && (wasm.buffer == old(wasm.buffer) || fresh(wasm.buffer))
      ensures r.None? <==> old(wasm.traps) < wasm.traps || ADDRESS_SPACE <= 4 * |values|
      ensures 4 * |values| < ADDRESS_SPACE ==>
                wasm.Static() == old(wasm.Static()) && (r.None? ==> Spared(old(wasm.Heap()), wasm.Heap()))
      ensures r.Some? ==>
                vectorLen == |values| && (values == [] ==> r.value <= |wasm.buffer.data|) &&
                exists slots :: Listed(old(wasm.externrefs), wasm.externrefs, slots, values)
                                && Passed(old(wasm.Heap()), wasm.Heap(), r.value, Words(slots))
    {
      hide Contents, Splice, Laid, Words, Listed;
      ghost var h, t, fits := wasm.Heap(), wasm.externrefs, 4 * |values| < ADDRESS_SPACE;
      var raw :- wasm.Malloc(ToUint32(4 * |values|), 4);
      var ptr := ToUint32(raw);
      ghost var slots: seq<Address> := [];
      NoSlots(t);
      for i := 0 to |values|
        invariant Valid() && (wasm.buffer == old(wasm.buffer) || fresh(wasm.buffer))
        invariant |slots| == i && Listed(t, wasm.externrefs, slots, values[..i])
        invariant 0 < i || values == [] ==> ptr + 4 * i <= |wasm.buffer.data|
        invariant fits ==> wasm.traps == old(wasm.traps) && wasm.Static() == old(wasm.Static())
        invariant values == [] ==> wasm.Heap() == h
        invariant fits && values != [] ==>
                    ptr !in h && ptr in wasm.Heap() && wasm.Heap() == h[ptr := wasm.Heap()[ptr]]
                    && |wasm.Heap()[ptr]| == 4 * |values| && wasm.Heap()[ptr][..4 * i] == Words(slots)
      {
        ghost var table := wasm.externrefs;
        var added := PassValue(values[i], ptr, i, slots);
        if added.None? {
          return None;
        }
        ListedOneMore(t, table, slots, values[..i], added.value, values[i]);
        slots := slots + [added.value];
        assert values[..i + 1] == values[..i] + [values[i]];
      }
      vectorLen := |values|;
      assert values[..|values|] == values;
      if values != [] {
        assert wasm.Heap()[ptr][..4 * |values|] == wasm.Heap()[ptr] == Words(slots);
      }
      assert Listed(t, wasm.externrefs, slots, values) && Passed(h, wasm.Heap(), ptr, Words(slots));
      return Some(ptr);
    }

    /** `getArrayJsValueFromWasm0`: the values whose slots are listed at `ptr`; the slots are given back. */
    method GetArrayJsValueFromWasm0(ptr: int, len: nat) returns (result: seq<JsValue>)
      requires Valid() && ToUint32(ptr) + 4 * len <= |wasm.buffer.data|
      requires forall x | x in U32sAt(wasm.buffer.data, ToUint32(ptr), len) :: x in wasm.externrefs
      modifies this`cachedDataView, wasm`externrefs
      ensures Valid() && wasm.Heap() == old(wasm.Heap())
      ensures |result| == len
      ensures forall k | 0 <= k < len :: result[k] == old(wasm.externrefs)[U32sAt(wasm.buffer.data, ToUint32(ptr), len)[k]]
      ensures wasm.externrefs == old(wasm.externrefs) - set x | x in U32sAt(wasm.buffer.data, ToUint32(ptr), len)
    {
      var at := ToUint32(ptr);
      var mem := GetDataViewMemory0();
      ghost var slots := U32sAt(mem.data, at, len);
      result := [];
      var i := at;
      while i < at + 4 * len
        invariant at <= i <= at + 4 * len && i == at + 4 * |result|
        invariant forall k | 0 <= k < |result| :: result[k] == wasm.externrefs[slots[k]]
      {
        assert slots[|result|] in slots;
        result := result + [wasm.externrefs[U32At(mem.data, i)]];
        i := i + 4;
      }
      wasm.DropSlice(at, len);
    }

    /** An array passed in is read back whole and in order, and the table ends as it began; only an
        allocation that traps, or a length past the address space, prevents it. */
    method ArrayThereAndBack(values: seq<JsValue>) returns (r: Option<seq<JsValue>>)
      requires Valid()
      modifies this`cachedDataView, this`vectorLen, wasm, wasm.buffer
      ensures Valid()
      ensures r.None? <==> old(wasm.traps) < wasm.traps || ADDRESS_SPACE <= 4 * |values|
      ensures r.Some? ==> r.value == values && wasm.externrefs == old(wasm.externrefs)
    {
      hide Contents, Laid, Words;
      ghost var h, t := wasm.Heap(), wasm.externrefs;
      var ptr :- PassArrayJsValueToWasm0(values);
      ghost var slots :| Listed(t, wasm.externrefs, slots, values) && Passed(h, wasm.Heap(), ptr, Words(slots));
      ListIsRead(wasm.buffer.data, wasm.blocks, ptr, slots);
      var read := GetArrayJsValueFromWasm0(AsInt32(ptr), vectorLen);
      return Some(read);
    }
  }

  // ----- Sizes -----

  /** How many leading units are ASCII. */
  function AsciiLen(arg: seq<Unit>): (k: nat)
    ensures k <= |arg|
  {
    if arg == [] || 0x80 <= arg[0] then 0 else 1 + AsciiLen(arg[1..])
  }

  /** The most bytes `passStringToWasm0` asks `realloc` for. */
  function Room(arg: seq<Unit>): nat {
    AsciiLen(arg) + 3 * (|arg| - AsciiLen(arg))
  }

  lemma {:induction false} AsciiLenIs(arg: seq<Unit>, k: nat)
    requires k <= |arg| && (forall i | 0 <= i < k :: arg[i] < 0x80) && (k < |arg| ==> 0x80 <= arg[k])
    ensures AsciiLen(arg) == k
  {
    if 0 < k { AsciiLenIs(arg[1..], k - 1); }
  }

  /** The room for a string with `k` leading ASCII units does not arrive as it was sent. */
  ghost predicate Wraps(arg: seq<Unit>, k: nat)
    requires k <= |arg|
  {
    |arg| < ADDRESS_SPACE / 2 && ADDRESS_SPACE < k + 3 * (|arg| - k)
  }

  lemma RoomWraps(arg: seq<Unit>, k: nat)
    requires k <= |arg| < ADDRESS_SPACE / 2 && forall i | 0 <= i < k :: arg[i] < 0x80
    ensures ToUint32(k + 3 * (|arg| - k)) < |Utf8(arg)| <==> ADDRESS_SPACE <= k + 3 * (|arg| - k)
    ensures Wraps(arg, k) ==> 0 < ToUint32(k + 3 * (|arg| - k))
  {
    hide Utf8;
    AsciiPrefix(arg, k);
    ThreeBytesPerUnit(arg[k..]);
    var room := k + 3 * (|arg| - k);
    if ADDRESS_SPACE <= room {
      assert ToUint32(room) == room - ADDRESS_SPACE;
    }
  }

  lemma RoomArrives(arg: seq<Unit>, k: nat)
    requires k < |arg| && forall i | 0 <= i < k :: arg[i] < 0x80
    ensures var room := k + 3 * (|arg| - k);
            k + |Utf8(arg[k..])| <= room
            && (room < ADDRESS_SPACE ==> ToUint32(room) == room)
            && (Wraps(arg, k) ==> ADDRESS_SPACE <= room && 0 < ToUint32(room) < k + |Utf8(arg[k..])|)
  {
    hide Utf8;
    ThreeBytesPerUnit(arg[k..]);
    if Wraps(arg, k) {
      RoomWraps(arg, k);
      AsciiPrefix(arg, k);
    }
  }

  /** For strings below 2^31 units the block asked for is too small for the encoding if and only if the room
      reaches 2^32. */
  lemma LongStringOverrunsItsBlock(arg: seq<Unit>)
    requires |arg| < ADDRESS_SPACE / 2
    ensures ToUint32(Room(arg)) < |Utf8(arg)| <==> ADDRESS_SPACE <= Room(arg)
  {
    AsciiLenMeans(arg);
    RoomWraps(arg, AsciiLen(arg));
  }

  lemma {:induction false} AsciiLenMeans(arg: seq<Unit>)
    ensures forall i | 0 <= i < AsciiLen(arg) :: arg[i] < 0x80
  {
    if AsciiLen(arg) != 0 {
      AsciiLenMeans(arg[1..]);
      forall i | 0 <= i < AsciiLen(arg) ensures arg[i] < 0x80 {
        if 0 < i { assert arg[i] == arg[1..][i - 1]; }
      }
    }
  }

  /** From there on it can be large enough by accident: one unit of two bytes, and ASCII behind it. */
  lemma LongerStringCanFit(arg: seq<Unit>)
    requires |arg| == ADDRESS_SPACE / 2 + 1 && 0x80 <= arg[0] < 0x800 && forall i | 1 <= i < |arg| :: arg[i] < 0x80
    ensures ADDRESS_SPACE <= Room(arg) && |Utf8(arg)| < ToUint32(Room(arg))
  {
    hide Utf8;
    AsciiLenIs(arg, 0);
    TwoBytesInFront(arg);
  }

  lemma TwoBytesInFront(arg: seq<Unit>)
    requires arg != [] && 0x80 <= arg[0] < 0x800 && forall i | 1 <= i < |arg| :: arg[i] < 0x80
    ensures |Utf8(arg)| == |arg| + 1
  {
    hide Utf8;
    var rest := arg[1..];
    AsciiPrefix(rest, |rest|);
    ThreeBytesPerUnit(rest[|rest|..]);
    FirstOfTwoBytes(arg);
    hide EncodeScalar, First, Width;
    Utf8From(arg, 0);
    assert arg[0..] == arg;
  }

  lemma FirstOfTwoBytes(arg: seq<Unit>)
    requires arg != [] && 0x80 <= arg[0] < 0x800
    ensures Width(arg) == 1 && |EncodeScalar(First(arg))| == 2
  {
  }

  /** The prefix `CopyAscii` wrote is in the new block, and everything else is as it was. */
  lemma AsciiCopied(data: seq<Byte>, blocks: map<nat, nat>, ptr: nat, arg: seq<Unit>, offset: nat, reserved: nat)
    requires Laid(|data|, blocks) && offset <= |arg| && forall i | 0 <= i < offset :: arg[i] < 0x80
    requires arg != [] ==> ptr in blocks && blocks[ptr] == |arg| && reserved <= ptr
    requires ptr + |arg| <= |data| && reserved <= |data|
    ensures var d := Splice(data, ptr, arg[..offset]);
            (arg == [] ==> d == data) && d[..reserved] == data[..reserved] &&
            (arg != [] ==> Contents(d, blocks) - {ptr} == Contents(data, blocks) - {ptr}
                           && ptr in Contents(d, blocks) && |Contents(d, blocks)[ptr]| == |arg|
                           && Contents(d, blocks)[ptr][..offset] == arg[..offset])
  {
    if arg == [] {
      SpliceNothing(data, ptr);
    } else {
      hide Laid;
      var b := Contents(data, blocks)[ptr];
      WriteInBlock(data, blocks, ptr, 0, arg[..offset]);
      SpliceElsewhere(data, ptr, arg[..offset], 0, reserved);
      SpliceAtFront(b, arg[..offset]);
      InBlock(data, blocks, ptr);
    }
  }

  /** `slots` are new in the table, all different, and hold `values` in order. */
  ghost predicate Listed(before: map<nat, JsValue>, after: map<nat, JsValue>, slots: seq<Address>, values: seq<JsValue>) {
    |slots| == |values| &&
    (forall i | 0 <= i < |slots| :: slots[i] !in before) &&
    (forall i, j | 0 <= i < j < |slots| :: slots[i] != slots[j]) &&
    (forall x | x in after :: x in before || x in slots) &&
    (forall x | x in before :: x in after && after[x] == before[x]) &&
    (forall i | 0 <= i < |slots| :: slots[i] in after && after[slots[i]] == values[i])
  }

  lemma ListedOneMore(before: map<nat, JsValue>, after: map<nat, JsValue>, slots: seq<Address>, values: seq<JsValue>,
                      slot: Address, v: JsValue)
    requires Listed(before, after, slots, values) && slot !in after
    ensures Listed(before, after[slot := v], slots + [slot], values + [v])
  {
  }

  lemma ListIsRead(data: seq<Byte>, blocks: map<nat, nat>, ptr: Address, slots: seq<Address>)
    requires Laid(|data|, blocks)
    requires slots != [] ==> ptr in Contents(data, blocks) && Contents(data, blocks)[ptr] == Words(slots)
    ensures slots != [] ==> ptr + 4 * |slots| <= |data| && U32sAt(data, ptr, |slots|) == slots
  {
    hide Words;
    if slots != [] {
      InBlock(data, blocks, ptr);
      WordsAreRead(data, ptr, slots);
    }
  }

  /** The little-endian words of `slots`. */
  function Words(slots: seq<Address>): (b: seq<Byte>)
    ensures |b| == 4 * |slots|
  {
    if slots == [] then [] else Words(slots[..|slots| - 1]) + U32Bytes(slots[|slots| - 1])
  }

  /** Word `i` is the bytes of slot `i`. */
  lemma {:induction false} WordsInOrder(slots: seq<Address>, i: nat)
    requires i < |slots|
    ensures Words(slots)[4 * i..4 * i + 4] == U32Bytes(slots[i])
  {
    var n := |slots| - 1;
    if i < n {
      WordsInOrder(slots[..n], i);
      assert Words(slots)[4 * i..4 * i + 4] == Words(slots[..n])[4 * i..4 * i + 4];
    }
  }

  lemma NoSlots(table: map<nat, JsValue>)
    ensures Words([]) == [] && Listed(table, table, [], [])
  {
  }

  lemma WordWritten(block: seq<Byte>, slots: seq<Address>, slot: Address)
    requires 4 * |slots| + 4 <= |block| && block[..4 * |slots|] == Words(slots)
    ensures Splice(block, 4 * |slots|, U32Bytes(slot))[..4 * |slots + [slot]|] == Words(slots + [slot])
  {
    assert (slots + [slot])[..|slots|] == slots;
  }

  lemma {:induction false} WordsAreRead(data: seq<Byte>, at: nat, slots: seq<Address>)
    requires at + 4 * |slots| <= |data| && data[at..at + 4 * |slots|] == Words(slots)
    ensures U32sAt(data, at, |slots|) == slots
  {
    if slots != [] {
      var n := |slots| - 1;
      var b := data[at..at + 4 * n + 4];
      assert data[at..at + 4 * n] == b[..4 * n] == Words(slots[..n]);
      assert data[at + 4 * n..at + 4 * n + 4] == b[4 * n..] == U32Bytes(slots[n]);
      WordsAreRead(data, at, slots[..n]);
      U32RoundTrip(data, at + 4 * n, slots[n]);
      assert U32sAt(data, at, |slots|)[..n] == U32sAt(data, at, n);
    }
  }

  /** The bytes a subarray shows. */
  function Window(data: seq<Byte>, start: nat, end: nat): seq<Byte>
    requires start <= end
  {
    data[Clamp(start, |data|)..Clamp(end, |data|)]
  }

  lemma PassedIsRead(data: seq<Byte>, blocks: map<nat, nat>, ptr: nat, bytes: seq<Byte>)
    requires Laid(|data|, blocks)
    requires bytes != [] ==> ptr in Contents(data, blocks) && Contents(data, blocks)[ptr] == bytes
    ensures Window(data, ptr, ptr + |bytes|) == bytes
  {
    if bytes != [] {
      InBlock(data, blocks, ptr);
    }
  }

  lemma AllRead(src: seq<Unit>, read: nat, written: nat, room: nat)
    requires read <= |src| && written <= |Utf8(src)| <= room
    requires Utf8(src) == Utf8(src)[..written] + Utf8(src[read..])
    requires read < |src| ==> room < written + |EncodeScalar(First(src[read..]))|
    ensures read == |src| && written == |Utf8(src)| && Utf8(src)[..written] == Utf8(src)
  {
    hide EncodeScalar, First;
    assert |Utf8(src)| == written + |Utf8(src[read..])|;
  }

  /** The ASCII prefix in front, the encoded rest behind it: the whole encoding. */
  lemma AsciiThenRest(arg: seq<Unit>, k: nat, block: seq<Byte>)
    requires k <= |arg| && (forall i | 0 <= i < k :: arg[i] < 0x80)
    requires |block| == k + 3 * |arg[k..]| && block[..k] == arg[..k]
    ensures k + |Utf8(arg[k..])| == |Utf8(arg)| <= |block|
    ensures Splice(block, k, Utf8(arg[k..]))[..|Utf8(arg)|] == Utf8(arg)
    ensures k < |arg| ==> 0 < |Utf8(arg)|
  {
    hide Utf8;
    AsciiPrefix(arg, k);
    ThreeBytesPerUnit(arg[k..]);
  }

  lemma PrefixKept(before: Heap, after: Heap, p: nat, q: nat, size: nat, prefix: seq<Byte>)
    requires p in before && Resized(before, after, p, q, size)
    requires |prefix| <= |before[p]| <= size && before[p][..|prefix|] == prefix
    ensures q in after && |after[q]| == size && after[q][..|prefix|] == prefix
    ensures after - {q} == before - {p} && q !in before - {p}
  {
    assert after[q][..|before[p]|] == before[p][..|before[p]|] == before[p];
    assert after[q][..|prefix|] == after[q][..|before[p]|][..|prefix|];
  }

  lemma NewBlock(before: Heap, after: Heap, p: nat, q: nat, size: nat)
    requires p in before && Resized(before, after, p, q, size)
    ensures q in after && |after[q]| == size && after - {q} == before - {p}
  {
  }

  lemma CutToSize(before: Heap, after: Heap, p: nat, q: nat, bytes: seq<Byte>)
    requires p in before && Resized(before, after, p, q, |bytes|)
    requires |bytes| <= |before[p]| && before[p][..|bytes|] == bytes
    ensures after == (before - {p})[q := bytes] && q !in before - {p}
  {
    assert after[q] == after[q][..|bytes|] == bytes;
  }

  /** Behind its ASCII prefix the block has taken the rest of the encoding, and everything else is as it was. */
  lemma RestWritten(data: seq<Byte>, blocks: map<nat, nat>, p: nat, arg: seq<Unit>, k: nat, reserved: nat)
    requires Laid(|data|, blocks) && p in blocks && reserved <= p && p + blocks[p] <= |data|
    requires k < |arg| && (forall i | 0 <= i < k :: arg[i] < 0x80) && blocks[p] == k + 3 * |arg[k..]|
    requires Contents(data, blocks)[p][..k] == arg[..k] && |Contents(data, blocks)[p]| == blocks[p]
    ensures k + |Utf8(arg[k..])| == |Utf8(arg)| && 0 < |Utf8(arg)| <= blocks[p]
    ensures var d := Splice(data, p + k, Utf8(arg[k..]));
            p in Contents(d, blocks) && |Contents(d, blocks)[p]| == blocks[p]
            && Contents(d, blocks)[p][..|Utf8(arg)|] == Utf8(arg)
            && Contents(d, blocks) - {p} == Contents(data, blocks) - {p} && d[..reserved] == data[..reserved]
  {
    hide Utf8, Splice, Laid;
    var b, rest := Contents(data, blocks)[p], Utf8(arg[k..]);
    AsciiThenRest(arg, k, b);
    WriteInBlock(data, blocks, p, k, rest);
    SpliceElsewhere(data, p + k, rest, 0, reserved);
    assert Contents(data, blocks)[p := Splice(b, k, rest)] - {p} == Contents(data, blocks) - {p};
  }

  /** No block of `before` is touched. */
  ghost predicate Spared(before: Heap, after: Heap) {
    forall q | q in before :: q in after && after[q] == before[q]
  }

  /** The block at `p` is new and holds exactly `bytes`; every other block is as it was.
      No bytes take no block. */
  ghost predicate Passed(before: Heap, after: Heap, p: nat, bytes: seq<Byte>) {
    if bytes == [] then after == before
    else p !in before && after == before[p := bytes]
  }

  lemma InBlock(data: seq<Byte>, blocks: map<nat, nat>, p: nat)
    requires Laid(|data|, blocks) && p in Contents(data, blocks)
    ensures p in blocks && blocks[p] == |Contents(data, blocks)[p]| && p + blocks[p] <= |data|
  {
    assert Inside(|data|, blocks, p);
  }

  lemma StoreIsSplice(data: seq<Byte>, i: nat, b: Byte)
    requires i < |data|
    ensures data[i := b] == Splice(data, i, [b])
  {
  }

  lemma SpliceHolds(data: seq<Byte>, at: nat, bytes: seq<Byte>)
    requires at + |bytes| <= |data|
    ensures Splice(data, at, bytes)[at..at + |bytes|] == bytes
  {
  }

  lemma SpliceNothing(data: seq<Byte>, at: nat)
    requires at <= |data|
    ensures Splice(data, at, []) == data
  {
  }

  lemma SpliceAll(data: seq<Byte>, bytes: seq<Byte>)
    requires |data| == |bytes|
    ensures Splice(data, 0, bytes) == bytes
  {
  }

  method EncodeWhatFits(src: seq<Unit>, dst: Span) returns (read: nat, written: nat)
    requires dst.start <= dst.end <= |dst.buffer.data| && !dst.buffer.detached
    modifies dst.buffer
    ensures !dst.buffer.detached
    ensures read <= |src| && written <= |Utf8(src)| && dst.start + written <= dst.end
    ensures Utf8(src) == Utf8(src)[..written] + Utf8(src[read..])
    ensures dst.buffer.data == Splice(old(dst.buffer.data), dst.start, Utf8(src)[..written])
    ensures read < |src| ==> dst.end < dst.start + written + |EncodeScalar(First(src[read..]))|
  {
    hide Utf8, EncodeScalar, First, Splice;
    read, written := 0, 0;
    ghost var was := dst.buffer.data;
    ghost var done: seq<Byte> := [];
    assert src[0..] == src;
    SpliceNothing(was, dst.start);
    while read < |src|
      invariant read <= |src| && written == |done| && dst.start + written <= dst.end
      invariant !dst.buffer.detached && |dst.buffer.data| == |was|
      invariant Utf8(src) == done + Utf8(src[read..])
      invariant dst.buffer.data == Splice(was, dst.start, done)
    {
      var width, bytes := Width(src[read..]), EncodeScalar(First(src[read..]));
      if dst.end < dst.start + written + |bytes| {
        break;
      }
      EncodedFurther(src, read, done);
      SpliceOn(was, dst.start, done, bytes);
      var thrown := dst.buffer.Set(dst.start + written, dst.end, bytes);
      done := done + bytes;
      read, written := read + width, written + |bytes|;
    }
    assert Utf8(src)[..written] == done;
  }

  lemma EncodedFurther(src: seq<Unit>, read: nat, done: seq<Byte>)
    requires read < |src| && Utf8(src) == done + Utf8(src[read..])
    ensures Utf8(src) == (done + EncodeScalar(First(src[read..]))) + Utf8(src[read + Width(src[read..])..])
  {
    hide Utf8, EncodeScalar;
    var rest := src[read..];
    Utf8From(src, read);
    ConcatAssociates(done, EncodeScalar(First(rest)), Utf8(src[read + Width(rest)..]));
  }

  lemma SpliceOn(data: seq<Byte>, at: nat, a: seq<Byte>, b: seq<Byte>)
    requires at + |a| + |b| <= |data|
    ensures Splice(Splice(data, at, a), at + |a|, b) == Splice(data, at, a + b)
  {
  }
}
