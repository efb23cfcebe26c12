/** Passing a JavaScript string into the linear memory of the signer's WASM module. */
module WasmStrings {
  import opened Common
  import opened Unicode

  // ---------- lemmas on the text ----------

  lemma {:induction false} EncodedLength(s: seq<Unit>)
    ensures |s| <= |EncodeAll(Scalars(s))| <= 3 * |s|
  {
    if s != [] {
      var n := if StartsPair(s) then 2 else 1;
      EncodedLength(s[n..]);
      assert Scalars(s)[1..] == Scalars(s[n..]);
    }
  }

  lemma AsciiHead(s: seq<Unit>)
    requires s != [] && s[0] < 0x80
    ensures EncodeAll(Scalars(s)) == [s[0]] + EncodeAll(Scalars(s[1..]))
  {
    assert Encode(s[0]) == [s[0]];
    assert Scalars(s) == [s[0]] + Scalars(s[1..]);
    assert Scalars(s)[1..] == Scalars(s[1..]);
  }

  /** Cutting a string after ASCII characters never cuts through a surrogate pair. */
  lemma {:induction false} AsciiPrefix(s: seq<Unit>, k: nat)
    requires k <= |s| && forall i :: 0 <= i < k ==> s[i] < 0x80
    ensures EncodeAll(Scalars(s)) == s[..k] + EncodeAll(Scalars(s[k..]))
  {
    hide EncodeAll, Scalars;
    if k == 0 {
      assert s[0..] == s;
    } else {
      var tail := s[1..];
      AsciiHead(s);
      AsciiPrefix(tail, k - 1);
      assert tail[k - 1..] == s[k..];
      assert s[..k] == [s[0]] + tail[..k - 1];
    }
  }

  lemma WholeIsAscii(s: seq<Unit>)
    requires forall i :: 0 <= i < |s| ==> s[i] < 0x80
    ensures EncodeAll(Scalars(s)) == s
  {
    AsciiPrefix(s, |s|);
    assert s[|s|..] == [];
  }

  // ---------- the module's memory ----------

  /** Blocks (address and size) below `top` that do not overlap. */
  ghost predicate Apart(blocks: map<nat, nat>, top: nat) {
    && (forall p :: p in blocks ==> 0 < blocks[p] && p + blocks[p] <= top)
    && (forall p, q :: p in blocks && q in blocks && p < q ==> p + blocks[p] <= q)
  }

  ghost predicate Owned(blocks: map<nat, nat>, j: int) {
    exists p :: p in blocks && p <= j < p + blocks[p]
  }

  lemma StaysApart(blocks: map<nat, nat>, ptr: nat, size: nat, top: nat)
    requires ptr in blocks && Apart(blocks, top)
    ensures ptr + blocks[ptr] <= top && Apart(blocks - {ptr}, top)
    ensures 0 < size <= blocks[ptr] ==> Apart(blocks[ptr := size], top)
  {}

  lemma OwnedElsewhere(blocks: map<nat, nat>, ptr: nat, size: nat, top: nat, j: int)
    requires ptr !in blocks && Apart(blocks[ptr := size], top) && Owned(blocks, j)
    ensures !(ptr <= j < ptr + size)
  {
    var all := blocks[ptr := size];
    var p :| p in blocks && p <= j < p + blocks[p];
    assert p in all && ptr in all;
  }

  lemma NewBlockIsApart(blocks: map<nat, nat>, ptr: nat, size: nat, top: nat)
    requires ptr !in blocks && Apart(blocks[ptr := size], top)
    ensures forall j :: ptr <= j < ptr + size ==> !Owned(blocks, j)
  {
    forall j | ptr <= j < ptr + size ensures !Owned(blocks, j) {
      if Owned(blocks, j) {
        OwnedElsewhere(blocks, ptr, size, top, j);
      }
    }
  }

  /** `after` has every octet of `before` except those in [lo, hi), and may be longer. */
  ghost predicate SameOutside(before: seq<Byte>, after: seq<Byte>, lo: nat, hi: nat) {
    |before| <= |after| && forall j :: 0 <= j < |before| && !(lo <= j < hi) ==> after[j] == before[j]
  }

  /** Linear memory with an allocator. The contracts of Malloc and Realloc are all that the
      string code relies on; the bodies are one allocator that meets them. Memory only grows,
      so it is a sequence here, and a view of it is the sequence itself. */
  class WasmMemory {
    var memory: seq<Byte>
    var vectorLength: nat            // WASM_VECTOR_LEN
    var top: nat
    ghost var blocks: map<nat, nat>  // the live blocks of at least one octet, with their sizes

    ghost predicate Valid()
      reads this
    {
      top <= |memory| && Apart(blocks, top)
    }

    constructor ()
      ensures Valid() && blocks == map[]
    {
      memory, vectorLength, top, blocks := [], 0, 0, map[];
    }

    method Malloc(size: nat) returns (ptr: nat)
      requires Valid()
      modifies this
      ensures Valid() && ptr + size <= |memory| && old(memory) <= memory
      ensures size == 0 ==> blocks == old(blocks)
      ensures size > 0 ==> ptr !in old(blocks) && blocks == old(blocks)[ptr := size]
    {
      ptr := top;
      if top + size > |memory| {
        memory := memory + seq(top + size - |memory|, _ => 0);
      }
      if size > 0 {
        top := top + size;
        blocks := blocks[ptr := size];
      }
    }

    /** Overwrites the octets from `at` on. */
    method Write(at: nat, data: seq<Byte>)
      requires at + |data| <= |memory|
      modifies this`memory
      ensures |memory| == |old(memory)| && memory[at..at + |data|] == data
      ensures SameOutside(old(memory), memory, at, at + |data|)
    {
      memory := memory[..at] + data + memory[at + |data|..];
    }

    method Realloc(ptr: nat, oldSize: nat, newSize: nat) returns (moved: nat)
      requires Valid() && ptr in blocks && blocks[ptr] == oldSize && 0 < newSize
      modifies this
      ensures Valid() && moved + newSize <= |memory|
      ensures moved !in old(blocks) - {ptr} && blocks == (old(blocks) - {ptr})[moved := newSize]
      ensures var kept := Min(oldSize, newSize); memory[moved..moved + kept] == old(memory[ptr..ptr + kept])
      ensures SameOutside(old(memory), memory, moved, moved + newSize)
    {
      StaysApart(blocks, ptr, newSize, top);
      hide Apart;
      if newSize <= oldSize {
        moved := ptr;
        blocks := blocks[ptr := newSize];
      } else {
        moved := Move(ptr, oldSize, newSize);
      }
    }

    method Move(ptr: nat, oldSize: nat, newSize: nat) returns (moved: nat)
      requires Valid() && ptr in blocks && blocks[ptr] == oldSize < newSize && ptr + oldSize <= |memory|
      modifies this
      ensures Valid() && moved + newSize <= |memory|
      ensures moved !in old(blocks) - {ptr} && blocks == (old(blocks) - {ptr})[moved := newSize]
      ensures memory[moved..moved + oldSize] == old(memory[ptr..ptr + oldSize])
      ensures SameOutside(old(memory), memory, moved, moved + newSize)
    {
      hide Apart;
      var held := memory[ptr..ptr + oldSize];
      moved := Malloc(newSize);
      StaysApart(blocks, ptr, oldSize, top);
      Write(moved, held);
      assert blocks - {ptr} == (old(blocks) - {ptr})[moved := newSize];
      blocks := blocks - {ptr};
    }

    /** TextEncoder.encodeInto on the view [lo, hi): whole characters only, as many as fit. */
    method EncodeInto(arg: seq<Unit>, lo: nat, hi: nat) returns (written: nat)
      requires lo <= hi <= |memory|
      modifies this`memory
      ensures |memory| == |old(memory)|
      ensures var out := EncodeAll(Within(Encode, Scalars(arg), hi - lo));
              written == |out| <= hi - lo && memory[lo..lo + written] == out
      ensures SameOutside(old(memory), memory, lo, lo + written)
    {
      WithinIsLongestFit(Encode, Scalars(arg), hi - lo);
      var out := EncodeAll(Within(Encode, Scalars(arg), hi - lo));
      written := |out|;
      Write(lo, out);
    }

    /** Encodes in place, or encodes and copies where encodeInto is missing. */
    method EncodeString(arg: seq<Unit>, lo: nat, hi: nat, hasEncodeInto: bool) returns (written: nat)
      requires lo <= hi <= |memory|
      requires |EncodeAll(Scalars(arg))| <= hi - lo
      modifies this`memory
      ensures |memory| == |old(memory)| && written == |EncodeAll(Scalars(arg))|
      ensures memory[lo..lo + written] == EncodeAll(Scalars(arg))
      ensures SameOutside(old(memory), memory, lo, lo + written)
    {
      if hasEncodeInto {
        WithinAppend(Encode, Scalars(arg), [], hi - lo);
        assert Scalars(arg) + [] == Scalars(arg);
        written := EncodeInto(arg, lo, hi);
      } else {
        var buf := EncodeAll(Scalars(arg));
        Write(lo, buf);
        written := |buf|;
      }
    }

    /** Copies octets up to the first one beyond ASCII; `offset` is where it stopped. */
    method CopyAscii(arg: seq<Unit>, ptr: nat) returns (offset: nat)
      requires ptr + |arg| <= |memory|
      modifies this`memory
      ensures offset <= |arg| && (forall i :: 0 <= i < offset ==> arg[i] < 0x80)
      ensures offset < |arg| ==> arg[offset] >= 0x80
      ensures |memory| == |old(memory)| && memory[ptr..ptr + offset] == arg[..offset]
      ensures SameOutside(old(memory), memory, ptr, ptr + offset)
    {
      offset := 0;
      while offset < |arg|
        invariant 0 <= offset <= |arg|
        invariant forall i :: 0 <= i < offset ==> arg[i] < 0x80
        invariant |memory| == |old(memory)| && memory[ptr..ptr + offset] == arg[..offset]
        invariant SameOutside(old(memory), memory, ptr, ptr + offset)
      {
        var code := arg[offset];
        if code > 0x7F { break; }
        memory := memory[ptr + offset := code];
        offset := offset + 1;
        assert memory[ptr..ptr + offset] == memory[ptr..ptr + offset - 1] + [code];
      }
    }

    /** The string is held in full, in exactly vectorLength octets, by a block of its own,
        and every octet of every other live block is as it was. */
    twostate predicate Passed(arg: seq<Unit>, ptr: nat)
      reads this
    {
      && Valid() && ptr + vectorLength <= |memory|
      && memory[ptr..ptr + vectorLength] == EncodeAll(Scalars(arg))
      && (if vectorLength == 0 then blocks == old(blocks)
          else ptr !in old(blocks) && blocks == old(blocks)[ptr := vectorLength])
      && KeptOwned(old(memory), memory, old(blocks))
    }

    method PassString(arg: seq<Unit>, hasRealloc: bool, hasEncodeInto: bool) returns (ptr: nat)
      requires Valid()
      modifies this
      ensures Passed(arg, ptr)
    {
      hide EncodeAll, Encode, Scalars, Apart;
      ghost var was := memory;
      if !hasRealloc {
        var buf := EncodeAll(Scalars(arg));
        ptr := Malloc(|buf|);
        Write(ptr, buf);
        vectorLength := |buf|;
        Keeps(old(blocks), was, memory, ptr, |buf|, top, ptr, ptr + |buf|);
        return;
      }

      EncodedLength(arg);
      var len := |arg|;
      ptr := Malloc(len);
      var offset := CopyAscii(arg, ptr);
      Keeps(old(blocks), was, memory, ptr, len, top, ptr, ptr + offset);
      if offset != len {
        assert blocks - {ptr} == old(blocks);
        ptr, offset := PassRest(arg, ptr, offset, hasEncodeInto);
      } else {
        WholeIsAscii(arg);
      }
      vectorLength := offset;
    }

    /** The slow path: the block is grown, filled, and cut down to what was used. */
    method PassRest(arg: seq<Unit>, ptr: nat, offset: nat, hasEncodeInto: bool) returns (moved: nat, total: nat)
      requires Valid() && ptr in blocks && blocks[ptr] == |arg| && offset < |arg| && ptr + |arg| <= |memory|
      requires memory[ptr..ptr + offset] == arg[..offset] && forall i :: 0 <= i < offset ==> arg[i] < 0x80
      modifies this
      ensures Valid() && moved + total <= |memory|
      ensures memory[moved..moved + total] == EncodeAll(Scalars(arg))
      ensures total > 0 && moved !in old(blocks) - {ptr} && blocks == (old(blocks) - {ptr})[moved := total]
      ensures KeptOwned(old(memory), memory, old(blocks) - {ptr})
    {
      hide EncodeAll, Encode, Scalars, Apart, SameOutside, KeptOwned, Owned;
      ghost var others, was := blocks - {ptr}, memory;
      var capacity: nat;
      moved, capacity, total := GrowAndEncode(arg, ptr, offset, hasEncodeInto);
      assert blocks - {moved} == others;
      ghost var encoded := memory;
      moved := Realloc(moved, capacity, total);
      Keeps(others, encoded, memory, moved, total, top, moved, moved + total);
      KeepsTwice(others, was, encoded, memory);
    }

    /** Makes room for three octets per remaining unit and encodes the rest in place. */
    method GrowAndEncode(arg: seq<Unit>, ptr: nat, offset: nat, hasEncodeInto: bool)
      returns (moved: nat, capacity: nat, total: nat)
      requires Valid() && ptr in blocks && blocks[ptr] == |arg| && offset < |arg| && ptr + |arg| <= |memory|
      requires memory[ptr..ptr + offset] == arg[..offset] && forall i :: 0 <= i < offset ==> arg[i] < 0x80
      modifies this
      ensures Valid() && capacity == offset + 3 * (|arg| - offset) && 0 < total <= capacity
      ensures moved + capacity <= |memory| && memory[moved..moved + total] == EncodeAll(Scalars(arg))
      ensures moved !in old(blocks) - {ptr} && blocks == (old(blocks) - {ptr})[moved := capacity]
      ensures KeptOwned(old(memory), memory, old(blocks) - {ptr})
    {
      hide EncodeAll, Encode, Scalars, Apart, SameOutside, KeptOwned, Owned;
      ghost var others, was := blocks - {ptr}, memory;
      var rest := if offset != 0 then arg[offset..] else arg;
      assert rest == arg[offset..];
      AsciiPrefix(arg, offset);
      EncodedLength(rest);
      capacity := offset + |rest| * 3;
      moved := Realloc(ptr, |arg|, capacity);
      Keeps(others, was, memory, moved, capacity, top, moved, moved + capacity);
      SlicePrefix(memory, moved, |arg|, offset);
      SlicePrefix(was, ptr, |arg|, offset);
      ghost var grown := memory;
      var written := EncodeString(rest, moved + offset, moved + capacity, hasEncodeInto);
      Keeps(others, grown, memory, moved, capacity, top, moved + offset, moved + offset + written);
      KeepsTwice(others, was, grown, memory);
      SliceOutside(grown, memory, moved + offset, moved + offset + written, moved, moved + offset);
      total := offset + written;
      SliceJoin(memory, moved, moved + offset, moved + total);
    }
  }

  /** Every octet of every block in `blocks` is the same before and after. */
  ghost predicate KeptOwned(before: seq<Byte>, after: seq<Byte>, blocks: map<nat, nat>) {
    |before| <= |after| && forall j :: 0 <= j < |before| && Owned(blocks, j) ==> after[j] == before[j]
  }

  lemma KeepsTwice(blocks: map<nat, nat>, a: seq<Byte>, b: seq<Byte>, c: seq<Byte>)
    requires KeptOwned(a, b, blocks) && KeptOwned(b, c, blocks)
    ensures KeptOwned(a, c, blocks)
  {}

  lemma SlicePrefix(s: seq<Byte>, lo: nat, n: nat, k: nat)
    requires k <= n && lo + n <= |s|
    ensures s[lo..lo + n][..k] == s[lo..lo + k]
  {}

  lemma SliceJoin(s: seq<Byte>, lo: nat, mid: nat, hi: nat)
    requires lo <= mid <= hi <= |s|
    ensures s[lo..hi] == s[lo..mid] + s[mid..hi]
  {}

  lemma SliceOutside(before: seq<Byte>, after: seq<Byte>, lo: nat, hi: nat, a: nat, b: nat)
    requires SameOutside(before, after, lo, hi) && a <= b <= |before| && (b <= lo || hi <= a)
    ensures b <= |after| && after[a..b] == before[a..b]
  {}

  lemma Keeps(blocks: map<nat, nat>, before: seq<Byte>, after: seq<Byte>, ptr: nat, size: nat, top: nat,
              lo: nat, hi: nat)
    requires ptr <= lo && hi <= ptr + size
    requires size == 0 || (ptr !in blocks && Apart(blocks[ptr := size], top))
    requires SameOutside(before, after, lo, hi)
    ensures KeptOwned(before, after, blocks)
  {
    if size > 0 {
      NewBlockIsApart(blocks, ptr, size, top);
    }
  }
}
