/** The allocator as the source runs it: an object owning the arena bytes, the break and
    the chain, whose methods update them in place. Each method's result and new state are
    tied to the functions of Chain and Policy, whose properties are proved there. */
module MyMalloc {
  import opened Layout
  import opened Chain
  import Policy

  class Allocator {
    /** pBreak, as an offset into the arena. */
    var brk: nat
    /** The chain from firstBlock, in address order; firstBlock is NULL exactly when it is empty. */
    var blocks: seq<Block>
    /** rawData: the bytes of the arena (the data regions; headers are kept in `blocks`). */
    const mem: array<byte>

    ghost predicate Valid()
      reads this
    {
      mem.Length == MEM_SIZE && WellFormed(Heap(blocks, brk))
    }

    /** The chain and the break as one value. */
    function State(): Heap
      reads this
    {
      Heap(blocks, brk)
    }

    /** The arena before the first call: nothing carved, break at the start. */
    constructor ()
      ensures Valid() && State() == Heap([], 0) && fresh(mem)
    {
      brk := 0;
      blocks := [];
      mem := new byte[MEM_SIZE];
    }

    /** my_brk: set the break to `a` when it lies in [0, MEM_SIZE], else fail with -1. */
    method Brk(a: int) returns (r: int)
      modifies this`brk
      ensures 0 <= a <= MEM_SIZE ==> r == 0 && brk == a
      ensures !(0 <= a <= MEM_SIZE) ==> r == -1 && brk == old(brk)
    {
      if 0 <= a <= MEM_SIZE {
        brk := a;
        r := 0;
      } else {
        r := -1;
      }
    }

    /** my_sbrk: move the break forward by `increment` and return where it was, or fail
        (the `(void*)-1` sentinel is None) without moving it. */
    method Sbrk(increment: nat) returns (p: Option<nat>)
      requires brk <= MEM_SIZE
      modifies this`brk
      ensures brk <= MEM_SIZE
      ensures old(brk) + increment <= MEM_SIZE ==> p == Some(old(brk)) && brk == old(brk) + increment
      ensures old(brk) + increment > MEM_SIZE ==> p == None && brk == old(brk)
    {
      if brk + increment <= MEM_SIZE {
        p := Some(brk);
        brk := brk + increment;
      } else {
        p := None;
      }
    }

    /** findBlock: walk the chain from firstBlock to the first free block of at least `size`
        bytes, recording in `last` the last block passed over (firstBlock when none was). */
    method FindBlock(size: nat) returns (found: Option<nat>, last: nat)
      requires blocks != []
      ensures found == FirstFit(blocks, size)
      ensures last < |blocks|
      ensures found.None? ==> last == |blocks| - 1
      ensures found.Some? ==> last == if found.value == 0 then 0 else found.value - 1
    {
      last := 0;
      var i := 0;
      while i < |blocks| && !Fits(blocks[i], size)
        invariant 0 <= i <= |blocks|
        invariant forall j :: 0 <= j < i ==> !Fits(blocks[j], size)
        invariant last == if i == 0 then 0 else i - 1
      {
        last := i;
        i := i + 1;
      }
      found := if i < |blocks| then Some(i) else None;
    }

    /** extendBlock: carve a used block of `size` bytes at the break and link it after
        `last`, the current tail (None when the chain is empty); NULL when the arena is full. */
    method ExtendBlock(last: Option<nat>, size: nat) returns (b: Option<nat>)
      requires Valid() && size % 4 == 0
      requires last == if blocks == [] then None else Some(|blocks| - 1)
      modifies this`blocks, this`brk
      ensures Valid()
      ensures old(brk) + BLOCK_SIZE + size <= MEM_SIZE ==>
                b == Some(|old(blocks)|) && State() == Extend(old(State()), size)
      ensures old(brk) + BLOCK_SIZE + size > MEM_SIZE ==> b == None && State() == old(State())
    {
      var start := Sbrk(0);
      var p := Sbrk(BLOCK_SIZE + size);
      if p.None? {
        return None;
      }
      ExtendWellFormed(old(State()), size);
      blocks := blocks + [Block(start.value, size, false)];
      b := Some(|blocks| - 1);
    }

    /** splitBlock: block i keeps `size` bytes; a free block takes the rest, linked between
        it and its old successor. */
    method SplitBlock(i: nat, size: nat)
      requires Valid() && i < |blocks| && size % 4 == 0 && size + BLOCK_SIZE <= blocks[i].size
      modifies this`blocks
      ensures Valid() && State() == Heap(Split(old(blocks), i, size), brk)
    {
      SplitWellFormed(State(), i, size);
      blocks := Split(blocks, i, size);
    }

    /** mergeBlock: block i absorbs its successor, which leaves the chain. */
    method MergeBlock(i: nat)
      requires Valid() && i + 1 < |blocks|
      modifies this`blocks
      ensures old(blocks)[i + 1].offset == End(old(blocks)[i])
      ensures Valid() && State() == Heap(Merge(old(blocks), i), brk)
    {
      MergeWellFormed(State(), i);
      blocks := Merge(blocks, i);
    }

    /** copyBlock: copy the `blocks[src].size` data bytes of block src to the start of
        block des, which is at least as large. */
    method CopyBlock(des: nat, src: nat)
      requires Valid() && des < |blocks| && src < |blocks| && des != src
      requires blocks[src].size <= blocks[des].size
      modifies mem
      ensures Data(blocks[des]) + blocks[src].size <= mem.Length
      ensures Data(blocks[src]) + blocks[src].size <= mem.Length
      ensures mem[Data(blocks[des]) .. Data(blocks[des]) + blocks[src].size]
           == old(mem[Data(blocks[src]) .. Data(blocks[src]) + blocks[src].size])
      ensures mem[.. Data(blocks[des])] == old(mem[.. Data(blocks[des])])
      ensures mem[Data(blocks[des]) + blocks[src].size ..] == old(mem[Data(blocks[des]) + blocks[src].size ..])
    {
      var d, s, n := Data(blocks[des]), Data(blocks[src]), blocks[src].size;
      InArena(State(), des);
      InArena(State(), src);
      if des < src { Ordered(blocks, brk, des, src); } else { Ordered(blocks, brk, src, des); }
      CopyBytes(d, s, n);
    }

    /** The loop of copyBlock: copy mem[s .. s + n] over the disjoint range mem[d .. d + n]. */
    method CopyBytes(d: nat, s: nat, n: nat)
      requires d + n <= mem.Length && s + n <= mem.Length
      requires d + n <= s || s + n <= d
      modifies mem
      ensures mem[d .. d + n] == old(mem[s .. s + n])
      ensures mem[.. d] == old(mem[.. d]) && mem[d + n ..] == old(mem[d + n ..])
    {
      ghost var from := mem[s .. s + n];
      var i := 0;
      while i < n
        invariant 0 <= i <= n
        invariant forall j :: d <= j < d + i ==> mem[j] == from[j - d]
        invariant forall j :: 0 <= j < mem.Length && !(d <= j < d + i) ==> mem[j] == old(mem[j])
      {
        mem[d + i] := mem[s + i];
        i := i + 1;
      }
      assert mem[d .. d + n] == from;
    }

    /** my_malloc. */
    method Malloc(size: nat) returns (p: Option<nat>)
      requires Valid()
      modifies this`blocks, this`brk
      ensures Valid()
      ensures (State(), p) == Policy.Malloc(old(State()), size)
      ensures Coalesced(old(blocks)) ==> Coalesced(blocks)
    {
      ghost var h0 := State();
      var s := Align4(size);
      if blocks != [] {
        var b, last := FindBlock(s);
        if b.Some? {
          p := Some(Data(blocks[b.value]));
          Reuse(size, b.value);
        } else {
          var e := ExtendBlock(Some(last), s);
          if e.None? {
            return None;
          }
          p := Some(Data(blocks[e.value]));
          assert (State(), p) == Policy.Grow(h0, s);
          Policy.MallocWellFormed(h0, size);
        }
      } else {
        var e := ExtendBlock(None, s);
        if e.None? {
          return None;
        }
        p := Some(Data(blocks[e.value]));
        assert (State(), p) == Policy.Grow(h0, s);
      }
    }

    /** The reuse path of my_malloc: hand out the first fitting block k, split first when
        its slack reaches BLOCK_SIZE + BLOCK_SPLIT. */
    method Reuse(size: nat, k: nat)
      requires Valid() && blocks != [] && FirstFit(blocks, Align4(size)) == Some(k)
      modifies this`blocks
      ensures Valid()
      ensures (State(), Some(old(Data(blocks[k])))) == Policy.Malloc(old(State()), size)
      ensures Coalesced(old(blocks)) ==> Coalesced(blocks)
    {
      var s := Align4(size);
      if Coalesced(blocks) { Policy.UseKeepsCoalesced(blocks, k, s); }
      if blocks[k].size - s >= BLOCK_SIZE + BLOCK_SPLIT {
        SplitBlock(k, s);
      }
      SetFreeWellFormed(State(), k, false);
      blocks := SetFree(blocks, k, false);
    }

    /** my_calloc: my_malloc(number * size) with its first align4(number * size) bytes
        zeroed; a product that does not fit in size_t fails instead of wrapping. */
    method Calloc(number: nat, size: nat) returns (p: Option<nat>)
      requires Valid()
      modifies this`blocks, this`brk, mem
      ensures Valid()
      ensures number * size > SIZE_MAX ==> p == None && State() == old(State())
      ensures number * size <= SIZE_MAX ==> (State(), p) == Policy.Malloc(old(State()), number * size)
      ensures p.Some? ==> p.value + Align4(number * size) <= mem.Length
      ensures p.Some? ==> forall j :: p.value <= j < p.value + Align4(number * size) ==> mem[j] == 0
      ensures p.Some? ==> forall j :: 0 <= j < mem.Length && !(p.value <= j < p.value + Align4(number * size))
                            ==> mem[j] == old(mem[j])
      ensures p.None? ==> mem[..] == old(mem[..])
    {
      if number * size > SIZE_MAX {
        return None;
      }
      Policy.MallocResult(State(), number * size);
      p := Malloc(number * size);
      if p.Some? {
        Zero(p.value, Align4(number * size));
      }
    }

    /** The zeroing loop of my_calloc: clears mem[a .. a + n] and nothing else. */
    method Zero(a: nat, n: nat)
      requires a + n <= mem.Length
      modifies mem
      ensures forall j :: a <= j < a + n ==> mem[j] == 0
      ensures forall j :: 0 <= j < mem.Length && !(a <= j < a + n) ==> mem[j] == old(mem[j])
    {
      var i := 0;
      while i < n
        invariant 0 <= i <= n
        invariant forall j :: a <= j < a + i ==> mem[j] == 0
        invariant forall j :: 0 <= j < mem.Length && !(a <= j < a + i) ==> mem[j] == old(mem[j])
      {
        mem[a + i] := 0;
        i := i + 1;
      }
    }

    /** my_free, merging the successor when it is free. */
    method Free(addr: Option<nat>)
      requires Valid()
      modifies this`blocks, this`brk
      ensures Valid()
      ensures State() == if addr.None? then old(State()) else Policy.Free(old(State()), addr.value)
    {
      if addr.None? || !ValidAddr(State(), addr.value) {
        return;
      }
      var a := addr.value;
      ghost var h0 := State();
      var i := GetBlock(blocks, a).value;
      if i == |blocks| - 1 {
        var ok := Brk(blocks[i].offset);
        blocks := blocks[..i];
        assert State() == Policy.Free(h0, a);
        Policy.FreeWellFormed(h0, a);
      } else {
        assert blocks[i + 1].offset == End(blocks[i]);
        assert i > 0 ==> blocks[i].offset == End(blocks[i - 1]);
        FreeAndMerge(i);
        Policy.FreeWellFormed(h0, a);
      }
    }

    /** my_free of block i when it is not the last one: mark it free, merge a free successor
        into it, then merge it into a free predecessor. */
    method FreeAndMerge(i: nat)
      requires Valid() && i + 1 < |blocks|
      requires blocks[i + 1].offset == End(blocks[i]) && (i > 0 ==> blocks[i].offset == End(blocks[i - 1]))
      modifies this`blocks
      ensures Valid() && blocks == Policy.FreeAt(old(blocks), i)
    {
      ghost var b0 := blocks;
      SetFreeWellFormed(State(), i, true);
      blocks := SetFree(blocks, i, true);
      if blocks[i + 1].free {
        MergeBlock(i);
      }
      assert blocks == Policy.FreeNext(b0, i);
      if i > 0 && blocks[i - 1].free {
        MergeBlock(i - 1);
      }
    }

    /** my_realloc, releasing the old block through its data address. When the block moves,
        the bytes it held come first in the new one. */
    method Realloc(addr: Option<nat>, newSize: nat) returns (p: Option<nat>)
      requires Valid()
      modifies this`blocks, this`brk, mem
      ensures Valid()
      ensures (State(), p) == Policy.Realloc(old(State()), addr, newSize)
      ensures addr.None? || p.None? || p == addr ==> mem[..] == old(mem[..])
      ensures addr.Some? && p.Some? && p != addr ==>
                var n := Policy.DataSize(old(State()), addr.value);
                && p.value + n <= mem.Length && addr.value + n <= mem.Length
                && mem[p.value .. p.value + n] == old(mem[addr.value .. addr.value + n])
                && mem[.. p.value] == old(mem[.. p.value]) && mem[p.value + n ..] == old(mem[p.value + n ..])
    {
      if addr.None? {
        p := Malloc(newSize);
        return;
      }
      var a := addr.value;
      if !ValidAddr(State(), a) {
        return None;
      }
      var s := Align4(newSize);
      var k := GetBlock(blocks, a).value;
      if blocks[k].size >= s || Policy.CanAbsorb(blocks, k, s) {
        Resize(k, newSize);
        return addr;
      }
      p := Move(k, newSize);
    }

    /** The in-place steps of my_realloc: cut block k down when it already holds
        align4(newSize) bytes, or first absorb its free successor when that makes up the
        difference. */
    method Resize(k: nat, newSize: nat)
      requires Valid() && k < |blocks| && ValidAddr(State(), Data(blocks[k]))
      requires blocks[k].size >= Align4(newSize) || Policy.CanAbsorb(blocks, k, Align4(newSize))
      modifies this`blocks, this`brk
      ensures Valid()
      ensures (State(), Some(old(Data(blocks[k])))) == Policy.Realloc(old(State()), Some(old(Data(blocks[k]))), newSize)
    {
      var s := Align4(newSize);
      if blocks[k].size >= s {
        Policy.ReallocInPlace(State(), k, newSize);
        if blocks[k].size >= s + BLOCK_SPLIT {
          SplitBlock(k, s);
        }
      } else {
        Policy.ReallocAbsorbs(State(), k, newSize);
        MergeBlock(k);
        if blocks[k].size >= s + BLOCK_SPLIT {
          SplitBlock(k, s);
        }
      }
    }

    /** The moving branch of my_realloc, stated as its caller sees it: the bytes that
        reach the new address are the old address's data size. */
    method Move(k: nat, newSize: nat) returns (p: Option<nat>)
      requires Valid() && k < |blocks| && ValidAddr(State(), Data(blocks[k]))
      requires blocks[k].size < Align4(newSize) && !Policy.CanAbsorb(blocks, k, Align4(newSize))
      modifies this`blocks, this`brk, mem
      ensures Valid()
      ensures (State(), p) == Policy.Realloc(old(State()), Some(old(Data(blocks[k]))), newSize)
      ensures p.None? ==> mem[..] == old(mem[..])
      ensures p.Some? ==>
                var a := old(Data(blocks[k]));
                var n := Policy.DataSize(old(State()), a);
                && p != Some(a) && p.value + n <= mem.Length && a + n <= mem.Length
                && mem[p.value .. p.value + n] == old(mem[a .. a + n])
                && mem[.. p.value] == old(mem[.. p.value]) && mem[p.value + n ..] == old(mem[p.value + n ..])
    {
      assert Policy.DataSize(State(), Data(blocks[k])) == blocks[k].size;
      p := Relocate(k, newSize);
    }

    /** The steps of the move: my_malloc a block of align4(newSize) bytes, copy block k's
        bytes into it and release block k; on failure nothing changes. */
    method Relocate(k: nat, newSize: nat) returns (p: Option<nat>)
      requires Valid() && k < |blocks| && ValidAddr(State(), Data(blocks[k]))
      requires blocks[k].size < Align4(newSize) && !Policy.CanAbsorb(blocks, k, Align4(newSize))
      modifies this`blocks, this`brk, mem
      ensures Valid()
      ensures (State(), p) == Policy.Realloc(old(State()), Some(old(Data(blocks[k]))), newSize)
      ensures p.None? ==> mem[..] == old(mem[..])
      ensures p.Some? ==>
                var a, n := old(Data(blocks[k])), old(blocks[k].size);
                && p.value != a && p.value + n <= mem.Length && a + n <= mem.Length
                && mem[p.value .. p.value + n] == old(mem[a .. a + n])
                && mem[.. p.value] == old(mem[.. p.value]) && mem[p.value + n ..] == old(mem[p.value + n ..])
    {
      var a := Data(blocks[k]);
      var s := Align4(newSize);
      ghost var h0 := State();
      p := Copy(k, s);
      ghost var r := State();
      if p.Some? {
        Policy.MallocElsewhere(h0, k, s, r, p.value);
        ghost var m1 := mem[..];
        Free(Some(a));
        assert mem[..] == m1;
      }
      Policy.ReallocMoves(h0, k, newSize, r, p);
    }

    /** The first half of a move: my_malloc a block of `s` bytes and copy block k's bytes
        into it, leaving block k in place. */
    method Copy(k: nat, s: nat) returns (p: Option<nat>)
      requires Valid() && k < |blocks| && ValidAddr(State(), Data(blocks[k]))
      requires blocks[k].size < s && s % 4 == 0
      modifies this`blocks, this`brk, mem
      ensures Valid()
      ensures (State(), p) == Policy.Malloc(old(State()), s)
      ensures p.None? ==> mem[..] == old(mem[..])
      ensures p.Some? ==>
                var a, n := old(Data(blocks[k])), old(blocks[k].size);
                && p.value + n <= mem.Length && a + n <= mem.Length
                && mem[p.value .. p.value + n] == old(mem[a .. a + n])
      ensures p.Some? ==>
                var n := old(blocks[k].size);
                p.value + n <= mem.Length &&
                mem[.. p.value] == old(mem[.. p.value]) && mem[p.value + n ..] == old(mem[p.value + n ..])
    {
      var a := Data(blocks[k]);
      ghost var n := blocks[k].size;
      ghost var h0 := State();
      InArena(h0, k);
      ghost var m0 := mem[..];
      ghost var bytes := mem[a .. a + n];
      p := Malloc(s);
      if p.None? {
        return;
      }
      assert mem[..] == m0;
      assert mem[a .. a + n] == bytes;
      Policy.MoveCopies(h0, k, s, State(), p.value);
      var des := GetBlock(blocks, p.value).value;
      var src := GetBlock(blocks, a).value;
      CopyBlock(des, src);
      assert mem[p.value .. p.value + n] == bytes;
    }
  }
}
