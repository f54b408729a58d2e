/** Defects of the source as written, each modelled next to the corrected definition the
    rest of the model uses, with an input that tells the two apart.

    Each as-written member isolates ONE defect: every other step it takes is the corrected
    one. Run literally, an input can meet an earlier defect first. For instance, the input
    of RelocateAsWrittenLeaks first reaches findBlock as written, which hands out the used
    4-byte block for an 8-byte request; `4 - 8` then wraps in size_t at MyMalloc.c:214 and
    splitBlock faults on that last block at MyMalloc.c:117. */
module Findings {
  import opened Layout
  import opened Chain
  import Policy

  /** findBlock as written: the loop guard `!b && !(fits)` is false for every non-NULL b, so
      the walk never leaves firstBlock, whatever its state or size. */
  function FindBlockAsWritten(bs: seq<Block>, size: nat): (r: Option<nat>)
    requires bs != []
    ensures r.Some? && r.value < |bs|
    ensures r == Some(0)
  {
    Some(0)
  }

  /** Whenever the first block cannot serve the request, findBlock as written still hands
      it out, and it is not the first fit. */
  lemma FindBlockAsWrittenIgnoresFit(bs: seq<Block>, size: nat)
    requires bs != [] && !Fits(bs[0], size)
    ensures var r := FindBlockAsWritten(bs, size);
      !Fits(bs[r.value], size) && r != FirstFit(bs, size)
  {
  }

  /** A used first block of 8 bytes is returned for an 8-byte request. */
  lemma FindBlockAsWrittenExample()
    ensures var bs := [Block(0, 8, false)];
      FindBlockAsWritten(bs, 8) == Some(0) && bs[0].free == false && FirstFit(bs, 8) == None
  {
  }

  /** mergeBlock as written sets `tt->pre` with tt = b->next->next and no NULL test, so
      merging block i writes through NULL exactly when its successor is the last block. */
  predicate MergeFaults(bs: seq<Block>, i: nat)
  {
    i + 2 == |bs|
  }

  /** my_free of the non-last block i as written: the successor is merged when it is NOT
      free, then a free predecessor absorbs the result; None when one of those merges
      reaches the NULL write of mergeBlock. */
  function FreeAtAsWritten(bs: seq<Block>, i: nat): (r: Option<seq<Block>>)
    requires i + 1 < |bs| && bs[i + 1].offset == End(bs[i])
    requires i > 0 ==> bs[i].offset == End(bs[i - 1])
    ensures r.None? <==> !bs[i + 1].free && MergeFaults(bs, i)
    ensures r.Some? ==> |bs| - 2 <= |r.value| <= |bs|
  {
    var f := SetFree(bs, i, true);
    if !f[i + 1].free && MergeFaults(f, i) then None
    else
      var m := if !f[i + 1].free then Merge(f, i) else f;
      if i > 0 && m[i - 1].free then
        if MergeFaults(m, i - 1) then None else Some(Merge(m, i - 1))
      else Some(m)
  }

  /** Freeing a block whose used successor is not the last block swallows that successor:
      the live block disappears from the chain and its bytes are free space. */
  lemma FreeAsWrittenSwallowsLive(bs: seq<Block>, brk: nat, i: nat)
    requires Tiles(bs, brk) && i + 2 < |bs|
    requires !bs[i + 1].free && (i > 0 ==> !bs[i - 1].free)
    ensures bs[i + 1].offset == End(bs[i]) && (i > 0 ==> bs[i].offset == End(bs[i - 1]))
    ensures var r := FreeAtAsWritten(bs, i);
      && r.Some? && |r.value| == |bs| - 1 && r.value[i].free && End(r.value[i]) == End(bs[i + 1])
      && forall k :: 0 <= k < |r.value| ==> r.value[k] != bs[i + 1]
  {
    assert bs[i + 1].offset == End(bs[i]);
    assert i > 0 ==> bs[i].offset == End(bs[i - 1]);
    var r := Merge(SetFree(bs, i, true), i);
    assert FreeAtAsWritten(bs, i) == Some(r);
    SwallowedGone(bs, brk, i, r);
  }

  /** After merging the used block i + 1 into block i, no block of the result is it. */
  lemma SwallowedGone(bs: seq<Block>, brk: nat, i: nat, r: seq<Block>)
    requires Tiles(bs, brk) && i + 1 < |bs| && bs[i + 1].offset == End(bs[i])
    requires r == Merge(SetFree(bs, i, true), i)
    ensures forall k :: 0 <= k < |r| ==> r[k] != bs[i + 1]
  {
    forall k | 0 <= k < |r| ensures r[k] != bs[i + 1] {
      if k < i {
        assert r[k] == bs[k];
        Ordered(bs, brk, k, i + 1);
      } else if k > i {
        assert r[k] == bs[k + 1];
        Ordered(bs, brk, i + 1, k + 1);
      }
    }
  }

  /** Three used blocks: freeing the first (data at 20) as written leaves one free block
      covering the first two, while the corrected my_free keeps the second one. */
  lemma FreeAsWrittenExample()
    ensures var h := Heap([Block(0, 8, false), Block(28, 8, false), Block(56, 8, false)], 84);
      && WellFormed(h)
      && FreeAtAsWritten(h.blocks, 0) == Some([Block(0, 36, true), Block(56, 8, false)])
      && Policy.Free(h, 20).blocks == [Block(0, 8, true), Block(28, 8, false), Block(56, 8, false)]
  {
    var h := Heap([Block(0, 8, false), Block(28, 8, false), Block(56, 8, false)], 84);
    assert GetBlock(h.blocks, 20) == Some(0);
    var m := Merge(SetFree(h.blocks, 0, true), 0);
    assert m[0] == Block(0, 36, true) && m[1] == h.blocks[2];
    assert m == [Block(0, 36, true), Block(56, 8, false)];
    assert FreeAtAsWritten(h.blocks, 0) == Some(m);
  }

  /** With only two used blocks, freeing the first as written merges the used last block and
      faults at MyMalloc.c:182. */
  lemma FreeAsWrittenFaults()
    ensures var bs := [Block(0, 8, false), Block(28, 8, false)];
      WellFormed(Heap(bs, 56)) && FreeAtAsWritten(bs, 0) == None
  {
  }

  /** The corrected my_free reaches the same fault when the free successor is the last block.
      From three used 8-byte blocks, freeing the middle and then the last one leaves a free
      last block (the tail is handed back but its free predecessor is not); freeing the first
      block then merges it into that last block, where mergeBlock as written writes through
      NULL. The guarded merge gives one free block up to the break. */
  lemma FreeIntoFreeTail(h0: Heap, h1: Heap, h2: Heap, h3: Heap)
    requires h0 == Heap([Block(0, 8, false), Block(28, 8, false), Block(56, 8, false)], 84)
    requires h1 == Heap([Block(0, 8, false), Block(28, 8, true), Block(56, 8, false)], 84)
    requires h2 == Heap([Block(0, 8, false), Block(28, 8, true)], 56)
    requires h3 == Heap([Block(0, 36, true)], 56)
    ensures WellFormed(h0) && Policy.Free(h0, 48) == h1
    ensures WellFormed(h1) && Policy.Free(h1, 76) == h2
    ensures WellFormed(h2) && h2.blocks[1].free && MergeFaults(h2.blocks, 0)
    ensures Policy.Free(h2, 20) == h3 && WellFormed(h3)
  {
    Policy.FreeMiddleStep(8, h0, h1);
    assert GetBlock(h1.blocks, 76) == Some(2);
    assert h1.blocks[..2] == h2.blocks;
    assert GetBlock(h2.blocks, 20) == Some(0);
    var m := Merge(SetFree(h2.blocks, 0, true), 0);
    assert m == h3.blocks;
  }

  /** my_realloc's absorbing branch reaches the same fault: a used block followed by a free
      last block that makes up the difference is merged with it, and mergeBlock as written
      writes through NULL. The corrected realloc keeps the address and gives one used block
      up to the break. */
  lemma AbsorbIntoFreeTail(h: Heap)
    requires h == Heap([Block(0, 8, false), Block(28, 8, true)], 56)
    ensures WellFormed(h) && GetBlock(h.blocks, 20) == Some(0) && h.blocks[0].size < Align4(16)
    ensures Policy.CanAbsorb(h.blocks, 0, Align4(16)) && MergeFaults(h.blocks, 0)
    ensures Policy.Realloc(h, Some(20), 16) == (Heap([Block(0, 36, false)], 56), Some(20))
  {
    Align4Aligned(16);
    assert GetBlock(h.blocks, 20) == Some(0);
    assert Merge(h.blocks, 0) == [Block(0, 36, false)];
  }

  /** The moving step of my_realloc as written: after my_malloc succeeds the old block is
      released through its header address `b` rather than its data address `b->data`. */
  function RelocateAsWritten(h: Heap, a: nat, s: nat): (r: (Heap, Option<nat>))
    requires WellFormed(h)
    ensures r.1 == Policy.Malloc(h, s).1
  {
    var (h1, p) := Policy.Malloc(h, s);
    if p.None? then (h, None)
    else
      Policy.MallocWellFormed(h, s);
      (Policy.Free(h1, a - BLOCK_SIZE), p)
  }

  /** A header address passes validAddr only when it is the data address of a zero-sized
      predecessor, so my_free(b) either does nothing or frees the wrong block. */
  lemma HeaderAddrValid(h: Heap, i: nat)
    requires WellFormed(h) && i < |h.blocks|
    ensures ValidAddr(h, h.blocks[i].offset) <==> i > 0 && h.blocks[i - 1].size == 0
  {
    var bs := h.blocks;
    if i > 0 {
      assert bs[i].offset == End(bs[i - 1]);
      InArena(h, i);
      if bs[i - 1].size == 0 {
        assert Data(bs[i - 1]) == bs[i].offset;
      }
    }
    if ValidAddr(h, bs[i].offset) {
      var j :| 0 <= j < |bs| && Data(bs[j]) == bs[i].offset;
      if j >= i {
        if j > i { Ordered(bs, h.brk, i, j); }
        assert false;
      }
      if j < i - 1 { Ordered(bs, h.brk, j, i - 1); }
      assert j == i - 1;
    }
  }

  /** Growing a 4-byte block to 8 bytes as written leaks it: the new block is handed out and
      the old one stays in use; the corrected step frees it. */
  lemma RelocateAsWrittenLeaks()
    ensures var h := Heap([Block(0, 4, false)], 24);
      && WellFormed(h)
      && RelocateAsWritten(h, 20, 8) == (Heap([Block(0, 4, false), Block(24, 8, false)], 52), Some(44))
      && Policy.Relocate(h, 20, 8) == (Heap([Block(0, 4, true), Block(24, 8, false)], 52), Some(44))
  {
    var h := Heap([Block(0, 4, false)], 24);
    var h1 := Heap([Block(0, 4, false), Block(24, 8, false)], 52);
    Align4Aligned(8);
    assert FirstFit(h.blocks, 8) == None;
    assert Extend(h, 8) == h1;
    assert Policy.Malloc(h, 8) == (h1, Some(44));
    assert !ValidAddr(h1, 0);
    assert GetBlock(h1.blocks, 20) == Some(0);
    assert Policy.FreeAt(h1.blocks, 0) == [Block(0, 4, true), Block(24, 8, false)];
  }

  /** copyBlock as written steps a `size_t*` by 4 elements at a time, so it copies the 4-byte
      word at byte 16*m for every m with 4*m below the size: whether byte j of the data is
      written. */
  predicate CopyWritesAsWritten(n: nat, j: nat)
  {
    j % 16 < 4 && 4 * (j / 16) < n
  }

  /** For an 8-byte block, byte 16 (past the end) is written and byte 4 (inside) is not;
      the corrected copy writes exactly bytes 0 .. 7. */
  lemma CopyAsWrittenExample()
    ensures CopyWritesAsWritten(8, 16) && 16 >= 8
    ensures !CopyWritesAsWritten(8, 4) && 4 < 8
  {
  }

  /** For every block of more than 4 bytes the copy as written skips bytes 4 .. 7, which lie
      inside the block, and writes a word that starts at or past the block's end. */
  lemma {:induction false} CopyAsWrittenMisses(n: nat)
    requires n > 4
    ensures !CopyWritesAsWritten(n, 4) && !CopyWritesAsWritten(n, 7)
    ensures CopyWritesAsWritten(n, 16 * ((n - 1) / 4))
    ensures 16 * ((n - 1) / 4) >= n
  {
    var m := (n - 1) / 4;
    assert (16 * m) % 16 == 0 && (16 * m) / 16 == m;
  }

  /** align4 on the 32-bit size_t of the source. */
  function Align4AsWritten(x: bv32): (r: bv32)
    ensures r & 3 == 0
  {
    if x & 3 == 0 then x else ((x >> 2) + 1) << 2
  }

  /** The largest request rounds to 0 as written, so my_malloc(0xFFFFFFFF) hands out an empty
      block; the corrected align4 rounds up and the request fails. */
  lemma Align4AsWrittenWraps(h: Heap)
    requires WellFormed(h)
    ensures Align4AsWritten(0xFFFF_FFFF) == 0
    ensures Align4(0xFFFF_FFFF) > MEM_SIZE && Policy.Malloc(h, 0xFFFF_FFFF).1 == None
  {
    Policy.MallocResult(h, 0xFFFF_FFFF);
  }

  /** extendBlock as written asks my_sbrk for `BLOCK_SIZE + size` in size_t, which wraps
      for sizes within BLOCK_SIZE of 2^32. */
  function ExtendRequestAsWritten(size: nat): (r: nat)
    ensures r <= SIZE_MAX
    ensures size <= SIZE_MAX - BLOCK_SIZE ==> r == BLOCK_SIZE + size
  {
    (BLOCK_SIZE + size) % (SIZE_MAX + 1)
  }

  /** Every aligned request of at least 2^32 - 20 bytes makes extendBlock ask for less than
      one header, so as written the growth succeeds whenever a header's worth of the arena
      is left, and the block links a size far past the break; the corrected my_malloc fails
      and leaves the heap as it was. */
  lemma ExtendAsWrittenWraps(h: Heap, size: nat)
    requires WellFormed(h) && SIZE_MAX + 1 - BLOCK_SIZE <= size <= SIZE_MAX && size % 4 == 0
    ensures ExtendRequestAsWritten(size) < BLOCK_SIZE && size > MEM_SIZE
    ensures Policy.Malloc(h, size) == (h, None)
  {
    Align4Aligned(size);
    forall j | 0 <= j < |h.blocks| ensures !Fits(h.blocks[j], size) {
      InArena(h, j);
    }
    Policy.MallocResult(h, size);
  }

  /** my_malloc(0xFFFFFFEC) on a fresh arena: my_sbrk(0) succeeds as written and the break
      stays at 0. */
  lemma ExtendAsWrittenWrapsExample()
    ensures ExtendRequestAsWritten(0xFFFF_FFEC) == 0 && Align4(0xFFFF_FFEC) == 0xFFFF_FFEC
    ensures Policy.Malloc(Heap([], 0), 0xFFFF_FFEC) == (Heap([], 0), None)
  {
    Align4Aligned(0xFFFF_FFEC);
  }

  /** my_calloc as written multiplies in size_t: the request my_malloc receives. */
  function CallocRequestAsWritten(number: nat, size: nat): (r: nat)
    ensures r <= SIZE_MAX
  {
    (number * size) % (SIZE_MAX + 1)
  }

  /** my_calloc(0x10000, 0x10000) asks my_malloc for 0 bytes as written and succeeds on a
      fresh arena; the corrected my_calloc (Allocator.Calloc) fails on the overflow. */
  lemma CallocAsWrittenWraps()
    ensures CallocRequestAsWritten(0x10000, 0x10000) == 0
    ensures Policy.Malloc(Heap([], 0), CallocRequestAsWritten(0x10000, 0x10000)).1 == Some(BLOCK_SIZE)
    ensures 0x10000 * 0x10000 > SIZE_MAX
  {
  }

  /** my_malloc's first-allocation path as written writes `b->pre` before testing b, so it
      dereferences NULL exactly when extendBlock fails on an empty chain. */
  predicate FirstGrowFaults(h: Heap, size: nat)
  {
    h.blocks == [] && h.brk + BLOCK_SIZE + Align4(size) > MEM_SIZE
  }

  /** A first request of MEM_SIZE bytes faults as written; the corrected my_malloc returns
      NULL and leaves the arena untouched. */
  lemma FirstGrowFaultsExample()
    ensures FirstGrowFaults(Heap([], 0), MEM_SIZE)
    ensures Policy.Malloc(Heap([], 0), MEM_SIZE) == (Heap([], 0), None)
  {
  }

  /** splitBlock as written relinks `b->next->pre` with no NULL test: it faults when asked to
      split the last block. */
  predicate SplitFaults(bs: seq<Block>, i: nat)
  {
    i + 1 == |bs|
  }

  /** Shrinking the only block in place reaches splitBlock on the last block, which faults as
      written; the corrected split leaves a well-formed chain ending in the free remainder. */
  lemma ShrinkSplitsLastBlock()
    ensures var h := Heap([Block(0, 1024, false)], 1044);
      && WellFormed(h) && SplitFaults(h.blocks, 0)
      && Policy.Realloc(h, Some(20), 4).0 == Heap([Block(0, 4, false), Block(24, 1000, true)], 1044)
      && WellFormed(Policy.Realloc(h, Some(20), 4).0)
  {
    var h := Heap([Block(0, 1024, false)], 1044);
    assert GetBlock(h.blocks, 20) == Some(0);
    assert Split(h.blocks, 0, 4) == [Block(0, 4, false), Block(24, 1000, true)];
  }
}
