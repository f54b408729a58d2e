/** The public entry points as functions of the heap value: what my_malloc, my_free and
    my_realloc do to the chain and the break, and what they return. */
module Policy {
  import opened Layout
  import opened Chain

  /** extendBlock after the last block, or NULL when the arena is exhausted. */
  function Grow(h: Heap, s: nat): (r: (Heap, Option<nat>))
  {
    if h.brk + BLOCK_SIZE + s <= MEM_SIZE then (Extend(h, s), Some(h.brk + BLOCK_SIZE)) else (h, None)
  }

  /** my_malloc: first fit, split when the slack reaches BLOCK_SIZE + BLOCK_SPLIT,
      otherwise grow at the break. */
  function Malloc(h: Heap, size: nat): (r: (Heap, Option<nat>))
  {
    var s := Align4(size);
    if h.blocks == [] then Grow(h, s)
    else match FirstFit(h.blocks, s)
      case Some(k) =>
        var bs := if h.blocks[k].size - s >= BLOCK_SIZE + BLOCK_SPLIT then Split(h.blocks, k, s) else h.blocks;
        (Heap(SetFree(bs, k, false), h.brk), Some(Data(h.blocks[k])))
      case None => Grow(h, s)
  }

  /** Handing out a free block, split or not, keeps neighbouring free blocks apart. */
  lemma UseKeepsCoalesced(bs: seq<Block>, k: nat, s: nat)
    requires Coalesced(bs) && k < |bs| && bs[k].free
    ensures s + BLOCK_SIZE <= bs[k].size ==> Coalesced(SetFree(Split(bs, k, s), k, false))
    ensures Coalesced(SetFree(bs, k, false))
  {
    if s + BLOCK_SIZE <= bs[k].size {
      var sp := Split(bs, k, s);
      var r := SetFree(sp, k, false);
      forall i | 0 < i < |r| ensures !(r[i - 1].free && r[i].free) {
        if i == k + 2 {
          assert r[i] == bs[k + 1];
        } else if i > k + 2 {
          assert r[i] == bs[i - 1] && r[i - 1] == bs[i - 2];
        }
      }
    }
  }

  /** my_malloc keeps the heap well formed and never creates two neighbouring free blocks. */
  lemma MallocWellFormed(h: Heap, size: nat)
    requires WellFormed(h)
    ensures WellFormed(Malloc(h, size).0)
    ensures Coalesced(h.blocks) ==> Coalesced(Malloc(h, size).0.blocks)
  {
    var s := Align4(size);
    var bs := h.blocks;
    if bs == [] || FirstFit(bs, s).None? {
      if h.brk + BLOCK_SIZE + s <= MEM_SIZE {
        ExtendWellFormed(h, s);
        var r := Extend(h, s).blocks;
        assert forall i :: 0 <= i < |bs| ==> r[i] == bs[i];
      }
    } else {
      var k := FirstFit(bs, s).value;
      if Coalesced(bs) { UseKeepsCoalesced(bs, k, s); }
      if bs[k].size - s >= BLOCK_SIZE + BLOCK_SPLIT {
        SplitWellFormed(h, k, s);
        SetFreeWellFormed(Heap(Split(bs, k, s), h.brk), k, false);
      } else {
        SetFreeWellFormed(h, k, false);
      }
    }
  }

  /** What my_malloc hands out: on success the data address of a used block of at least
      align4(size) bytes lying inside the arena and different from every block that could
      not serve the request; NULL exactly when no free block fits and the arena cannot grow,
      and then nothing changes. */
  lemma MallocResult(h: Heap, size: nat)
    requires WellFormed(h)
    ensures var (r, p) := Malloc(h, size);
      && (p.None? <==> FirstFit(h.blocks, Align4(size)).None? && h.brk + BLOCK_SIZE + Align4(size) > MEM_SIZE)
      && (p.None? ==> r == h)
      && (p.Some? ==> p.value + Align4(size) <= MEM_SIZE)
      && (p.Some? ==> exists k :: 0 <= k < |r.blocks| && Data(r.blocks[k]) == p.value
                                   && !r.blocks[k].free && r.blocks[k].size >= Align4(size))
      && (p.Some? ==> forall j :: 0 <= j < |h.blocks| && !Fits(h.blocks[j], Align4(size)) ==> Data(h.blocks[j]) != p.value)
  {
    var s := Align4(size);
    var bs := h.blocks;
    var (r, p) := Malloc(h, size);
    MallocWellFormed(h, size);
    if bs == [] || FirstFit(bs, s).None? {
      if p.Some? {
        var k := |bs|;
        assert Data(r.blocks[k]) == p.value;
        forall j | 0 <= j < |bs| ensures Data(bs[j]) != p.value {
          InArena(h, j);
        }
      }
    } else {
      var k := FirstFit(bs, s).value;
      assert Data(r.blocks[k]) == p.value;
      InArena(r, k);
      forall j | 0 <= j < |bs| && !Fits(bs[j], s) ensures Data(bs[j]) != p.value {
        if Data(bs[j]) == p.value { DataUnique(bs, h.brk, j, k); }
      }
    }
  }

  /** Reuse of the first fitting block k: its address is returned, the break does not move,
      and it is split exactly when its slack reaches BLOCK_SIZE + BLOCK_SPLIT. */
  lemma MallocReuse(h: Heap, size: nat, k: nat)
    requires WellFormed(h) && FirstFit(h.blocks, Align4(size)) == Some(k)
    ensures var (r, p) := Malloc(h, size);
      var s := Align4(size);
      && p == Some(Data(h.blocks[k])) && r.brk == h.brk
      && !r.blocks[k].free
      && (h.blocks[k].size >= s + BLOCK_SIZE + BLOCK_SPLIT ==> r.blocks[k].size == s && |r.blocks| == |h.blocks| + 1)
      && (h.blocks[k].size < s + BLOCK_SIZE + BLOCK_SPLIT ==> r.blocks[k].size == h.blocks[k].size && |r.blocks| == |h.blocks|)
  {
  }

  /** my_malloc leaves every block it did not pick exactly as it was. */
  lemma MallocKeeps(h: Heap, size: nat, j: nat)
    requires WellFormed(h) && j < |h.blocks| && FirstFit(h.blocks, Align4(size)) != Some(j)
    ensures exists i :: 0 <= i < |Malloc(h, size).0.blocks| && Malloc(h, size).0.blocks[i] == h.blocks[j]
  {
    var s := Align4(size);
    var bs := h.blocks;
    var r := Malloc(h, size).0.blocks;
    if bs != [] && FirstFit(bs, s).Some? {
      var k := FirstFit(bs, s).value;
      if bs[k].size - s >= BLOCK_SIZE + BLOCK_SPLIT {
        var sp := Split(bs, k, s);
        if j < k {
          assert r[j] == sp[..k][j] == bs[j];
        } else {
          assert r[j + 1] == sp[k + 2..][j - k - 1] == bs[j];
        }
      } else {
        assert r[j] == bs[j];
      }
    } else if h.brk + BLOCK_SIZE + s <= MEM_SIZE {
      assert r[j] == bs[j];
    }
  }

  /** r is bs with the blocks lo .. hi fused into one free block covering their extent,
      every other block kept in order. */
  ghost predicate Fused(bs: seq<Block>, r: seq<Block>, lo: nat, hi: nat)
  {
    && lo <= hi < |bs| && |r| == |bs| - (hi - lo)
    && (forall j :: 0 <= j < lo ==> r[j] == bs[j])
    && r[lo].free && r[lo].offset == bs[lo].offset && End(r[lo]) == End(bs[hi])
    && (forall j :: lo < j < |r| ==> r[j] == bs[j + (hi - lo)])
  }

  /** The first two steps of my_free on the non-last block i: mark it free, then merge a
      free successor into it. */
  function FreeNext(bs: seq<Block>, i: nat): (m: seq<Block>)
    requires i + 1 < |bs| && bs[i + 1].offset == End(bs[i])
    ensures Fused(bs, m, i, if bs[i + 1].free then i + 1 else i)
  {
    var f := SetFree(bs, i, true);
    if f[i + 1].free then Merge(f, i) else f
  }

  /** my_free of block i when it is not the last one: mark it free, merge a free successor
      into it, then merge it into a free predecessor. */
  function FreeAt(bs: seq<Block>, i: nat): (r: seq<Block>)
    requires i + 1 < |bs| && bs[i + 1].offset == End(bs[i])
    requires i > 0 ==> bs[i].offset == End(bs[i - 1])
  {
    var m := FreeNext(bs, i);
    if i > 0 && m[i - 1].free then Merge(m, i - 1) else m
  }

  /** my_free, with the successor merged when it is free: an invalid address changes
      nothing; the tail block is handed back to the arena by retracting the break to its
      header; any other block is freed and coalesced by FreeAt. */
  function Free(h: Heap, a: int): (r: Heap)
    requires WellFormed(h)
  {
    if !ValidAddr(h, a) then h
    else
      var i := GetBlock(h.blocks, a).value;
      if i == |h.blocks| - 1 then Heap(h.blocks[..i], h.blocks[i].offset)
      else Heap(FreeAt(h.blocks, i), h.brk)
  }

  /** my_free keeps the heap well formed. */
  lemma FreeWellFormed(h: Heap, a: int)
    requires WellFormed(h)
    ensures WellFormed(Free(h, a))
  {
    if ValidAddr(h, a) {
      var i := GetBlock(h.blocks, a).value;
      if i < |h.blocks| - 1 {
        var f := SetFree(h.blocks, i, true);
        SetFreeWellFormed(h, i, true);
        if f[i + 1].free { MergeWellFormed(Heap(f, h.brk), i); }
        var m := FreeNext(h.blocks, i);
        assert m == if f[i + 1].free then Merge(f, i) else f;
        if i > 0 && m[i - 1].free { MergeWellFormed(Heap(m, h.brk), i - 1); }
      } else if i > 0 {
        assert End(h.blocks[i - 1]) == h.blocks[i].offset;
      }
    }
  }

  /** The chain after freeing the non-last block i: block i fused with its free
      neighbours, the rest kept. */
  lemma FreeShape(bs: seq<Block>, i: nat)
    requires i + 1 < |bs| && bs[i + 1].offset == End(bs[i])
    requires i > 0 ==> bs[i].offset == End(bs[i - 1])
    ensures var lo := if i > 0 && bs[i - 1].free then i - 1 else i;
      var hi := if bs[i + 1].free then i + 1 else i;
      Fused(bs, FreeAt(bs, i), lo, hi)
  {
    var hi := if bs[i + 1].free then i + 1 else i;
    var m := FreeNext(bs, i);
    if i > 0 && m[i - 1].free {
      FusedMergeLeft(bs, m, i, hi);
    }
  }

  /** Merging a fused block into a free predecessor widens the fusion by one. */
  lemma FusedMergeLeft(bs: seq<Block>, m: seq<Block>, lo: nat, hi: nat)
    requires Fused(bs, m, lo, hi) && lo > 0 && bs[lo].offset == End(bs[lo - 1])
    ensures m[lo].offset == End(m[lo - 1])
    ensures m[lo - 1].free ==> Fused(bs, Merge(m, lo - 1), lo - 1, hi)
  {
    assert m[lo - 1] == bs[lo - 1];
    if m[lo - 1].free {
      var r := Merge(m, lo - 1);
      forall j | lo - 1 < j < |r| ensures r[j] == bs[j + (hi - lo + 1)] {
        assert r[j] == m[j + 1];
      }
    }
  }

  /** A fusion whose outer neighbours are used keeps a coalesced chain coalesced. */
  lemma FusedCoalesced(bs: seq<Block>, r: seq<Block>, lo: nat, hi: nat)
    requires Fused(bs, r, lo, hi) && Coalesced(bs)
    requires lo > 0 ==> !bs[lo - 1].free
    requires hi + 1 < |bs| ==> !bs[hi + 1].free
    ensures Coalesced(r)
  {
    forall k, j | 0 <= k && j == k + 1 && j < |r| ensures !(r[k].free && r[j].free) {
      if k == lo {
        assert r[j] == bs[hi + 1];
      } else if k > lo {
        assert r[j] == bs[j + (hi - lo)] && r[k] == bs[k + (hi - lo)];
      } else if j == lo {
        assert r[k] == bs[k];
      } else {
        assert r[k] == bs[k] && r[j] == bs[j];
      }
    }
  }

  /** A fusion keeps every block outside lo .. hi. */
  lemma FusedKeeps(bs: seq<Block>, r: seq<Block>, lo: nat, hi: nat, j: nat)
    requires Fused(bs, r, lo, hi) && j < |bs| && !(lo <= j <= hi)
    ensures exists k :: 0 <= k < |r| && r[k] == bs[j]
  {
    if j < lo {
      assert r[j] == bs[j];
    } else {
      assert r[j - (hi - lo)] == bs[j];
    }
  }

  /** After a fusion over block i, any block whose data starts where block i's did is free. */
  lemma FusedReleases(bs: seq<Block>, brk: nat, r: seq<Block>, lo: nat, hi: nat, i: nat)
    requires Tiles(bs, brk) && Fused(bs, r, lo, hi) && lo <= i <= hi
    ensures forall j :: 0 <= j < |r| && Data(r[j]) == Data(bs[i]) ==> r[j].free
  {
    forall j | 0 <= j < |r| && Data(r[j]) == Data(bs[i]) ensures r[j].free {
      if j < lo {
        DataUnique(bs, brk, i, j);
      } else if j > lo {
        DataUnique(bs, brk, i, j + (hi - lo));
      }
    }
  }

  lemma FreeAtCoalesced(bs: seq<Block>, i: nat)
    requires i + 1 < |bs| && bs[i + 1].offset == End(bs[i])
    requires i > 0 ==> bs[i].offset == End(bs[i - 1])
    requires Coalesced(bs)
    ensures Coalesced(FreeAt(bs, i))
  {
    var lo := if i > 0 && bs[i - 1].free then i - 1 else i;
    var hi := if bs[i + 1].free then i + 1 else i;
    NeighboursUsed(bs, i);
    assert (lo > 0 ==> !bs[lo - 1].free) && (hi + 1 < |bs| ==> !bs[hi + 1].free);
    var r := FreeAt(bs, i);
    FreeShape(bs, i);
    assert Fused(bs, r, lo, hi);
    FusedCoalesced(bs, r, lo, hi);
  }

  /** In a coalesced chain a free neighbour of block i has a used block on its far side. */
  lemma NeighboursUsed(bs: seq<Block>, i: nat)
    requires i + 1 < |bs| && Coalesced(bs)
    ensures i > 1 && bs[i - 1].free ==> !bs[i - 2].free
    ensures i + 2 < |bs| && bs[i + 1].free ==> !bs[i + 2].free
  {
    if i > 1 { assert !(bs[i - 2].free && bs[i - 1].free); }
    if i + 2 < |bs| { assert !(bs[i + 1].free && bs[i + 2].free); }
  }

  /** my_free never leaves two neighbouring free blocks behind. */
  lemma FreeCoalesced(h: Heap, a: int)
    requires WellFormed(h) && Coalesced(h.blocks)
    ensures Coalesced(Free(h, a).blocks)
  {
    if ValidAddr(h, a) {
      var bs := h.blocks;
      var i := GetBlock(bs, a).value;
      if i < |bs| - 1 {
        FreeAtCoalesced(bs, i);
      }
    }
  }

  /** After my_free of a valid address no used block starts its data there: the block was
      freed, merged away or handed back to the arena (the break only ever retracts). */
  lemma FreeReleases(h: Heap, a: int)
    requires WellFormed(h) && ValidAddr(h, a)
    ensures var r := Free(h, a);
      && r.brk <= h.brk
      && forall j :: 0 <= j < |r.blocks| && Data(r.blocks[j]) == a ==> r.blocks[j].free
  {
    var bs := h.blocks;
    var i := GetBlock(bs, a).value;
    InArena(h, i);
    if i == |bs| - 1 {
      var r := bs[..i];
      forall j | 0 <= j < |r| ensures Data(r[j]) != a {
        if Data(bs[j]) == a { DataUnique(bs, h.brk, i, j); }
      }
    } else {
      assert bs[i + 1].offset == End(bs[i]);
      assert i > 0 ==> bs[i].offset == End(bs[i - 1]);
      FreeAtReleases(bs, h.brk, i);
      assert Free(h, a).blocks == FreeAt(bs, i);
    }
  }

  lemma FreeAtReleases(bs: seq<Block>, brk: nat, i: nat)
    requires Tiles(bs, brk) && i + 1 < |bs|
    ensures var r := FreeAt(bs, i);
      forall j :: 0 <= j < |r| && Data(r[j]) == Data(bs[i]) ==> r[j].free
  {
    assert bs[i + 1].offset == End(bs[i]);
    assert i > 0 ==> bs[i].offset == End(bs[i - 1]);
    FreeShape(bs, i);
    var lo := if i > 0 && bs[i - 1].free then i - 1 else i;
    var hi := if bs[i + 1].free then i + 1 else i;
    FusedReleases(bs, brk, FreeAt(bs, i), lo, hi, i);
  }

  lemma FreeAtKeepsLive(bs: seq<Block>, i: nat, j: nat)
    requires i + 1 < |bs| && bs[i + 1].offset == End(bs[i])
    requires i > 0 ==> bs[i].offset == End(bs[i - 1])
    requires j < |bs| && j != i && !bs[j].free
    ensures exists k :: 0 <= k < |FreeAt(bs, i)| && FreeAt(bs, i)[k] == bs[j]
  {
    var lo := if i > 0 && bs[i - 1].free then i - 1 else i;
    var hi := if bs[i + 1].free then i + 1 else i;
    assert (lo < i ==> bs[lo].free) && (hi > i ==> bs[hi].free) && i <= lo + 1 && hi <= i + 1;
    assert j < lo || hi < j;
    var r := FreeAt(bs, i);
    FreeShape(bs, i);
    assert Fused(bs, r, lo, hi);
    FusedKeeps(bs, r, lo, hi, j);
  }

  /** my_free leaves every other used block where it was, unchanged. */
  lemma FreeKeepsLive(h: Heap, a: int, j: nat)
    requires WellFormed(h) && j < |h.blocks| && !h.blocks[j].free && Data(h.blocks[j]) != a
    ensures exists i :: 0 <= i < |Free(h, a).blocks| && Free(h, a).blocks[i] == h.blocks[j]
  {
    var bs := h.blocks;
    if ValidAddr(h, a) {
      var i := GetBlock(bs, a).value;
      if i == |bs| - 1 {
        assert Free(h, a).blocks[j] == bs[j];
      } else {
        assert bs[i + 1].offset == End(bs[i]);
        assert i > 0 ==> bs[i].offset == End(bs[i - 1]);
        FreeAtKeepsLive(bs, i, j);
        assert Free(h, a).blocks == FreeAt(bs, i);
      }
    } else {
      assert Free(h, a).blocks[j] == bs[j];
    }
  }

  /** Freeing a block that is already free and is not the last one changes nothing. */
  lemma FreeTwice(h: Heap, i: nat)
    requires WellFormed(h) && Coalesced(h.blocks)
    requires i + 1 < |h.blocks| && h.blocks[i].free && Data(h.blocks[i]) < h.brk
    ensures Free(h, Data(h.blocks[i])) == h
  {
    var a := Data(h.blocks[i]);
    var k := GetBlock(h.blocks, a).value;
    DataUnique(h.blocks, h.brk, i, k);
    assert SetFree(h.blocks, i, true) == h.blocks;
  }

  /** The in-place step of my_realloc: block k already holds s bytes and is cut to s
      when it has BLOCK_SPLIT bytes to spare, the rest becoming a free block up to its old
      end; otherwise the chain is left alone. */
  function ShrinkInPlace(bs: seq<Block>, k: nat, s: nat): (r: seq<Block>)
    requires k < |bs| && bs[k].size >= s
    ensures k < |r| && r[k].offset == bs[k].offset && r[k].free == bs[k].free
    ensures r[k].size == (if bs[k].size >= s + BLOCK_SPLIT then s else bs[k].size)
  {
    if bs[k].size >= s + BLOCK_SPLIT then Split(bs, k, s) else bs
  }

  /** The in-place shrink touches nothing but block k: the blocks before it are kept; a cut
      inserts one free block from the new end of block k to its old end and keeps the blocks
      after it; otherwise the chain is unchanged. */
  lemma ShrinkInPlaceKeeps(bs: seq<Block>, k: nat, s: nat)
    requires k < |bs| && bs[k].size >= s
    ensures var r := ShrinkInPlace(bs, k, s);
      && (forall j :: 0 <= j < k ==> r[j] == bs[j])
      && (bs[k].size < s + BLOCK_SPLIT ==> r == bs)
      && (bs[k].size >= s + BLOCK_SPLIT ==>
            && |r| == |bs| + 1 && r[k + 1].free && r[k + 1].offset == End(r[k]) && End(r[k + 1]) == End(bs[k])
            && forall j :: k + 1 < j < |r| ==> r[j] == bs[j - 1])
  {
  }

  /** Whether block k can reach s bytes by absorbing its free successor. */
  predicate CanAbsorb(bs: seq<Block>, k: nat, s: nat)
    requires k < |bs|
  {
    k + 1 < |bs| && bs[k + 1].free && bs[k].size + bs[k + 1].size + BLOCK_SIZE >= s
  }

  /** The moving step of my_realloc: allocate s bytes and, when that succeeds, free the
      old block through its data address a. */
  function Relocate(h: Heap, a: nat, s: nat): (r: (Heap, Option<nat>))
    requires WellFormed(h)
  {
    var (h1, p) := Malloc(h, s);
    if p.None? then (h, None)
    else
      MallocWellFormed(h, s);
      (Free(h1, a), p)
  }

  /** my_realloc, with the old block released through its data address: NULL behaves as
      my_malloc; an invalid address gives NULL; a block that already holds align4(newSize)
      bytes stays put; a block with a free successor that makes up the difference absorbs
      it; otherwise the data moves to a new block and the old one is freed. */
  function Realloc(h: Heap, addr: Option<nat>, newSize: nat): (r: (Heap, Option<nat>))
    requires WellFormed(h)
  {
    if addr.None? then Malloc(h, newSize)
    else if !ValidAddr(h, addr.value) then (h, None)
    else
      var s := Align4(newSize);
      var bs := h.blocks;
      var k := GetBlock(bs, addr.value).value;
      if bs[k].size >= s then (Heap(ShrinkInPlace(bs, k, s), h.brk), addr)
      else if CanAbsorb(bs, k, s) then (Heap(ShrinkInPlace(Merge(bs, k), k, s), h.brk), addr)
      else Relocate(h, addr.value, s)
  }

  /** my_realloc keeps the heap well formed. */
  lemma ReallocWellFormed(h: Heap, addr: Option<nat>, newSize: nat)
    requires WellFormed(h)
    ensures WellFormed(Realloc(h, addr, newSize).0)
  {
    if addr.None? {
      MallocWellFormed(h, newSize);
    } else if ValidAddr(h, addr.value) {
      var s := Align4(newSize);
      var bs := h.blocks;
      var k := GetBlock(bs, addr.value).value;
      if bs[k].size >= s {
        if bs[k].size >= s + BLOCK_SPLIT { SplitWellFormed(h, k, s); }
      } else if CanAbsorb(bs, k, s) {
        MergeWellFormed(h, k);
        var m := Merge(bs, k);
        if m[k].size >= s + BLOCK_SPLIT { SplitWellFormed(Heap(m, h.brk), k, s); }
      } else {
        MallocWellFormed(h, s);
        FreeWellFormed(Malloc(h, s).0, addr.value);
      }
    }
  }

  /** my_realloc of a block that already holds align4(newSize) bytes returns the same
      address; the block keeps at least the request and is cut to it exactly when it has
      BLOCK_SPLIT bytes to spare. */
  lemma ReallocInPlace(h: Heap, k: nat, newSize: nat)
    requires WellFormed(h) && k < |h.blocks| && ValidAddr(h, Data(h.blocks[k]))
    requires h.blocks[k].size >= Align4(newSize)
    ensures var res := Realloc(h, Some(Data(h.blocks[k])), newSize);
      var s := Align4(newSize);
      && res == (Heap(ShrinkInPlace(h.blocks, k, s), h.brk), Some(Data(h.blocks[k])))
      && Data(res.0.blocks[k]) == Data(h.blocks[k])
      && res.0.blocks[k].size == (if h.blocks[k].size >= s + BLOCK_SPLIT then s else h.blocks[k].size)
  {
    var a := Data(h.blocks[k]);
    var g := GetBlock(h.blocks, a).value;
    DataUnique(h.blocks, h.brk, k, g);
  }

  /** my_realloc of a block whose free successor makes up the difference returns the same
      address, with at least align4(newSize) bytes behind it. */
  lemma ReallocAbsorbs(h: Heap, k: nat, newSize: nat)
    requires WellFormed(h) && k < |h.blocks| && ValidAddr(h, Data(h.blocks[k]))
    requires h.blocks[k].size < Align4(newSize) && CanAbsorb(h.blocks, k, Align4(newSize))
    ensures h.blocks[k + 1].offset == End(h.blocks[k])
    ensures var res := Realloc(h, Some(Data(h.blocks[k])), newSize);
      var s := Align4(newSize);
      && res == (Heap(ShrinkInPlace(Merge(h.blocks, k), k, s), h.brk), Some(Data(h.blocks[k])))
      && Data(res.0.blocks[k]) == Data(h.blocks[k]) && res.0.blocks[k].size >= s
  {
    var a := Data(h.blocks[k]);
    var g := GetBlock(h.blocks, a).value;
    DataUnique(h.blocks, h.brk, k, g);
    MergeWellFormed(h, k);
  }

  /** The moving step: on success a new block of at least s bytes starts its data at the
      result, away from the old block, and the old address no longer names a used block;
      on failure nothing changes. */
  lemma RelocateResult(h: Heap, k: nat, s: nat)
    requires WellFormed(h) && k < |h.blocks| && ValidAddr(h, Data(h.blocks[k]))
    requires h.blocks[k].size < s && s % 4 == 0
    ensures var res := Relocate(h, Data(h.blocks[k]), s);
      var r := res.0;
      && (res.1.None? ==> r == h)
      && (res.1.Some? ==> res.1.value != Data(h.blocks[k])
                          && (exists j :: 0 <= j < |r.blocks| && Data(r.blocks[j]) == res.1.value
                                          && !r.blocks[j].free && r.blocks[j].size >= s)
                          && forall j :: 0 <= j < |r.blocks| && Data(r.blocks[j]) == Data(h.blocks[k]) ==> r.blocks[j].free)
  {
    var bs := h.blocks;
    var a := Data(bs[k]);
    Align4Aligned(s);
    MallocResult(h, s);
    MallocWellFormed(h, s);
    var res := Malloc(h, s);
    var h1 := res.0; var q := res.1;
    if q.Some? {
      var r := Free(h1, a);
      assert Relocate(h, a, s) == (r, q);
      var j :| 0 <= j < |h1.blocks| && Data(h1.blocks[j]) == q.value && !h1.blocks[j].free && h1.blocks[j].size >= s;
      assert !Fits(bs[k], s);
      assert q.value != a;
      FreeKeepsLive(h1, a, j);
      var j' :| 0 <= j' < |r.blocks| && r.blocks[j'] == h1.blocks[j];
      MallocKeeps(h, s, k);
      var i' :| 0 <= i' < |h1.blocks| && h1.blocks[i'] == bs[k];
      InArena(h1, i');
      assert ValidAddr(h1, a);
      FreeReleases(h1, a);
      assert Data(r.blocks[j']) == q.value && !r.blocks[j'].free && r.blocks[j'].size >= s;
    } else {
      assert Relocate(h, a, s) == (h, None);
    }
  }

  /** When my_realloc moves block k, the new block and the old one are both live and
      distinct after my_malloc, the old one unchanged and the new one large enough to take
      its bytes: the preconditions of copyBlock. */
  lemma MoveCopies(h: Heap, k: nat, s: nat, r: Heap, q: nat)
    requires WellFormed(h) && k < |h.blocks| && ValidAddr(h, Data(h.blocks[k]))
    requires h.blocks[k].size < s && s % 4 == 0
    requires Malloc(h, s) == (r, Some(q))
    ensures WellFormed(r)
    ensures GetBlock(r.blocks, q).Some? && GetBlock(r.blocks, Data(h.blocks[k])).Some?
    ensures var des := GetBlock(r.blocks, q).value;
      var src := GetBlock(r.blocks, Data(h.blocks[k])).value;
      && des != src && r.blocks[src] == h.blocks[k] && r.blocks[des].size >= s
  {
    var bs := h.blocks;
    var a := Data(bs[k]);
    Align4Aligned(s);
    MallocResult(h, s);
    MallocWellFormed(h, s);
    var j :| 0 <= j < |r.blocks| && Data(r.blocks[j]) == q && !r.blocks[j].free && r.blocks[j].size >= s;
    assert !Fits(bs[k], s);
    MallocKeeps(h, s, k);
    var i :| 0 <= i < |r.blocks| && r.blocks[i] == bs[k];
    InArena(r, i);
    var des := GetBlock(r.blocks, q).value;
    var src := GetBlock(r.blocks, a).value;
    DataUnique(r.blocks, r.brk, des, j);
    DataUnique(r.blocks, r.brk, src, i);
  }

  /** my_realloc that can neither keep nor grow the block in place moves it: it returns what
      my_malloc(align4(newSize)) returns and, when that succeeds, frees the old block in the
      heap my_malloc left; when it fails, nothing changes. */
  lemma ReallocMoves(h: Heap, k: nat, newSize: nat, r: Heap, q: Option<nat>)
    requires WellFormed(h) && k < |h.blocks| && ValidAddr(h, Data(h.blocks[k]))
    requires h.blocks[k].size < Align4(newSize) && !CanAbsorb(h.blocks, k, Align4(newSize))
    requires Malloc(h, Align4(newSize)) == (r, q)
    ensures WellFormed(r)
    ensures Realloc(h, Some(Data(h.blocks[k])), newSize) == if q.None? then (h, None) else (Free(r, Data(h.blocks[k])), q)
  {
    var a := Data(h.blocks[k]);
    var g := GetBlock(h.blocks, a).value;
    DataUnique(h.blocks, h.brk, k, g);
    MallocWellFormed(h, Align4(newSize));
  }

  /** When my_malloc returns NULL the heap is left as it was. */
  lemma MallocFails(h: Heap, s: nat, r: Heap)
    requires WellFormed(h) && Malloc(h, s) == (r, None)
    ensures r == h
  {
    MallocResult(h, s);
  }

  /** A block too small for a request is never the one my_malloc hands out for it. */
  lemma MallocElsewhere(h: Heap, k: nat, s: nat, r: Heap, q: nat)
    requires WellFormed(h) && k < |h.blocks| && h.blocks[k].size < s && s % 4 == 0
    requires Malloc(h, s) == (r, Some(q))
    ensures WellFormed(r) && q != Data(h.blocks[k])
  {
    MallocWellFormed(h, s);
    Align4Aligned(s);
    MallocResult(h, s);
    assert !Fits(h.blocks[k], s);
  }

  /** As written, my_realloc's in-place shrink splits off a free remainder without merging it
      with a free successor, so it can leave two neighbouring free blocks. */
  lemma ReallocShrinkLeavesNeighbouringFree()
    ensures var h := Heap([Block(0, 1024, false), Block(1044, 100, true)], 1164);
      && WellFormed(h) && Coalesced(h.blocks)
      && !Coalesced(Realloc(h, Some(20), 4).0.blocks)
  {
    var h := Heap([Block(0, 1024, false), Block(1044, 100, true)], 1164);
    assert GetBlock(h.blocks, 20) == Some(0);
    var r := Realloc(h, Some(20), 4).0.blocks;
    assert r == [Block(0, 4, false), Block(24, 1000, true), Block(1044, 100, true)];
    assert r[1].free && r[2].free;
  }

  /** The size of the block whose data starts at a (0 when there is none): what copyBlock
      copies out of the old block when my_realloc moves it. */
  function DataSize(h: Heap, a: int): (n: nat)
    ensures forall j :: 0 <= j < |h.blocks| && Data(h.blocks[j]) == a && Tiles(h.blocks, h.brk) ==> n == h.blocks[j].size
  {
    match GetBlock(h.blocks, a)
    case Some(k) =>
      assert forall j :: 0 <= j < |h.blocks| && Data(h.blocks[j]) == a && Tiles(h.blocks, h.brk) ==> j == k by {
        forall j | 0 <= j < |h.blocks| && Data(h.blocks[j]) == a && Tiles(h.blocks, h.brk) ensures j == k {
          DataUnique(h.blocks, h.brk, j, k);
        }
      }
      h.blocks[k].size
    case None => 0
  }

  /** Freeing the last block hands its header and data back to the arena: the break
      retracts by exactly BLOCK_SIZE plus its size and every other block stays; when it was
      also the first block, the chain becomes empty (firstBlock is NULL again). */
  lemma FreeTail(h: Heap)
    requires WellFormed(h) && h.blocks != []
    requires ValidAddr(h, Data(h.blocks[|h.blocks| - 1]))
    ensures var last := h.blocks[|h.blocks| - 1];
      var r := Free(h, Data(last));
      && r.blocks == h.blocks[..|h.blocks| - 1]
      && r.brk + BLOCK_SIZE + last.size == h.brk
      && (|h.blocks| == 1 <==> r == Heap([], 0))
  {
    var n := |h.blocks| - 1;
    var g := GetBlock(h.blocks, Data(h.blocks[n])).value;
    DataUnique(h.blocks, h.brk, n, g);
  }

  /** Three used blocks A, B, C of n bytes each; freeing B and then A fuses them, and a
      request of A's size plus B's size plus one header is served at A's address without
      moving the break. */
  lemma FreeThenReuse(n: nat, h0: Heap, h1: Heap, h2: Heap)
    requires n % 4 == 0 && 3 * (BLOCK_SIZE + n) <= MEM_SIZE
    requires h0 == Heap([Block(0, n, false), Block(BLOCK_SIZE + n, n, false), Block(2 * (BLOCK_SIZE + n), n, false)], 3 * (BLOCK_SIZE + n))
    requires h1 == Heap([Block(0, n, false), Block(BLOCK_SIZE + n, n, true), Block(2 * (BLOCK_SIZE + n), n, false)], 3 * (BLOCK_SIZE + n))
    requires h2 == Heap([Block(0, BLOCK_SIZE + 2 * n, true), Block(2 * (BLOCK_SIZE + n), n, false)], 3 * (BLOCK_SIZE + n))
    ensures WellFormed(h0) && Free(h0, Data(h0.blocks[1])) == h1
    ensures WellFormed(h1) && Free(h1, Data(h0.blocks[0])) == h2
    ensures WellFormed(h2) && Malloc(h2, n + BLOCK_SIZE + n) == (Heap([Block(0, BLOCK_SIZE + 2 * n, false), h2.blocks[1]], h2.brk), Some(Data(h0.blocks[0])))
  {
    FreeMiddleStep(n, h0, h1);
    FreeFirstStep(n, h1, h2);
    ReuseFusedStep(n, h2);
  }

  /** Freeing the middle one of three used blocks only marks it free. */
  lemma FreeMiddleStep(n: nat, h0: Heap, h1: Heap)
    requires n % 4 == 0 && 3 * (BLOCK_SIZE + n) <= MEM_SIZE
    requires h0 == Heap([Block(0, n, false), Block(BLOCK_SIZE + n, n, false), Block(2 * (BLOCK_SIZE + n), n, false)], 3 * (BLOCK_SIZE + n))
    requires h1 == Heap([Block(0, n, false), Block(BLOCK_SIZE + n, n, true), Block(2 * (BLOCK_SIZE + n), n, false)], 3 * (BLOCK_SIZE + n))
    ensures WellFormed(h0) && Free(h0, Data(h0.blocks[1])) == h1
  {
    var bs := h0.blocks;
    assert GetBlock(bs[1..], Data(bs[1])) == Some(0);
    assert GetBlock(bs, Data(bs[1])) == Some(1);
    assert FreeAt(bs, 1) == SetFree(bs, 1, true) == h1.blocks;
  }

  /** Freeing the first block before a free second one fuses the two. */
  lemma FreeFirstStep(n: nat, h1: Heap, h2: Heap)
    requires n % 4 == 0 && 3 * (BLOCK_SIZE + n) <= MEM_SIZE
    requires h1 == Heap([Block(0, n, false), Block(BLOCK_SIZE + n, n, true), Block(2 * (BLOCK_SIZE + n), n, false)], 3 * (BLOCK_SIZE + n))
    requires h2 == Heap([Block(0, BLOCK_SIZE + 2 * n, true), Block(2 * (BLOCK_SIZE + n), n, false)], 3 * (BLOCK_SIZE + n))
    ensures WellFormed(h1) && Free(h1, BLOCK_SIZE) == h2
  {
    assert GetBlock(h1.blocks, BLOCK_SIZE) == Some(0);
    var f := SetFree(h1.blocks, 0, true);
    var m := Merge(f, 0);
    assert m[0] == h2.blocks[0] && m[1] == f[2];
    assert FreeNext(h1.blocks, 0) == m == h2.blocks;
  }

  /** A free first block of exactly the requested size is handed out in place. */
  lemma ReuseFusedStep(n: nat, h2: Heap)
    requires n % 4 == 0 && 3 * (BLOCK_SIZE + n) <= MEM_SIZE
    requires h2 == Heap([Block(0, BLOCK_SIZE + 2 * n, true), Block(2 * (BLOCK_SIZE + n), n, false)], 3 * (BLOCK_SIZE + n))
    ensures WellFormed(h2) && Malloc(h2, n + BLOCK_SIZE + n) == (Heap([Block(0, BLOCK_SIZE + 2 * n, false), h2.blocks[1]], h2.brk), Some(BLOCK_SIZE))
  {
    Align4Aligned(n + BLOCK_SIZE + n);
    assert FirstFit(h2.blocks, n + BLOCK_SIZE + n) == Some(0);
    assert SetFree(h2.blocks, 0, false) == [Block(0, BLOCK_SIZE + 2 * n, false), h2.blocks[1]];
  }
}
