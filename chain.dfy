/** The block chain: first-fit search, the address guard, growth, splitting and merging,
    each as a function from the old chain to the new one. */
module Chain {
  import opened Layout

  /** A block that can serve a request of `size` bytes. */
  predicate Fits(b: Block, size: nat) {
    b.free && b.size >= size
  }

  /** findBlock: index of the first free block of at least `size` bytes, walking from the head. */
  function FirstFit(bs: seq<Block>, size: nat): (r: Option<nat>)
    ensures r.Some? ==> r.value < |bs| && Fits(bs[r.value], size)
    ensures r.Some? ==> forall j :: 0 <= j < r.value ==> !Fits(bs[j], size)
    ensures r.None? ==> forall j :: 0 <= j < |bs| ==> !Fits(bs[j], size)
  {
    if bs == [] then None
    else if Fits(bs[0], size) then Some(0)
    else match FirstFit(bs[1..], size)
      case None =>
        assert forall j :: 0 < j < |bs| ==> bs[j] == bs[1..][j - 1];
        None
      case Some(k) =>
        assert forall j :: 0 < j <= k ==> bs[j] == bs[1..][j - 1];
        Some(k + 1)
  }

  /** getBlock with the magic-pointer check: the index of the live block whose data
      region starts at `a`, if there is one. */
  function GetBlock(bs: seq<Block>, a: int): (r: Option<nat>)
    ensures r.Some? ==> r.value < |bs| && Data(bs[r.value]) == a
    ensures r.None? ==> forall j :: 0 <= j < |bs| ==> Data(bs[j]) != a
  {
    if bs == [] then None
    else if Data(bs[0]) == a then Some(0)
    else match GetBlock(bs[1..], a)
      case None =>
        assert forall j :: 0 < j < |bs| ==> bs[j] == bs[1..][j - 1];
        None
      case Some(k) => Some(k + 1)
  }

  /** validAddr: the chain is not empty, firstBlock < a < break, and a is the data
      address of a live block. */
  function ValidAddr(h: Heap, a: int): (ok: bool)
    ensures ok <==> 0 < a < h.brk && exists j :: 0 <= j < |h.blocks| && Data(h.blocks[j]) == a
  {
    h.blocks != [] && 0 < a < h.brk && GetBlock(h.blocks, a).Some?
  }

  /** Set the free flag of block i; its header and every other block stay as they were. */
  function SetFree(bs: seq<Block>, i: nat, f: bool): (r: seq<Block>)
    requires i < |bs|
    ensures |r| == |bs| && r[i].free == f
    ensures r[i].offset == bs[i].offset && r[i].size == bs[i].size
    ensures forall j :: 0 <= j < |bs| && j != i ==> r[j] == bs[j]
  {
    bs[i := bs[i].(free := f)]
  }

  lemma SetFreeWellFormed(h: Heap, i: nat, f: bool)
    requires WellFormed(h) && i < |h.blocks|
    ensures WellFormed(Heap(SetFree(h.blocks, i, f), h.brk))
  {
    var r := SetFree(h.blocks, i, f);
    forall j | 0 <= j < |r| - 1 ensures r[j + 1].offset == End(r[j]) {
      assert End(r[j]) == End(h.blocks[j]);
    }
  }

  /** extendBlock: a used block of `size` bytes at the old break, after the last block. */
  function Extend(h: Heap, size: nat): (r: Heap)
    ensures |r.blocks| == |h.blocks| + 1 && r.blocks[..|h.blocks|] == h.blocks
    ensures r.blocks[|h.blocks|] == Block(h.brk, size, false)
    ensures r.brk == h.brk + BLOCK_SIZE + size
  {
    Heap(h.blocks + [Block(h.brk, size, false)], h.brk + BLOCK_SIZE + size)
  }

  lemma ExtendWellFormed(h: Heap, size: nat)
    requires WellFormed(h) && size % 4 == 0 && h.brk + BLOCK_SIZE + size <= MEM_SIZE
    ensures WellFormed(Extend(h, size))
  {
    var r := Extend(h, size);
    forall i | 0 < i < |r.blocks|
      ensures r.blocks[i].offset == End(r.blocks[i - 1])
    {
      if i < |h.blocks| {
        assert r.blocks[i] == h.blocks[i] && r.blocks[i - 1] == h.blocks[i - 1];
      }
    }
  }

  /** splitBlock: block i keeps `size` bytes and a new free block takes the rest of its
      region, between it and its old successor. */
  function Split(bs: seq<Block>, i: nat, size: nat): (r: seq<Block>)
    requires i < |bs| && size + BLOCK_SIZE <= bs[i].size
    ensures |r| == |bs| + 1
    ensures forall j :: 0 <= j < i ==> r[j] == bs[j]
    ensures forall j :: i + 1 < j < |r| ==> r[j] == bs[j - 1]
    ensures r[i].offset == bs[i].offset && r[i].free == bs[i].free && r[i].size == size
    ensures r[i + 1].free && r[i + 1].offset == End(r[i]) && End(r[i + 1]) == End(bs[i])
  {
    var rest := Block(Data(bs[i]) + size, bs[i].size - size - BLOCK_SIZE, true);
    var r := bs[..i] + [bs[i].(size := size), rest] + bs[i + 1..];
    assert forall j :: i + 1 < j < |r| ==> r[j] == bs[i + 1..][j - i - 2];
    r
  }

  lemma SplitWellFormed(h: Heap, i: nat, size: nat)
    requires WellFormed(h) && i < |h.blocks| && size + BLOCK_SIZE <= h.blocks[i].size && size % 4 == 0
    ensures WellFormed(Heap(Split(h.blocks, i, size), h.brk))
  {
    var bs, r := h.blocks, Split(h.blocks, i, size);
    forall k | 0 <= k < |r| - 1 ensures r[k + 1].offset == End(r[k]) {
      if k + 1 < i {
        assert r[k] == bs[k] && r[k + 1] == bs[k + 1];
      } else if k + 1 == i {
        assert r[k] == bs[k];
      } else if k == i + 1 {
        assert r[k + 1] == bs[k] && bs[k].offset == End(bs[k - 1]);
      } else if k > i + 1 {
        assert r[k] == bs[k - 1] && r[k + 1] == bs[k];
      }
    }
    forall k | 0 <= k < |r| ensures r[k].size % 4 == 0 {
      if k > i + 1 { assert r[k] == bs[k - 1]; }
    }
    if i + 2 < |r| { assert r[|r| - 1] == bs[|bs| - 1]; }
  }

  /** mergeBlock: block i absorbs its successor, header included. */
  function Merge(bs: seq<Block>, i: nat): (r: seq<Block>)
    requires i + 1 < |bs| && bs[i + 1].offset == End(bs[i])
    ensures |r| == |bs| - 1
    ensures forall j :: 0 <= j < i ==> r[j] == bs[j]
    ensures forall j :: i < j < |r| ==> r[j] == bs[j + 1]
    ensures r[i].offset == bs[i].offset && r[i].free == bs[i].free && End(r[i]) == End(bs[i + 1])
  {
    var r := bs[..i] + [bs[i].(size := bs[i].size + BLOCK_SIZE + bs[i + 1].size)] + bs[i + 2..];
    assert forall j :: i < j < |r| ==> r[j] == bs[i + 2..][j - i - 1];
    r
  }

  lemma MergeWellFormed(h: Heap, i: nat)
    requires WellFormed(h) && i + 1 < |h.blocks|
    ensures h.blocks[i + 1].offset == End(h.blocks[i])
    ensures WellFormed(Heap(Merge(h.blocks, i), h.brk))
  {
    var bs, r := h.blocks, Merge(h.blocks, i);
    assert bs[i + 1].offset == End(bs[i]);
    forall k | 0 <= k < |r| - 1 ensures r[k + 1].offset == End(r[k]) {
      if k + 1 < i {
        assert r[k] == bs[k] && r[k + 1] == bs[k + 1];
      } else if k + 1 == i {
        assert r[k] == bs[k];
      } else if k == i {
        assert r[k + 1] == bs[k + 2] && bs[k + 2].offset == End(bs[k + 1]);
      } else {
        assert r[k] == bs[k + 1] && r[k + 1] == bs[k + 2];
      }
    }
    forall k | 0 <= k < |r| ensures r[k].size % 4 == 0 {
      if k > i { assert r[k] == bs[k + 1]; }
    }
    if i + 1 < |r| { assert r[|r| - 1] == bs[|bs| - 1]; }
  }

  /** Merging the remainder of a split back into its block restores the chain. */
  lemma {:induction false} MergeUndoesSplit(bs: seq<Block>, i: nat, size: nat)
    requires i < |bs| && size + BLOCK_SIZE <= bs[i].size
    ensures Merge(Split(bs, i, size), i) == bs
  {
    var s := Split(bs, i, size);
    var r := Merge(s, i);
    assert r[i] == bs[i];
    assert r == r[..i] + [r[i]] + r[i + 1..];
    assert bs == bs[..i] + [bs[i]] + bs[i + 1..];
  }
}
