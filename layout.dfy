/** The arena and the block headers carved out of it.
    Addresses are byte offsets into the 10240-byte arena `rawData`;
    a block header sits at `offset` and its data region starts BLOCK_SIZE bytes later. */
module Layout {

  /** Capacity of the arena `rawData`. */
  const MEM_SIZE: nat := 10240
  /** Bytes taken by one block header. */
  const BLOCK_SIZE: nat := 20
  /** The split threshold. my_malloc splits a block when it exceeds the request by at least
      BLOCK_SIZE + BLOCK_SPLIT, so the remainder keeps at least 512 data bytes; my_realloc
      splits when it exceeds the request by at least BLOCK_SPLIT, so the remainder keeps at
      least 492. */
  const BLOCK_SPLIT: nat := 512
  /** Largest value of the 32-bit `size_t` of the source. */
  const SIZE_MAX: nat := 0xFFFF_FFFF

  newtype byte = x: int | 0 <= x < 256

  /** NULL is `None`. */
  datatype Option<+T> = None | Some(value: T)

  /** One header: where it starts, the size of its data region, and whether it is free.
      The `pre`/`next` links are the neighbours in the chain. */
  datatype Block = Block(offset: nat, size: nat, free: bool)

  /** First byte of the data region (the header's magic pointer). */
  function Data(b: Block): (d: nat) { b.offset + BLOCK_SIZE }

  /** First byte after the data region. */
  function End(b: Block): (e: nat) { b.offset + BLOCK_SIZE + b.size }

  /** The allocator's whole state: the chain in address order and the break. */
  datatype Heap = Heap(blocks: seq<Block>, brk: nat)

  /** The blocks cover [0, brk) end to end; an empty chain is a break at 0. */
  ghost predicate Tiles(bs: seq<Block>, brk: nat) {
    && (bs == [] ==> brk == 0)
    && (bs != [] ==> bs[0].offset == 0 && End(bs[|bs| - 1]) == brk)
    && (forall i {:trigger End(bs[i])} :: 0 <= i < |bs| - 1 ==> bs[i + 1].offset == End(bs[i]))
  }

  /** Every data size is a multiple of 4. */
  ghost predicate Aligned(bs: seq<Block>) {
    forall i :: 0 <= i < |bs| ==> bs[i].size % 4 == 0
  }

  /** The invariant of the allocator's state. */
  ghost predicate WellFormed(h: Heap) {
    h.brk <= MEM_SIZE && Tiles(h.blocks, h.brk) && Aligned(h.blocks)
  }

  /** No two neighbouring blocks are both free. */
  ghost predicate Coalesced(bs: seq<Block>) {
    forall i, j :: 0 <= i && j == i + 1 && j < |bs| ==> !(bs[i].free && bs[j].free)
  }

  /** align4: the smallest multiple of 4 that is at least x. */
  function Align4(x: nat): (r: nat)
    ensures r % 4 == 0 && x <= r < x + 4
  {
    if x % 4 == 0 then x else (x / 4 + 1) * 4
  }

  lemma Align4Aligned(x: nat)
    requires x % 4 == 0
    ensures Align4(x) == x
  {
  }

  /** Blocks further along the chain start after earlier ones end. */
  lemma {:induction false} Ordered(bs: seq<Block>, brk: nat, i: nat, j: nat)
    requires Tiles(bs, brk) && i < j < |bs|
    ensures End(bs[i]) <= bs[j].offset
  {
    if j > i + 1 {
      Ordered(bs, brk, i, j - 1);
      assert bs[j].offset == End(bs[j - 1]);
    }
  }

  /** Every block lies inside the carved part of the arena. */
  lemma InArena(h: Heap, i: nat)
    requires WellFormed(h) && i < |h.blocks|
    ensures End(h.blocks[i]) <= h.brk <= MEM_SIZE
  {
    if i < |h.blocks| - 1 {
      Ordered(h.blocks, h.brk, i, |h.blocks| - 1);
    }
  }

  /** Distinct blocks have distinct data addresses. */
  lemma DataUnique(bs: seq<Block>, brk: nat, i: nat, j: nat)
    requires Tiles(bs, brk) && i < |bs| && j < |bs| && Data(bs[i]) == Data(bs[j])
    ensures i == j
  {
    if i < j { Ordered(bs, brk, i, j); }
    if j < i { Ordered(bs, brk, j, i); }
  }
}
