/** The per-thread Allocator (MemoryPool.hpp): 64-byte aligned blocks cut from blocks of the pool. */
module Allocator {
  import opened GlobalPool

  function End(b: Block): nat { b.addr + b.size }

  predicate Inside(b: Block, s: Block) { s.addr <= b.addr && End(b) <= End(s) }

  ghost predicate PairwiseApart(blocks: seq<Block>) {
    forall i, j | 0 <= i < j < |blocks| :: blocks[i].Apart(blocks[j])
  }

  ghost predicate ApartFrom(b: Block, blocks: seq<Block>) {
    forall i | 0 <= i < |blocks| :: blocks[i].Apart(b)
  }

  /** A block handed out lies in one of the pool's blocks; in the one in use, before `start`. */
  ghost predicate Placed(b: Block, sources: seq<Block>, start: nat) {
    exists k :: 0 <= k < |sources| && Inside(b, sources[k]) && (k == |sources| - 1 ==> End(b) <= start)
  }

  ghost predicate AllPlaced(blocks: seq<Block>, sources: seq<Block>, start: nat) {
    forall i | 0 <= i < |blocks| :: Placed(blocks[i], sources, start) && blocks[i].addr % 64 == 0
  }

  /** A new block of the pool moves `start` out of every block handed out. */
  lemma {:induction false} NewSource(blocks: seq<Block>, sources: seq<Block>, start: nat, s: Block)
    requires AllPlaced(blocks, sources, start)
    ensures AllPlaced(blocks, sources + [s], s.addr)
  {
    forall i | 0 <= i < |blocks|
      ensures Placed(blocks[i], sources + [s], s.addr)
    {
      var k :| 0 <= k < |sources| && Inside(blocks[i], sources[k]) && (k == |sources| - 1 ==> End(blocks[i]) <= start);
      assert (sources + [s])[k] == sources[k];
    }
  }

  lemma Joins(sources: seq<Block>, s: Block)
    requires PairwiseApart(sources) && ApartFrom(s, sources)
    ensures PairwiseApart(sources + [s])
  {
  }

  lemma Aligned(n: nat)
    ensures (n + (64 - n % 64)) % 64 == 0
  {
  }

  /** A block cut at or after `start` meets none handed out before. */
  lemma CutIsApart(blocks: seq<Block>, sources: seq<Block>, start: nat, b: Block, next: nat)
    requires AllPlaced(blocks, sources, start) && PairwiseApart(blocks) && PairwiseApart(sources) && sources != []
    requires b.addr % 64 == 0 && start <= b.addr && End(b) <= next && Inside(b, sources[|sources| - 1])
    ensures PairwiseApart(blocks + [b]) && AllPlaced(blocks + [b], sources, next)
  {
    forall i | 0 <= i < |blocks|
      ensures blocks[i].Apart(b) && Placed(blocks[i], sources, next)
    {
      var k :| 0 <= k < |sources| && Inside(blocks[i], sources[k]) && (k == |sources| - 1 ==> End(blocks[i]) <= start);
      assert k < |sources| - 1 ==> sources[k].Apart(sources[|sources| - 1]);
    }
    assert Placed(b, sources, next);
  }

  class Allocator {
    var allocSize: nat
    var start: nat
    var free: nat
    /** The blocks obtained from the pool, and those handed out. */
    ghost var sources: seq<Block>
    ghost var blocks: seq<Block>

    ghost predicate Valid()
      reads this
    {
      && PairwiseApart(sources) && PairwiseApart(blocks) && AllPlaced(blocks, sources, start)
      && (if sources == [] then free == 0
          else sources[|sources| - 1].addr <= start && start + free == End(sources[|sources| - 1]))
    }

    constructor ()
      ensures Valid() && blocks == [] && sources == []
    {
      allocSize := 1024 * 1024 * 2;
      start, free := 0, 0;
      sources, blocks := [], [];
    }

    /** setSource with a pool; `block` is the address of the block the pool hands out. */
    method SetSource(block: nat)
      requires Valid() && ApartFrom(Block(block, allocSize), sources)
      modifies this
      ensures Valid() && blocks == old(blocks) && allocSize == old(allocSize)
      ensures sources == old(sources) + [Block(block, allocSize)]
      ensures start == block && free == allocSize
    {
      NewSource(blocks, sources, start, Block(block, allocSize));
      Joins(sources, Block(block, allocSize));
      sources := sources + [Block(block, allocSize)];
      start := block;
      free := allocSize;
    }

    /** What a request takes, with the way to the next multiple of 64. */
    function Needed(size: nat): nat
      reads this
    {
      size + (64 - start % 64)
    }

    function Refill(size: nat): nat
      reads this
    {
      if allocSize * 2 < Needed(size) + 64 then Needed(size) + 64 else allocSize * 2
    }

    /** allocate; `block` is where the pool's next block lies, should one be needed. The new block is
      aligned, lies in the pool's latest block and is apart from all blocks handed out before. */
    method Allocate(size: nat, block: nat) returns (alloc: nat)
      requires Valid()
      requires free < Needed(size) ==> ApartFrom(Block(block, Refill(size)), sources)
      modifies this
      ensures Valid() && alloc % 64 == 0
      ensures blocks == old(blocks) + [Block(alloc, size)]
      ensures sources == if old(free) < old(Needed(size)) then old(sources) + [Block(block, old(Refill(size)))] else old(sources)
      ensures sources != [] && Inside(Block(alloc, size), sources[|sources| - 1])
      ensures var from := if old(free) < old(Needed(size)) then block else old(start); from < alloc <= from + 64
      // after a refill the way to the next multiple of 64 is counted twice
      ensures start == alloc + size + if old(free) < old(Needed(size)) then 64 - old(start) % 64 else 0
      ensures allocSize == if old(free) < old(Needed(size)) then old(Refill(size)) else old(allocSize)
    {
      hide PairwiseApart, AllPlaced, ApartFrom;
      var aligndiff := 64 - start % 64;
      var size' := size + aligndiff;
      if free < size' {
        allocSize := if allocSize * 2 < size' + 64 then size' + 64 else allocSize * 2;
        NewSource(blocks, sources, start, Block(block, allocSize));
        Joins(sources, Block(block, allocSize));
        sources := sources + [Block(block, allocSize)];
        start := block;
        aligndiff := 64 - start % 64;
        size' := size' + aligndiff;
        free := allocSize;
      }
      alloc := start + aligndiff;
      Aligned(start);
      CutIsApart(blocks, sources, start, Block(alloc, size), start + size');
      blocks := blocks + [Block(alloc, size)];
      start := start + size';
      free := free - size';
    }
  }
}
