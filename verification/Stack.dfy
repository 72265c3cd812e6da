/** The chunked Stack (Stack.hpp). Chunks double in size, are linked, and are kept for reuse when
  the stack is cleared. */
module Stack {
  import opened Bits
  import opened Chunks

  // initialSize
  const INITIAL: nat := 1024

  /** Elements chunk j of the chain has room for. */
  function Capacity(j: nat): (n: nat)
    ensures n >= INITIAL
  {
    if j == 0 then INITIAL else 2 * Capacity(j - 1)
  }

  /** Elements the chunks before chunk j have room for. */
  function Start(j: nat): (n: nat)
    ensures j > 0 ==> n > 0
  {
    if j == 0 then 0 else Start(j - 1) + Capacity(j - 1)
  }

  lemma {:induction false} CapacityIs(j: nat)
    ensures Capacity(j) == 1024 * Pow2(j)
  {
    if j > 0 {
      CapacityIs(j - 1);
    }
  }

  ghost predicate Sized<T>(datas: seq<seq<T>>) {
    forall j | 0 <= j < |datas| :: |datas[j]| == Capacity(j)
  }

  lemma {:induction false} JoinedLength<T>(datas: seq<seq<T>>, n: nat)
    requires n <= |datas| && Sized(datas)
    ensures |Joined(datas, n)| == Start(n)
  {
    if n > 0 {
      JoinedLength(datas, n - 1);
    }
  }

  /** Chunks differ in size, so they differ. */
  ghost predicate IsSized<T>(chain: seq<Chunk<T>>) {
    forall j | 0 <= j < |chain| :: chain[j].data.Length == Capacity(j)
  }

  lemma {:induction false} CapacityGrows(i: nat, j: nat)
    requires i < j
    ensures Capacity(i) < Capacity(j)
    decreases j
  {
    if i + 1 < j {
      CapacityGrows(i, j - 1);
    }
  }

  lemma ChunksDiffer<T>(chain: seq<Chunk<T>>, k: nat)
    requires IsSized(chain) && k < |chain|
    ensures forall j | 0 <= j < |chain| && j != k :: chain[j].data != chain[k].data && chain[j] != chain[k]
  {
    forall j | 0 <= j < |chain| && j != k
      ensures chain[j].data.Length != chain[k].data.Length
    {
      if j < k {
        CapacityGrows(j, k);
      } else {
        CapacityGrows(k, j);
      }
    }
  }

  lemma SizedGrows<T>(chain: seq<Chunk<T>>, datas: seq<seq<T>>, chunk: Chunk<T>)
    requires Sized(datas) && |chain| == |datas| && IsSized(chain + [chunk])
    ensures Sized(datas + [chunk.data[..]])
  {
    assert (chain + [chunk])[|chain|] == chunk;
  }

  /** Allocates a chunk and links it behind the last. */
  method Extend<T(0)>(ghost chain: seq<Chunk<T>>, prev: Chunk<T>, size: nat) returns (chunk: Chunk<T>)
    requires IsChain(chain) && IsSized(chain) && chain != [] && prev == chain[|chain| - 1] && size == Capacity(|chain|)
    modifies prev
    ensures fresh(chunk) && fresh(chunk.data)
    ensures IsChain(chain + [chunk]) && IsSized(chain + [chunk])
  {
    ChunksDiffer(chain, |chain| - 1);
    chunk := NewBehind(chain, prev, size);
  }

  class Stack<T(0)> {
    var chunkSize: nat
    var fill: nat
    var nrElements: nat
    var first: Chunk<T>
    var last: Chunk<T>
    /** The chain from `first` on, its arrays and what they hold, and the place of `last` in it. */
    ghost var chain: seq<Chunk<T>>
    ghost var arrays: seq<array<T>>
    ghost var datas: seq<seq<T>>
    ghost var current: nat
    /** What was pushed since the last clear. */
    ghost var contents: seq<T>

    ghost predicate Shape()
      reads this, chain, arrays
    {
      && |chain| == |arrays| == |datas| && Sized(datas) && IsSized(chain) && IsChain(chain)
      && (forall j | 0 <= j < |chain| :: arrays[j] == chain[j].data && arrays[j][..] == datas[j])
      && current < |chain| && first == chain[0] && last == chain[current]
      && chunkSize == Capacity(current) && nrElements == Start(current) && fill <= chunkSize
    }

    ghost predicate Stored()
      reads this, chain, arrays
    {
      Shape() && contents == Joined(datas, current) + datas[current][..fill]
    }

    ghost predicate Valid()
      reads this, chain, arrays
    {
      Stored() && (current > 0 ==> fill > 0)
    }

    constructor ()
      ensures Valid() && contents == []
      ensures (forall j | 0 <= j < |chain| :: fresh(chain[j])) && (forall j | 0 <= j < |arrays| :: fresh(arrays[j]))
    {
      var data := new T[INITIAL];
      var chunk := new Chunk<T>(data);
      chunkSize, fill, nrElements := INITIAL, 0, 0;
      first, last := chunk, chunk;
      chain, arrays, datas, current, contents := [chunk], [data], [data[..]], 0, [];
    }

    function Size(): (n: nat)
      requires Valid()
      reads this, chain, arrays
      ensures n == |contents|
    {
      JoinedLength(datas, current);
      nrElements + fill
    }

    predicate Empty()
      requires Valid()
      reads this, chain, arrays
      ensures Empty() <==> contents == []
    {
      JoinedLength(datas, current);
      ChunksDiffer(chain, current);
      first == last && fill == 0
    }

    method Back() returns (x: T)
      requires Valid() && contents != []
      ensures x == contents[|contents| - 1]
    {
      x := last.data[fill - 1];
      assert arrays[current][..] == datas[current];
    }

    /** All chunks are kept. */
    method Clear()
      requires Valid()
      modifies this`last, this`chunkSize, this`fill, this`nrElements, this`current, this`contents
      ensures Valid() && contents == []
    {
      hide IsChain, Sized, IsSized;
      last := first;
      chunkSize := INITIAL;
      fill := 0;
      nrElements := 0;
      current, contents := 0, [];
    }

    /** Links a new chunk behind the last one. */
    method AddChunk()
      requires Stored() && last.next == null
      modifies this`chain, this`arrays, this`datas, last
      ensures Stored() && last.next != null
      ensures |chain| == |old(chain)| + 1 && old(chain) <= chain && old(arrays) <= arrays
      ensures fresh(chain[|old(chain)|]) && fresh(arrays[|old(arrays)|])
    {
      hide Sized, IsSized, Joined;
      assert Linked(chain, current);
      var chunk := Extend(chain, last, chunkSize * 2);
      ghost var grown := datas + [chunk.data[..]];
      JoinedFrame(datas, grown, current);
      SizedGrows(chain, datas, chunk);
      chain, arrays, datas := chain + [chunk], arrays + [chunk.data], grown;
      assert Linked(chain, current);
    }

    /** Moves on to the next chunk of the chain. */
    method Advance()
      requires Stored() && fill == chunkSize && last.next != null
      modifies this`last, this`chunkSize, this`fill, this`nrElements, this`current
      ensures Stored() && fill == 0 && current == old(current) + 1
    {
      assert Linked(chain, current);
      assert datas[current][..fill] == datas[current];
      chunkSize := chunkSize * 2;
      last := last.next;
      nrElements := nrElements + fill;
      fill := 0;
      current := current + 1;
    }

    /** Takes the next chunk of the chain, or adds one. */
    method NewChunk()
      requires Stored() && fill == chunkSize
      modifies this`chain, this`arrays, this`datas, this`last, this`chunkSize, this`fill, this`nrElements, this`current, last
      ensures Stored() && fill == 0 && current == old(current) + 1
      ensures old(chain) <= chain && old(arrays) <= arrays
      ensures old(current) + 1 < |old(chain)| ==> chain == old(chain)
      ensures forall j | |old(chain)| <= j < |chain| :: fresh(chain[j])
      ensures forall j | |old(arrays)| <= j < |arrays| :: fresh(arrays[j])
    {
      assert Linked(chain, current);
      if last.next == null {
        AddChunk();
      }
      Advance();
    }

    /** Stores the element in the last chunk, which has room for it. */
    method Append(x: T)
      requires Stored() && fill < chunkSize
      modifies this`fill, this`datas, this`contents, last.data
      ensures Stored() && contents == old(contents) + [x] && fill == old(fill) + 1
    {
      hide IsChain, Joined;
      ghost var datas' := datas[current := datas[current][fill := x]];
      JoinedFrame(datas, datas', current);
      assert datas'[current][..fill + 1] == datas[current][..fill] + [x];
      ChunksDiffer(chain, current);
      assert arrays[current][..] == datas[current];
      last.data[fill] := x;
      assert arrays[current][..] == datas'[current];
      fill := fill + 1;
      datas, contents := datas', contents + [x];
    }

    method EmplaceBack(x: T)
      requires Valid()
      modifies this, chain, arrays
      ensures Valid() && contents == old(contents) + [x] && first == old(first)
      ensures old(chain) <= chain && old(arrays) <= arrays
      // chunks left over from before a clear are used again
      ensures old(current) + 1 < |old(chain)| ==> chain == old(chain)
      ensures forall j | |old(chain)| <= j < |chain| :: fresh(chain[j])
      ensures forall j | |old(arrays)| <= j < |arrays| :: fresh(arrays[j])
    {
      if fill == chunkSize {
        NewChunk();
      }
      Append(x);
    }

    /** Walks the chunks from begin() to end() and reads what each iterator shows: the whole chunk,
      or its filled part if it is the last in use. Chunks kept for reuse are not read. */
    method Iterate() returns (out: seq<T>)
      requires Valid()
      ensures out == contents
    {
      hide IsSized, Sized, Capacity, Start, Joined, IsChain;
      out := [];
      var iter: Chunk?<T>, size, end := first, INITIAL, last.next;
      ghost var j := 0;
      EndIsBeyond();
      WalkStarts();
      while iter != end
        invariant 0 <= j <= current + 1 && size == Capacity(j)
        invariant iter == if j <= current then chain[j] else end
        invariant out == if j <= current then Joined(datas, j) else contents
        decreases current + 1 - j
      {
        ChunkContents(j, out);
        out := out + if iter == last then iter.data[..fill] else iter.data[..size];
        iter := iter.next;
        size := size * 2;
        j := j + 1;
      }
    }

    lemma ChunkContents(j: nat, out: seq<T>)
      requires Valid() && j <= current && current < |datas| && out == Joined(datas, j)
      requires forall k | 0 <= k <= current :: chain[k] == last <==> k == current
      ensures current < |chain| && Linked(chain, j) && chain[j].data.Length == Capacity(j) && (chain[j] == last ==> fill <= Capacity(j))
      ensures out + (if chain[j] == last then chain[j].data[..fill] else chain[j].data[..Capacity(j)])
           == if j < current then Joined(datas, j + 1) else contents
      ensures Capacity(j + 1) == 2 * Capacity(j)
    {
      assert arrays[j][..] == datas[j];
    }

    lemma WalkStarts()
      requires Valid()
      ensures Capacity(0) == INITIAL && Joined(datas, 0) == [] && |datas| == |chain| && current < |chain| && first == chain[0]
    {
    }

    lemma EndIsBeyond()
      requires Valid()
      ensures last.next == if current + 1 < |chain| then chain[current + 1] else null
      ensures forall j | 0 <= j <= current :: chain[j] != last.next && (chain[j] == last <==> j == current)
    {
      assert Linked(chain, current);
      ChunksDiffer(chain, current);
      if current + 1 < |chain| {
        ChunksDiffer(chain, current + 1);
      }
    }
  }
}
