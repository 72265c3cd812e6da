/** Linked chunks of memory, as the runtime's containers keep them. */
module Chunks {

  class Chunk<T> {
    var next: Chunk?<T>
    const data: array<T>

    constructor (data: array<T>)
      ensures next == null && this.data == data
    {
      next := null;
      this.data := data;
    }
  }

  ghost predicate Linked<T>(chain: seq<Chunk<T>>, j: nat)
    requires j < |chain|
    reads chain
  {
    chain[j].next == if j + 1 < |chain| then chain[j + 1] else null
  }

  /** Each chunk of the chain leads to the next, the last to none. */
  ghost predicate IsChain<T>(chain: seq<Chunk<T>>)
    reads chain
  {
    forall j | 0 <= j < |chain| :: Linked(chain, j)
  }

  /** What the first n chunks hold, one after the other. */
  ghost function Joined<T>(datas: seq<seq<T>>, n: nat): seq<T>
    requires n <= |datas|
  {
    if n == 0 then [] else Joined(datas, n - 1) + datas[n - 1]
  }

  /** Chunks from n on do not matter. */
  lemma {:induction false} JoinedFrame<T>(datas: seq<seq<T>>, other: seq<seq<T>>, n: nat)
    requires n <= |datas| && n <= |other| && datas[..n] == other[..n]
    ensures Joined(datas, n) == Joined(other, n)
  {
    if n > 0 {
      assert datas[..n - 1] == datas[..n][..n - 1] == other[..n - 1];
      assert datas[n - 1] == datas[..n][n - 1] == other[..n][n - 1];
      JoinedFrame(datas, other, n - 1);
    }
  }

  lemma OneLink<T>(chunk: Chunk<T>)
    requires chunk.next == null
    ensures IsChain([chunk])
  {
  }

  /** Links a new chunk behind the last one of a chain that visits that one once. */
  method LinkBehind<T>(ghost chain: seq<Chunk<T>>, prev: Chunk<T>, chunk: Chunk<T>)
    requires IsChain(chain) && chain != [] && prev == chain[|chain| - 1]
    requires forall j | 0 <= j < |chain| - 1 :: chain[j] != prev
    requires chunk.next == null && chunk !in chain
    modifies prev
    ensures IsChain(chain + [chunk])
  {
    ghost var grown := chain + [chunk];
    forall j | 0 <= j < |chain| - 1
      ensures chain[j].next == chain[j + 1]
    {
      assert Linked(chain, j) && grown[j] == chain[j];
    }
    prev.next := chunk;
    forall j | 0 <= j < |grown|
      ensures Linked(grown, j)
    {
      assert grown[j] == if j < |chain| then chain[j] else chunk;
    }
  }

  /** Allocates that chunk. */
  method NewBehind<T(0)>(ghost chain: seq<Chunk<T>>, prev: Chunk<T>, chunkSize: nat) returns (created: Chunk<T>)
    requires IsChain(chain) && chain != [] && prev == chain[|chain| - 1]
    requires forall j | 0 <= j < |chain| - 1 :: chain[j] != prev
    modifies prev
    ensures fresh(created) && fresh(created.data) && created.data.Length == chunkSize
    ensures IsChain(chain + [created])
  {
    var data := new T[chunkSize];
    created := new Chunk<T>(data);
    LinkBehind(chain, prev, created);
  }
}
