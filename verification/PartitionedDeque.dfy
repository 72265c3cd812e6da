/** PartitionedDeque (PartitionedDeque.hpp): a queue of chunks per partition, the partition taken
  from the upper bits of a hash. Pointers into a chunk are byte distances from its data. */
module PartitionedDeque {
  import opened Bits
  import opened Chunks

  /** A pointer k entries into a chunk. */
  lemma EntryAt(entrySize: nat, k: nat, current: nat)
    requires entrySize >= 1 && current == entrySize * k
    ensures current / entrySize == k
  {
    RemainderIsUnique(current, entrySize, k, 0);
  }

  /** When the last chunk is full, another may follow. */
  lemma FullContents<T>(datas: seq<seq<T>>, fill: nat, data: seq<T>)
    requires datas != [] && fill == |datas[|datas| - 1]|
    ensures Joined(datas, |datas| - 1) + datas[|datas| - 1][..fill] == Joined(datas + [data], |datas|) + data[..0]
  {
    JoinedFrame(datas, datas + [data], |datas|);
    assert datas[|datas| - 1][..fill] == datas[|datas| - 1];
  }

  /** The chunks of a chain, of one size, hold `datas`. */
  ghost predicate Backed<T>(chain: seq<Chunk<T>>, datas: seq<seq<T>>, size: nat)
    reads set j | 0 <= j < |chain| :: chain[j].data
  {
    |chain| == |datas| && forall j | 0 <= j < |chain| :: chain[j].data.Length == size && chain[j].data[..] == datas[j]
  }

  ghost predicate Within<T>(chain: seq<Chunk<T>>, repr: set<object>) {
    forall j | 0 <= j < |chain| :: chain[j] in repr && chain[j].data in repr
  }

  /** No other chunk shares the last one's memory. */
  ghost predicate LastIsAlone<T>(chain: seq<Chunk<T>>) {
    forall j | 0 <= j < |chain| - 1 :: chain[j] != chain[|chain| - 1] && chain[j].data != chain[|chain| - 1].data
  }

  lemma BackedGrows<T>(chain: seq<Chunk<T>>, datas: seq<seq<T>>, size: nat, repr: set<object>, created: Chunk<T>)
    requires Backed(chain, datas, size) && Within(chain, repr)
    requires created !in repr && created.data !in repr && created.data.Length == size
    ensures Backed(chain + [created], datas + [created.data[..]], size)
    ensures Within(chain + [created], repr + {created, created.data}) && LastIsAlone(chain + [created])
  {
  }

  class Partition<T(0)> {
    const chunkSize: nat
    var first: Chunk?<T>
    var last: Chunk?<T>
    var current: nat
    var end: nat
    ghost var chain: seq<Chunk<T>>
    ghost var datas: seq<seq<T>>
    ghost var repr: set<object>
    /** Entries in the last chunk, and everything pushed. */
    ghost var fill: nat
    ghost var contents: seq<T>

    ghost predicate Shape(entrySize: nat)
      reads this, repr
    {
      && this in repr && entrySize >= 1 && chunkSize >= 1
      && Within(chain, repr) && Backed(chain, datas, chunkSize) && LastIsAlone(chain) && IsChain(chain)
    }

    ghost predicate Stored(entrySize: nat)
      reads this, repr
    {
      && Shape(entrySize) && chain != []
      && first == chain[0] && last == chain[|chain| - 1]
      && fill <= chunkSize && current == entrySize * fill && end == entrySize * chunkSize
      && contents == Joined(datas, |chain| - 1) + datas[|chain| - 1][..fill]
    }

    ghost predicate Valid(entrySize: nat)
      reads this, repr
    {
      if chain == [] then Shape(entrySize) && first == null && last == null && contents == []
      else Stored(entrySize) && fill >= 1
    }

    lemma InItsRepr(entrySize: nat)
      requires Valid(entrySize)
      ensures this in repr
    {
    }

    constructor (chunkSize: nat, ghost entrySize: nat)
      requires chunkSize >= 1 && entrySize >= 1
      ensures Valid(entrySize) && contents == [] && fresh(repr) && this.chunkSize == chunkSize
    {
      this.chunkSize := chunkSize;
      first, last, current, end := null, null, 0, 0;
      chain, datas, fill, contents := [], [], 0, [];
      repr := {this};
    }

    /** The first chunk. */
    method Begin(entrySize: nat)
      requires Valid(entrySize) && chain == []
      modifies this
      ensures Stored(entrySize) && fill == 0 && contents == [] && fresh(repr - old(repr)) && old(repr) <= repr
    {
      hide IsChain;
      var data := new T[chunkSize];
      var created := new Chunk<T>(data);
      OneLink(created);
      first, last := created, created;
      current, end := 0, entrySize * chunkSize;
      chain, datas, fill := [created], [data[..]], 0;
      repr := repr + {created, data};
    }

    lemma LastIsFull(entrySize: nat)
      requires Stored(entrySize) && fill == chunkSize
      ensures datas != [] && |chain| == |datas| && fill == |datas[|datas| - 1]|
    {
    }

    /** A further chunk, behind the full last one. */
    method Extend(entrySize: nat)
      requires Stored(entrySize) && fill == chunkSize
      modifies this`last, this`current, this`end, this`chain, this`datas, this`fill, this`repr, last
      ensures Stored(entrySize) && fill == 0 && contents == old(contents)
      ensures fresh(repr - old(repr)) && old(repr) <= repr
    {
      hide IsChain, Joined;
      LastIsFull(entrySize);
      var created := NewBehind(chain, last, chunkSize);
      BackedGrows(chain, datas, chunkSize, repr, created);
      FullContents(datas, fill, created.data[..]);
      hide Backed, LastIsAlone, Within;
      last := created;
      current, end := 0, entrySize * chunkSize;
      chain, datas, fill := chain + [created], datas + [created.data[..]], 0;
      repr := repr + {created, created.data};
    }

    /** memcpy(current, element, entrySize) */
    method Append(entrySize: nat, x: T)
      requires Stored(entrySize) && fill < chunkSize
      modifies this, last.data
      ensures Valid(entrySize) && contents == old(contents) + [x] && repr == old(repr)
    {
      hide IsChain, Joined;
      EntryAt(entrySize, fill, current);
      ghost var n := |chain| - 1;
      ghost var datas' := datas[n := datas[n][fill := x]];
      JoinedFrame(datas, datas', n);
      assert datas'[n][..fill + 1] == datas[n][..fill] + [x];
      last.data[current / entrySize] := x;
      assert chain[n].data[..] == datas'[n];
      current := current + entrySize;
      datas, contents, fill := datas', contents + [x], fill + 1;
    }

    method PushBack(entrySize: nat, x: T)
      requires Valid(entrySize)
      modifies repr
      ensures Valid(entrySize) && contents == old(contents) + [x]
      ensures fresh(repr - old(repr)) && old(repr) <= repr
    {
      hide IsChain, Joined;
      if first == null {
        Begin(entrySize);
      }
      FullAtEnd(entrySize);
      if current == end {
        Extend(entrySize);
      }
      Append(entrySize, x);
    }

    lemma FullAtEnd(entrySize: nat)
      requires Stored(entrySize)
      ensures current == end <==> fill == chunkSize
    {
      ProductStep(entrySize, fill, chunkSize);
    }

    /** Entries in a chunk. */
    function Size(chunk: Chunk<T>, entrySize: nat): nat
      requires entrySize >= 1
      reads this
    {
      if chunk == last then current / entrySize else chunkSize
    }

    lemma ChunkContents(entrySize: nat, j: nat)
      requires Stored(entrySize) && j < |chain|
      ensures Size(chain[j], entrySize) <= chain[j].data.Length
      ensures |datas| == |chain| && fill <= |datas[|chain| - 1]|
      ensures chain[j].data[..Size(chain[j], entrySize)] == if j == |chain| - 1 then datas[j][..fill] else datas[j]
    {
      EntryAt(entrySize, fill, current);
    }

    /** Reads chunk after chunk, as much of each as `size` says. */
    method Read(entrySize: nat) returns (out: seq<T>)
      requires Valid(entrySize)
      ensures out == contents
    {
      out := [];
      var chunk := first;
      ghost var j: nat := 0;
      while chunk != null
        invariant j <= |chain| && chunk == if j < |chain| then chain[j] else null
        invariant out == if j < |chain| then Joined(datas, j) else contents
        decreases |chain| - j
      {
        hide Size, Backed, Within, LastIsAlone;
        assert Linked(chain, j);
        ChunkContents(entrySize, j);
        out := out + chunk.data[..Size(chunk, entrySize)];
        chunk := chunk.next;
        j := j + 1;
      }
    }
  }

  // -------------------------------------------------------------------- The partitions

  /** The elements pushed with a hash of partition p, in order. */
  function Routed<T>(log: seq<(nat, T)>, shift: nat, p: nat): seq<T> {
    if log == [] then [] else
      var (hash, x) := log[|log| - 1];
      Routed(log[..|log| - 1], shift, p) + if ShiftRight(hash, shift) == p then [x] else []
  }

  function Pushed<T(==)>(log: seq<(nat, T)>): multiset<T> {
    if log == [] then multiset{} else Pushed(log[..|log| - 1]) + multiset{log[|log| - 1].1}
  }

  /** What the first n partitions hold together. */
  function Gathered<T(==)>(log: seq<(nat, T)>, shift: nat, n: nat): multiset<T>
    decreases n
  {
    if n == 0 then multiset{} else Gathered(log, shift, n - 1) + multiset(Routed(log, shift, n - 1))
  }

  /** The elements whose hashes have p in front of the lower `shift` bits. */
  lemma {:induction false} RoutedByQuotient<T>(log: seq<(nat, T)>, shift: nat, p: nat)
    ensures log == [] ==> Routed(log, shift, p) == []
    ensures log != [] ==>
      var (hash, x) := log[|log| - 1];
      Routed(log, shift, p) == Routed(log[..|log| - 1], shift, p) + if hash / Pow2(shift) == p then [x] else []
  {
    if log != [] {
      ShiftRightIsQuotient(log[|log| - 1].0, shift);
    }
  }

  lemma RoutedPush<T>(log: seq<(nat, T)>, shift: nat, p: nat, hash: nat, x: T)
    ensures Routed(log + [(hash, x)], shift, p) == Routed(log, shift, p) + if ShiftRight(hash, shift) == p then [x] else []
  {
    assert (log + [(hash, x)])[..|log|] == log;
  }

  lemma Regroup<T>(a: multiset<T>, b: multiset<T>, c: multiset<T>)
    ensures (a + c) + b == (a + b) + c && a + (b + c) == (a + b) + c
  {
  }

  lemma RoutedBag<T>(log: seq<(nat, T)>, shift: nat, p: nat, hash: nat, x: T)
    ensures multiset(Routed(log + [(hash, x)], shift, p))
         == multiset(Routed(log, shift, p)) + if ShiftRight(hash, shift) == p then multiset{x} else multiset{}
  {
    RoutedPush(log, shift, p, hash, x);
  }

  lemma {:induction false} PushGathered<T>(log: seq<(nat, T)>, shift: nat, n: nat, hash: nat, x: T)
    ensures Gathered(log + [(hash, x)], shift, n)
         == Gathered(log, shift, n) + if ShiftRight(hash, shift) < n then multiset{x} else multiset{}
    decreases n
  {
    hide Routed;
    if n > 0 {
      PushGathered(log, shift, n - 1, hash, x);
      RoutedBag(log, shift, n - 1, hash, x);
      Regroup(Gathered(log, shift, n - 1), multiset(Routed(log, shift, n - 1)), multiset{x});
    }
  }

  lemma {:induction false} AllGathered<T>(log: seq<(nat, T)>, shift: nat, n: nat)
    requires forall i | 0 <= i < |log| :: ShiftRight(log[i].0, shift) < n
    ensures Gathered(log, shift, n) == Pushed(log)
    decreases |log|
  {
    hide Routed, Gathered;
    if log == [] {
      NothingGathered(log, shift, n);
    } else {
      var front := log[..|log| - 1];
      var (hash, x) := log[|log| - 1];
      AllGathered(front, shift, n);
      PushGathered(front, shift, n, hash, x);
      assert log == front + [(hash, x)];
    }
  }

  /** The partitions together hold what was pushed, each element once. */
  lemma NothingIsLost<T>(log: seq<(nat, T)>, shift: nat, bits: nat)
    requires forall i | 0 <= i < |log| :: log[i].0 < Pow2(shift + bits)
    ensures Gathered(log, shift, Pow2(bits)) == Pushed(log)
  {
    forall i | 0 <= i < |log|
      ensures ShiftRight(log[i].0, shift) < Pow2(bits)
    {
      ShiftRightBound(log[i].0, shift, bits);
    }
    AllGathered(log, shift, Pow2(bits));
  }

  lemma {:induction false} NothingGathered<T>(log: seq<(nat, T)>, shift: nat, n: nat)
    requires log == []
    ensures Gathered(log, shift, n) == multiset{}
    decreases n
  {
    if n > 0 {
      NothingGathered(log, shift, n - 1);
    }
  }

  class PartitionedDeque<T(0)> {
    const entrySize: nat
    const shift: nat
    var partitions: seq<Partition<T>>
    /** The width of hash_t. */
    const hashBits: nat
    /** The pushes in order. */
    ghost var log: seq<(nat, T)>

    ghost predicate Apart()
      reads this, partitions
    {
      forall p, q | 0 <= p < q < |partitions| :: partitions[p].repr !! partitions[q].repr
    }

    ghost predicate Holds(p: nat)
      requires p < |partitions|
      reads this, partitions[p], partitions[p].repr
    {
      partitions[p].Valid(entrySize) && partitions[p].contents == Routed(log, shift, p) && this !in partitions[p].repr
    }

    ghost predicate Valid()
      reads this, partitions, set p, o | p in partitions && o in p.repr :: o
    {
      && shift <= hashBits && |partitions| == Pow2(hashBits - shift)
      && (forall i | 0 <= i < |log| :: log[i].0 < Pow2(hashBits))
      && Apart() && forall p | 0 <= p < |partitions| :: Holds(p)
    }

    /** postConstruct. The partitions number the power of two above `nrPartitions`, and the shift
      leaves just as many bits of a hash. */
    constructor (nrPartitions: nat, entrySize: nat, chunkSize: nat, hashBits: nat)
      requires 0 < nrPartitions && BitLength(nrPartitions) <= hashBits <= 64
      requires entrySize >= 1 && chunkSize >= 1
      ensures Valid() && log == [] && this.entrySize == entrySize && this.hashBits == hashBits
      ensures |partitions| == Pow2(BitLength(nrPartitions)) > nrPartitions
      ensures forall p | 0 <= p < |partitions| :: fresh(partitions[p]) && fresh(partitions[p].repr)
    {
      var leadingZeros := 64 - BitLength(nrPartitions);
      hide Partition.Valid;
      this.entrySize, this.shift, this.hashBits := entrySize, leadingZeros - (64 - hashBits), hashBits;
      log, partitions := [], [];
      new;
      BitLengthBounds(nrPartitions);
      var created: seq<Partition<T>> := [];
      for n := 0 to Pow2(64 - leadingZeros)
        modifies {}
        invariant |created| == n
        invariant forall p | 0 <= p < n :: fresh(created[p]) && fresh(created[p].repr) && this !in created[p].repr
        invariant forall p | 0 <= p < n :: created[p].Valid(entrySize) && created[p].contents == []
        invariant forall p, q | 0 <= p < q < n :: created[p].repr !! created[q].repr
      {
        var partition := new Partition<T>(chunkSize, entrySize);
        created := created + [partition];
      }
      partitions := created;
    }

    /** hash >> shift is always the number of a partition. */
    function Position(hash: nat): (p: nat)
      requires shift <= hashBits && |partitions| == Pow2(hashBits - shift) && hash < Pow2(hashBits)
      reads this
      ensures p < |partitions| && p == hash / Pow2(shift)
    {
      ShiftRightBound(hash, shift, hashBits - shift);
      ShiftRightIsQuotient(hash, shift);
      ShiftRight(hash, shift)
    }

    method PushBack(x: T, hash: nat)
      requires Valid() && hash < Pow2(hashBits)
      modifies this`log, partitions[Position(hash)].repr
      ensures Valid() && log == old(log) + [(hash, x)]
    {
      hide Partition.Valid, Routed;
      var p := Position(hash);
      assert Holds(p);
      forall q | 0 <= q < |partitions|
        ensures partitions[q] in partitions[q].repr
      {
        assert Holds(q);
        partitions[q].InItsRepr(entrySize);
      }
      assert forall q | 0 <= q < |partitions| && q != p :: partitions[q].repr !! partitions[p].repr;
      partitions[p].PushBack(entrySize, x);
      forall q | 0 <= q < |partitions| && q != p
        ensures Holds(q) && partitions[q].repr == old(partitions[q].repr)
      {
        assert old(Holds(q)) && partitions[q] !in old(partitions[p].repr);
        assert unchanged(partitions[q], partitions[q].repr);
      }
      ghost var log' := log + [(hash, x)];
      forall q | 0 <= q < |partitions|
        ensures partitions[q].contents == Routed(log', shift, q)
      {
        RoutedPush(log, shift, q, hash, x);
      }
      log := log';
    }

    /** Every partition's pushes in order. */
    method ReadAll() returns (out: seq<seq<T>>)
      requires Valid()
      ensures |out| == |partitions| && forall p | 0 <= p < |out| :: out[p] == Routed(log, shift, p)
    {
      out := [];
      for n := 0 to |partitions|
        invariant |out| == n && forall p | 0 <= p < n :: out[p] == Routed(log, shift, p)
      {
        assert Holds(n);
        var part := partitions[n].Read(entrySize);
        out := out + [part];
      }
    }
  }
}
