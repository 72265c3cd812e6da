/** The lock-free bump allocator GlobalPool (MemoryPool.cpp) as a transition system.

  Any number of threads run `allocate`. Every load, compare-exchange, store and
  lock operation on a shared word is one atomic step; steps of different threads
  interleave freely and a compare-exchange may fail spuriously. Addresses are
  unbounded naturals; the memory the system hands to `newChunk` overlaps no chunk
  handed out before (no chunk is unmapped while the pool lives). */
module GlobalPool {
  import opened Common

  // sizeof(Chunk): the link and the size that precede the data of a chunk.
  const HEADER: nat := 16

  datatype Chunk = Chunk(addr: nat, size: nat) {
    function Data(): nat { addr + HEADER }
    function End(): nat { addr + HEADER + size }

    predicate Below(other: Chunk) { End() <= other.addr }
    predicate Apart(other: Chunk) { Below(other) || other.Below(this) }
  }

  datatype Block = Block(addr: nat, size: nat) {
    predicate Within(c: Chunk) { c.Data() <= addr && addr + size <= c.End() }
    predicate Apart(other: Block) { addr + size <= other.addr || other.addr + other.size <= addr }
  }

  /** Where a thread stands inside `allocate`; `s` and `e` are its locals start_ and end_. Outside,
    it has not called yet or holds the address its last call returned. */
  datatype PC =
    | Idle
    | Returned(alloc: nat)
    | LoadStart(size: nat)
    | LoadEnd(size: nat, s: nat)
    | TryCas(size: nat, s: nat)
    | AwaitLock(size: nat)
    | RecheckStart(size: nat)
    | RecheckEnd(size: nat, s: nat)
    | Restart(size: nat)
    | DrainLoad(size: nat, s: nat)
    | DrainCas(size: nat, s: nat, e: nat)
    | Grow(size: nat)
    | FirstStore(size: nat)
    | SecondStore(size: nat)
    | Publish(size: nat)
    | Unlock(size: nat, s: nat)
  {
    predicate Outside() { Idle? || Returned? }

    predicate HoldsLock() {
      RecheckStart? || RecheckEnd? || Restart? || DrainLoad? || DrainCas? || Grow?
      || FirstStore? || SecondStore? || Publish? || Unlock?
    }
  }

  /** `start`, `end`, `current`, `allocSize` and the mutex are the fields of the source;
    `chunks` (oldest first) and `blocks` (every block handed out) record the history. */
  datatype Pool = Pool(
    start: nat,
    end: nat,
    current: Chunk,
    allocSize: nat,
    holder: Option<nat>,
    threads: seq<PC>,
    chunks: seq<Chunk>,
    blocks: seq<Block>)

  /** What a step leaves to chance: the request of a new call, the address of a new
    chunk, and whether a compare-exchange fails although the values agree. */
  datatype Choice = Choice(size: nat, addr: nat, spurious: bool)

  function Max(a: nat, b: nat): nat { if a < b then b else a }

  function Last(v: Pool): Chunk
    requires v.chunks != []
  {
    v.chunks[|v.chunks| - 1]
  }

  ghost predicate Fresh(v: Pool, c: Chunk) {
    forall k | 0 <= k < |v.chunks| :: v.chunks[k].Apart(c)
  }

  ghost predicate Enabled(v: Pool, t: nat, c: Choice) {
    t < |v.threads| && v.chunks != []
    && match v.threads[t]
       case AwaitLock(size) => v.holder.None?
       case Grow(size) => Fresh(v, Chunk(c.addr, Max(v.allocSize * 2, size)))
       case _ => true
  }

  function At(v: Pool, t: nat, pc: PC): Pool
    requires t < |v.threads|
  {
    v.(threads := v.threads[t := pc])
  }

  /** One atomic step of thread `t`. */
  function Step(v: Pool, t: nat, c: Choice): Pool
    requires t < |v.threads| && v.chunks != []
  {
    match v.threads[t]
    case Idle => At(v, t, LoadStart(c.size))
    case Returned(_) => At(v, t, LoadStart(c.size))
    case LoadStart(size) => At(v, t, LoadEnd(size, v.start))
    case LoadEnd(size, s) => At(v, t, if s + size >= v.end then AwaitLock(size) else TryCas(size, s))
    case TryCas(size, s) =>
      if v.start == s && !c.spurious then
        At(v, t, Returned(s)).(start := s + size, blocks := v.blocks + [Block(s, size)])
      else
        At(v, t, LoadStart(size))
    case AwaitLock(size) => At(v, t, RecheckStart(size)).(holder := Some(t))
    case RecheckStart(size) => At(v, t, RecheckEnd(size, v.start))
    case RecheckEnd(size, s) => At(v, t, if s + size >= v.end then DrainLoad(size, s) else Restart(size))
    case Restart(size) => At(v, t, LoadStart(size)).(holder := None)
    case DrainLoad(size, s) => At(v, t, DrainCas(size, s, v.end))
    case DrainCas(size, s, e) =>
      if v.start == s && !c.spurious then
        At(v, t, Grow(size)).(start := e)
      else
        At(v, t, DrainLoad(size, v.start))
    case Grow(size) =>
      var grown := Max(v.allocSize * 2, size);
      At(v, t, FirstStore(size)).(allocSize := grown, chunks := v.chunks + [Chunk(c.addr, grown)])
    case FirstStore(size) =>
      if Last(v).addr < v.current.addr then
        At(v, t, SecondStore(size)).(end := Last(v).End())
      else
        At(v, t, SecondStore(size)).(start := Last(v).Data())
    case SecondStore(size) =>
      if Last(v).addr < v.current.addr then
        At(v, t, Publish(size)).(start := Last(v).Data())
      else
        At(v, t, Publish(size)).(end := Last(v).End())
    case Publish(size) => At(v, t, Unlock(size, Last(v).Data())).(current := Last(v))
    case Unlock(size, s) => At(v, t, TryCas(size, s)).(holder := None)
  }

  ghost predicate Next(v: Pool, v': Pool) {
    exists t: nat, c: Choice :: Enabled(v, t, c) && v' == Step(v, t, c)
  }

  /** The pool as its constructor leaves it: one chunk, all of it available. */
  ghost predicate Init(v: Pool) {
    && |v.chunks| == 1
    && v.current == v.chunks[0]
    && v.allocSize == v.chunks[0].size
    && v.start == v.current.Data()
    && v.end == v.current.End()
    && v.holder == None
    && v.blocks == []
    && forall t | 0 <= t < |v.threads| :: v.threads[t] == Idle
  }

  ghost predicate Follows(run: seq<Pool>, i: nat)
    requires 0 < i < |run|
  {
    Next(run[i - 1], run[i])
  }

  ghost predicate IsRun(run: seq<Pool>) {
    run != [] && Init(run[0]) && forall i | 0 < i < |run| :: Follows(run, i)
  }

  // -------------------------------------------------------------------- Invariant

  /** Index of the chunk `start` points into. */
  function StartChunk(v: Pool): int {
    match v.holder
    case None => |v.chunks| - 1
    case Some(h) =>
      if h < |v.threads| && |v.chunks| >= 2 && OldStart(v, v.threads[h]) then |v.chunks| - 2 else |v.chunks| - 1
  }

  predicate OldStart(v: Pool, pc: PC)
    requires v.chunks != []
  {
    pc.FirstStore? || (pc.SecondStore? && Last(v).addr < v.current.addr)
  }

  /** A value `start` has held: it lies in an older chunk, or in the present one and not beyond `start`. */
  ghost predicate Seen(v: Pool, s: nat) {
    exists k :: 0 <= k <= StartChunk(v) && SeenIn(v, k, s)
  }

  ghost predicate SeenIn(v: Pool, k: int, s: nat)
    requires 0 <= k <= StartChunk(v)
  {
    v.chunks[k].Data() <= s <= v.chunks[k].End() && (k == StartChunk(v) ==> s <= v.start)
  }

  ghost predicate ChunksApart(v: Pool) {
    forall i, j | 0 <= i < j < |v.chunks| :: v.chunks[i].Apart(v.chunks[j])
  }

  ghost predicate LockInv(v: Pool) {
    && (v.holder.Some? ==> v.holder.value < |v.threads|)
    && forall t | 0 <= t < |v.threads| :: v.threads[t].HoldsLock() <==> v.holder == Some(t)
  }

  predicate InTransit(pc: PC) { pc.FirstStore? || pc.SecondStore? || pc.Publish? }

  ghost predicate WordsInv(v: Pool)
    requires v.chunks != [] && LockInv(v)
  {
    var transit := v.holder.Some? && InTransit(v.threads[v.holder.value]);
    && (if transit then |v.chunks| >= 2 && v.current == v.chunks[|v.chunks| - 2] else v.current == Last(v))
    && 0 <= StartChunk(v)
    && v.chunks[StartChunk(v)].Data() <= v.start <= v.chunks[StartChunk(v)].End()
    && (v.holder.None? ==> v.end == Last(v).End())
    && (v.holder.Some? ==>
          match v.threads[v.holder.value]
          case Grow(size) => v.start == v.end == Last(v).End()
          case FirstStore(size) => v.start == v.end == v.current.End() && size <= Last(v).size
          case SecondStore(size) =>
            && size <= Last(v).size
            && (if Last(v).addr < v.current.addr
                then v.start == v.current.End() && v.end == Last(v).End()
                else v.end == v.current.End())
          case Publish(size) => v.end == Last(v).End() && size <= Last(v).size
          case DrainCas(size, s, e) => v.end == Last(v).End() && e == v.end
          case _ => v.end == Last(v).End())
  }

  /** A block a thread is about to claim fits, provided `start` still has the value it read. */
  ghost predicate Claimable(v: Pool, s: nat, size: nat) {
    0 <= StartChunk(v) && Seen(v, s) && (v.start == s ==> s + size <= v.chunks[StartChunk(v)].End())
  }

  ghost predicate ThreadInv(v: Pool, pc: PC) {
    match pc
    case LoadEnd(size, s) => Seen(v, s)
    case TryCas(size, s) => Claimable(v, s, size)
    case Unlock(size, s) => Claimable(v, s, size)
    case _ => true
  }

  ghost predicate ThreadsInv(v: Pool) {
    forall t | 0 <= t < |v.threads| :: ThreadInv(v, v.threads[t])
  }

  /** The block lies in a chunk that `start` has passed, wholly before `start`. */
  ghost predicate Settled(v: Pool, k: int, b: Block) {
    0 <= k <= StartChunk(v) && k < |v.chunks| && b.Within(v.chunks[k]) && (k == StartChunk(v) ==> b.addr + b.size <= v.start)
  }

  ghost predicate BlockInv(v: Pool, b: Block) { exists k :: Settled(v, k, b) }

  ghost predicate BlocksApart(v: Pool) {
    forall i, j | 0 <= i < j < |v.blocks| :: v.blocks[i].Apart(v.blocks[j])
  }

  ghost predicate Inv(v: Pool) {
    && v.chunks != []
    && ChunksApart(v)
    && LockInv(v)
    && WordsInv(v)
    && ThreadsInv(v)
    && (forall i | 0 <= i < |v.blocks| :: BlockInv(v, v.blocks[i]))
    && BlocksApart(v)
  }

  // ------------------------------------------------------------------------ Proofs

  /** `start` never comes back to a value of an earlier chunk: a chunk's header keeps its data
    area away from the end of every other chunk. */
  lemma StartNeverRepeats(v: Pool, a: int, b: int, s: nat)
    requires ChunksApart(v)
    requires 0 <= a < |v.chunks| && 0 <= b < |v.chunks|
    requires v.chunks[a].Data() <= s <= v.chunks[a].End()
    requires v.chunks[b].Data() <= s <= v.chunks[b].End()
    ensures a == b
  {
    assert a < b ==> v.chunks[a].Apart(v.chunks[b]);
    assert b < a ==> v.chunks[b].Apart(v.chunks[a]);
  }

  /** The words move forward: same or later chunk, and within one chunk `start` never decreases.
    Values seen, blocks settled and claims made before stay so. */
  ghost predicate Forward(v: Pool, v': Pool) {
    && v.chunks <= v'.chunks
    && 0 <= StartChunk(v) <= StartChunk(v') < |v'.chunks|
    && StartChunk(v) < |v.chunks|
    && v.chunks[StartChunk(v)].Data() <= v.start <= v.chunks[StartChunk(v)].End()
    && v'.chunks[StartChunk(v')].Data() <= v'.start <= v'.chunks[StartChunk(v')].End()
    && (StartChunk(v) == StartChunk(v') ==> v.start <= v'.start)
  }

  lemma ForwardSeen(v: Pool, v': Pool, s: nat)
    requires Forward(v, v') && Seen(v, s)
    ensures Seen(v', s)
  {
    var k :| 0 <= k <= StartChunk(v) && SeenIn(v, k, s);
    assert SeenIn(v', k, s);
  }

  lemma ForwardClaim(v: Pool, v': Pool, s: nat, size: nat)
    requires Forward(v, v') && ChunksApart(v') && Claimable(v, s, size)
    ensures Claimable(v', s, size)
  {
    ForwardSeen(v, v', s);
    if v'.start == s {
      var k :| 0 <= k <= StartChunk(v) && SeenIn(v, k, s);
      StartNeverRepeats(v', k, StartChunk(v'), s);
    }
  }

  lemma ForwardBlock(v: Pool, v': Pool, b: Block)
    requires Forward(v, v') && BlockInv(v, b)
    ensures BlockInv(v', b)
  {
    var k :| Settled(v, k, b);
    assert Settled(v', k, b);
  }

  /** A snapshot (`s` read earlier, `end` read now) that passes the availability check cannot be
    turned into a block outside the chunk: either it is consistent or the exchange will fail. */
  lemma MixedSnapshotIsHarmless(v: Pool, s: nat, size: nat)
    requires Inv(v) && Seen(v, s) && s + size < v.end
    ensures Claimable(v, s, size)
  {
    if v.start == s && v.holder.Some? && |v.chunks| >= 2 {
      assert v.chunks[|v.chunks| - 2].Apart(v.chunks[|v.chunks| - 1]);
    }
  }

  lemma CurrentIsSeen(v: Pool)
    requires Inv(v)
    ensures Seen(v, v.start)
  {
    assert SeenIn(v, StartChunk(v), v.start);
  }

  /** Steps that change no shared word: loads, checks, and failed exchanges. */
  predicate Quiet(v: Pool, t: nat, c: Choice)
    requires t < |v.threads|
  {
    match v.threads[t]
    case TryCas(size, s) => v.start != s || c.spurious
    case DrainCas(size, s, e) => v.start != s || c.spurious
    case Grow(_) => false
    case FirstStore(_) => false
    case SecondStore(_) => false
    case Publish(_) => false
    case _ => true
  }

  ghost predicate Words(v: Pool, v': Pool) {
    v'.chunks != [] && LockInv(v') && WordsInv(v') && Forward(v, v')
  }

  /** Whoever holds the lock, the words keep their relation to the chunks when nothing but a
    program counter changes. */
  lemma QuietForward(v: Pool, t: nat, c: Choice)
    requires Inv(v) && Enabled(v, t, c) && Quiet(v, t, c) && LockInv(Step(v, t, c))
    ensures Words(v, Step(v, t, c))
  {
    assert v.threads[t].HoldsLock() <==> v.holder == Some(t);
    if v.holder == Some(t) {
      QuietHolder(v, t, c);
    } else {
      QuietOther(v, t, c);
    }
  }

  lemma QuietHolder(v: Pool, t: nat, c: Choice)
    requires Inv(v) && Enabled(v, t, c) && Quiet(v, t, c) && LockInv(Step(v, t, c)) && v.holder == Some(t)
    ensures Words(v, Step(v, t, c))
  {
    assert v.threads[t].HoldsLock();
  }

  lemma QuietOther(v: Pool, t: nat, c: Choice)
    requires Inv(v) && Enabled(v, t, c) && Quiet(v, t, c) && LockInv(Step(v, t, c)) && v.holder != Some(t)
    ensures Words(v, Step(v, t, c))
  {
    hide ThreadsInv, BlockInv, BlocksApart;
    var v' := Step(v, t, c);
    assert !v.threads[t].HoldsLock();
    assert v'.start == v.start && v'.end == v.end && v'.chunks == v.chunks && v'.current == v.current;
    if v.holder.Some? {
      assert v'.holder == v.holder && v'.threads[v.holder.value] == v.threads[v.holder.value];
    }
  }

  lemma ClaimForward(v: Pool, t: nat, c: Choice)
    requires Inv(v) && Enabled(v, t, c) && v.threads[t].TryCas? && !Quiet(v, t, c) && LockInv(Step(v, t, c))
    ensures Words(v, Step(v, t, c))
  {
    var v' := Step(v, t, c);
    var s := v.start;
    assert ThreadInv(v, v.threads[t]);
    assert v.threads[t].HoldsLock() <==> v.holder == Some(t);
    if v.holder.Some? {
      var h := v.holder.value;
      assert v'.threads[h] == v.threads[h];
      if v.threads[h].FirstStore? || v.threads[h].SecondStore? || v.threads[h].Grow? {
        assert v.threads[t].size == 0 || StartChunk(v) == |v.chunks| - 1;
      }
    }
  }

  lemma RefillForward(v: Pool, t: nat, c: Choice)
    requires Inv(v) && Enabled(v, t, c) && v.threads[t].HoldsLock() && !Quiet(v, t, c)
    requires LockInv(Step(v, t, c)) && ChunksApart(Step(v, t, c))
    ensures Words(v, Step(v, t, c))
  {
    hide ThreadsInv, BlockInv, BlocksApart, Fresh, Seen;
    var v' := Step(v, t, c);
    assert v.threads[t].HoldsLock() <==> v.holder == Some(t);
    assert v'.holder == v.holder;
    if |v'.chunks| >= 2 {
      assert v'.chunks[|v'.chunks| - 2].Apart(v'.chunks[|v'.chunks| - 1]);
    }
  }

  lemma StepForward(v: Pool, t: nat, c: Choice)
    requires Inv(v) && Enabled(v, t, c)
    ensures ChunksApart(Step(v, t, c)) && Words(v, Step(v, t, c))
  {
    StepLock(v, t, c);
    StepChunks(v, t, c);
    if Quiet(v, t, c) {
      QuietForward(v, t, c);
    } else if v.threads[t].TryCas? {
      ClaimForward(v, t, c);
    } else {
      RefillForward(v, t, c);
    }
  }

  lemma StepLock(v: Pool, t: nat, c: Choice)
    requires Inv(v) && Enabled(v, t, c)
    ensures LockInv(Step(v, t, c))
  {
    hide ThreadsInv, BlockInv, BlocksApart, WordsInv, ChunksApart, Fresh;
    var v' := Step(v, t, c);
    forall u | 0 <= u < |v'.threads|
      ensures v'.threads[u].HoldsLock() <==> v'.holder == Some(u)
    {
      assert v.threads[u].HoldsLock() <==> v.holder == Some(u);
      assert u != t ==> v'.threads[u] == v.threads[u];
    }
  }

  lemma StepChunks(v: Pool, t: nat, c: Choice)
    requires Inv(v) && Enabled(v, t, c)
    ensures ChunksApart(Step(v, t, c))
  {
  }

  /** What an idle thread knows stays true while others move the words forward. */
  lemma KeepThread(v: Pool, v': Pool, pc: PC)
    requires Forward(v, v') && ChunksApart(v') && ThreadInv(v, pc)
    ensures ThreadInv(v', pc)
  {
    match pc
    case LoadEnd(size, s) => ForwardSeen(v, v', s);
    case TryCas(size, s) => ForwardClaim(v, v', s, size);
    case Unlock(size, s) => ForwardClaim(v, v', s, size);
    case _ =>
  }

  lemma PublishThread(v: Pool, t: nat, c: Choice)
    requires Inv(v) && Enabled(v, t, c) && v.threads[t].Publish?
    requires LockInv(Step(v, t, c)) && WordsInv(Step(v, t, c))
    ensures Claimable(Step(v, t, c), Last(v).Data(), v.threads[t].size)
  {
    var v' := Step(v, t, c);
    assert v.threads[t].HoldsLock() <==> v.holder == Some(t);
    assert StartChunk(v') == |v.chunks| - 1;
    assert SeenIn(v', StartChunk(v'), Last(v).Data());
  }

  lemma CheckThread(v: Pool, t: nat, c: Choice)
    requires Inv(v) && Enabled(v, t, c) && v.threads[t].LoadEnd?
    requires Forward(v, Step(v, t, c)) && ChunksApart(Step(v, t, c))
    ensures ThreadInv(Step(v, t, c), Step(v, t, c).threads[t])
  {
    var size, s := v.threads[t].size, v.threads[t].s;
    assert ThreadInv(v, v.threads[t]);
    if s + size < v.end {
      MixedSnapshotIsHarmless(v, s, size);
      ForwardClaim(v, Step(v, t, c), s, size);
    }
  }

  lemma LoadThread(v: Pool, t: nat, c: Choice)
    requires Inv(v) && Enabled(v, t, c) && v.threads[t].LoadStart?
    requires Forward(v, Step(v, t, c))
    ensures ThreadInv(Step(v, t, c), Step(v, t, c).threads[t])
  {
    CurrentIsSeen(v);
    ForwardSeen(v, Step(v, t, c), v.start);
  }

  lemma StepThread(v: Pool, t: nat, c: Choice)
    requires Inv(v) && Enabled(v, t, c) && ChunksApart(Step(v, t, c)) && Words(v, Step(v, t, c))
    ensures ThreadInv(Step(v, t, c), Step(v, t, c).threads[t])
  {
    hide Forward, WordsInv, LockInv, ChunksApart, BlockInv, BlocksApart, Claimable, Seen, Fresh;
    if v.threads[t].LoadStart? {
      LoadThread(v, t, c);
    } else if v.threads[t].LoadEnd? {
      CheckThread(v, t, c);
    } else if v.threads[t].Publish? {
      PublishThread(v, t, c);
    } else if v.threads[t].Unlock? {
      KeepThread(v, Step(v, t, c), v.threads[t]);
    }
  }

  lemma StepBlocks(v: Pool, t: nat, c: Choice)
    requires Inv(v) && Enabled(v, t, c) && Forward(v, Step(v, t, c))
    ensures var v' := Step(v, t, c);
      (forall i | 0 <= i < |v'.blocks| :: BlockInv(v', v'.blocks[i])) && BlocksApart(v')
  {
    var v' := Step(v, t, c);
    forall i | 0 <= i < |v.blocks|
      ensures BlockInv(v', v.blocks[i])
    {
      ForwardBlock(v, v', v.blocks[i]);
    }
    if |v'.blocks| > |v.blocks| {
      assert v.threads[t].TryCas? && ThreadInv(v, v.threads[t]);
      var b := Block(v.start, v.threads[t].size);
      assert v'.blocks == v.blocks + [b];
      assert Settled(v', StartChunk(v), b);
      forall i | 0 <= i < |v.blocks|
        ensures v.blocks[i].Apart(b)
      {
        var k :| Settled(v, k, v.blocks[i]);
        BlockApart(v, k, v.blocks[i], b);
      }
    }
  }

  lemma BlockApart(v: Pool, k: int, old_: Block, b: Block)
    requires ChunksApart(v) && Settled(v, k, old_) && 0 <= StartChunk(v) < |v.chunks|
    requires b.addr == v.start && b.Within(v.chunks[StartChunk(v)])
    ensures old_.Apart(b)
  {
    if k < StartChunk(v) {
      assert v.chunks[k].Apart(v.chunks[StartChunk(v)]);
    }
  }

  lemma KeepThreads(v: Pool, v': Pool, t: nat)
    requires Forward(v, v') && ChunksApart(v') && ThreadsInv(v)
    requires t < |v.threads| == |v'.threads| && ThreadInv(v', v'.threads[t])
    requires forall u | 0 <= u < |v.threads| && u != t :: v'.threads[u] == v.threads[u]
    ensures ThreadsInv(v')
  {
    forall u | 0 <= u < |v.threads| && u != t
      ensures ThreadInv(v', v'.threads[u])
    {
      KeepThread(v, v', v.threads[u]);
    }
  }

  lemma OthersStay(v: Pool, t: nat, c: Choice)
    requires Enabled(v, t, c)
    ensures |Step(v, t, c).threads| == |v.threads|
    ensures forall u | 0 <= u < |v.threads| && u != t :: Step(v, t, c).threads[u] == v.threads[u]
  {
  }

  /** Every step of every thread keeps the invariant. */
  lemma StepPreservesInv(v: Pool, t: nat, c: Choice)
    requires Inv(v) && Enabled(v, t, c)
    ensures Inv(Step(v, t, c))
  {
    StepForward(v, t, c);
    StepBlocks(v, t, c);
    StepThread(v, t, c);
    OthersStay(v, t, c);
    KeepThreads(v, Step(v, t, c), t);
  }

  lemma InitInv(v: Pool)
    requires Init(v)
    ensures Inv(v)
  {
  }

  lemma {:induction false} RunInv(run: seq<Pool>, i: nat)
    requires IsRun(run) && i < |run|
    ensures Inv(run[i])
  {
    hide Init, Inv, Fresh;
    if i == 0 {
      InitInv(run[0]);
    } else {
      RunInv(run, i - 1);
      assert Follows(run, i);
      var t, c :| Enabled(run[i - 1], t, c) && run[i] == Step(run[i - 1], t, c);
      StepPreservesInv(run[i - 1], t, c);
    }
  }

  lemma InvForward(v: Pool)
    requires Inv(v)
    ensures Forward(v, v) && ChunksApart(v)
  {
  }

  lemma ForwardChains(u: Pool, v: Pool, w: Pool)
    requires Forward(u, v) && Forward(v, w)
    ensures Forward(u, w)
  {
    hide StartChunk;
  }

  lemma {:induction false} RunForward(run: seq<Pool>, i: nat, j: nat)
    requires IsRun(run) && i <= j < |run|
    ensures Forward(run[i], run[j]) && ChunksApart(run[j])
    decreases j
  {
    hide Init, Inv, Fresh, Forward, ChunksApart, WordsInv, LockInv;
    RunInv(run, i);
    if i == j {
      InvForward(run[i]);
    } else {
      RunForward(run, i, j - 1);
      RunInv(run, j - 1);
      assert Follows(run, j);
      var t, c :| Enabled(run[j - 1], t, c) && run[j] == Step(run[j - 1], t, c);
      StepForward(run[j - 1], t, c);
      ForwardChains(run[i], run[j - 1], run[j]);
    }
  }

  /** Over a whole run `start` never comes back to a value it has left: a thread that finds the value
    it read earlier knows that the word has not moved in between. */
  lemma StartNeverComesBack(run: seq<Pool>, i: nat, k: nat, j: nat)
    requires IsRun(run) && i <= k <= j < |run| && run[i].start == run[j].start
    ensures run[k].start == run[i].start
  {
    RunForward(run, i, k);
    RunForward(run, k, j);
    StartNeverRepeats(run[j], StartChunk(run[i]), StartChunk(run[j]), run[j].start);
  }

  /** In every run, the blocks handed out so far are pairwise disjoint and each lies in the data
    area of one chunk. */
  lemma BlocksAreDisjointAndInsideOneChunk(run: seq<Pool>, i: nat)
    requires IsRun(run) && i < |run|
    ensures forall a, b | 0 <= a < b < |run[i].blocks| :: run[i].blocks[a].Apart(run[i].blocks[b])
    ensures forall a | 0 <= a < |run[i].blocks| ::
      exists k :: 0 <= k < |run[i].chunks| && run[i].blocks[a].Within(run[i].chunks[k])
  {
    RunInv(run, i);
    forall a | 0 <= a < |run[i].blocks|
      ensures exists k :: 0 <= k < |run[i].chunks| && run[i].blocks[a].Within(run[i].chunks[k])
    {
      assert BlockInv(run[i], run[i].blocks[a]);
      var k :| Settled(run[i], k, run[i].blocks[a]);
    }
  }

  // --------------------------------------------------------------------------- Whole calls

  /** At step j thread t calls allocate(n). */
  ghost predicate Requests(run: seq<Pool>, t: nat, j: nat, n: nat) {
    && j + 1 < |run| && t < |run[j].threads| && run[j].threads[t].Outside()
    && exists c: Choice :: Enabled(run[j], t, c) && c.size == n && run[j + 1] == Step(run[j], t, c)
  }

  ghost predicate Running(run: seq<Pool>, t: nat, k: nat)
    requires k < |run|
  {
    t < |run[k].threads| && !run[k].threads[t].Outside()
  }

  /** The call made at step j has returned at step i, and not before. */
  ghost predicate IsCall(run: seq<Pool>, t: nat, j: nat, i: nat, n: nat) {
    && j + 1 < i < |run| && Requests(run, t, j, n)
    && (forall k | j < k < i :: Running(run, t, k))
    && t < |run[i].threads| && run[i].threads[t].Outside()
  }

  /** Thread t made the step from run[k - 1] to run[k]. */
  ghost predicate Moves(run: seq<Pool>, k: nat, t: nat, c: Choice)
    requires 0 < k < |run|
  {
    Enabled(run[k - 1], t, c) && run[k] == Step(run[k - 1], t, c)
  }

  /** A thread's request stays the same until it returns; it returns by its claim, with the address
    where `start` was, and `start` moves on by the request. */
  lemma OwnStep(v: Pool, t: nat, c: Choice)
    requires Enabled(v, t, c) && !v.threads[t].Outside()
    ensures var v' := Step(v, t, c);
      && |v'.threads| == |v.threads|
      && if v'.threads[t].Outside() then
           && v'.threads[t] == Returned(v.start) && v'.start == v.start + v.threads[t].size
           && v'.blocks == v.blocks + [Block(v.start, v.threads[t].size)]
         else
           v'.threads[t].size == v.threads[t].size && v'.blocks == v.blocks
  {
  }

  lemma {:induction false} CallKeepsRequest(run: seq<Pool>, t: nat, j: nat, i: nat, n: nat, k: nat)
    requires IsRun(run) && IsCall(run, t, j, i, n) && j < k < i
    ensures Running(run, t, k) && run[k].threads[t].size == n
    decreases k
  {
    hide Init, Fresh;
    assert Running(run, t, k);
    if k > j + 1 {
      CallKeepsRequest(run, t, j, i, n, k - 1);
      assert Follows(run, k);
      var u, c :| Enabled(run[k - 1], u, c) && run[k] == Step(run[k - 1], u, c);
      if u == t {
        OwnStep(run[k - 1], t, c);
      } else {
        OthersStay(run[k - 1], u, c);
      }
    }
  }

  /** Every call of allocate(n) hands out one block of n bytes, at the address it returns. That is where
    `start` was when the call returned, and `start` moved on by n. */
  lemma CallHandsOutItsRequest(run: seq<Pool>, t: nat, j: nat, i: nat, n: nat)
    requires IsRun(run) && IsCall(run, t, j, i, n)
    ensures run[i].threads[t] == Returned(run[i - 1].start) && run[i].start == run[i - 1].start + n
    ensures run[i].blocks == run[i - 1].blocks + [Block(run[i].threads[t].alloc, n)]
  {
    hide Init, Fresh;
    CallKeepsRequest(run, t, j, i, n, i - 1);
    assert Follows(run, i);
    var u, c :| Enabled(run[i - 1], u, c) && run[i] == Step(run[i - 1], u, c);
    if u == t {
      OwnStep(run[i - 1], t, c);
    } else {
      OthersStay(run[i - 1], u, c);
    }
  }

  lemma StepKeepsBlocks(v: Pool, t: nat, c: Choice)
    requires Enabled(v, t, c)
    ensures v.blocks <= Step(v, t, c).blocks
  {
  }

  lemma {:induction false} BlocksStay(run: seq<Pool>, i: nat, j: nat)
    requires IsRun(run) && i <= j < |run|
    ensures run[i].blocks <= run[j].blocks
    decreases j
  {
    hide Init, Fresh, Step;
    if i < j {
      BlocksStay(run, i, j - 1);
      assert Follows(run, j);
      var t, c :| Enabled(run[j - 1], t, c) && run[j] == Step(run[j - 1], t, c);
      StepKeepsBlocks(run[j - 1], t, c);
    }
  }

  /** One step returns to one thread. */
  lemma OneReturnPerStep(run: seq<Pool>, t: nat, j: nat, i: nat, n: nat, t': nat, j': nat, n': nat)
    requires IsRun(run) && IsCall(run, t, j, i, n) && IsCall(run, t', j', i, n')
    ensures t == t'
  {
    hide Init, Fresh;
    assert Running(run, t, i - 1) && Running(run, t', i - 1);
    assert Follows(run, i);
    var u, c :| Enabled(run[i - 1], u, c) && run[i] == Step(run[i - 1], u, c);
    OthersStay(run[i - 1], u, c);
  }

  /** The n bytes from address a on lie in the data area of a chunk. */
  ghost predicate InsideOneChunk(v: Pool, a: nat, n: nat) {
    exists k :: 0 <= k < |v.chunks| && v.chunks[k].addr + 16 <= a && a + n <= v.chunks[k].addr + 16 + v.chunks[k].size
  }

  /** The memory a call returns, from its address on as long as was asked for, lies inside one chunk. */
  lemma CallIsInsideOneChunk(run: seq<Pool>, t: nat, j: nat, i: nat, n: nat)
    requires IsRun(run) && IsCall(run, t, j, i, n)
    ensures run[i].threads[t].Returned? && InsideOneChunk(run[i], run[i].threads[t].alloc, n)
  {
    hide Init, Fresh;
    CallHandsOutItsRequest(run, t, j, i, n);
    BlocksAreDisjointAndInsideOneChunk(run, i);
    var b: nat := |run[i - 1].blocks|;
    assert run[i].blocks[b] == Block(run[i].threads[t].alloc, n);
    var k :| 0 <= k < |run[i].chunks| && run[i].blocks[b].Within(run[i].chunks[k]);
  }

  lemma EarlierCallIsApart(run: seq<Pool>, t: nat, j: nat, i: nat, n: nat, t': nat, j': nat, i': nat, n': nat)
    requires IsRun(run) && IsCall(run, t, j, i, n) && IsCall(run, t', j', i', n') && i < i'
    ensures run[i].threads[t].Returned? && run[i'].threads[t'].Returned?
    ensures Block(run[i].threads[t].alloc, n).Apart(Block(run[i'].threads[t'].alloc, n'))
  {
    hide IsRun, Requests;
    CallHandsOutItsRequest(run, t, j, i, n);
    CallHandsOutItsRequest(run, t', j', i', n');
    BlocksStay(run, i, i' - 1);
    BlocksAreDisjointAndInsideOneChunk(run, i');
    var a, b := |run[i].blocks| - 1, |run[i'].blocks| - 1;
    assert run[i'].blocks[a] == Block(run[i].threads[t].alloc, n);
    assert run[i'].blocks[b] == Block(run[i'].threads[t'].alloc, n');
  }

  /** Two calls, of the same thread or of different ones, never return overlapping memory. */
  lemma CallsAreDisjoint(run: seq<Pool>, t: nat, j: nat, i: nat, n: nat, t': nat, j': nat, i': nat, n': nat)
    requires IsRun(run) && IsCall(run, t, j, i, n) && IsCall(run, t', j', i', n') && (t, i) != (t', i')
    ensures run[i].threads[t].Returned? && run[i'].threads[t'].Returned?
    ensures var a, a' := run[i].threads[t].alloc, run[i'].threads[t'].alloc;
      a + n <= a' || a' + n' <= a
  {
    hide IsRun, Requests;
    if i < i' {
      EarlierCallIsApart(run, t, j, i, n, t', j', i', n');
    } else if i' < i {
      EarlierCallIsApart(run, t', j', i', n', t, j, i, n);
    } else {
      OneReturnPerStep(run, t, j, i, n, t', j', n');
    }
  }

  // ---------------------------------------------------------------------- When chunks are added

  /** What the holder of the lock has found out about the space left. */
  ghost predicate ShortInv(v: Pool, pc: PC) {
    match pc
    case RecheckEnd(size, s) => s <= v.start
    case DrainLoad(size, s) => v.end <= v.start + size
    case DrainCas(size, s, e) => v.end <= v.start + size
    case _ => true
  }

  ghost predicate GrowthInv(v: Pool) {
    && v.chunks != [] && v.allocSize == Last(v).size
    && forall t | 0 <= t < |v.threads| :: ShortInv(v, v.threads[t])
  }

  lemma OwnShort(v: Pool, t: nat, c: Choice)
    requires GrowthInv(v) && Enabled(v, t, c)
    ensures ShortInv(Step(v, t, c), Step(v, t, c).threads[t]) && Step(v, t, c).chunks != []
    ensures Step(v, t, c).allocSize == Last(Step(v, t, c)).size
  {
    hide Fresh;
    assert ShortInv(v, v.threads[t]);
  }

  /** Others do not move `end` while the lock is held, and move `start` only forward. */
  lemma OthersShort(v: Pool, t: nat, c: Choice, u: nat)
    requires Inv(v) && GrowthInv(v) && Enabled(v, t, c) && u < |v.threads| && u != t
    ensures ShortInv(Step(v, t, c), v.threads[u])
  {
    hide Fresh, ThreadsInv, BlockInv, BlocksApart, ChunksApart, WordsInv;
    assert ShortInv(v, v.threads[u]);
    assert v.threads[u].HoldsLock() <==> v.holder == Some(u);
    assert v.threads[t].HoldsLock() <==> v.holder == Some(t);
  }

  lemma StepGrowth(v: Pool, t: nat, c: Choice)
    requires Inv(v) && GrowthInv(v) && Enabled(v, t, c)
    ensures GrowthInv(Step(v, t, c))
  {
    hide Inv, Step, Fresh, ShortInv;
    OwnShort(v, t, c);
    OthersStay(v, t, c);
    forall u | 0 <= u < |v.threads| && u != t
      ensures ShortInv(Step(v, t, c), Step(v, t, c).threads[u])
    {
      OthersShort(v, t, c, u);
    }
  }

  lemma InitGrowth(v: Pool)
    requires Init(v)
    ensures GrowthInv(v)
  {
  }

  lemma {:induction false} RunGrowth(run: seq<Pool>, i: nat)
    requires IsRun(run) && i < |run|
    ensures GrowthInv(run[i])
  {
    hide Init, Inv, Fresh, GrowthInv, Step;
    if i == 0 {
      InitGrowth(run[0]);
    } else {
      RunGrowth(run, i - 1);
      RunInv(run, i - 1);
      assert Follows(run, i);
      var t, c :| Enabled(run[i - 1], t, c) && run[i] == Step(run[i - 1], t, c);
      StepGrowth(run[i - 1], t, c);
    }
  }

  /** A chunk is given up only while a request at hand does not fit into what is left of it. */
  lemma ClosedOnlyWhenShort(run: seq<Pool>, k: nat, t: nat)
    requires IsRun(run) && k + 1 < |run| && t < |run[k].threads| && t < |run[k + 1].threads|
    requires !run[k].threads[t].Grow? && run[k + 1].threads[t].Grow?
    ensures !run[k].threads[t].Outside() && run[k].chunks != []
    ensures run[k].start + run[k].threads[t].size >= run[k].end == Last(run[k]).End()
    ensures run[k + 1].start == run[k + 1].end && run[k + 1].threads[t].size == run[k].threads[t].size
  {
    hide Init, Fresh;
    RunInv(run, k);
    RunGrowth(run, k);
    assert Follows(run, k + 1);
    var u, c :| Enabled(run[k], u, c) && run[k + 1] == Step(run[k], u, c);
    if u != t {
      OthersStay(run[k], u, c);
    }
    assert ShortInv(run[k], run[k].threads[t]);
    assert run[k].threads[t].HoldsLock() <==> run[k].holder == Some(t);
  }

  /** The next chunk is twice as large as the last, or as large as the request for which it is added. */
  ghost predicate GrewBy(run: seq<Pool>, k: nat, t: nat)
    requires k + 1 < |run|
  {
    var v, v' := run[k], run[k + 1];
    && t < |v.threads| && v.threads[t].Grow? && v.chunks != [] && |v'.chunks| == |v.chunks| + 1
    && v'.chunks[..|v.chunks|] == v.chunks
    && v'.chunks[|v.chunks|].size == (if 2 * Last(v).size < v.threads[t].size then v.threads[t].size else 2 * Last(v).size)
  }

  lemma ChunksDouble(run: seq<Pool>, k: nat)
    requires IsRun(run) && k + 1 < |run| && run[k + 1].chunks != run[k].chunks
    ensures exists t: nat :: GrewBy(run, k, t)
  {
    hide Init, Fresh;
    RunGrowth(run, k);
    assert Follows(run, k + 1);
    var t, c :| Enabled(run[k], t, c) && run[k + 1] == Step(run[k], t, c);
    assert GrewBy(run, k, t);
  }

  // ------------------------------------------------------------------------------ Progress

  /** An upper bound of the steps to the return of a thread that runs alone. */
  function Distance(v: Pool, pc: PC): nat
    requires v.chunks != []
  {
    match pc
    case Idle => 0
    case Returned(_) => 0
    case LoadStart(size) => if v.start + size < v.end then 3 else 13
    case LoadEnd(size, s) => if s != v.start then 15 else if s + size < v.end then 2 else 12
    case TryCas(size, s) => if s != v.start then 14 else 1
    case AwaitLock(size) => if v.start + size < v.end then 7 else 11
    case RecheckStart(size) => if v.start + size < v.end then 6 else 10
    case RecheckEnd(size, s) => if s != v.start then 15 else if s + size < v.end then 5 else 9
    case Restart(size) => if v.start + size < v.end then 4 else 14
    case DrainLoad(size, s) => if s != v.start then 10 else 8
    case DrainCas(size, s, e) => if s != v.start then 9 else 7
    case Grow(size) => 6
    case FirstStore(size) => 5
    case SecondStore(size) => if Last(v).addr >= v.current.addr && v.start != Last(v).Data() then 17 else 4
    case Publish(size) => if v.start != Last(v).Data() then 16 else 3
    case Unlock(size, s) => if s != v.start then 15 else 2
  }

  /** Each step of the thread itself brings its return nearer, unless an exchange fails spuriously. */
  lemma OwnStepGetsNearer(v: Pool, t: nat, c: Choice)
    requires Inv(v) && Enabled(v, t, c) && !c.spurious && !v.threads[t].Outside()
    ensures Step(v, t, c).chunks != []
    ensures Distance(Step(v, t, c), Step(v, t, c).threads[t]) < Distance(v, v.threads[t]) <= 17
  {
    hide Fresh, ThreadsInv, BlockInv, BlocksApart, ChunksApart;
    assert v.threads[t].HoldsLock() <==> v.holder == Some(t);
  }

  /** An address above all chunks. */
  function Above(chunks: seq<Chunk>): nat {
    if chunks == [] then 0 else Max(Above(chunks[..|chunks| - 1]), chunks[|chunks| - 1].End())
  }

  lemma {:induction false} AboveAll(chunks: seq<Chunk>)
    ensures forall k | 0 <= k < |chunks| :: chunks[k].End() <= Above(chunks)
  {
    if chunks != [] {
      AboveAll(chunks[..|chunks| - 1]);
    }
  }

  /** Nothing but the lock can hold a thread up. */
  lemma ThreadCanGoOn(v: Pool, t: nat) returns (c: Choice)
    requires Inv(v) && t < |v.threads| && (v.holder == None || v.holder == Some(t))
    ensures Enabled(v, t, c) && !c.spurious
  {
    hide ThreadsInv, BlockInv, BlocksApart, ChunksApart, WordsInv;
    AboveAll(v.chunks);
    assert v.threads[t].HoldsLock() <==> v.holder == Some(t);
    c := Choice(0, Above(v.chunks), false);
  }

  /** The step to run[x] is one of thread t, and no exchange in it fails spuriously. */
  ghost predicate MovesBy(run: seq<Pool>, x: nat, t: nat)
    requires 0 < x < |run|
  {
    exists c: Choice :: Moves(run, x, t, c) && !c.spurious
  }

  /** From run[k] to run[i] thread t runs alone, and does not return. */
  ghost predicate RunsAlone(run: seq<Pool>, t: nat, k: nat, i: nat)
    requires k <= i < |run|
  {
    && (forall x | k <= x <= i :: Running(run, t, x))
    && (forall x | k < x <= i :: MovesBy(run, x, t))
  }

  lemma {:induction false} AloneGetsNearer(run: seq<Pool>, t: nat, k: nat, i: nat)
    requires IsRun(run) && k <= i < |run| && RunsAlone(run, t, k, i)
    ensures Running(run, t, i) && Running(run, t, k) && run[i].chunks != [] && run[k].chunks != []
    ensures Distance(run[i], run[i].threads[t]) + (i - k) <= Distance(run[k], run[k].threads[t]) <= 17
    decreases i
  {
    hide Init, Inv, Fresh, Step, Distance;
    assert Running(run, t, i) && Running(run, t, k);
    RunInv(run, k);
    if k == i {
      InsideIsNear(run[k], t);
    } else {
      assert RunsAlone(run, t, k, i - 1) && MovesBy(run, i, t);
      AloneGetsNearer(run, t, k, i - 1);
      RunInv(run, i - 1);
      var c: Choice :| Moves(run, i, t, c) && !c.spurious;
      OwnStepGetsNearer(run[i - 1], t, c);
    }
  }

  lemma InsideIsNear(v: Pool, t: nat)
    requires Inv(v) && t < |v.threads| && !v.threads[t].Outside()
    ensures v.chunks != [] && 1 <= Distance(v, v.threads[t]) <= 17
  {
    hide Fresh, ThreadsInv, BlockInv, BlocksApart, ChunksApart, WordsInv;
  }

  /** A thread that runs alone returns within 17 steps, also when it has to add a chunk. */
  lemma AloneItReturns(run: seq<Pool>, t: nat, k: nat, i: nat)
    requires IsRun(run) && k <= i < |run| && RunsAlone(run, t, k, i)
    ensures i - k < 17
  {
    hide Init, Inv, Fresh, Step, Distance, IsRun;
    AloneGetsNearer(run, t, k, i);
    RunInv(run, i);
    InsideIsNear(run[i], t);
  }
}
