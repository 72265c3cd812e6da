/** Concurrent `insert_tagged` (Hashmap.hpp): any number of threads push entries on the chains
  of one directory, each through a load, a store to the entry's own `next`, and a
  compare-exchange that may also fail spuriously. */
module HashmapProtocol {
  import opened Bits
  import opened Common
  import opened TaggedWord

  datatype PC =
    | Idle
    | LoadSlot(e: nat)             // loc = locPtr->load()
    | Link(e: nat, loc: nat)      // entry->next = ptr(loc)
    | Exchange(e: nat, loc: nat)  // compare_exchange_weak(loc, update(loc, entry, hash))

  /** `slots` is the directory, of 2^exp words; `next` and `hash` are the entries' headers by
    address; `log` lists the entries whose exchange succeeded, in order. */
  datatype State = State(
    exp: nat,
    slots: seq<nat>,
    next: map<nat, nat>,
    hash: map<nat, Hash>,
    threads: seq<PC>,
    log: seq<nat>)

  datatype Choice = Choice(e: nat, spurious: bool)

  predicate Busy(pc: PC, e: nat) { pc != Idle && pc.e == e }

  ghost predicate Unused(v: State, e: nat) {
    e in v.hash && e !in v.log && forall t | 0 <= t < |v.threads| :: !Busy(v.threads[t], e)
  }

  /** Every entry is inserted at most once, by one thread. */
  ghost predicate Enabled(v: State, t: nat, c: Choice) {
    t < |v.threads| && (v.threads[t].Idle? ==> Unused(v, c.e))
  }

  ghost predicate Shape(v: State) {
    && |v.slots| == Pow2(v.exp)
    && v.next.Keys == v.hash.Keys
    && (forall e | e in v.hash :: IsAddress(e))
    && (forall t | 0 <= t < |v.threads| :: v.threads[t].Idle? || v.threads[t].e in v.hash)
  }

  function Step(v: State, t: nat, c: Choice): State
    requires t < |v.threads| && |v.slots| == Pow2(v.exp)
    requires v.threads[t].Idle? || v.threads[t].e in v.hash
  {
    match v.threads[t]
    case Idle => v.(threads := v.threads[t := LoadSlot(c.e)])
    case LoadSlot(e) => v.(threads := v.threads[t := Link(e, v.slots[Slot(v.exp, v.hash[e])])])
    case Link(e, loc) => v.(next := v.next[e := Ptr(loc)], threads := v.threads[t := Exchange(e, loc)])
    case Exchange(e, loc) =>
      var pos := Slot(v.exp, v.hash[e]);
      if v.slots[pos] == loc && !c.spurious then
        v.(slots := v.slots[pos := Update(loc, e, v.hash[e])],
           threads := v.threads[t := Idle],
           log := v.log + [e])
      else
        v.(threads := v.threads[t := Link(e, v.slots[pos])])
  }

  /** An empty directory; the entries exist and have their hashes. */
  ghost predicate Init(v: State) {
    && Shape(v)
    && (forall p | 0 <= p < |v.slots| :: v.slots[p] == END)
    && (forall t | 0 <= t < |v.threads| :: v.threads[t] == Idle)
    && v.log == []
  }

  // ----------------------------------------------------------------- What a chain should hold

  /** The entries of `log` that hash to slot `p`, newest first. */
  function Newest(exp: nat, hash: map<nat, Hash>, log: seq<nat>, p: nat): (chain: seq<nat>)
    requires Covers(hash, log)
    ensures Covers(hash, chain) && forall e :: e in chain <==> e in log && Slot(exp, hash[e]) == p
  {
    if log == [] then [] else
      var e, older := log[|log| - 1], log[..|log| - 1];
      assert log == older + [e];
      if Slot(exp, hash[e]) == p then [e] + Newest(exp, hash, older, p) else Newest(exp, hash, older, p)
  }

  ghost predicate SlotInv(v: State, p: nat)
    requires Covers(v.hash, v.log) && p < |v.slots|
  {
    var chain := Newest(v.exp, v.hash, v.log, p);
    IsChain(v.next, Ptr(v.slots[p]), chain) && FilterInv(v.hash, v.slots[p], chain)
  }

  ghost predicate PendingInv(v: State, t: nat)
    requires t < |v.threads|
  {
    match v.threads[t]
    case Idle => true
    case LoadSlot(e) => e !in v.log
    case Link(e, _) => e !in v.log
    case Exchange(e, loc) => e !in v.log && e in v.next && v.next[e] == Ptr(loc)
  }

  ghost predicate OneThreadEach(v: State) {
    forall t, u | 0 <= t < u < |v.threads| :: !v.threads[t].Idle? && !v.threads[u].Idle? ==> v.threads[t].e != v.threads[u].e
  }

  ghost predicate Inv(v: State) {
    && Shape(v)
    && Covers(v.hash, v.log)
    && Distinct(v.log)
    && (forall p | 0 <= p < |v.slots| :: SlotInv(v, p))
    && (forall t | 0 <= t < |v.threads| :: PendingInv(v, t))
    && OneThreadEach(v)
  }

  lemma InitInv(v: State)
    requires Init(v)
    ensures Inv(v)
  {
    forall p | 0 <= p < |v.slots|
      ensures SlotInv(v, p)
    {
      forall b | 0 <= b < 16
        ensures !Shows(v.slots[p], b)
      {
        EmptyWord(b);
      }
      EmptyWord(0);
    }
  }

  // -------------------------------------------------------------------------- Preservation

  lemma LinkSlots(v: State, t: nat, c: Choice)
    requires Inv(v) && Enabled(v, t, c) && v.threads[t].Link?
    ensures forall p | 0 <= p < |v.slots| :: SlotInv(Step(v, t, c), p)
  {
    var v' := Step(v, t, c);
    assert PendingInv(v, t);
    forall p | 0 <= p < |v.slots|
      ensures SlotInv(v', p)
    {
      assert SlotInv(v, p);
      ChainFrame(v.next, v'.next, Ptr(v.slots[p]), Newest(v.exp, v.hash, v.log, p));
    }
  }

  lemma PushSlots(v: State, t: nat, c: Choice)
    requires Inv(v) && Enabled(v, t, c) && v.threads[t].Exchange? && Step(v, t, c).threads[t].Idle?
    ensures Covers(v.hash, v.log + [v.threads[t].e])
    ensures forall p | 0 <= p < |v.slots| :: SlotInv(Step(v, t, c), p)
  {
    var v', e := Step(v, t, c), v.threads[t].e;
    var pos := Slot(v.exp, v.hash[e]);
    var was := v.slots[pos];
    assert PendingInv(v, t) && SlotInv(v, pos);
    UpdatePointer(was, e, v.hash[e]);
    PushKeepsFilter(v.hash, was, e, Newest(v.exp, v.hash, v.log, pos));
    assert v'.log[..|v'.log| - 1] == v.log;
    forall p | 0 <= p < |v.slots|
      ensures SlotInv(v', p)
    {
      assert SlotInv(v, p);
    }
  }

  lemma StepPreservesInv(v: State, t: nat, c: Choice)
    requires Inv(v) && Enabled(v, t, c)
    ensures Inv(Step(v, t, c))
  {
    var v' := Step(v, t, c);
    assert PendingInv(v, t);
    StepEntries(v, t, c);
    StepOneEach(v, t, c);
    StepThreads(v, t, c);
    if v.threads[t].Link? {
      LinkSlots(v, t, c);
    } else if v.threads[t].Exchange? && v'.threads[t].Idle? {
      PushSlots(v, t, c);
    } else {
      forall p | 0 <= p < |v'.slots|
        ensures SlotInv(v', p)
      {
        assert SlotInv(v, p);
      }
    }
  }

  /** What a thread knows about its own entry survives the steps of others. */
  lemma KeepPending(v: State, t: nat, c: Choice, u: nat)
    requires Inv(v) && Enabled(v, t, c) && u < |v.threads| && u != t
    ensures PendingInv(Step(v, t, c), u)
  {
    hide Update, Ptr, Slot, SlotInv;
    assert PendingInv(v, u) && PendingInv(v, t);
    if u < t {
      assert !v.threads[u].Idle? && !v.threads[t].Idle? ==> v.threads[u].e != v.threads[t].e;
    } else {
      assert !v.threads[t].Idle? && !v.threads[u].Idle? ==> v.threads[t].e != v.threads[u].e;
    }
  }

  lemma OwnPending(v: State, t: nat, c: Choice)
    requires Inv(v) && Enabled(v, t, c)
    ensures PendingInv(Step(v, t, c), t)
  {
    assert PendingInv(v, t);
  }

  lemma StepEntries(v: State, t: nat, c: Choice)
    requires Inv(v) && Enabled(v, t, c)
    ensures Shape(Step(v, t, c)) && Distinct(Step(v, t, c).log) && Covers(v.hash, Step(v, t, c).log)
  {
    hide Update, Ptr, Slot, SlotInv, OneThreadEach;
    assert PendingInv(v, t);
    StepKeeps(v, t, c);
  }

  lemma StepOneEach(v: State, t: nat, c: Choice)
    requires Inv(v) && Enabled(v, t, c)
    ensures OneThreadEach(Step(v, t, c))
  {
    hide Update, Ptr, Slot, SlotInv, PendingInv;
    var v' := Step(v, t, c);
    forall u | 0 <= u < |v.threads| && u != t && !v'.threads[u].Idle? && !v'.threads[t].Idle?
      ensures v'.threads[u].e != v'.threads[t].e
    {
      if v.threads[t].Idle? {
        assert !Busy(v.threads[u], c.e);
      }
    }
  }

  lemma StepThreadCount(v: State, t: nat, c: Choice)
    requires Inv(v) && Enabled(v, t, c)
    ensures |Step(v, t, c).threads| == |v.threads|
  {
    hide Update, Ptr, Slot, SlotInv, PendingInv;
  }

  lemma StepThreads(v: State, t: nat, c: Choice)
    requires Inv(v) && Enabled(v, t, c)
    ensures forall u | 0 <= u < |v.threads| :: PendingInv(Step(v, t, c), u)
  {
    hide SlotInv, PendingInv, Update, Ptr, Slot, Unused;
    OwnPending(v, t, c);
    StepThreadCount(v, t, c);
    forall u | 0 <= u < |v.threads| && u != t
      ensures PendingInv(Step(v, t, c), u)
    {
      KeepPending(v, t, c, u);
    }
  }

  // ------------------------------------------------------------------- Theorems over runs

  ghost predicate Next(v: State, v': State) {
    Shape(v) && exists t: nat, c: Choice :: Enabled(v, t, c) && v' == Step(v, t, c)
  }

  ghost predicate Follows(run: seq<State>, i: nat)
    requires 0 < i < |run|
  {
    Next(run[i - 1], run[i])
  }

  ghost predicate IsRun(run: seq<State>) {
    run != [] && Init(run[0]) && forall i | 0 < i < |run| :: Follows(run, i)
  }

  lemma {:induction false} RunInv(run: seq<State>, i: nat)
    requires IsRun(run) && i < |run|
    ensures Inv(run[i])
  {
    hide Init, Inv, Step, Unused;
    if i == 0 {
      InitInv(run[0]);
    } else {
      RunInv(run, i - 1);
      assert Follows(run, i);
      var t: nat, c :| Enabled(run[i - 1], t, c) && run[i] == Step(run[i - 1], t, c);
      StepPreservesInv(run[i - 1], t, c);
    }
  }

  lemma {:induction false} NewestIsDistinct(exp: nat, hash: map<nat, Hash>, log: seq<nat>, p: nat)
    requires Covers(hash, log) && Distinct(log)
    ensures Distinct(Newest(exp, hash, log, p))
  {
    if log != [] {
      NewestIsDistinct(exp, hash, log[..|log| - 1], p);
    }
  }

  /** In every run, following the links of a slot meets exactly the entries inserted there, each
    once and newest first, and the slot's filter shows exactly their tags. */
  lemma ChainsHoldWhatWasInserted(run: seq<State>, i: nat, p: nat)
    requires IsRun(run) && i < |run| && p < |run[i].slots|
    ensures Covers(run[i].hash, run[i].log)
    ensures var chain := Newest(run[i].exp, run[i].hash, run[i].log, p);
      && IsChain(run[i].next, Ptr(run[i].slots[p]), chain)
      && Distinct(chain)
      && FilterInv(run[i].hash, run[i].slots[p], chain)
  {
    RunInv(run, i);
    assert SlotInv(run[i], p);
    NewestIsDistinct(run[i].exp, run[i].hash, run[i].log, p);
  }

  /** An insert that has taken effect is never undone. */
  lemma {:induction false} InsertsAreKept(run: seq<State>, i: nat, j: nat)
    requires IsRun(run) && i <= j < |run|
    ensures run[i].log <= run[j].log && run[i].hash == run[j].hash && run[i].exp == run[j].exp
    decreases j - i
  {
    hide Init, Next;
    if i < j {
      InsertsAreKept(run, i, j - 1);
      assert Follows(run, j);
      NextKeeps(run[j - 1], run[j]);
    }
  }

  lemma NextKeeps(v: State, v': State)
    requires Next(v, v')
    ensures v.log <= v'.log && v.hash == v'.hash && v.exp == v'.exp
  {
    hide Step;
    var t: nat, c :| Enabled(v, t, c) && v' == Step(v, t, c);
    StepKeeps(v, t, c);
  }

  lemma StepKeeps(v: State, t: nat, c: Choice)
    requires Shape(v) && t < |v.threads|
    ensures Step(v, t, c).hash == v.hash && Step(v, t, c).exp == v.exp
    ensures Step(v, t, c).log == v.log || (v.threads[t].Exchange? && Step(v, t, c).log == v.log + [v.threads[t].e])
  {
    hide Update, Ptr, Slot;
  }

  /** find_chain_tagged. */
  function FindChainTagged(v: State, hash: Hash): nat
    requires |v.slots| == Pow2(v.exp)
  {
    var candidate := v.slots[Slot(v.exp, hash)];
    if And(candidate, Tag(hash)) != 0 then Ptr(candidate) else END
  }

  /** A lookup at any moment of any run meets every entry inserted before with that hash; if the
    filter turns it away, no inserted entry of the slot shares the hash's tag. */
  lemma FilterHidesNothing(run: seq<State>, i: nat, hash: Hash, e: nat)
    requires IsRun(run) && i < |run| && e in run[i].log
    ensures Shape(run[i]) && Covers(run[i].hash, run[i].log) && e in run[i].hash
    ensures var p := Slot(run[i].exp, hash);
      var chain := Newest(run[i].exp, run[i].hash, run[i].log, p);
      if FindChainTagged(run[i], hash) == END then
        Slot(run[i].exp, run[i].hash[e]) == p ==> TagPos(run[i].hash[e]) != TagPos(hash)
      else
        && IsChain(run[i].next, FindChainTagged(run[i], hash), chain)
        && (run[i].hash[e] == hash ==> e in chain)
  {
    RunInv(run, i);
    var v, p := run[i], Slot(run[i].exp, hash);
    var chain := Newest(v.exp, v.hash, v.log, p);
    assert SlotInv(v, p);
    MatchIsShows(v.slots[p], hash);
    if Slot(v.exp, v.hash[e]) == p {
      var k :| 0 <= k < |chain| && chain[k] == e;
      assert chain[0] in chain && IsAddress(chain[0]);
      assert TagPos(v.hash[chain[k]]) == TagPos(hash) ==> AnyAt(v.hash, chain, TagPos(hash));
    }
  }

  // ------------------------------------------------------------------------- Whole inserts

  /** Thread t made the step from run[k] to run[k + 1]. */
  ghost predicate Moves(run: seq<State>, k: nat, t: nat, c: Choice)
    requires k + 1 < |run|
  {
    Shape(run[k]) && Enabled(run[k], t, c) && run[k + 1] == Step(run[k], t, c)
  }

  /** At step j thread t calls insert_tagged for entry e. */
  ghost predicate Requests(run: seq<State>, t: nat, j: nat, e: nat) {
    && j + 1 < |run| && t < |run[j].threads| && run[j].threads[t].Idle?
    && exists c: Choice :: Moves(run, j, t, c) && c.e == e
  }

  ghost predicate IsBusy(v: State, t: nat, e: nat) { t < |v.threads| && Busy(v.threads[t], e) }

  /** A thread lets go of its entry only by putting it in the table. */
  lemma StepLands(v: State, u: nat, c: Choice, t: nat, e: nat)
    requires Shape(v) && Enabled(v, u, c) && (IsBusy(v, t, e) || e in v.log)
    ensures IsBusy(Step(v, u, c), t, e) || e in Step(v, u, c).log
  {
    hide Update, Ptr, Slot;
  }

  /** An entry once requested to be inserted is, at every later point of the run, still with the
    thread that was asked, or in the log. */
  lemma {:induction false} EveryInsertLands(run: seq<State>, t: nat, j: nat, e: nat, i: nat)
    requires IsRun(run) && Requests(run, t, j, e) && j < i < |run|
    ensures IsBusy(run[i], t, e) || e in run[i].log
    decreases i
  {
    hide Init;
    if i == j + 1 {
      var c: Choice :| Moves(run, j, t, c) && c.e == e;
    } else {
      EveryInsertLands(run, t, j, e, i - 1);
      assert Follows(run, i);
      var u: nat, c :| Enabled(run[i - 1], u, c) && run[i] == Step(run[i - 1], u, c);
      StepLands(run[i - 1], u, c, t, e);
    }
  }

  lemma {:induction false} RunsKeep(run: seq<State>, i: nat)
    requires IsRun(run) && i < |run|
    ensures Shape(run[i]) && run[i].hash == run[0].hash
  {
    hide Init, Next;
    RunInv(run, i);
    InsertsAreKept(run, 0, i);
  }

  lemma RequestedHasHash(run: seq<State>, t: nat, j: nat, e: nat)
    requires IsRun(run) && Requests(run, t, j, e)
    ensures e in run[0].hash
  {
    hide Init, Step;
    RunsKeep(run, j);
    var c: Choice :| Moves(run, j, t, c) && c.e == e;
  }

  /** When the insert of e has returned, e is in the chain its slot leads to, and a tagged lookup of its
    hash starts there: no insert is lost, whatever other threads do meanwhile and afterwards. */
  lemma FinishedInsertIsFound(run: seq<State>, t: nat, j: nat, e: nat, i: nat)
    requires IsRun(run) && Requests(run, t, j, e) && j < i < |run| && !IsBusy(run[i], t, e)
    ensures Shape(run[i]) && e in run[i].hash
    ensures var v, h := run[i], run[i].hash[e];
      var start := FindChainTagged(v, h);
      && start != END && start == Ptr(v.slots[Slot(v.exp, h)]) && Shows(v.slots[Slot(v.exp, h)], TagPos(h))
      && exists chain: seq<nat> :: IsChain(v.next, start, chain) && e in chain
  {
    hide Init, IsChain;
    EveryInsertLands(run, t, j, e, i);
    RequestedHasHash(run, t, j, e);
    RunsKeep(run, i);
    var v, h := run[i], run[i].hash[e];
    FilterHidesNothing(run, i, h, e);
    MatchIsShows(v.slots[Slot(v.exp, h)], h);
    assert e in Newest(v.exp, v.hash, v.log, Slot(v.exp, h));
  }

  /** Nothing is in the table that no thread was asked to insert. */
  lemma {:induction false} OnlyRequestsLand(run: seq<State>, e: nat, i: nat)
    requires IsRun(run) && i < |run| && (e in run[i].log || exists t: nat :: IsBusy(run[i], t, e))
    ensures exists t: nat, j: nat :: j < i && Requests(run, t, j, e)
    decreases i
  {
    hide Step, Unused;
    NothingAtFirst(run, e);
    if i > 0 {
      assert Follows(run, i);
      var u: nat, c :| Enabled(run[i - 1], u, c) && run[i] == Step(run[i - 1], u, c);
      if run[i - 1].threads[u].Idle? && c.e == e {
        assert Moves(run, i - 1, u, c);
        assert Requests(run, u, i - 1, e);
      } else {
        LandedBefore(run[i - 1], u, c, e);
        OnlyRequestsLand(run, e, i - 1);
      }
    }
  }

  lemma NothingAtFirst(run: seq<State>, e: nat)
    requires IsRun(run)
    ensures e !in run[0].log && forall t: nat :: !IsBusy(run[0], t, e)
  {
  }

  lemma LandedBefore(v: State, u: nat, c: Choice, e: nat)
    requires Shape(v) && Enabled(v, u, c) && !(v.threads[u].Idle? && c.e == e)
    requires e in Step(v, u, c).log || exists t: nat :: IsBusy(Step(v, u, c), t, e)
    ensures e in v.log || exists t: nat :: IsBusy(v, t, e)
  {
    hide Update, Ptr, Slot;
    if e !in Step(v, u, c).log {
      var t: nat :| IsBusy(Step(v, u, c), t, e);
      assert IsBusy(v, t, e);
    } else if e !in v.log {
      assert IsBusy(v, u, e);
    }
  }

  // ------------------------------------------------------------------------------ Progress

  /** An upper bound of the steps to the return of a thread that runs alone. */
  function Distance(v: State, pc: PC): nat
    requires |v.slots| == Pow2(v.exp) && (pc.Idle? || pc.e in v.hash)
  {
    match pc
    case Idle => 0
    case LoadSlot(e) => 3
    case Link(e, loc) => if loc == v.slots[Slot(v.exp, v.hash[e])] then 2 else 4
    case Exchange(e, loc) => if loc == v.slots[Slot(v.exp, v.hash[e])] then 1 else 3
  }

  /** Only an exchange of another thread can keep a thread from returning within four steps of its
    own: each step of its own, spurious failures aside, brings it nearer. */
  lemma OwnStepGetsNearer(v: State, t: nat, c: Choice)
    requires Shape(v) && Enabled(v, t, c) && !c.spurious && !v.threads[t].Idle?
    ensures Shape(Step(v, t, c))
    ensures Distance(Step(v, t, c), Step(v, t, c).threads[t]) < Distance(v, v.threads[t]) <= 4
  {
    hide Update, Ptr;
  }
}
