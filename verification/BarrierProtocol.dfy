/** `HierarchicBarrier::wait` (Barrier.hpp) run by any number of threads, any number of times,
  on any well-formed tree of barriers. Every access to `round` or `cntr` is one atomic step.

  A Barrier's `round` is a wrapping byte: the state counts rounds without bound and the
  code's comparison sees only the count modulo 256. A thread keeps the stack of barriers it
  is inside of: its leaf at the bottom and, above it, the parents it climbed to as the last
  arriver. A flat Barrier is the tree with a single node. */
module BarrierProtocol {
  import opened BarrierTree
  import opened Common

  // The value of a uint8_t that was incremented n times.
  function Byte(n: nat): nat { n % 256 }

  datatype Phase =
    | Load               // read round
    | Sub(prev: nat)     // cntr.fetch_sub(1)
    | Spin(prev: nat)    // while (round == prevRound)
    | Reset              // cntr = threadCount
    | Final              // at the root: the caller's finalizer
    | Bump(r: bool)      // round++, then return r

  datatype ThreadState = ThreadState(stack: seq<nat>, phase: Phase, results: seq<bool>)

  /** `cntr`, `round` and `threads` are what the code has. The rest records history: `arrived[t]`
    and `up[c]` count the fetch_subs of thread t at its leaf and of c's last arrivers at c's
    parent; `leader[b]` is the last arriver of the present round of b; `winners` lists the
    threads that ran the finalizer. No step depends on them. */
  datatype State = State(
    cntr: seq<int>,
    round: seq<nat>,
    threads: seq<ThreadState>,
    arrived: seq<nat>,
    up: seq<nat>,
    leader: seq<Option<nat>>,
    winners: seq<nat>)

  ghost predicate Shape(tree: Tree, v: State) {
    && |v.cntr| == |v.round| == |v.up| == |v.leader| == |tree.nodes|
    && |v.threads| == |v.arrived| == |tree.leaf|
    && (forall t | 0 <= t < |v.threads| :: StackOk(tree, t, v.threads[t].stack))
  }

  /** The stack climbs from the thread's leaf along parent links. */
  ghost predicate StackOk(tree: Tree, t: nat, stack: seq<nat>)
    requires t < |tree.leaf|
  {
    && (forall i | 0 <= i < |stack| :: stack[i] < |tree.nodes|)
    && (stack != [] ==> stack[0] == tree.leaf[t])
    && (forall i | 0 <= i < |stack| - 1 :: Linked(tree, stack, i))
  }

  predicate Linked(tree: Tree, stack: seq<nat>, i: nat)
    requires i + 1 < |stack| && stack[i] < |tree.nodes|
  {
    tree.nodes[stack[i]].parent == Some(stack[i + 1])
  }

  function Top(s: ThreadState): nat
    requires s.stack != []
  {
    s.stack[|s.stack| - 1]
  }

  /** On whose behalf the thread calls `wait` on its topmost barrier. */
  function Self(t: nat, s: ThreadState): Part
    requires s.stack != []
  {
    if |s.stack| == 1 then Thread(t) else Child(s.stack[|s.stack| - 2])
  }

  ghost function Arr(tree: Tree, v: State, x: Part): nat
    requires Shape(tree, v) && IsPart(tree, x)
  {
    match x
    case Thread(t) => v.arrived[t]
    case Child(c) => v.up[c]
  }

  // ------------------------------------------------------------------------- Steps

  function SetThread(v: State, t: nat, s: ThreadState): State
    requires t < |v.threads|
  {
    v.(threads := v.threads[t := s])
  }

  /** Barrier::wait returns `r` for the topmost barrier: to the caller, or into the finalizer of
    the barrier below, which then increments its round. */
  function Return(s: ThreadState, r: bool): ThreadState
    requires s.stack != []
  {
    if |s.stack| == 1 then
      ThreadState([], Load, s.results + [r])
    else
      ThreadState(s.stack[..|s.stack| - 1], Bump(r), s.results)
  }

  /** cntr.fetch_sub(1): the caller that finds 1 is the last one and leads the round. */
  ghost function Arrive(tree: Tree, v: State, t: nat, prev: nat): State
    requires Shape(tree, v) && t < |v.threads| && v.threads[t].stack != []
  {
    var s := v.threads[t];
    var b := Top(s);
    var last := v.cntr[b] == 1;
    var w := v.(
      cntr := v.cntr[b := v.cntr[b] - 1],
      leader := if last then v.leader[b := Some(t)] else v.leader,
      threads := v.threads[t := s.(phase := if last then Reset else Spin(prev))]);
    match Self(t, s)
    case Thread(u) => w.(arrived := v.arrived[u := v.arrived[u] + 1])
    case Child(c) => w.(up := v.up[c := v.up[c] + 1])
  }

  /** cntr = threadCount; then the finalizer: the parent's wait, or the caller's own at the root. */
  ghost function Refill(tree: Tree, v: State, t: nat): State
    requires Shape(tree, v) && t < |v.threads| && v.threads[t].stack != []
  {
    var s := v.threads[t];
    var b := Top(s);
    v.(cntr := v.cntr[b := tree.nodes[b].count],
       threads := v.threads[t := match tree.nodes[b].parent
                                 case Some(p) => s.(stack := s.stack + [p], phase := Load)
                                 case None => s.(phase := Final)])
  }

  /** round++ and return r. */
  ghost function EndRound(tree: Tree, v: State, t: nat, r: bool): State
    requires Shape(tree, v) && t < |v.threads| && v.threads[t].stack != []
  {
    var b := Top(v.threads[t]);
    v.(round := v.round[b := v.round[b] + 1],
       leader := v.leader[b := None],
       threads := v.threads[t := Return(v.threads[t], r)])
  }

  ghost function Step(tree: Tree, v: State, t: nat): State
    requires Shape(tree, v) && t < |v.threads|
  {
    var s := v.threads[t];
    if s.stack == [] then
      SetThread(v, t, s.(stack := [tree.leaf[t]], phase := Load))
    else
      var b := Top(s);
      match s.phase
      case Load => SetThread(v, t, s.(phase := Sub(Byte(v.round[b]))))
      case Sub(prev) => Arrive(tree, v, t, prev)
      case Spin(prev) => if Byte(v.round[b]) == prev then v else SetThread(v, t, Return(s, false))
      case Reset => Refill(tree, v, t)
      case Final => SetThread(v, t, s.(phase := Bump(true))).(winners := v.winners + [t])
      case Bump(r) => EndRound(tree, v, t, r)
  }

  ghost predicate Init(tree: Tree, v: State) {
    && |v.cntr| == |v.round| == |v.up| == |v.leader| == |tree.nodes|
    && |v.threads| == |v.arrived| == |tree.leaf|
    && v.winners == []
    && (forall b | 0 <= b < |tree.nodes| ::
          v.cntr[b] == tree.nodes[b].count && v.round[b] == v.up[b] == 0 && v.leader[b] == None)
    && (forall t | 0 <= t < |tree.leaf| :: v.threads[t] == ThreadState([], Load, []) && v.arrived[t] == 0)
  }

  // --------------------------------------------------------------------- Invariant

  ghost function NotArrived(tree: Tree, v: State, b: nat): set<Part>
    requires Shape(tree, v) && b < |tree.nodes|
  {
    set x | x in PartsOf(tree, b) && Arr(tree, v, x) == v.round[b]
  }

  predicate Leading(p: Phase) { p.Reset? || p.Final? || p.Bump? }

  /** The thread stands between its arrival as the last one at `b` and the increment of b's round. */
  ghost predicate Leads(s: ThreadState, b: nat) {
    b in s.stack && (Top(s) == b ==> Leading(s.phase))
  }

  ghost predicate AtTop(s: ThreadState, b: nat) { s.stack != [] && Top(s) == b }

  /** Every caller of `b` has arrived in the present round or in none after the last. */
  ghost predicate RangeInv(tree: Tree, v: State, b: nat)
    requires Shape(tree, v) && b < |tree.nodes|
  {
    forall x | x in PartsOf(tree, b) :: v.round[b] <= Arr(tree, v, x) <= v.round[b] + 1
  }

  /** `cntr` counts the callers still to come; once the last is there nobody touches it before
    the round ends. */
  ghost predicate CounterInv(tree: Tree, v: State, b: nat)
    requires Shape(tree, v) && b < |tree.nodes|
  {
    match v.leader[b]
    case None => v.cntr[b] == |NotArrived(tree, v, b)| > 0
    case Some(t) =>
      && t < |v.threads|
      && Leads(v.threads[t], b)
      && NotArrived(tree, v, b) == {}
      && v.cntr[b] == if AtTop(v.threads[t], b) && v.threads[t].phase.Reset? then 0 else tree.nodes[b].count
  }

  ghost predicate RoundInv(tree: Tree, v: State, b: nat)
    requires WellFormed(tree) && Shape(tree, v) && b < |tree.nodes|
  {
    b != 0 ==>
      && v.round[b] <= v.up[b] <= v.round[b] + 1
      && (v.leader[b].None? ==> v.up[b] == v.round[b])
      && v.round[b] <= v.round[tree.nodes[b].parent.value]
  }

  ghost predicate NodeInv(tree: Tree, v: State, b: nat)
    requires WellFormed(tree) && Shape(tree, v) && b < |tree.nodes|
  {
    RangeInv(tree, v, b) && CounterInv(tree, v, b) && RoundInv(tree, v, b)
  }

  /** The finalizer has run once for every round of the root, and once more while its runner is
    about to end the round. */
  ghost predicate RootInv(tree: Tree, v: State)
    requires WellFormed(tree) && Shape(tree, v)
  {
    |v.winners| == v.round[0] + (
      if v.leader[0].Some? && v.leader[0].value < |v.threads| && AtTop(v.threads[v.leader[0].value], 0)
         && v.threads[v.leader[0].value].phase.Bump?
      then 1 else 0)
    && forall i | 0 <= i < |v.winners| :: v.winners[i] < |v.threads|
  }

  /** Completed waits returned true exactly to the thread that ran the finalizer. */
  ghost predicate ResultsInv(v: State, t: nat, results: seq<bool>) {
    forall i | 0 <= i < |results| :: i < |v.winners| && (results[i] <==> v.winners[i] == t)
  }

  /** Below the top of its stack the thread leads every barrier, in the same round. */
  ghost predicate StackInv(v: State, t: nat, s: ThreadState)
    requires forall i | 0 <= i < |s.stack| :: s.stack[i] < |v.round| == |v.leader| == |v.up|
  {
    && (forall i | 0 <= i < |s.stack| - 1 :: v.round[s.stack[i]] == |s.results| && v.leader[s.stack[i]] == Some(t))
    && (forall i | 0 <= i < |s.stack| - 2 :: v.up[s.stack[i]] == |s.results| + 1)
    && (|s.stack| >= 2 ==>
          v.up[s.stack[|s.stack| - 2]] == |s.results| + if s.phase.Load? || s.phase.Sub? then 0 else 1)
  }

  ghost predicate PhaseInv(tree: Tree, v: State, t: nat, s: ThreadState)
    requires WellFormed(tree) && Shape(tree, v) && s.stack != [] && Top(s) < |tree.nodes|
  {
    var b, j := Top(s), |s.results|;
    match s.phase
    case Load => v.round[b] == j
    case Sub(prev) => v.round[b] == j && prev == Byte(j)
    case Spin(prev) => prev == Byte(j) && (|v.winners| > j ==> v.winners[j] != t)
    case Reset => v.leader[b] == Some(t) && v.round[b] == j && (b != 0 ==> v.up[b] == j)
    case Final => b == 0 && v.leader[b] == Some(t) && v.round[b] == j
    case Bump(r) =>
      && v.leader[b] == Some(t)
      && v.round[b] == j
      && (b != 0 ==> v.up[b] == j + 1 && v.round[tree.nodes[b].parent.value] == j + 1)
      && |v.winners| > j
      && (r <==> v.winners[j] == t)
  }

  ghost predicate ThreadInv(tree: Tree, v: State, t: nat, s: ThreadState)
    requires WellFormed(tree) && Shape(tree, v) && t < |v.threads|
    requires forall i | 0 <= i < |s.stack| :: s.stack[i] < |tree.nodes|
  {
    && ResultsInv(v, t, s.results)
    && v.arrived[t] == |s.results| +
         (if s.stack == [] || (|s.stack| == 1 && (s.phase.Load? || s.phase.Sub?)) then 0 else 1)
    && (if s.stack == [] then v.round[tree.leaf[t]] == |s.results| else StackInv(v, t, s) && PhaseInv(tree, v, t, s))
  }

  ghost predicate NodesInv(tree: Tree, v: State)
    requires WellFormed(tree) && Shape(tree, v)
  {
    forall b | 0 <= b < |tree.nodes| :: NodeInv(tree, v, b)
  }

  ghost predicate ThreadsInv(tree: Tree, v: State)
    requires WellFormed(tree) && Shape(tree, v)
  {
    forall t | 0 <= t < |v.threads| :: ThreadInv(tree, v, t, v.threads[t])
  }

  ghost predicate Inv(tree: Tree, v: State) {
    && WellFormed(tree)
    && Shape(tree, v)
    && NodesInv(tree, v)
    && RootInv(tree, v)
    && ThreadsInv(tree, v)
  }

  lemma InitInv(tree: Tree, v: State)
    requires WellFormed(tree) && Init(tree, v)
    ensures Inv(tree, v)
  {
    forall b | 0 <= b < |tree.nodes|
      ensures NodeInv(tree, v, b)
    {
      InitNode(tree, v, b);
    }
    forall t | 0 <= t < |v.threads|
      ensures ThreadInv(tree, v, t, v.threads[t])
    {
      assert v.threads[t] == ThreadState([], Load, []) && v.arrived[t] == 0 && v.round[tree.leaf[t]] == 0;
    }
  }

  lemma InitNode(tree: Tree, v: State, b: nat)
    requires WellFormed(tree) && Init(tree, v) && Shape(tree, v) && b < |tree.nodes|
    ensures NodeInv(tree, v, b)
  {
    forall x | x in PartsOf(tree, b)
      ensures Arr(tree, v, x) == 0
    {
      assert IsPart(tree, x);
    }
    assert NotArrived(tree, v, b) == PartsOf(tree, b);
    assert CountsItsParts(tree, b);
  }

  // ------------------------------------------------- What the invariant says about a round

  /** Rounds in which the last caller of the root has arrived. */
  ghost function Complete(v: State): nat
    requires |v.round| > 0 && |v.leader| > 0
  {
    v.round[0] + if v.leader[0].Some? then 1 else 0
  }

  /** Every caller of every barrier has arrived once for each complete round. */
  lemma {:induction false} AllArrived(tree: Tree, v: State, k: nat, b: nat)
    requires Inv(tree, v) && k <= Complete(v) && b < |tree.nodes|
    ensures forall x | x in PartsOf(tree, b) :: Arr(tree, v, x) >= k
    decreases b
  {
    assert NodeInv(tree, v, b);
    if b != 0 {
      var p := tree.nodes[b].parent.value;
      AllArrived(tree, v, k, p);
      assert Child(b) in PartsOf(tree, p);
      assert v.up[b] >= k;
    }
    forall x | x in PartsOf(tree, b)
      ensures Arr(tree, v, x) >= k
    {
      assert x in NotArrived(tree, v, b) <==> Arr(tree, v, x) == v.round[b];
    }
  }

  lemma {:induction false} RootIsAhead(tree: Tree, v: State, b: nat)
    requires Inv(tree, v) && b < |tree.nodes|
    ensures v.round[b] <= v.round[0] <= |v.winners|
    decreases b
  {
    if b != 0 {
      assert NodeInv(tree, v, b);
      RootIsAhead(tree, v, tree.nodes[b].parent.value);
    }
  }

  lemma ArrivedIfLed(tree: Tree, v: State, x: Part)
    requires Inv(tree, v) && IsPart(tree, x)
    ensures Home(tree, x) < |tree.nodes|
    ensures v.leader[Home(tree, x)].Some? ==> Arr(tree, v, x) == v.round[Home(tree, x)] + 1
  {
    var b := Home(tree, x);
    assert NodeInv(tree, v, b) && x in PartsOf(tree, b);
    assert x in NotArrived(tree, v, b) <==> Arr(tree, v, x) == v.round[b];
  }

  lemma NoResultWithoutWinner(v: State, t: nat, results: seq<bool>)
    requires ResultsInv(v, t, results)
    ensures |results| <= |v.winners|
  {
    if results != [] {
      assert results[|results| - 1] <==> v.winners[|results| - 1] == t;
    }
  }

  // ------------------------------------------------------------ Every step keeps the invariant

  lemma SelfIsPart(tree: Tree, v: State, t: nat)
    requires Inv(tree, v) && t < |v.threads| && v.threads[t].stack != []
    ensures IsPart(tree, Self(t, v.threads[t])) && Self(t, v.threads[t]) in PartsOf(tree, Top(v.threads[t]))
    ensures Arr(tree, v, Self(t, v.threads[t]))
         == |v.threads[t].results| + if v.threads[t].phase.Load? || v.threads[t].phase.Sub? then 0 else 1
    ensures PhaseInv(tree, v, t, v.threads[t]) && NodeInv(tree, v, Top(v.threads[t]))
  {
    var s := v.threads[t];
    assert StackOk(tree, t, s.stack) && ThreadInv(tree, v, t, s);
    if |s.stack| >= 2 {
      assert Linked(tree, s.stack, |s.stack| - 2);
    }
  }

  /** A thread that has yet to arrive finds no leader at the barrier. */
  lemma NoLeaderYet(tree: Tree, v: State, t: nat)
    requires Inv(tree, v) && t < |v.threads| && v.threads[t].stack != []
    requires v.threads[t].phase.Load? || v.threads[t].phase.Sub?
    ensures Self(t, v.threads[t]) in NotArrived(tree, v, Top(v.threads[t]))
    ensures v.leader[Top(v.threads[t])].None?
    ensures v.cntr[Top(v.threads[t])] == |NotArrived(tree, v, Top(v.threads[t]))|
  {
    SelfIsPart(tree, v, t);
  }

  lemma ParentIsNotOnStack(tree: Tree, v: State, t: nat, i: nat)
    requires Inv(tree, v) && t < |v.threads| && i < |v.threads[t].stack| - 1
    ensures v.threads[t].stack[i] != 0
  {
    assert StackOk(tree, t, v.threads[t].stack);
    assert Linked(tree, v.threads[t].stack, i);
  }

  /** A barrier nobody touched keeps its invariant, provided its leader still leads it. */
  lemma KeepNode(tree: Tree, v: State, v': State, b: nat)
    requires WellFormed(tree) && Shape(tree, v) && Shape(tree, v') && b < |tree.nodes| && NodeInv(tree, v, b)
    requires v'.cntr[b] == v.cntr[b] && v'.round[b] == v.round[b] && v'.leader[b] == v.leader[b]
    requires RoundInv(tree, v', b)
    requires forall x | x in PartsOf(tree, b) :: Arr(tree, v', x) == Arr(tree, v, x)
    requires v.leader[b].Some? && v.leader[b].value < |v.threads| ==> SameLead(v.threads[v.leader[b].value], v'.threads[v.leader[b].value], b)
    ensures NodeInv(tree, v', b)
  {
    assert NotArrived(tree, v', b) == NotArrived(tree, v, b);
  }

  ghost predicate SameLead(s: ThreadState, s': ThreadState, b: nat) {
    && (Leads(s, b) ==> Leads(s', b))
    && ((AtTop(s, b) && s.phase.Reset?) <==> (AtTop(s', b) && s'.phase.Reset?))
  }

  /** Other threads keep their invariant when no field they rely on changes. */
  lemma KeepThread(tree: Tree, v: State, v': State, u: nat)
    requires WellFormed(tree) && Shape(tree, v) && Shape(tree, v') && u < |v.threads| && v'.threads[u] == v.threads[u]
    requires v'.round == v.round && v'.leader == v.leader && v'.up == v.up && v'.arrived == v.arrived
    requires v'.winners == v.winners
    requires ThreadInv(tree, v, u, v.threads[u])
    ensures ThreadInv(tree, v', u, v'.threads[u])
  {
  }

  lemma LocalNodes(tree: Tree, v: State, t: nat, s': ThreadState)
    requires Inv(tree, v) && t < |v.threads| && StackOk(tree, t, s'.stack)
    requires forall b | 0 <= b < |tree.nodes| :: SameLead(v.threads[t], s', b)
    ensures NodesInv(tree, SetThread(v, t, s'))
  {
    var v' := SetThread(v, t, s');
    forall b | 0 <= b < |tree.nodes|
      ensures NodeInv(tree, v', b)
    {
      KeepNode(tree, v, v', b);
    }
  }

  /** Only thread t's own state changes, and it leads the same barriers as before. */
  lemma LocalStep(tree: Tree, v: State, t: nat, s': ThreadState)
    requires Inv(tree, v) && t < |v.threads| && StackOk(tree, t, s'.stack)
    requires forall b | 0 <= b < |tree.nodes| :: SameLead(v.threads[t], s', b)
    requires (AtTop(s', 0) && s'.phase.Bump?) <==> (AtTop(v.threads[t], 0) && v.threads[t].phase.Bump?)
    requires ThreadInv(tree, SetThread(v, t, s'), t, s')
    ensures Inv(tree, SetThread(v, t, s'))
  {
    hide CountsItsParts, NodeInv;
    var v' := SetThread(v, t, s');
    LocalNodes(tree, v, t, s');
    forall u | 0 <= u < |v.threads|
      ensures ThreadInv(tree, v', u, v'.threads[u])
    {
      if u != t {
        KeepThread(tree, v, v', u);
      }
    }
  }

  lemma EnterStep(tree: Tree, v: State, t: nat)
    requires Inv(tree, v) && t < |v.threads| && v.threads[t].stack == []
    ensures Inv(tree, Step(tree, v, t))
  {
    var s := v.threads[t];
    assert ThreadInv(tree, v, t, s);
    LocalStep(tree, v, t, s.(stack := [tree.leaf[t]], phase := Load));
  }

  lemma LoadStep(tree: Tree, v: State, t: nat)
    requires Inv(tree, v) && t < |v.threads| && v.threads[t].stack != [] && v.threads[t].phase.Load?
    ensures Inv(tree, Step(tree, v, t))
  {
    var s := v.threads[t];
    assert ThreadInv(tree, v, t, s);
    var s' := s.(phase := Sub(Byte(v.round[Top(s)])));
    assert PhaseInv(tree, v, t, s') && StackInv(v, t, s');
    LocalStep(tree, v, t, s');
  }

  lemma ByteTellsSuccessorsApart(n: nat)
    ensures Byte(n) != Byte(n + 1)
  {
  }

  /** The wrapping byte tells the truth: a spinning thread sees its round change exactly when the
    round it arrived in has ended. */
  lemma SpinnerSeesRoundEnd(tree: Tree, v: State, t: nat)
    requires Inv(tree, v) && t < |v.threads| && v.threads[t].stack != [] && v.threads[t].phase.Spin?
    ensures Byte(v.round[Top(v.threads[t])]) != v.threads[t].phase.prev
       <==> v.round[Top(v.threads[t])] == |v.threads[t].results| + 1
    ensures |v.threads[t].results| <= v.round[Top(v.threads[t])] <= |v.threads[t].results| + 1
  {
    SelfIsPart(tree, v, t);
    ByteTellsSuccessorsApart(|v.threads[t].results|);
  }

  lemma ReturnLeads(tree: Tree, v: State, t: nat, r: bool, b: nat)
    requires Inv(tree, v) && t < |v.threads| && v.threads[t].stack != [] && !v.threads[t].phase.Reset?
    requires !Leading(v.threads[t].phase) || b != Top(v.threads[t])
    ensures SameLead(v.threads[t], Return(v.threads[t], r), b)
  {
    var s := v.threads[t];
    var s' := Return(s, r);
    assert s.stack == s.stack[..|s.stack| - 1] + [Top(s)];
  }

  lemma ReturnStackOk(tree: Tree, v: State, t: nat, r: bool)
    requires Inv(tree, v) && t < |v.threads| && v.threads[t].stack != []
    ensures StackOk(tree, t, Return(v.threads[t], r).stack)
  {
    var stack := v.threads[t].stack;
    assert StackOk(tree, t, stack);
    var below := stack[..|stack| - 1];
    forall i | 0 <= i < |below| - 1
      ensures Linked(tree, below, i)
    {
      assert Linked(tree, stack, i);
    }
  }

  lemma SpinStep(tree: Tree, v: State, t: nat)
    requires Inv(tree, v) && t < |v.threads| && v.threads[t].stack != [] && v.threads[t].phase.Spin?
    ensures Inv(tree, Step(tree, v, t))
  {
    var s := v.threads[t];
    var s' := Return(s, false);
    if Byte(v.round[Top(s)]) != s.phase.prev {
      SpinnerSeesRoundEnd(tree, v, t);
      SelfIsPart(tree, v, t);
      RootIsAhead(tree, v, Top(s));
      ReturnStackOk(tree, v, t, false);
      forall b | 0 <= b < |tree.nodes|
        ensures SameLead(s, s', b)
      {
        ReturnLeads(tree, v, t, false, b);
      }
      if |s.stack| >= 2 {
        ParentIsNotOnStack(tree, v, t, |s.stack| - 2);
      }
      assert ThreadInv(tree, v, t, s);
      ReturnInv(tree, v, t, false);
      LocalStep(tree, v, t, s');
    }
  }

  lemma ReturnInv(tree: Tree, v: State, t: nat, r: bool)
    requires Inv(tree, v) && t < |v.threads| && v.threads[t].stack != [] && v.threads[t].phase.Spin?
    requires v.round[Top(v.threads[t])] == |v.threads[t].results| + 1 <= |v.winners|
    requires Shape(tree, SetThread(v, t, Return(v.threads[t], r)))
    requires r <==> v.winners[|v.threads[t].results|] == t
    ensures ThreadInv(tree, SetThread(v, t, Return(v.threads[t], r)), t, Return(v.threads[t], r))
  {
    var s := v.threads[t];
    assert ThreadInv(tree, v, t, s) && StackOk(tree, t, s.stack);
    if |s.stack| >= 2 {
      var s' := Return(s, r);
      var n := |s.stack|;
      assert Linked(tree, s.stack, n - 2);
      assert Top(s') == s.stack[n - 2];
      assert PhaseInv(tree, v, t, s');
      assert StackInv(v, t, s');
    }
  }

  // fetch_sub: one caller fewer to come, and the last one becomes the leader.

  ghost predicate Arriving(tree: Tree, v: State, t: nat) {
    Inv(tree, v) && t < |v.threads| && v.threads[t].stack != [] && v.threads[t].phase.Sub?
  }

  lemma ArriveArr(tree: Tree, v: State, t: nat, y: Part)
    requires Arriving(tree, v, t) && Shape(tree, Arrive(tree, v, t, v.threads[t].phase.prev)) && IsPart(tree, y)
    ensures Arr(tree, Arrive(tree, v, t, v.threads[t].phase.prev), y) == Arr(tree, v, y) + if y == Self(t, v.threads[t]) then 1 else 0
  {
    SelfIsPart(tree, v, t);
  }

  lemma ArriveShape(tree: Tree, v: State, t: nat)
    requires Arriving(tree, v, t)
    ensures Shape(tree, Arrive(tree, v, t, v.threads[t].phase.prev))
  {
    assert StackOk(tree, t, v.threads[t].stack);
  }

  lemma ArriveCount(tree: Tree, v: State, t: nat)
    requires Arriving(tree, v, t) && Shape(tree, Arrive(tree, v, t, v.threads[t].phase.prev))
    ensures RangeInv(tree, Arrive(tree, v, t, v.threads[t].phase.prev), Top(v.threads[t]))
    ensures |NotArrived(tree, Arrive(tree, v, t, v.threads[t].phase.prev), Top(v.threads[t]))| == |NotArrived(tree, v, Top(v.threads[t]))| - 1
  {
    var v', b, x := Arrive(tree, v, t, v.threads[t].phase.prev), Top(v.threads[t]), Self(t, v.threads[t]);
    SelfIsPart(tree, v, t);
    NoLeaderYet(tree, v, t);
    forall y | y in PartsOf(tree, b)
      ensures v'.round[b] <= Arr(tree, v', y) <= v'.round[b] + 1
      ensures y in NotArrived(tree, v', b) <==> y in NotArrived(tree, v, b) - {x}
    {
      ArriveArr(tree, v, t, y);
    }
    assert NotArrived(tree, v', b) == NotArrived(tree, v, b) - {x};
  }

  lemma ArriveTop(tree: Tree, v: State, t: nat)
    requires Arriving(tree, v, t) && Shape(tree, Arrive(tree, v, t, v.threads[t].phase.prev))
    ensures NodeInv(tree, Arrive(tree, v, t, v.threads[t].phase.prev), Top(v.threads[t]))
  {
    SelfIsPart(tree, v, t);
    NoLeaderYet(tree, v, t);
    ArriveCount(tree, v, t);
    assert StackOk(tree, t, v.threads[t].stack);
    if |v.threads[t].stack| >= 2 {
      assert Linked(tree, v.threads[t].stack, |v.threads[t].stack| - 2);
    }
  }

  lemma ArriveElsewhere(tree: Tree, v: State, t: nat, c: nat)
    requires Arriving(tree, v, t) && Shape(tree, Arrive(tree, v, t, v.threads[t].phase.prev)) && c < |tree.nodes| && c != Top(v.threads[t])
    ensures NodeInv(tree, Arrive(tree, v, t, v.threads[t].phase.prev), c)
  {
    hide CountsItsParts, RootInv, NotArrived, RangeInv, CounterInv;
    var v' := Arrive(tree, v, t, v.threads[t].phase.prev);
    SelfIsPart(tree, v, t);
    forall y | y in PartsOf(tree, c)
      ensures Arr(tree, v', y) == Arr(tree, v, y)
    {
      ArriveArr(tree, v, t, y);
    }
    assert NodeInv(tree, v, c) && ThreadInv(tree, v, t, v.threads[t]);
    KeepNode(tree, v, v', c);
  }

  lemma ArriveThread(tree: Tree, v: State, t: nat)
    requires Arriving(tree, v, t) && Shape(tree, Arrive(tree, v, t, v.threads[t].phase.prev))
    ensures ThreadInv(tree, Arrive(tree, v, t, v.threads[t].phase.prev), t, Arrive(tree, v, t, v.threads[t].phase.prev).threads[t])
  {
    SelfIsPart(tree, v, t);
    NoLeaderYet(tree, v, t);
    var b := Top(v.threads[t]);
    assert ThreadInv(tree, v, t, v.threads[t]) && NodeInv(tree, v, b);
    if |v.winners| > |v.threads[t].results| {
      AllArrived(tree, v, |v.winners|, b);
    }
  }

  lemma ResultsFrame(v: State, v': State, t: nat, results: seq<bool>)
    requires ResultsInv(v, t, results) && v'.winners == v.winners
    ensures ResultsInv(v', t, results)
  {
  }

  /** What others see of the fetch_sub. */
  lemma ArriveEffect(tree: Tree, v: State, t: nat)
    requires Arriving(tree, v, t)
    ensures var v', x := Arrive(tree, v, t, v.threads[t].phase.prev), Self(t, v.threads[t]);
      && v'.round == v.round && v'.winners == v.winners
      && |v'.up| == |v.up| && |v'.arrived| == |v.arrived| && |v'.leader| == |v.leader|
      && (forall c | 0 <= c < |v.up| && Child(c) != x :: v'.up[c] == v.up[c])
      && (forall u | 0 <= u < |v.arrived| && Thread(u) != x :: v'.arrived[u] == v.arrived[u])
      && (forall c | 0 <= c < |v.leader| && c != Top(v.threads[t]) :: v'.leader[c] == v.leader[c])
  {
    hide CountsItsParts, RootInv, NodeInv, NotArrived;
  }

  lemma ArriveOther(tree: Tree, v: State, t: nat, u: nat)
    requires Arriving(tree, v, t) && Shape(tree, Arrive(tree, v, t, v.threads[t].phase.prev)) && u < |v.threads| && u != t
    ensures ThreadInv(tree, Arrive(tree, v, t, v.threads[t].phase.prev), u, v.threads[u])
  {
    hide CountsItsParts, RootInv, NodeInv, NotArrived, Arrive, ResultsInv;
    SelfIsPart(tree, v, t);
    NoLeaderYet(tree, v, t);
    ArriveEffect(tree, v, t);
    assert ThreadInv(tree, v, t, v.threads[t]);
    assert ThreadInv(tree, v, u, v.threads[u]);
    ResultsFrame(v, Arrive(tree, v, t, v.threads[t].phase.prev), u, v.threads[u].results);
  }

  lemma ArriveRoot(tree: Tree, v: State, t: nat)
    requires Arriving(tree, v, t) && Shape(tree, Arrive(tree, v, t, v.threads[t].phase.prev))
    ensures RootInv(tree, Arrive(tree, v, t, v.threads[t].phase.prev))
  {
    NoLeaderYet(tree, v, t);
  }

  lemma ArriveStep(tree: Tree, v: State, t: nat)
    requires Arriving(tree, v, t)
    ensures Inv(tree, Step(tree, v, t))
  {
    ArriveShape(tree, v, t);
    ArriveRoot(tree, v, t);
    ArriveTop(tree, v, t);
    forall c | 0 <= c < |tree.nodes| && c != Top(v.threads[t])
      ensures NodeInv(tree, Arrive(tree, v, t, v.threads[t].phase.prev), c)
    {
      ArriveElsewhere(tree, v, t, c);
    }
    ArriveThread(tree, v, t);
    forall u | 0 <= u < |v.threads| && u != t
      ensures ThreadInv(tree, Arrive(tree, v, t, v.threads[t].phase.prev), u, Arrive(tree, v, t, v.threads[t].phase.prev).threads[u])
    {
      ArriveOther(tree, v, t, u);
    }
  }

  // cntr = threadCount: the leader restores the counter and climbs.

  ghost predicate Refilling(tree: Tree, v: State, t: nat) {
    Inv(tree, v) && t < |v.threads| && v.threads[t].stack != [] && v.threads[t].phase.Reset?
  }

  /** The parent's round is the one the leader's barrier is in, and nobody leads it yet. */
  lemma ParentAwaits(tree: Tree, v: State, t: nat)
    requires Refilling(tree, v, t)
    ensures Top(v.threads[t]) != 0 ==>
      var p := tree.nodes[Top(v.threads[t])].parent.value;
      p < |tree.nodes| && v.round[p] == |v.threads[t].results| && v.leader[p].None?
  {
    SelfIsPart(tree, v, t);
    var b := Top(v.threads[t]);
    if b != 0 {
      var p := tree.nodes[b].parent.value;
      assert NodeInv(tree, v, p) && Child(b) in PartsOf(tree, p);
      assert Child(b) in NotArrived(tree, v, p);
    }
  }

  lemma RefillShape(tree: Tree, v: State, t: nat)
    requires Refilling(tree, v, t)
    ensures Shape(tree, Refill(tree, v, t))
  {
    var s, s' := v.threads[t], Refill(tree, v, t).threads[t];
    assert StackOk(tree, t, s.stack);
    ParentAwaits(tree, v, t);
    forall i | 0 <= i < |s'.stack| - 1
      ensures Linked(tree, s'.stack, i)
    {
      if i < |s.stack| - 1 {
        assert Linked(tree, s.stack, i);
      }
    }
  }

  lemma RefillNodes(tree: Tree, v: State, t: nat)
    requires Refilling(tree, v, t) && Shape(tree, Refill(tree, v, t))
    ensures NodesInv(tree, Refill(tree, v, t))
  {
    hide CountsItsParts, RootInv, ThreadInv;
    var v' := Refill(tree, v, t);
    var s, s', b := v.threads[t], v'.threads[t], Top(v.threads[t]);
    SelfIsPart(tree, v, t);
    ParentAwaits(tree, v, t);
    forall c | 0 <= c < |tree.nodes|
      ensures NodeInv(tree, v', c)
    {
      assert NodeInv(tree, v, c);
      assert NotArrived(tree, v', c) == NotArrived(tree, v, c);
      if v.leader[c] == Some(t) {
        assert Leads(s, c) && Leads(s', c);
      }
    }
  }

  lemma RefillThread(tree: Tree, v: State, t: nat)
    requires Refilling(tree, v, t) && Shape(tree, Refill(tree, v, t))
    ensures ThreadInv(tree, Refill(tree, v, t), t, Refill(tree, v, t).threads[t])
  {
    var v' := Refill(tree, v, t);
    SelfIsPart(tree, v, t);
    ParentAwaits(tree, v, t);
    assert ThreadInv(tree, v, t, v.threads[t]);
    assert StackInv(v', t, v'.threads[t]);
    assert PhaseInv(tree, v', t, v'.threads[t]);
  }

  lemma RefillStep(tree: Tree, v: State, t: nat)
    requires Refilling(tree, v, t)
    ensures Inv(tree, Step(tree, v, t))
  {
    hide CountsItsParts, NodeInv;
    var v' := Refill(tree, v, t);
    RefillShape(tree, v, t);
    RefillNodes(tree, v, t);
    RefillThread(tree, v, t);
    SelfIsPart(tree, v, t);
    forall u | 0 <= u < |v.threads| && u != t
      ensures ThreadInv(tree, v', u, v'.threads[u])
    {
      KeepThread(tree, v, v', u);
    }
  }

  // The finalizer.

  lemma FinalOther(tree: Tree, v: State, v': State, t: nat, u: nat)
    requires WellFormed(tree) && Shape(tree, v) && ThreadsInv(tree, v) && u < |v.threads| && u != t
    requires Shape(tree, v') && v'.threads[u] == v.threads[u] && v' == v.(threads := v'.threads, winners := v.winners + [t])
    ensures ThreadInv(tree, v', u, v'.threads[u])
  {
    assert ThreadInv(tree, v, u, v.threads[u]);
  }

  lemma FinalThread(tree: Tree, v: State, t: nat)
    requires Inv(tree, v) && t < |v.threads| && v.threads[t].stack != [] && v.threads[t].phase.Final?
    ensures Shape(tree, Step(tree, v, t)) && RootInv(tree, Step(tree, v, t))
    ensures ThreadInv(tree, Step(tree, v, t), t, Step(tree, v, t).threads[t])
  {
    hide CountsItsParts, NotArrived, RangeInv, CounterInv;
    SelfIsPart(tree, v, t);
    assert StackOk(tree, t, v.threads[t].stack);
    assert ThreadInv(tree, v, t, v.threads[t]);
  }

  lemma FinalNode(tree: Tree, v: State, t: nat, c: nat)
    requires Inv(tree, v) && t < |v.threads| && v.threads[t].stack != [] && v.threads[t].phase.Final?
    requires Shape(tree, Step(tree, v, t)) && c < |tree.nodes|
    ensures NodeInv(tree, Step(tree, v, t), c)
  {
    hide CountsItsParts, NotArrived, RangeInv, CounterInv, RootInv, ThreadInv, StackOk;
    assert NodeInv(tree, v, c);
    KeepNode(tree, v, Step(tree, v, t), c);
  }

  lemma FinalStep(tree: Tree, v: State, t: nat)
    requires Inv(tree, v) && t < |v.threads| && v.threads[t].stack != [] && v.threads[t].phase.Final?
    ensures Inv(tree, Step(tree, v, t))
  {
    hide NodeInv, RootInv, ThreadInv;
    var v' := Step(tree, v, t);
    FinalThread(tree, v, t);
    forall c | 0 <= c < |tree.nodes|
      ensures NodeInv(tree, v', c)
    {
      FinalNode(tree, v, t, c);
    }
    forall u | 0 <= u < |v.threads| && u != t
      ensures ThreadInv(tree, v', u, v'.threads[u])
    {
      FinalOther(tree, v, v', t, u);
    }
  }

  // round++: the round ends, everybody waiting at the barrier may leave.

  ghost predicate Ending(tree: Tree, v: State, t: nat) {
    Inv(tree, v) && t < |v.threads| && v.threads[t].stack != [] && v.threads[t].phase.Bump?
  }

  lemma EndShape(tree: Tree, v: State, t: nat)
    requires Ending(tree, v, t)
    ensures Shape(tree, EndRound(tree, v, t, v.threads[t].phase.r))
  {
    ReturnStackOk(tree, v, t, v.threads[t].phase.r);
  }

  lemma EndTop(tree: Tree, v: State, t: nat)
    requires Ending(tree, v, t) && Shape(tree, EndRound(tree, v, t, v.threads[t].phase.r))
    ensures NodeInv(tree, EndRound(tree, v, t, v.threads[t].phase.r), Top(v.threads[t]))
  {
    var v' := EndRound(tree, v, t, v.threads[t].phase.r);
    var b := Top(v.threads[t]);
    SelfIsPart(tree, v, t);
    forall x | x in PartsOf(tree, b)
      ensures Arr(tree, v', x) == v'.round[b]
    {
      assert x !in NotArrived(tree, v, b);
    }
    assert NotArrived(tree, v', b) == PartsOf(tree, b);
    assert CountsItsParts(tree, b);
  }

  lemma EndElsewhere(tree: Tree, v: State, t: nat, c: nat)
    requires Ending(tree, v, t) && Shape(tree, EndRound(tree, v, t, v.threads[t].phase.r))
    requires c < |tree.nodes| && c != Top(v.threads[t])
    ensures NodeInv(tree, EndRound(tree, v, t, v.threads[t].phase.r), c)
  {
    var v' := EndRound(tree, v, t, v.threads[t].phase.r);
    ReturnLeads(tree, v, t, v.threads[t].phase.r, c);
    assert NodeInv(tree, v, c);
    KeepNode(tree, v, v', c);
  }

  lemma EndThread(tree: Tree, v: State, t: nat)
    requires Ending(tree, v, t) && Shape(tree, EndRound(tree, v, t, v.threads[t].phase.r))
    ensures ThreadInv(tree, EndRound(tree, v, t, v.threads[t].phase.r), t, Return(v.threads[t], v.threads[t].phase.r))
  {
    hide CountsItsParts, RootInv, NodeInv, NotArrived;
    var s := v.threads[t];
    var v' := EndRound(tree, v, t, s.phase.r);
    assert ThreadInv(tree, v, t, s) && StackOk(tree, t, s.stack);
    if |s.stack| >= 2 {
      var s' := Return(s, s.phase.r);
      StackDecreases(tree, v, t);
      assert Linked(tree, s.stack, |s.stack| - 2);
      assert Top(s') == s.stack[|s.stack| - 2];
      assert StackInv(v', t, s');
      assert PhaseInv(tree, v', t, s');
    }
  }

  /** The top of the stack is met nowhere below it. */
  lemma StackDecreases(tree: Tree, v: State, t: nat)
    requires Inv(tree, v) && t < |v.threads| && v.threads[t].stack != []
    ensures forall i | 0 <= i < |v.threads[t].stack| - 1 :: v.threads[t].stack[i] > Top(v.threads[t])
  {
    var stack := v.threads[t].stack;
    assert StackOk(tree, t, stack);
    var k := |stack| - 1;
    while k > 0
      invariant 0 <= k < |stack|
      invariant forall i | k <= i < |stack| - 1 :: stack[i] > stack[|stack| - 1]
    {
      k := k - 1;
      assert Linked(tree, stack, k);
    }
  }

  lemma EndIdle(tree: Tree, v: State, t: nat, u: nat)
    requires Ending(tree, v, t) && Shape(tree, EndRound(tree, v, t, v.threads[t].phase.r)) && u < |v.threads| && u != t
    requires v.threads[u].stack == []
    ensures ThreadInv(tree, EndRound(tree, v, t, v.threads[t].phase.r), u, v.threads[u])
  {
    var b := Top(v.threads[t]);
    SelfIsPart(tree, v, t);
    assert ThreadInv(tree, v, u, v.threads[u]);
    ArrivedIfLed(tree, v, Thread(u));
  }

  /** Nobody else is about to arrive at, or to leave the child of, a barrier whose round ends. */
  lemma EndMeetsNobody(tree: Tree, v: State, t: nat, u: nat)
    requires Ending(tree, v, t) && u < |v.threads| && u != t && v.threads[u].stack != []
    ensures Top(v.threads[u]) == Top(v.threads[t]) ==> v.threads[u].phase.Spin?
    ensures Top(v.threads[u]) != 0 && v.threads[u].phase.Bump? ==>
      tree.nodes[Top(v.threads[u])].parent.value != Top(v.threads[t])
  {
    var b, c := Top(v.threads[t]), Top(v.threads[u]);
    SelfIsPart(tree, v, t);
    SelfIsPart(tree, v, u);
    ArrivedIfLed(tree, v, Self(u, v.threads[u]));
    if c != 0 {
      ArrivedIfLed(tree, v, Child(c));
    }
  }

  lemma EndOther(tree: Tree, v: State, t: nat, u: nat)
    requires Ending(tree, v, t) && Shape(tree, EndRound(tree, v, t, v.threads[t].phase.r)) && u < |v.threads| && u != t
    requires v.threads[u].stack != []
    ensures ThreadInv(tree, EndRound(tree, v, t, v.threads[t].phase.r), u, v.threads[u])
  {
    hide CountsItsParts, RootInv, NodeInv, NotArrived;
    SelfIsPart(tree, v, t);
    assert ThreadInv(tree, v, u, v.threads[u]);
    EndMeetsNobody(tree, v, t, u);
  }

  lemma EndStep(tree: Tree, v: State, t: nat)
    requires Ending(tree, v, t)
    ensures Inv(tree, Step(tree, v, t))
  {
    var v' := EndRound(tree, v, t, v.threads[t].phase.r);
    EndShape(tree, v, t);
    EndTop(tree, v, t);
    forall c | 0 <= c < |tree.nodes| && c != Top(v.threads[t])
      ensures NodeInv(tree, v', c)
    {
      EndElsewhere(tree, v, t, c);
    }
    EndThread(tree, v, t);
    forall u | 0 <= u < |v.threads| && u != t
      ensures ThreadInv(tree, v', u, v'.threads[u])
    {
      if v.threads[u].stack == [] {
        EndIdle(tree, v, t, u);
      } else {
        EndOther(tree, v, t, u);
      }
    }
    EndRoot(tree, v, t);
  }

  lemma EndRoot(tree: Tree, v: State, t: nat)
    requires Ending(tree, v, t) && Shape(tree, EndRound(tree, v, t, v.threads[t].phase.r))
    ensures RootInv(tree, EndRound(tree, v, t, v.threads[t].phase.r))
  {
    SelfIsPart(tree, v, t);
    if |v.threads[t].stack| >= 2 {
      ParentIsNotOnStack(tree, v, t, |v.threads[t].stack| - 2);
    }
  }

  lemma StepPreservesInv(tree: Tree, v: State, t: nat)
    requires Inv(tree, v) && t < |v.threads|
    ensures Inv(tree, Step(tree, v, t))
  {
    if v.threads[t].stack == [] {
      EnterStep(tree, v, t);
    } else {
      match v.threads[t].phase
      case Load => LoadStep(tree, v, t);
      case Sub(_) => ArriveStep(tree, v, t);
      case Spin(_) => SpinStep(tree, v, t);
      case Reset => RefillStep(tree, v, t);
      case Final => FinalStep(tree, v, t);
      case Bump(_) => EndStep(tree, v, t);
    }
  }

  // ------------------------------------------------------------------- Theorems over runs

  ghost predicate IsRun(tree: Tree, run: seq<State>) {
    && run != []
    && Init(tree, run[0])
    && forall i | 0 < i < |run| :: IsStep(tree, run, i)
  }

  ghost predicate Next(tree: Tree, v: State, v': State) {
    Shape(tree, v) && exists t: nat :: t < |v.threads| && v' == Step(tree, v, t)
  }

  ghost predicate IsStep(tree: Tree, run: seq<State>, i: nat)
    requires 0 < i < |run|
  {
    Next(tree, run[i - 1], run[i])
  }

  lemma {:induction false} RunInv(tree: Tree, run: seq<State>, i: nat)
    requires WellFormed(tree) && IsRun(tree, run) && i < |run|
    ensures Inv(tree, run[i])
  {
    hide WellFormed, Init, Inv;
    if i == 0 {
      InitInv(tree, run[0]);
    } else {
      RunInv(tree, run, i - 1);
      assert IsStep(tree, run, i);
      var t: nat :| t < |run[i - 1].threads| && run[i] == Step(tree, run[i - 1], t);
      StepPreservesInv(tree, run[i - 1], t);
    }
  }

  /** No thread leaves its k-th wait before all threads have arrived at theirs. */
  lemma NobodyLeavesEarly(tree: Tree, run: seq<State>, i: nat, t: nat, k: nat)
    requires WellFormed(tree) && IsRun(tree, run) && i < |run|
    requires t < |run[i].threads| && |run[i].threads[t].results| >= k
    ensures |run[i].arrived| == |tree.leaf| && forall u | 0 <= u < |tree.leaf| :: run[i].arrived[u] >= k
  {
    RunInv(tree, run, i);
    var v := run[i];
    assert ThreadInv(tree, v, t, v.threads[t]);
    NoResultWithoutWinner(v, t, v.threads[t].results);
    forall u | 0 <= u < |tree.leaf|
      ensures v.arrived[u] >= k
    {
      AllArrived(tree, v, k, tree.leaf[u]);
      assert Thread(u) in PartsOf(tree, tree.leaf[u]);
    }
  }

  /** At every point of every run: each wait that has returned had its own run of the finalizer, and
    each run of the finalizer came after everybody's arrival for it. The finalizer has run once for
    every completed round, and at most once more, for the round being completed. */
  lemma FinalizerRunsInBetween(tree: Tree, run: seq<State>, i: nat)
    requires WellFormed(tree) && IsRun(tree, run) && i < |run|
    ensures |run[i].threads| == |run[i].arrived| == |tree.leaf| && |run[i].round| == |tree.nodes|
    ensures forall u | 0 <= u < |tree.leaf| :: |run[i].threads[u].results| <= |run[i].winners| <= run[i].arrived[u]
    ensures run[i].round[0] <= |run[i].winners| <= run[i].round[0] + 1
  {
    RunInv(tree, run, i);
    var v := run[i];
    forall u | 0 <= u < |tree.leaf|
      ensures |v.threads[u].results| <= |v.winners| <= v.arrived[u]
    {
      AllArrived(tree, v, |v.winners|, tree.leaf[u]);
      assert Thread(u) in PartsOf(tree, tree.leaf[u]);
      assert ThreadInv(tree, v, u, v.threads[u]);
      NoResultWithoutWinner(v, u, v.threads[u].results);
    }
  }

  /** While a thread is about to run the finalizer for the k-th time, all have arrived at their k-th
    wait, none has left it, and no other thread is about to run it. */
  lemma FinalizerIsAlone(tree: Tree, run: seq<State>, i: nat, t: nat)
    requires WellFormed(tree) && IsRun(tree, run) && i < |run|
    requires t < |run[i].threads| && run[i].threads[t].stack != [] && run[i].threads[t].phase.Final?
    ensures |run[i].threads| == |run[i].arrived| == |tree.leaf|
    ensures forall u | 0 <= u < |tree.leaf| ::
      run[i].arrived[u] > |run[i].winners| >= |run[i].threads[u].results|
    ensures forall u | 0 <= u < |tree.leaf| && run[i].threads[u].stack != [] && run[i].threads[u].phase.Final? :: u == t
  {
    RunInv(tree, run, i);
    var v := run[i];
    SelfIsPart(tree, v, t);
    forall u | 0 <= u < |tree.leaf|
      ensures v.arrived[u] > |v.winners| >= |v.threads[u].results|
      ensures v.threads[u].stack != [] && v.threads[u].phase.Final? ==> u == t
    {
      AllArrived(tree, v, |v.winners| + 1, tree.leaf[u]);
      assert Thread(u) in PartsOf(tree, tree.leaf[u]);
      assert ThreadInv(tree, v, u, v.threads[u]);
      NoResultWithoutWinner(v, u, v.threads[u].results);
    }
  }

  ghost predicate OnlyWinner(v: State, k: nat, w: nat) {
    w < |v.threads|
    && forall u | 0 <= u < |v.threads| :: |v.threads[u].results| > k && (v.threads[u].results[k] <==> u == w)
  }

  /** Once all threads have left their k-th wait, exactly one of them was told true. */
  lemma ExactlyOneReturnsTrue(tree: Tree, run: seq<State>, i: nat, k: nat)
    requires WellFormed(tree) && IsRun(tree, run) && i < |run| && tree.leaf != []
    requires forall u | 0 <= u < |run[i].threads| :: |run[i].threads[u].results| > k
    ensures exists w :: OnlyWinner(run[i], k, w)
  {
    RunInv(tree, run, i);
    var v := run[i];
    assert ThreadInv(tree, v, 0, v.threads[0]);
    NoResultWithoutWinner(v, 0, v.threads[0].results);
    var w := v.winners[k];
    forall u | 0 <= u < |v.threads|
      ensures v.threads[u].results[k] <==> u == w
    {
      assert ThreadInv(tree, v, u, v.threads[u]);
    }
    assert OnlyWinner(v, k, w);
  }

  /** The thread that leads a barrier, at its top or while it waits further up, is its leader. */
  lemma LeadsIsLeader(tree: Tree, v: State, t: nat, b: nat)
    requires Inv(tree, v) && t < |v.threads| && Leads(v.threads[t], b)
    ensures b < |tree.nodes| && v.leader[b] == Some(t)
  {
    SelfIsPart(tree, v, t);
    var s := v.threads[t];
    assert StackOk(tree, t, s.stack) && ThreadInv(tree, v, t, s);
    var i :| 0 <= i < |s.stack| && s.stack[i] == b;
  }

  /** From the arrival of the last caller of a barrier to `round++`, the climb to the parents
    included, no other thread is about to decrement its `cntr`: whoever is there spins. */
  lemma CounterIsQuietUntilRoundEnds(tree: Tree, run: seq<State>, i: nat, t: nat, u: nat)
    requires WellFormed(tree) && IsRun(tree, run) && i < |run| && t < |run[i].threads| && u < |run[i].threads|
    requires run[i].threads[u].stack != [] && Leads(run[i].threads[t], Top(run[i].threads[u]))
    ensures u == t || run[i].threads[u].phase.Spin?
  {
    RunInv(tree, run, i);
    LeadsIsLeader(tree, run[i], t, Top(run[i].threads[u]));
    if run[i].threads[u].phase.Load? || run[i].threads[u].phase.Sub? {
      NoLeaderYet(tree, run[i], u);
    } else {
      SelfIsPart(tree, run[i], u);
    }
  }

  /** At every point of every run a spinning thread's comparison of the wrapping byte is exact, however
    many rounds went by before: its round is at most one ahead, and the byte differs from the one
    read exactly when it is. */
  lemma ByteComparisonIsExact(tree: Tree, run: seq<State>, i: nat, t: nat)
    requires WellFormed(tree) && IsRun(tree, run) && i < |run|
    requires t < |run[i].threads| && run[i].threads[t].stack != [] && run[i].threads[t].phase.Spin?
    ensures var s := run[i].threads[t];
      && Top(s) < |run[i].round|
      && |s.results| <= run[i].round[Top(s)] <= |s.results| + 1
      && (Byte(run[i].round[Top(s)]) != s.phase.prev <==> run[i].round[Top(s)] == |s.results| + 1)
  {
    RunInv(tree, run, i);
    SpinnerSeesRoundEnd(tree, run[i], t);
  }

  // ---------------------------------------------------------------------------- Progress

  ghost predicate Blocked(s: ThreadState, v: State)
    requires s.stack != [] && Top(s) < |v.round|
  {
    s.phase.Spin? && Byte(v.round[Top(s)]) == s.phase.prev
  }

  ghost predicate AllBlocked(tree: Tree, v: State)
    requires Shape(tree, v)
  {
    forall t | 0 <= t < |v.threads| :: v.threads[t].stack != [] && Blocked(v.threads[t], v)
  }

  /** A thread stuck above node c has arrived at c's parent in its present round. */
  lemma BlockedAbove(tree: Tree, v: State, b: nat, c: nat)
    requires Inv(tree, v) && AllBlocked(tree, v) && b < |tree.nodes| && c < |tree.nodes|
    requires tree.nodes[c].parent == Some(b) && v.leader[c].Some? && v.leader[b].None?
    ensures v.up[c] != v.round[b]
  {
    var u := v.leader[c].value;
    assert NodeInv(tree, v, c);
    var s := v.threads[u];
    assert Leads(s, c);
    assert ThreadInv(tree, v, u, s) && StackOk(tree, u, s.stack);
    SpinnerSeesRoundEnd(tree, v, u);
    var i :| 0 <= i < |s.stack| && s.stack[i] == c;
    assert Linked(tree, s.stack, i);
    assert s.stack[i + 1] == b;
  }

  lemma {:induction false} BlockedMeansLed(tree: Tree, v: State, b: nat)
    requires Inv(tree, v) && AllBlocked(tree, v) && b < |tree.nodes|
    ensures v.leader[b].Some?
    decreases |tree.nodes| - b
  {
    if v.leader[b].None? {
      assert NodeInv(tree, v, b);
      var x :| x in NotArrived(tree, v, b);
      match x
      case Thread(u) =>
        assert ThreadInv(tree, v, u, v.threads[u]);
        assert v.threads[u].stack != [] && Blocked(v.threads[u], v);
        SpinnerSeesRoundEnd(tree, v, u);
      case Child(c) =>
        BlockedMeansLed(tree, v, c);
        BlockedAbove(tree, v, b, c);
    }
  }

  /** While all threads are inside `wait`, one of them can do more than spin. */
  lemma SomeThreadCanProceed(tree: Tree, run: seq<State>, i: nat)
    requires WellFormed(tree) && IsRun(tree, run) && i < |run|
    requires forall t | 0 <= t < |run[i].threads| :: run[i].threads[t].stack != []
    ensures exists t :: 0 <= t < |run[i].threads| && Top(run[i].threads[t]) < |run[i].round| && !Blocked(run[i].threads[t], run[i])
  {
    RunInv(tree, run, i);
    var v := run[i];
    if AllBlocked(tree, v) {
      BlockedMeansLed(tree, v, 0);
      assert NodeInv(tree, v, 0);
      var u := v.leader[0].value;
      assert Leads(v.threads[u], 0);
      StackDecreases(tree, v, u);
      assert false;
    }
    var t :| 0 <= t < |v.threads| && !Blocked(v.threads[t], v);
  }

  /** How far a thread has come in its present wait, in a tree of d nodes: up to where it spins or runs
    the finalizer, then down again. */
  function Place(d: nat, s: ThreadState): int {
    var h := |s.stack|;
    if h == 0 then 0 else
      match s.phase
      case Load => 4 * h - 3
      case Sub(_) => 4 * h - 2
      case Spin(_) => 4 * h - 1
      case Reset => 4 * h - 1
      case Final => 4 * d + 3
      case Bump(_) => 5 * d + 4 - h
  }

  /** The steps of one wait number less. */
  function Lap(d: nat): nat { 5 * d + 8 }

  function Way(d: nat, s: ThreadState): int { Lap(d) * |s.results| + Place(d, s) }

  function Ways(d: nat, threads: seq<ThreadState>, n: nat): int
    requires n <= |threads|
  {
    if n == 0 then 0 else Ways(d, threads, n - 1) + Way(d, threads[n - 1])
  }

  lemma {:induction false} WaysChange(d: nat, threads: seq<ThreadState>, t: nat, s: ThreadState, n: nat)
    requires t < |threads| && n <= |threads|
    ensures Ways(d, threads[t := s], n) == Ways(d, threads, n) + if t < n then Way(d, s) - Way(d, threads[t]) else 0
  {
    if n > 0 {
      WaysChange(d, threads, t, s, n - 1);
    }
  }

  lemma {:induction false} WaysBound(d: nat, threads: seq<ThreadState>, n: nat, bound: int)
    requires n <= |threads| && forall t | 0 <= t < n :: Way(d, threads[t]) <= bound
    ensures Ways(d, threads, n) <= n * bound
  {
    if n > 0 {
      WaysBound(d, threads, n - 1, bound);
      assert n * bound == (n - 1) * bound + bound;
    }
  }

  lemma StackFits(tree: Tree, v: State, t: nat)
    requires Inv(tree, v) && t < |v.threads|
    ensures |v.threads[t].stack| <= |tree.nodes|
  {
    var stack := v.threads[t].stack;
    assert StackOk(tree, t, stack);
    if stack != [] {
      var k := 0;
      while k + 1 < |stack|
        invariant k < |stack| && stack[k] + k <= stack[0]
      {
        assert Linked(tree, stack, k);
        k := k + 1;
      }
    }
  }

  lemma LapsAdd(d: nat, k: nat)
    ensures Lap(d) * (k + 1) == Lap(d) * k + Lap(d)
  {
  }

  /** Not spinning in vain. */
  ghost predicate CanMove(v: State, t: nat) {
    t < |v.threads| && (v.threads[t].stack != [] ==> Top(v.threads[t]) < |v.round| && !Blocked(v.threads[t], v))
  }

  lemma OwnWay(tree: Tree, v: State, t: nat)
    requires Inv(tree, v) && CanMove(v, t)
    ensures var v', d := Step(tree, v, t), |tree.nodes|;
      && |v'.threads| == |v.threads| && v'.threads == v.threads[t := v'.threads[t]]
      && Way(d, v'.threads[t]) > Way(d, v.threads[t])
  {
    hide NodesInv, RootInv, ThreadInv, CountsItsParts;
    StackFits(tree, v, t);
    LapsAdd(|tree.nodes|, |v.threads[t].results|);
  }

  lemma WayBound(tree: Tree, v: State, t: nat)
    requires Inv(tree, v) && t < |v.threads|
    ensures Way(|tree.nodes|, v.threads[t]) <= Lap(|tree.nodes|) * (v.round[0] + 2)
  {
    hide NodesInv, CountsItsParts;
    StackFits(tree, v, t);
    assert ThreadInv(tree, v, t, v.threads[t]);
    NoResultWithoutWinner(v, t, v.threads[t].results);
    LapsAdd(|tree.nodes|, |v.threads[t].results|);
    LapsGrow(|tree.nodes|, |v.threads[t].results| + 1, v.round[0] + 2);
  }

  lemma LapsGrow(d: nat, a: nat, b: nat)
    requires a <= b
    ensures Lap(d) * a <= Lap(d) * b
  {
  }

  /** The step from run[k] is one of a thread that was not spinning in vain. */
  ghost predicate IsBusy(tree: Tree, run: seq<State>, k: nat)
    requires k + 1 < |run|
  {
    Shape(tree, run[k]) && exists t: nat :: CanMove(run[k], t) && run[k + 1] == Step(tree, run[k], t)
  }

  ghost function Busy(tree: Tree, run: seq<State>, n: nat): nat
    requires n < |run|
  {
    if n == 0 then 0 else Busy(tree, run, n - 1) + if IsBusy(tree, run, n - 1) then 1 else 0
  }

  lemma NextWays(tree: Tree, run: seq<State>, k: nat)
    requires WellFormed(tree) && IsRun(tree, run) && k + 1 < |run|
    ensures |run[k].threads| == |run[k + 1].threads| == |tree.leaf|
    ensures Ways(|tree.nodes|, run[k + 1].threads, |tree.leaf|)
         >= Ways(|tree.nodes|, run[k].threads, |tree.leaf|) + if IsBusy(tree, run, k) then 1 else 0
  {
    hide WellFormed, Init, NodesInv, RootInv, ThreadsInv, Step, Way, Blocked;
    RunInv(tree, run, k);
    var v, v' := run[k], run[k + 1];
    if IsBusy(tree, run, k) {
      var t: nat :| CanMove(v, t) && v' == Step(tree, v, t);
      OwnWay(tree, v, t);
      WaysChange(|tree.nodes|, v.threads, t, v'.threads[t], |tree.leaf|);
    } else {
      assert IsStep(tree, run, k + 1);
      var t: nat :| t < |v.threads| && v' == Step(tree, v, t);
      VainSpin(tree, v, t);
    }
  }

  lemma VainSpin(tree: Tree, v: State, t: nat)
    requires Inv(tree, v) && t < |v.threads| && !CanMove(v, t)
    ensures Step(tree, v, t) == v
  {
    hide NodesInv, RootInv, ThreadInv, CountsItsParts;
    assert StackOk(tree, t, v.threads[t].stack);
  }

  lemma {:induction false} BusyIsWay(tree: Tree, run: seq<State>, n: nat)
    requires WellFormed(tree) && IsRun(tree, run) && n < |run|
    ensures |run[n].threads| == |tree.leaf|
    ensures Busy(tree, run, n) <= Ways(|tree.nodes|, run[n].threads, |tree.leaf|)
  {
    hide WellFormed, Inv, IsBusy, Way;
    if n == 0 {
      NoWayYet(tree, run[0], |tree.leaf|);
    } else {
      BusyIsWay(tree, run, n - 1);
      NextWays(tree, run, n - 1);
    }
  }

  lemma {:induction false} NoWayYet(tree: Tree, v: State, n: nat)
    requires Init(tree, v) && n <= |tree.leaf|
    ensures Ways(|tree.nodes|, v.threads, n) == 0
  {
    if n > 0 {
      NoWayYet(tree, v, n - 1);
    }
  }

  /** No run stays in a round for ever except by spinning in vain: the other steps number at most what the
    rounds completed at the root allow. With SomeThreadCanProceed, a fair schedule ends every round. */
  lemma RoundsGoOn(tree: Tree, run: seq<State>, n: nat)
    requires WellFormed(tree) && IsRun(tree, run) && n < |run|
    ensures |run[n].round| == |tree.nodes| > 0
    ensures Busy(tree, run, n) <= |tree.leaf| * ((5 * |tree.nodes| + 8) * (run[n].round[0] + 2))
  {
    hide IsRun, NodesInv, RootInv, ThreadsInv, Way, Busy;
    BusyIsWay(tree, run, n);
    RunInv(tree, run, n);
    forall t | 0 <= t < |tree.leaf|
      ensures Way(|tree.nodes|, run[n].threads[t]) <= Lap(|tree.nodes|) * (run[n].round[0] + 2)
    {
      WayBound(tree, run[n], t);
    }
    WaysBound(|tree.nodes|, run[n].threads, |tree.leaf|, Lap(|tree.nodes|) * (run[n].round[0] + 2));
  }
}
