/** The multi-device scheduler (exchange.cpp, primitive_graph.cpp) as a transition system.

  Each device has a main thread, which pops operators off a shared queue and waits for their
  inputs, and a worker thread, which executes them; the two hand over through `ready` and
  `processed`, guarded by the device's mutex. Any number of devices interleave freely. A failed
  pop leaves the loop. Condition variables are their predicates: a waiting thread proceeds
  when the mutex is free and its predicate holds, however it was woken. */
module Exchange {
  import opened Common

  datatype Kind = Scan | Display | Kernel

  datatype Edge = Edge(src: nat, dst: nat)

  datatype Graph = Graph(kinds: seq<Kind>, edges: seq<Edge>)

  // boost::lockfree::capacity<20>
  const CAPACITY: nat := 20

  // --------------------------------------------------------------------- The work queue

  /** What boost::topological_sort promises of the vertex order: every vertex once, sources of
    edges before their targets. */
  ghost predicate IsTopological(g: Graph, order: seq<nat>) {
    && Distinct(order)
    && (forall i | 0 <= i < |order| :: order[i] < |g.kinds|)
    && (forall e | 0 <= e < |g.edges| :: InOrder(order, g.edges[e]))
  }

  ghost predicate InOrder(order: seq<nat>, e: Edge) {
    exists i, j :: 0 <= i < j < |order| && order[i] == e.src && order[j] == e.dst
  }

  /** Operators feed kernels; the display vertex ends the plan. */
  ghost predicate DisplayIsLast(g: Graph) {
    forall e | 0 <= e < |g.edges| :: g.edges[e].src < |g.kinds| ==> g.kinds[g.edges[e].src] != Display
  }

  /** The kernels of the order: everything that is neither a scan nor the display. */
  function Kernels(g: Graph, order: seq<nat>): (ks: seq<nat>)
    requires forall i | 0 <= i < |order| :: order[i] < |g.kinds|
    ensures forall k | k in ks :: k in order && k < |g.kinds| && g.kinds[k] == Kernel
  {
    if order == [] then [] else
      var v := order[|order| - 1];
      Kernels(g, order[..|order| - 1]) + if g.kinds[v] == Kernel then [v] else []
  }

  /** No kernel of the order is missing among them. */
  lemma {:induction false} KernelsAreAll(g: Graph, order: seq<nat>, i: nat)
    requires (forall k | 0 <= k < |order| :: order[k] < |g.kinds|) && i < |order|
    ensures order[i] in Kernels(g, order) <==> g.kinds[order[i]] == Kernel
  {
    if i < |order| - 1 {
      KernelsAreAll(g, order[..|order| - 1], i);
    }
  }

  function Take(s: seq<nat>, n: nat): (t: seq<nat>)
    ensures t <= s && |t| == if |s| <= n then |s| else n
  {
    if |s| <= n then s else s[..n]
  }

  /** Scans put their data in place when the queue is formed: their edges are ready at once. */
  function ReadyFromScans(g: Graph, order: seq<nat>): (ready: seq<bool>)
    ensures |ready| == |g.edges|
  {
    seq(|g.edges|, e requires 0 <= e < |g.edges| =>
      g.edges[e].src in order && g.edges[e].src < |g.kinds| && g.kinds[g.edges[e].src] == Scan)
  }

  /** form_lockfree_processing_queue. The queue has room for 20 operators and the result of `push`
    is not looked at: operators beyond the twentieth are dropped. */
  method FormProcessingQueue(g: Graph, order: seq<nat>) returns (queue: seq<nat>, ready: seq<bool>)
    requires forall i | 0 <= i < |order| :: order[i] < |g.kinds|
    ensures queue == Take(Kernels(g, order), CAPACITY)
    ensures ready == ReadyFromScans(g, order)
    ensures forall e | 0 <= e < |g.edges| :: ready[e] <==> g.edges[e].src in order && g.kinds[g.edges[e].src] == Scan
  {
    queue := [];
    ready := seq(|g.edges|, _ => false);
    for i := 0 to |order|
      invariant queue == Take(Kernels(g, order[..i]), CAPACITY)
      invariant ready == ReadyFromScans(g, order[..i])
    {
      assert order[..i + 1][..i] == order[..i];
      var v := order[i];
      if g.kinds[v] == Scan {
        ghost var before := ready;
        for e := 0 to |g.edges|
          invariant |ready| == |g.edges|
          invariant forall k | 0 <= k < |g.edges| :: ready[k] <==> before[k] || (k < e && g.edges[k].src == v)
        {
          if g.edges[e].src == v {
            ready := ready[e := true];
          }
        }
      } else if g.kinds[v] == Display {
      } else if |queue| < CAPACITY {
        queue := queue + [v];
      }
    }
    assert order[..|order|] == order;
  }

  // ------------------------------------------------------------------------- Scheduler

  datatype Main =
    | Check                            // while (!queue.empty())
    | Pop                              // queue.pop(process_vertex)
    | Inputs(e: nat, inputSet: bool)   // transfer_op: reading the flags of the incoming edges
    | Signal                           // ready = true under the lock
    | Wait                             // wait until processed
    | Reset                            // processed = false
    | SetStop                          // process_vertex = INT_MAX
    | SignalStop
    | WaitStop
    | Join
    | Done

  datatype Worker =
    | Await                 // wait until ready, which takes the lock
    | Accept                // ready = false
    | Decide                // process_vertex == INT_MAX?
    | Execute               // compile and execute the operator
    | Mark(e: nat)          // ready_for_next_step on outgoing edges
    | Report(stop: bool)    // processed = true
    | Unlock(stop: bool)
    | Exited

  /** One device. `ticket` is the place in the queue of the operator its main thread popped
    last, `stop` whether process_vertex is INT_MAX. */
  datatype Device = Device(main: Main, worker: Worker, ready: bool, processed: bool, locked: bool, ticket: nat, stop: bool)

  /** `jobs` is the queue as formed; its first |owner| operators have been popped, the i-th by
    device owner[i]. `flags` are the edges' ready_for_next_step; `executed` lists the operators
    in the order they were executed. */
  datatype State = State(jobs: seq<nat>, owner: seq<nat>, flags: seq<bool>, devices: seq<Device>, executed: seq<nat>)

  datatype Actor = MainOf(d: nat) | WorkerOf(d: nat)

  predicate Empty(v: State) { |v.owner| >= |v.jobs| }

  /** A main thread between popping an operator and seeing it processed. */
  predicate Working(d: Device) { d.main.Inputs? || d.main.Signal? || d.main.Wait? }

  /** The operator a device popped last. */
  function Job(v: State, d: Device): nat {
    if d.ticket < |v.jobs| then v.jobs[d.ticket] else 0
  }

  predicate Flag(v: State, e: nat) { e < |v.flags| && v.flags[e] }

  predicate Enabled(v: State, a: Actor) {
    a.d < |v.devices| &&
    var d := v.devices[a.d];
    match a
    case MainOf(_) =>
      (match d.main
       case Signal => !d.locked
       case SignalStop => !d.locked
       case Wait => !d.locked && d.processed
       case WaitStop => !d.locked && d.processed
       case Join => d.worker.Exited?
       case Done => false
       case _ => true)
    case WorkerOf(_) =>
      (match d.worker
       case Await => !d.locked && d.ready
       case Exited => false
       case _ => true)
  }

  function Set(v: State, i: nat, d: Device): State
    requires i < |v.devices|
  {
    v.(devices := v.devices[i := d])
  }

  function MainStep(g: Graph, v: State, i: nat): State
    requires i < |v.devices|
  {
    var d := v.devices[i];
    match d.main
    case Check => Set(v, i, d.(main := if Empty(v) then SetStop else Pop))
    case Pop =>
      if Empty(v) then Set(v, i, d.(main := SetStop))
      else Set(v, i, d.(main := Inputs(0, true), ticket := |v.owner|)).(owner := v.owner + [i])
    case Inputs(e, inputSet) =>
      if e < |g.edges| then
        Set(v, i, d.(main := Inputs(e + 1, inputSet && (g.edges[e].dst == Job(v, d) ==> Flag(v, e)))))
      else
        Set(v, i, d.(main := if inputSet then Signal else Inputs(0, true)))
    case Signal => Set(v, i, d.(main := Wait, ready := true))
    case Wait => Set(v, i, d.(main := Reset))
    case Reset => Set(v, i, d.(main := Check, processed := false))
    case SetStop => Set(v, i, d.(main := SignalStop, stop := true))
    case SignalStop => Set(v, i, d.(main := WaitStop, ready := true))
    case WaitStop => Set(v, i, d.(main := Join))
    case Join => Set(v, i, d.(main := Done))
    case Done => v
  }

  function WorkerStep(g: Graph, v: State, i: nat): State
    requires i < |v.devices|
  {
    var d := v.devices[i];
    match d.worker
    case Await => Set(v, i, d.(worker := Accept, locked := true))
    case Accept => Set(v, i, d.(worker := Decide, ready := false))
    case Decide => Set(v, i, d.(worker := if d.stop then Report(true) else Execute))
    case Execute => Set(v, i, d.(worker := Mark(0))).(executed := v.executed + [Job(v, d)])
    case Mark(e) =>
      if e < |g.edges| then
        var w := Set(v, i, d.(worker := Mark(e + 1)));
        if g.edges[e].src == Job(v, d) && e < |v.flags| then w.(flags := v.flags[e := true]) else w
      else
        Set(v, i, d.(worker := Report(false)))
    case Report(stop) => Set(v, i, d.(worker := Unlock(stop), processed := true))
    case Unlock(stop) => Set(v, i, d.(worker := if stop then Exited else Await, locked := false))
    case Exited => v
  }

  function Step(g: Graph, v: State, a: Actor): State
    requires a.d < |v.devices|
  {
    match a
    case MainOf(i) => MainStep(g, v, i)
    case WorkerOf(i) => WorkerStep(g, v, i)
  }

  ghost predicate Init(g: Graph, order: seq<nat>, v: State)
    requires forall i | 0 <= i < |order| :: order[i] < |g.kinds|
  {
    && v.jobs == Take(Kernels(g, order), CAPACITY)
    && v.flags == ReadyFromScans(g, order)
    && v.owner == [] && v.executed == []
    && forall i | 0 <= i < |v.devices| :: v.devices[i] == Device(Check, Await, false, false, false, 0, false)
  }

  // ------------------------------------------------------------------------- Invariant

  /** The main thread has the device to itself. */
  ghost predicate Resting(d: Device) { d.worker.Await? && !d.ready && !d.locked && !d.processed }

  /** The operation is with the worker, or came back from it. */
  ghost predicate HandedOver(d: Device) {
    match d.worker
    case Await => !d.locked && d.ready != d.processed
    case Accept => d.ready && d.locked && !d.processed
    case Unlock(_) => !d.ready && d.locked && d.processed
    case Exited => !d.ready && !d.locked && d.processed
    case _ => !d.ready && d.locked && !d.processed
  }

  /** The handshake of one device. */
  ghost predicate HandshakeInv(d: Device) {
    match d.main
    case Wait =>
      !d.stop && HandedOver(d) && !d.worker.Exited? && d.worker != Report(true) && d.worker != Unlock(true)
    case Reset => !d.stop && d.worker.Await? && !d.ready && !d.locked && d.processed
    case SignalStop => d.stop && Resting(d)
    case WaitStop =>
      d.stop && HandedOver(d) && !d.worker.Execute? && !d.worker.Mark?
      && d.worker != Report(false) && d.worker != Unlock(false) && (d.worker.Await? ==> d.ready)
    case Join => d.stop && d.worker.Exited? && !d.ready && !d.locked && d.processed
    case Done => d.stop && d.worker.Exited? && !d.ready && !d.locked && d.processed
    case _ => !d.stop && Resting(d)
  }

  ghost predicate Stopping(d: Device) {
    d.main.SetStop? || d.main.SignalStop? || d.main.WaitStop? || d.main.Join? || d.main.Done?
  }

  /** The worker has executed the operator at hand. */
  ghost predicate HasRun(d: Device) {
    d.main.Wait? && (d.worker.Mark? || d.worker.Report? || d.worker.Unlock? || (d.worker.Await? && d.processed))
  }

  ghost predicate InFlagged(g: Graph, v: State, job: nat, upTo: nat) {
    forall e | 0 <= e < upTo && e < |g.edges| :: g.edges[e].dst == job ==> Flag(v, e)
  }

  ghost predicate OutFlagged(g: Graph, v: State, job: nat, upTo: nat) {
    forall e | 0 <= e < upTo && e < |g.edges| :: g.edges[e].src == job ==> Flag(v, e)
  }

  /** What a device at work has established about its operator. */
  ghost predicate WorkInv(g: Graph, v: State, i: nat)
    requires i < |v.devices|
  {
    var d := v.devices[i];
    (Stopping(d) ==> Empty(v)) &&
    (Working(d) ==>
       && d.ticket < |v.owner| <= |v.jobs| && v.owner[d.ticket] == i
       && (HasRun(d) <==> Job(v, d) in v.executed)
       && (if d.main.Inputs?
           then d.main.e <= |g.edges| && (d.main.inputSet ==> InFlagged(g, v, Job(v, d), d.main.e))
           else InFlagged(g, v, Job(v, d), |g.edges|))
       && (d.worker.Mark? ==> d.worker.e <= |g.edges| && OutFlagged(g, v, Job(v, d), d.worker.e))
       && (HasRun(d) && !d.worker.Mark? ==> OutFlagged(g, v, Job(v, d), |g.edges|)))
  }

  ghost predicate DeviceInv(g: Graph, v: State, i: nat)
    requires i < |v.devices|
  {
    HandshakeInv(v.devices[i]) && WorkInv(g, v, i)
  }

  /** Every popped operator is at work on the device that popped it, or finished. */
  ghost predicate TicketInv(g: Graph, v: State, k: nat)
    requires k < |v.owner| <= |v.jobs|
  {
    && v.owner[k] < |v.devices|
    && ((Working(v.devices[v.owner[k]]) && v.devices[v.owner[k]].ticket == k)
        || (v.jobs[k] in v.executed && OutFlagged(g, v, v.jobs[k], |g.edges|)))
  }

  ghost predicate IsScan(g: Graph, u: nat) { u < |g.kinds| && g.kinds[u] == Scan }

  /** Everything an operator reads has been produced. */
  ghost predicate FlagInv(g: Graph, v: State, e: nat)
    requires e < |g.edges|
  {
    Flag(v, e) ==> IsScan(g, g.edges[e].src) || g.edges[e].src in v.executed
  }

  ghost predicate Preceded(g: Graph, executed: seq<nat>, n: nat)
    requires n < |executed|
  {
    forall e | 0 <= e < |g.edges| ::
      g.edges[e].dst == executed[n] ==> IsScan(g, g.edges[e].src) || g.edges[e].src in executed[..n]
  }

  ghost predicate WasPopped(v: State, u: nat) {
    exists k :: 0 <= k < |v.owner| && k < |v.jobs| && v.jobs[k] == u
  }

  ghost predicate Inv(g: Graph, v: State) {
    && |v.flags| == |g.edges| && |v.owner| <= |v.jobs|
    && Distinct(v.jobs) && Distinct(v.executed)
    && (forall u | u in v.executed :: WasPopped(v, u))
    && (forall i | 0 <= i < |v.devices| :: DeviceInv(g, v, i))
    && (forall k | 0 <= k < |v.owner| :: TicketInv(g, v, k))
    && (forall e | 0 <= e < |g.edges| :: FlagInv(g, v, e))
    && (forall n | 0 <= n < |v.executed| :: Preceded(g, v.executed, n))
  }

  // -------------------------------------------------------------- Preservation: the frame

  /** How a step of device i looks to everybody else. */
  ghost predicate Later(v: State, v': State, i: nat) {
    && v'.jobs == v.jobs && v.owner <= v'.owner && |v'.owner| <= |v'.jobs|
    && |v'.flags| == |v.flags| && (forall e | 0 <= e < |v.flags| :: v.flags[e] ==> v'.flags[e])
    && v.executed <= v'.executed
    && |v'.devices| == |v.devices|
    && (forall j | 0 <= j < |v.devices| :: j != i ==> v'.devices[j] == v.devices[j])
  }

  /** What may be new in `executed`: the operator at hand of device i. */
  ghost predicate RanHere(v: State, v': State, i: nat)
    requires i < |v.devices|
  {
    v'.executed == v.executed || v'.executed == v.executed + [Job(v, v.devices[i])]
  }

  lemma OtherDeviceKept(g: Graph, v: State, v': State, i: nat, j: nat)
    requires i < |v.devices| && j < |v.devices| && i != j
    requires Later(v, v', i) && RanHere(v, v', i) && Distinct(v.jobs)
    requires DeviceInv(g, v, i) && DeviceInv(g, v, j)
    requires v'.executed != v.executed ==> Working(v.devices[i])
    ensures DeviceInv(g, v', j)
  {
    var d := v.devices[j];
    assert v'.devices[j] == d;
    if Working(d) && Working(v.devices[i]) {
      assert v.devices[i].ticket != d.ticket;
      assert v.jobs[v.devices[i].ticket] != v.jobs[d.ticket];
    }
  }

  lemma TicketKept(g: Graph, v: State, v': State, i: nat, k: nat)
    requires i < |v.devices| && k < |v.owner| <= |v.jobs|
    requires Later(v, v', i) && TicketInv(g, v, k)
    requires v.owner[k] == i && Working(v.devices[i]) && v.devices[i].ticket == k ==>
      (Working(v'.devices[i]) && v'.devices[i].ticket == k)
      || (v'.jobs[k] in v'.executed && OutFlagged(g, v', v'.jobs[k], |g.edges|))
    ensures TicketInv(g, v', k)
  {
  }

  lemma FlagKept(g: Graph, v: State, v': State, i: nat, e: nat)
    requires e < |g.edges| == |v.flags| && Later(v, v', i) && FlagInv(g, v, e)
    requires v'.flags[e] != v.flags[e] ==> g.edges[e].src in v.executed
    ensures FlagInv(g, v', e)
  {
  }

  /** A step that executes nothing. */
  lemma StepKeepsInv(g: Graph, v: State, v': State, i: nat)
    requires Inv(g, v) && i < |v.devices| && Later(v, v', i) && v'.executed == v.executed
    requires DeviceInv(g, v', i)
    requires forall k | 0 <= k < |v.owner| :: TicketInv(g, v', k)
    requires v'.owner == v.owner || (v'.owner == v.owner + [i] && TicketInv(g, v', |v.owner|))
    requires forall e | 0 <= e < |v.flags| :: v'.flags[e] != v.flags[e] ==> g.edges[e].src in v.executed
    ensures Inv(g, v')
  {
    forall j | 0 <= j < |v.devices|
      ensures DeviceInv(g, v', j)
    {
      if j != i {
        OtherDeviceKept(g, v, v', i, j);
      }
    }
    forall e | 0 <= e < |g.edges|
      ensures FlagInv(g, v', e)
    {
      FlagKept(g, v, v', i, e);
    }
    PoppedKept(v, v', i);
  }

  lemma PoppedKept(v: State, v': State, i: nat)
    requires Later(v, v', i) && forall u | u in v.executed :: WasPopped(v, u)
    ensures forall u | u in v.executed :: WasPopped(v', u)
  {
    forall u | u in v.executed
      ensures WasPopped(v', u)
    {
      var k :| 0 <= k < |v.owner| && k < |v.jobs| && v.jobs[k] == u;
      assert v'.jobs[k] == u;
    }
  }

  // -------------------------------------------------------------- Preservation: main thread

  /** Everything but popping: the shared words stay, and an operator leaves `Working` finished. */
  lemma MainKeepsInv(g: Graph, v: State, i: nat)
    requires Inv(g, v) && Enabled(v, MainOf(i)) && (v.devices[i].main.Pop? ==> Empty(v))
    ensures Inv(g, MainStep(g, v, i))
  {
    var d, v' := v.devices[i], MainStep(g, v, i);
    var d' := v'.devices[i];
    assert DeviceInv(g, v, i);
    assert v' == Set(v, i, d');
    MainDeviceKept(g, v, i);
    forall k | 0 <= k < |v.owner|
      ensures TicketInv(g, v', k)
    {
      assert TicketInv(g, v, k);
      if Working(d) && !Working(d') {
        assert HasRun(d) && !d.worker.Mark?;
      }
      TicketKept(g, v, v', i, k);
    }
    StepKeepsInv(g, v, v', i);
  }

  lemma MainDeviceKept(g: Graph, v: State, i: nat)
    requires i < |v.devices| && DeviceInv(g, v, i) && Enabled(v, MainOf(i)) && |v.flags| == |g.edges|
    requires v.devices[i].main.Pop? ==> Empty(v)
    ensures DeviceInv(g, MainStep(g, v, i), i)
  {
    var d, v' := v.devices[i], MainStep(g, v, i);
    var d' := v'.devices[i];
    assert Job(v', d') == Job(v, d);
    assert forall e: nat :: Flag(v', e) == Flag(v, e);
  }

  lemma NextIsNew(v: State)
    requires Distinct(v.jobs) && !Empty(v) && forall u | u in v.executed :: WasPopped(v, u)
    ensures v.jobs[|v.owner|] !in v.executed
  {
    assert v.jobs[|v.owner|] in v.executed ==> WasPopped(v, v.jobs[|v.owner|]);
  }

  lemma PopKeepsInv(g: Graph, v: State, i: nat)
    requires Inv(g, v) && Enabled(v, MainOf(i)) && v.devices[i].main.Pop? && !Empty(v)
    ensures Inv(g, MainStep(g, v, i))
  {
    var d, v' := v.devices[i], MainStep(g, v, i);
    var k := |v.owner|;
    assert DeviceInv(g, v, i);
    NextIsNew(v);
    forall k' | 0 <= k' < |v.owner|
      ensures TicketInv(g, v', k')
    {
      assert TicketInv(g, v, k');
      TicketKept(g, v, v', i, k');
    }
    StepKeepsInv(g, v, v', i);
  }

  // ------------------------------------------------------------ Preservation: worker thread

  /** Everything but executing and marking: only the device itself changes. */
  lemma WorkerKeepsInv(g: Graph, v: State, i: nat)
    requires Inv(g, v) && Enabled(v, WorkerOf(i)) && !v.devices[i].worker.Execute?
    requires v.devices[i].worker.Mark? ==> v.devices[i].worker.e >= |g.edges|
    ensures Inv(g, WorkerStep(g, v, i))
  {
    var d, v' := v.devices[i], WorkerStep(g, v, i);
    var d' := v'.devices[i];
    assert DeviceInv(g, v, i);
    assert v' == Set(v, i, d');
    assert Job(v', d') == Job(v, d);
    assert forall e: nat :: Flag(v', e) == Flag(v, e);
    forall k | 0 <= k < |v.owner|
      ensures TicketInv(g, v', k)
    {
      assert TicketInv(g, v, k);
      TicketKept(g, v, v', i, k);
    }
    StepKeepsInv(g, v, v', i);
  }

  lemma MarkKeepsInv(g: Graph, v: State, i: nat)
    requires Inv(g, v) && Enabled(v, WorkerOf(i))
    requires v.devices[i].worker.Mark? && v.devices[i].worker.e < |g.edges|
    ensures Inv(g, WorkerStep(g, v, i))
  {
    var d, v' := v.devices[i], WorkerStep(g, v, i);
    var d' := v'.devices[i];
    assert DeviceInv(g, v, i);
    assert d.main.Wait? && HasRun(d) && Job(v, d) in v.executed;
    assert Job(v', d') == Job(v, d);
    forall k | 0 <= k < |v.owner|
      ensures TicketInv(g, v', k)
    {
      assert TicketInv(g, v, k);
      TicketKept(g, v, v', i, k);
    }
    StepKeepsInv(g, v, v', i);
  }

  lemma InputsProduced(g: Graph, v: State, i: nat)
    requires Inv(g, v) && i < |v.devices| && v.devices[i].main.Wait?
    ensures forall e | 0 <= e < |g.edges| ::
      g.edges[e].dst == Job(v, v.devices[i]) ==> IsScan(g, g.edges[e].src) || g.edges[e].src in v.executed
  {
    assert DeviceInv(g, v, i);
    forall e | 0 <= e < |g.edges| && g.edges[e].dst == Job(v, v.devices[i])
      ensures IsScan(g, g.edges[e].src) || g.edges[e].src in v.executed
    {
      assert FlagInv(g, v, e);
    }
  }

  /** The operator executes once, and after everything it reads. */
  lemma ExecuteKeepsInv(g: Graph, v: State, i: nat)
    requires Inv(g, v) && Enabled(v, WorkerOf(i)) && v.devices[i].worker.Execute?
    ensures Inv(g, WorkerStep(g, v, i))
  {
    var d, v' := v.devices[i], WorkerStep(g, v, i);
    var d', job := v'.devices[i], Job(v, v.devices[i]);
    assert DeviceInv(g, v, i);
    assert d.main.Wait? && job !in v.executed && v.jobs[d.ticket] == job;
    assert Job(v', d') == job && v'.executed == v.executed + [job];
    forall j | 0 <= j < |v.devices|
      ensures DeviceInv(g, v', j)
    {
      if j != i {
        OtherDeviceKept(g, v, v', i, j);
      }
    }
    forall k | 0 <= k < |v.owner|
      ensures TicketInv(g, v', k)
    {
      assert TicketInv(g, v, k);
      TicketKept(g, v, v', i, k);
    }
    forall n | 0 <= n < |v'.executed|
      ensures Preceded(g, v'.executed, n)
    {
      if n < |v.executed| {
        assert Preceded(g, v.executed, n);
        assert v'.executed[..n] == v.executed[..n];
      } else {
        assert v'.executed[..n] == v.executed;
        InputsProduced(g, v, i);
      }
    }
    forall e | 0 <= e < |g.edges|
      ensures FlagInv(g, v', e)
    {
      FlagKept(g, v, v', i, e);
    }
    PoppedKept(v, v', i);
    assert WasPopped(v', job);
  }

  lemma StepPreservesInv(g: Graph, v: State, a: Actor)
    requires Inv(g, v) && Enabled(v, a)
    ensures Inv(g, Step(g, v, a))
  {
    var d := v.devices[a.d];
    match a
    case MainOf(i) =>
      if d.main.Pop? && !Empty(v) {
        PopKeepsInv(g, v, i);
      } else {
        MainKeepsInv(g, v, i);
      }
    case WorkerOf(i) =>
      if d.worker.Execute? {
        ExecuteKeepsInv(g, v, i);
      } else if d.worker.Mark? && d.worker.e < |g.edges| {
        MarkKeepsInv(g, v, i);
      } else {
        WorkerKeepsInv(g, v, i);
      }
  }

  // ------------------------------------------------------------------- The queue as a plan

  lemma {:induction false} KernelIn(g: Graph, order: seq<nat>, i: nat)
    requires forall n | 0 <= n < |order| :: order[n] < |g.kinds|
    requires i < |order| && g.kinds[order[i]] == Kernel
    ensures order[i] in Kernels(g, order)
    decreases |order|
  {
    if i < |order| - 1 {
      KernelIn(g, order[..|order| - 1], i);
    }
  }

  lemma {:induction false} KernelsDistinct(g: Graph, order: seq<nat>)
    requires forall n | 0 <= n < |order| :: order[n] < |g.kinds|
    requires Distinct(order)
    ensures Distinct(Kernels(g, order))
    decreases |order|
  {
    if order != [] {
      var front, v := order[..|order| - 1], order[|order| - 1];
      KernelsDistinct(g, front);
      assert forall k | k in Kernels(g, front) :: k in front;
    }
  }

  /** The queue keeps the order of the plan: a kernel earlier in the plan is popped earlier. */
  lemma {:induction false} KernelsKeepOrder(g: Graph, order: seq<nat>, i: nat, j: nat, k: nat)
    requires forall n | 0 <= n < |order| :: order[n] < |g.kinds|
    requires Distinct(order) && i < j < |order| && g.kinds[order[i]] == Kernel
    requires k < |Kernels(g, order)| && Kernels(g, order)[k] == order[j]
    ensures order[i] in Kernels(g, order)[..k]
    decreases |order|
  {
    var front, v := order[..|order| - 1], order[|order| - 1];
    var before := Kernels(g, front);
    assert Kernels(g, order) == before + if g.kinds[v] == Kernel then [v] else [];
    if j == |order| - 1 {
      assert order[j] !in front && order[j] !in before;
      assert k == |before|;
      KernelIn(g, front, i);
      assert Kernels(g, order)[..k] == before;
    } else {
      KernelsKeepOrder(g, front, i, j, k);
      assert Kernels(g, order)[..k] == before[..k];
    }
  }

  /** execute_graph, the sequential execution: the kernels in the order of the plan. */
  method ExecuteGraph(g: Graph, order: seq<nat>) returns (executed: seq<nat>)
    requires forall i | 0 <= i < |order| :: order[i] < |g.kinds|
    ensures executed == Kernels(g, order)
  {
    executed := [];
    for i := 0 to |order|
      invariant executed == Kernels(g, order[..i])
    {
      assert order[..i + 1][..i] == order[..i];
      var v := order[i];
      if g.kinds[v] != Scan && g.kinds[v] != Display {
        executed := executed + [v];
      }
    }
    assert order[..|order|] == order;
  }

  /** The sequential execution, too, runs an operator after everything it reads. */
  lemma SequentialOrder(g: Graph, order: seq<nat>, n: nat)
    requires IsTopological(g, order) && DisplayIsLast(g) && n < |Kernels(g, order)|
    ensures Preceded(g, Kernels(g, order), n)
  {
    forall e | 0 <= e < |g.edges| && g.edges[e].dst == Kernels(g, order)[n]
      ensures IsScan(g, g.edges[e].src) || g.edges[e].src in Kernels(g, order)[..n]
    {
      assert InOrder(order, g.edges[e]);
      var i, j :| 0 <= i < j < |order| && order[i] == g.edges[e].src && order[j] == g.edges[e].dst;
      if g.kinds[order[i]] == Kernel {
        KernelsKeepOrder(g, order, i, j, n);
      }
    }
  }

  /** What the scheduler relies on: an operator's input comes from a scan, whose edges are flagged,
    or from an operator earlier in the queue. */
  ghost predicate Fed(g: Graph, v: State, e: nat, k: nat)
    requires e < |g.edges| && k < |v.jobs|
  {
    g.edges[e].dst == v.jobs[k] ==> Flag(v, e) || g.edges[e].src in v.jobs[..k]
  }

  ghost predicate PlanInv(g: Graph, v: State) {
    forall e, k | 0 <= e < |g.edges| && 0 <= k < |v.jobs| :: Fed(g, v, e, k)
  }

  lemma QueueIsFed(g: Graph, order: seq<nat>, v: State, e: nat, k: nat)
    requires IsTopological(g, order) && DisplayIsLast(g) && Init(g, order, v)
    requires e < |g.edges| && k < |v.jobs|
    ensures Fed(g, v, e, k)
  {
    var edge := g.edges[e];
    assert InOrder(order, edge);
    var i, j :| 0 <= i < j < |order| && order[i] == edge.src && order[j] == edge.dst;
    if edge.dst == v.jobs[k] && g.kinds[edge.src] == Kernel {
      KernelsKeepOrder(g, order, i, j, k);
      assert v.jobs[..k] == Kernels(g, order)[..k];
    }
  }

  lemma InitInv(g: Graph, order: seq<nat>, v: State)
    requires IsTopological(g, order) && Init(g, order, v)
    ensures Inv(g, v) && (DisplayIsLast(g) ==> PlanInv(g, v))
  {
    KernelsDistinct(g, order);
    if DisplayIsLast(g) {
      forall e, k | 0 <= e < |g.edges| && 0 <= k < |v.jobs|
        ensures Fed(g, v, e, k)
      {
        QueueIsFed(g, order, v, e, k);
      }
    }
  }

  lemma StepKeepsPlan(g: Graph, v: State, a: Actor)
    requires PlanInv(g, v) && Enabled(v, a)
    ensures PlanInv(g, Step(g, v, a))
  {
    var v' := Step(g, v, a);
    assert v'.jobs == v.jobs && forall e: nat :: Flag(v, e) ==> Flag(v', e);
    forall e, k | 0 <= e < |g.edges| && 0 <= k < |v'.jobs|
      ensures Fed(g, v', e, k)
    {
      assert Fed(g, v, e, k);
    }
  }

  // ---------------------------------------------------------------------------------- Runs

  /** A run: run[i + 1] is run[i] after a step of actors[i]. */
  ghost predicate Follows(g: Graph, run: seq<State>, actors: seq<Actor>, i: nat)
    requires i < |actors| == |run| - 1
  {
    Enabled(run[i], actors[i]) && run[i + 1] == Step(g, run[i], actors[i])
  }

  ghost predicate IsRun(g: Graph, order: seq<nat>, run: seq<State>, actors: seq<Actor>) {
    && IsTopological(g, order)
    && |actors| == |run| - 1 && Init(g, order, run[0])
    && forall i | 0 <= i < |actors| :: Follows(g, run, actors, i)
  }

  lemma {:induction false} RunInv(g: Graph, order: seq<nat>, run: seq<State>, actors: seq<Actor>, i: nat)
    requires IsRun(g, order, run, actors) && i < |run|
    ensures Inv(g, run[i]) && (DisplayIsLast(g) ==> PlanInv(g, run[i]))
    ensures run[i].jobs == Take(Kernels(g, order), CAPACITY) && |run[i].devices| == |run[0].devices|
  {
    if i == 0 {
      InitInv(g, order, run[0]);
    } else {
      RunInv(g, order, run, actors, i - 1);
      assert Follows(g, run, actors, i - 1);
      StepPreservesInv(g, run[i - 1], actors[i - 1]);
      if DisplayIsLast(g) {
        StepKeepsPlan(g, run[i - 1], actors[i - 1]);
      }
    }
  }

  // ---------------------------------------------------------------------------------- Safety

  /** In every run, an operator executes after everything it reads: each of its inputs comes from a
    scan or from an operator executed before. No operator executes twice, and two devices never
    hold the same operator. */
  lemma ExecutedInOrder(g: Graph, order: seq<nat>, run: seq<State>, actors: seq<Actor>, i: nat)
    requires IsRun(g, order, run, actors) && i < |run|
    ensures Distinct(run[i].executed)
    ensures forall n, e | 0 <= n < |run[i].executed| && 0 <= e < |g.edges| && g.edges[e].dst == run[i].executed[n] ::
      IsScan(g, g.edges[e].src) || g.edges[e].src in run[i].executed[..n]
    ensures forall c, d | 0 <= c < d < |run[i].devices| && Working(run[i].devices[c]) && Working(run[i].devices[d]) ::
      Job(run[i], run[i].devices[c]) != Job(run[i], run[i].devices[d])
  {
    RunInv(g, order, run, actors, i);
    var v := run[i];
    forall n, e | 0 <= n < |v.executed| && 0 <= e < |g.edges| && g.edges[e].dst == v.executed[n]
      ensures IsScan(g, g.edges[e].src) || g.edges[e].src in v.executed[..n]
    {
      assert Preceded(g, v.executed, n);
    }
    forall c, d | 0 <= c < d < |v.devices| && Working(v.devices[c]) && Working(v.devices[d])
      ensures Job(v, v.devices[c]) != Job(v, v.devices[d])
    {
      assert DeviceInv(g, v, c) && DeviceInv(g, v, d);
    }
  }

  /** Each operator popped so far, by the one device that popped it, has executed exactly when that
    device's hand-off of it has: never before the hand-off, once during it, and for good after it. */
  lemma OneOperationPerHandOff(g: Graph, order: seq<nat>, run: seq<State>, actors: seq<Actor>, i: nat, k: nat)
    requires IsRun(g, order, run, actors) && i < |run| && k < |run[i].owner|
    ensures k < |run[i].jobs| && run[i].owner[k] < |run[i].devices|
    ensures var d := run[i].devices[run[i].owner[k]];
      run[i].jobs[k] in run[i].executed <==> !(Working(d) && d.ticket == k && !HasRun(d))
  {
    RunInv(g, order, run, actors, i);
    var v := run[i];
    assert TicketInv(g, v, k);
    assert DeviceInv(g, v, v.owner[k]);
  }

  // -------------------------------------------------------------------------------- Progress

  ghost predicate InputsReady(g: Graph, v: State, d: Device) {
    InFlagged(g, v, Job(v, d), |g.edges|)
  }

  /** A main thread reading edge flags again because an input is still missing. */
  ghost predicate Spins(g: Graph, v: State, a: Actor) {
    a.MainOf? && a.d < |v.devices| && v.devices[a.d].main.Inputs? && !InputsReady(g, v, v.devices[a.d])
  }

  lemma DeviceCanMove(g: Graph, v: State, i: nat) returns (a: Actor)
    requires Inv(g, v) && i < |v.devices| && !v.devices[i].main.Done?
    requires v.devices[i].main.Inputs? ==> InputsReady(g, v, v.devices[i])
    ensures Enabled(v, a) && !Spins(g, v, a)
  {
    var d := v.devices[i];
    assert DeviceInv(g, v, i);
    a := if (d.main.Wait? || d.main.WaitStop?) && !Enabled(v, MainOf(i)) then WorkerOf(i) else MainOf(i);
  }

  /** The earliest operator in flight has its inputs: follow a missing input to the operator that
    produces it, which was popped earlier and is still in flight. */
  lemma {:induction false} TicketCanMove(g: Graph, v: State, k: nat) returns (a: Actor)
    requires Inv(g, v) && PlanInv(g, v) && k < |v.owner|
    requires v.owner[k] < |v.devices| && Working(v.devices[v.owner[k]]) && v.devices[v.owner[k]].ticket == k
    ensures Enabled(v, a) && !Spins(g, v, a)
    decreases k
  {
    var d := v.devices[v.owner[k]];
    if d.main.Inputs? && !InputsReady(g, v, d) {
      var e :| 0 <= e < |g.edges| && g.edges[e].dst == Job(v, d) && !Flag(v, e);
      assert Fed(g, v, e, k);
      var k' :| 0 <= k' < k && v.jobs[k'] == g.edges[e].src;
      assert TicketInv(g, v, k');
      a := TicketCanMove(g, v, k');
    } else {
      a := DeviceCanMove(g, v, v.owner[k]);
    }
  }

  /** While a device has not finished, some step is enabled that is not a spin. */
  lemma SomeStepMakesProgress(g: Graph, order: seq<nat>, run: seq<State>, actors: seq<Actor>, i: nat, d: nat)
    returns (a: Actor)
    requires IsRun(g, order, run, actors) && DisplayIsLast(g) && i < |run|
    requires d < |run[i].devices| && !run[i].devices[d].main.Done?
    ensures Enabled(run[i], a) && !Spins(g, run[i], a)
  {
    RunInv(g, order, run, actors, i);
    assert DeviceInv(g, run[i], d);
    if run[i].devices[d].main.Inputs? {
      a := TicketCanMove(g, run[i], run[i].devices[d].ticket);
    } else {
      a := DeviceCanMove(g, run[i], d);
    }
  }

  // ----------------------------------------------------------------------------- Termination

  ghost function WorkerRank(g: Graph, d: Device): nat {
    match d.worker
    case Await => if d.processed then 0 else |g.edges| + 7
    case Accept => |g.edges| + 6
    case Decide => |g.edges| + 5
    case Execute => |g.edges| + 4
    case Mark(e) => if e <= |g.edges| then |g.edges| - e + 3 else 3
    case Report(_) => 2
    case Unlock(_) => 1
    case Exited => 0
  }

  /** Steps a device has ahead of it before it next pops. */
  ghost function Rank(g: Graph, v: State, i: nat): nat
    requires i < |v.devices|
  {
    var d, n := v.devices[i], |g.edges|;
    match d.main
    case Done => 0
    case Join => 1
    case WaitStop => 2 + WorkerRank(g, d)
    case SignalStop => n + 10
    case SetStop => n + 11
    case Pop => n + 12
    case Check => n + 13
    case Reset => n + 14
    case Wait => n + 15 + WorkerRank(g, d)
    case Signal => 2 * n + 23
    case Inputs(e, inputSet) =>
      if !InputsReady(g, v, d) || e > n then 4 * n + 26
      else if inputSet then 3 * n - e + 24
      else 4 * n - e + 25
  }

  ghost function SumRank(g: Graph, v: State, n: nat): nat
    requires n <= |v.devices|
  {
    if n == 0 then 0 else SumRank(g, v, n - 1) + Rank(g, v, n - 1)
  }

  /** Steps ahead, counting 4|E| + 26 for every operator still in the queue. */
  ghost function Remaining(g: Graph, v: State): int {
    SumRank(g, v, |v.devices|) + (|v.jobs| - |v.owner|) * (4 * |g.edges| + 26)
  }

  lemma {:induction false} SumRankChange(g: Graph, v: State, v': State, i: nat, n: nat)
    requires i < |v.devices| == |v'.devices| && n <= |v.devices|
    requires forall j | 0 <= j < |v.devices| && j != i :: Rank(g, v', j) <= Rank(g, v, j)
    ensures SumRank(g, v', n) <= SumRank(g, v, n) + if i < n then Rank(g, v', i) - Rank(g, v, i) else 0
  {
    if n > 0 {
      SumRankChange(g, v, v', i, n - 1);
    }
  }

  lemma OtherRank(g: Graph, v: State, a: Actor, j: nat)
    requires Inv(g, v) && Enabled(v, a) && j < |v.devices| && j != a.d
    ensures |Step(g, v, a).devices| == |v.devices| && Rank(g, Step(g, v, a), j) <= Rank(g, v, j)
  {
    var v', d := Step(g, v, a), v.devices[j];
    assert v'.devices[j] == d && v'.jobs == v.jobs;
    assert forall e: nat :: Flag(v, e) ==> Flag(v', e);
    assert InputsReady(g, v, d) ==> InputsReady(g, v', d);
  }

  lemma OwnRankMain(g: Graph, v: State, i: nat)
    requires Inv(g, v) && Enabled(v, MainOf(i)) && (v.devices[i].main.Pop? ==> Empty(v))
    ensures Rank(g, MainStep(g, v, i), i) <= Rank(g, v, i) - if Spins(g, v, MainOf(i)) then 0 else 1
  {
    var d, v' := v.devices[i], MainStep(g, v, i);
    assert DeviceInv(g, v, i);
    assert Job(v', v'.devices[i]) == Job(v, d);
    assert InputsReady(g, v, d) <==> InputsReady(g, v', v'.devices[i]);
  }

  lemma OwnRankWorker(g: Graph, v: State, i: nat)
    requires Inv(g, v) && Enabled(v, WorkerOf(i))
    ensures Rank(g, WorkerStep(g, v, i), i) < Rank(g, v, i)
  {
    assert DeviceInv(g, v, i);
  }

  predicate Pops(v: State, a: Actor) {
    a.MainOf? && a.d < |v.devices| && v.devices[a.d].main.Pop? && !Empty(v)
  }

  lemma StepQueue(g: Graph, v: State, a: Actor)
    requires Enabled(v, a)
    ensures var v' := Step(g, v, a);
      v'.jobs == v.jobs && |v'.devices| == |v.devices| && |v'.owner| == |v.owner| + if Pops(v, a) then 1 else 0
  {
  }

  lemma PopRank(g: Graph, v: State, a: Actor)
    requires Enabled(v, a) && Pops(v, a)
    ensures |Step(g, v, a).devices| == |v.devices| && Rank(g, Step(g, v, a), a.d) < Rank(g, v, a.d) + (4 * |g.edges| + 26)
  {
    hide InputsReady;
  }

  lemma StepOf(g: Graph, v: State, a: Actor)
    requires a.d < |v.devices|
    ensures Step(g, v, a) == if a.MainOf? then MainStep(g, v, a.d) else WorkerStep(g, v, a.d)
  {
  }

  lemma OneFewer(a: int, c: int)
    ensures (a - 1) * c == a * c - c
  {
  }

  /** Every step but a spin brings the end nearer; a spin takes nothing back. */
  lemma StepsRunOut(g: Graph, v: State, a: Actor)
    requires Inv(g, v) && Enabled(v, a)
    ensures Remaining(g, Step(g, v, a)) <= Remaining(g, v) - if Spins(g, v, a) then 0 else 1
  {
    hide Inv, Rank, Step, InputsReady;
    var v', i := Step(g, v, a), a.d;
    StepQueue(g, v, a);
    forall j | 0 <= j < |v.devices| && j != i
      ensures Rank(g, v', j) <= Rank(g, v, j)
    {
      OtherRank(g, v, a, j);
    }
    SumRankChange(g, v, v', i, |v.devices|);
    if a.WorkerOf? {
      OwnRankWorker(g, v, i);
      StepOf(g, v, a);
    } else if Pops(v, a) {
      OneFewer(|v.jobs| - |v.owner|, 4 * |g.edges| + 26);
      PopRank(g, v, a);
    } else {
      OwnRankMain(g, v, i);
      StepOf(g, v, a);
    }
  }

  /** The steps of a run, spins not counted. */
  ghost function Busy(g: Graph, run: seq<State>, actors: seq<Actor>, n: nat): nat
    requires n <= |actors| == |run| - 1
  {
    if n == 0 then 0 else Busy(g, run, actors, n - 1) + if Spins(g, run[n - 1], actors[n - 1]) then 0 else 1
  }

  /** No run goes on for ever except by spinning: the other steps number at most what the plan
    and the devices allow. With SomeStepMakesProgress, a fair schedule ends. */
  lemma {:induction false} RunsAreBounded(g: Graph, order: seq<nat>, run: seq<State>, actors: seq<Actor>, n: nat)
    requires IsRun(g, order, run, actors) && n < |run|
    ensures Busy(g, run, actors, n) + Remaining(g, run[n]) <= Remaining(g, run[0])
    ensures Remaining(g, run[n]) >= 0
  {
    NothingLeftIsLeast(g, order, run, actors, n);
    if n > 0 {
      RunsAreBounded(g, order, run, actors, n - 1);
      RunStep(g, order, run, actors, n - 1);
    }
  }

  lemma NothingLeftIsLeast(g: Graph, order: seq<nat>, run: seq<State>, actors: seq<Actor>, n: nat)
    requires IsRun(g, order, run, actors) && n < |run|
    ensures Remaining(g, run[n]) >= 0
  {
    RunInv(g, order, run, actors, n);
    Product(|run[n].jobs| - |run[n].owner|, 4 * |g.edges| + 26);
  }

  lemma Product(a: nat, b: nat)
    ensures a * b >= 0
  {
  }

  lemma RunStep(g: Graph, order: seq<nat>, run: seq<State>, actors: seq<Actor>, n: nat)
    requires IsRun(g, order, run, actors) && n + 1 < |run|
    ensures Remaining(g, run[n + 1]) <= Remaining(g, run[n]) - if Spins(g, run[n], actors[n]) then 0 else 1
  {
    RunInv(g, order, run, actors, n);
    assert Follows(g, run, actors, n);
    StepsRunOut(g, run[n], actors[n]);
  }

  // --------------------------------------------------------------------------- What gets done

  lemma {:induction false} DistinctCounts(s: seq<nat>)
    requires Distinct(s)
    ensures forall x: nat :: multiset(s)[x] == if x in s then 1 else 0
  {
    if s != [] {
      var front := s[..|s| - 1];
      DistinctCounts(front);
      assert s == front + [s[|s| - 1]];
    }
  }

  /** When every device has finished, the operators executed are those of the queue, each once. */
  lemma AllOfTheQueueIsExecuted(g: Graph, order: seq<nat>, run: seq<State>, actors: seq<Actor>, i: nat)
    requires IsRun(g, order, run, actors) && i < |run| && run[i].devices != []
    requires forall d | 0 <= d < |run[i].devices| :: run[i].devices[d].main.Done?
    ensures multiset(run[i].executed) == multiset(Take(Kernels(g, order), CAPACITY))
  {
    RunInv(g, order, run, actors, i);
    var v := run[i];
    assert DeviceInv(g, v, 0);
    forall x: nat
      ensures x in v.executed <==> x in v.jobs
    {
      if x in v.executed {
        assert WasPopped(v, x);
      }
      if x in v.jobs {
        var k :| 0 <= k < |v.jobs| && v.jobs[k] == x;
        assert TicketInv(g, v, k);
      }
    }
    DistinctCounts(v.executed);
    DistinctCounts(v.jobs);
  }

  /** Every kernel of the plan is executed exactly when the plan has no more than 20 of them: the
    queue has no room for the others, and a failed push is not noticed. */
  lemma WholePlanIffItFits(g: Graph, order: seq<nat>, run: seq<State>, actors: seq<Actor>, i: nat)
    requires IsRun(g, order, run, actors) && i < |run| && run[i].devices != []
    requires forall d | 0 <= d < |run[i].devices| :: run[i].devices[d].main.Done?
    ensures multiset(run[i].executed) == multiset(Kernels(g, order)) <==> |Kernels(g, order)| <= CAPACITY
  {
    AllOfTheQueueIsExecuted(g, order, run, actors, i);
    var ks := Kernels(g, order);
    assert |multiset(Take(ks, CAPACITY))| == |Take(ks, CAPACITY)| && |multiset(ks)| == |ks|;
  }

  /** A plan of n kernels that read nothing, in the order of their numbers. */
  function Independent(n: nat): Graph { Graph(seq(n, _ => Kernel), []) }

  function Numbers(n: nat): (s: seq<nat>)
    ensures |s| == n && forall i | 0 <= i < n :: s[i] == i
  {
    if n == 0 then [] else Numbers(n - 1) + [n - 1]
  }

  lemma NoKernels(g: Graph)
    ensures Kernels(g, []) == []
  {
  }

  lemma LastKernel(g: Graph, order: seq<nat>)
    requires order != [] && forall i | 0 <= i < |order| :: order[i] < |g.kinds|
    requires g.kinds[order[|order| - 1]] == Kernel
    ensures Kernels(g, order) == Kernels(g, order[..|order| - 1]) + [order[|order| - 1]]
  {
  }

  lemma {:induction false} AllAreKernels(g: Graph, order: seq<nat>)
    requires forall i | 0 <= i < |order| :: order[i] < |g.kinds| && g.kinds[order[i]] == Kernel
    ensures Kernels(g, order) == order
  {
    hide Kernels;
    if order == [] {
      NoKernels(g);
    } else {
      var front := order[..|order| - 1];
      assert forall i | 0 <= i < |front| :: front[i] == order[i];
      AllAreKernels(g, front);
      LastKernel(g, order);
      assert order == front + [order[|order| - 1]];
    }
  }

  /** The smallest plan that does not fit: of 21 kernels without edges the last one is lost, and every
    run on it that finishes leaves it out. */
  lemma TwentyFirstKernelIsLost()
    ensures var g, order := Independent(21), Numbers(21);
      && IsTopological(g, order) && DisplayIsLast(g)
      && Kernels(g, order) == order && |Kernels(g, order)| == 21 > CAPACITY
      && 20 in Kernels(g, order) && 20 !in Take(Kernels(g, order), CAPACITY)
  {
    AllAreKernels(Independent(21), Numbers(21));
    assert Numbers(21)[20] == 20;
  }

  lemma LostInEveryRun(run: seq<State>, actors: seq<Actor>, i: nat)
    requires IsRun(Independent(21), Numbers(21), run, actors) && i < |run| && run[i].devices != []
    requires forall d | 0 <= d < |run[i].devices| :: run[i].devices[d].main.Done?
    ensures 20 !in run[i].executed
  {
    hide Independent, Numbers;
    TwentyFirstKernelIsLost();
    AllOfTheQueueIsExecuted(Independent(21), Numbers(21), run, actors, i);
    assert 20 in run[i].executed <==> 20 in multiset(run[i].executed);
  }
}
