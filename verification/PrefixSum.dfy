/** The two-level prefix sum kernel partial_prefix_sum: n work items, each summing a block of 32 rows
  into `partial` and then adding its total to the offsets of its own and all later blocks. Every
  store and every atomic add is one step; the steps of different work items interleave freely. */
module PrefixSum {
  import opened Common

  datatype PC =
    | Local(i: nat)    // the first loop, about to write partial[i]
    | Adding(k: nat)   // the second loop, about to add to offsets[k]

  /** The values of the rows do not matter, only whether they are zero: zero[i] is !boundaries[i]. */
  datatype State = State(zero: seq<bool>, partial: seq<nat>, offsets: seq<nat>, items: seq<PC>)

  function Bit(b: bool): nat { if b then 1 else 0 }

  predicate Shape(v: State) {
    && |v.zero| == |v.partial| == 32 * |v.items| && |v.offsets| == |v.items|
    && 32 * |v.items| < WORD
    && forall g | 0 <= g < |v.items| ::
         match v.items[g]
         case Local(i) => 32 * g <= i <= 32 * g + 32
         case Adding(k) => g <= k <= |v.items|
  }

  predicate Enabled(v: State, g: nat) {
    g < |v.items| && v.items[g] != Adding(|v.items|)
  }

  /** One step of work item g. */
  function Step(v: State, g: nat): State
    requires Shape(v) && Enabled(v, g)
  {
    match v.items[g]
    case Local(i) =>
      if i < 32 * g + 32 then
        var prev := if i == 32 * g then 0 else v.partial[i - 1];
        v.(partial := v.partial[i := if i == 0 then 0 else Mod(Bit(v.zero[i]) + prev)],
           items := v.items[g := Local(i + 1)])
      else
        v.(items := v.items[g := Adding(g)])
    case Adding(k) =>
      v.(offsets := v.offsets[k := Mod(v.offsets[k] + v.partial[32 * g + 31])],
         items := v.items[g := Adding(k + 1)])
  }

  ghost predicate Init(v: State) {
    && |v.zero| == |v.partial| == 32 * |v.items| && |v.offsets| == |v.items|
    && 32 * |v.items| < WORD
    && (forall g | 0 <= g < |v.items| :: v.items[g] == Local(32 * g) && v.offsets[g] == 0)
  }

  // --------------------------------------------------------------------------- What it counts

  /** The zero boundaries among the rows 1 to n - 1. */
  function Count(zero: seq<bool>, n: nat): nat
    requires n <= |zero|
  {
    if n <= 1 then 0 else Count(zero, n - 1) + Bit(zero[n - 1])
  }

  /** The rows 1 to n - 1 whose boundary is zero. */
  function ZeroRows(zero: seq<bool>, n: nat): set<nat>
    requires n <= |zero|
  {
    set j: nat | 1 <= j < n && zero[j]
  }

  /** The sum counts them. */
  lemma {:induction false} CountIsNumber(zero: seq<bool>, n: nat)
    requires n <= |zero|
    ensures Count(zero, n) == |ZeroRows(zero, n)|
    decreases n
  {
    if n <= 1 {
      assert ZeroRows(zero, n) == {};
    } else {
      CountIsNumber(zero, n - 1);
      assert ZeroRows(zero, n) == ZeroRows(zero, n - 1) + if zero[n - 1] then {n - 1} else {};
    }
  }

  lemma {:induction false} CountGrows(zero: seq<bool>, m: nat, n: nat)
    requires m <= n <= |zero|
    ensures Count(zero, m) <= Count(zero, n) <= Count(zero, m) + (n - m)
    decreases n
  {
    if m < n {
      CountGrows(zero, m, n - 1);
    }
  }

  /** The zero boundaries from the start of block g to row n - 1. */
  function InBlock(zero: seq<bool>, g: nat, n: nat): (c: nat)
    requires 32 * g <= n <= |zero|
    ensures c <= n - 32 * g
  {
    CountGrows(zero, 32 * g, n);
    Count(zero, n) - Count(zero, 32 * g)
  }

  function Total(zero: seq<bool>, g: nat): nat
    requires 32 * g + 32 <= |zero|
  {
    InBlock(zero, g, 32 * g + 32)
  }

  // ------------------------------------------------------------------------------ Invariant

  predicate HasAdded(pc: PC, k: nat) { pc.Adding? && pc.k > k }

  /** What the first m work items have added to offset k. */
  function Added(v: State, k: nat, m: nat): nat
    requires Shape(v) && m <= |v.items|
  {
    if m == 0 then 0
    else Added(v, k, m - 1) + if m - 1 <= k && HasAdded(v.items[m - 1], k) then Total(v.zero, m - 1) else 0
  }

  /** How far work item g has filled its block. */
  function Filled(v: State, g: nat): nat
    requires Shape(v) && g < |v.items|
  {
    if v.items[g].Local? then v.items[g].i else 32 * g + 32
  }

  predicate BlockInv(v: State, g: nat)
    requires Shape(v) && g < |v.items|
  {
    forall i | 32 * g <= i < Filled(v, g) :: v.partial[i] == InBlock(v.zero, g, i + 1)
  }

  predicate OffsetInv(v: State, k: nat)
    requires Shape(v) && k < |v.items|
  {
    v.offsets[k] == Mod(Added(v, k, |v.items|))
  }

  predicate Inv(v: State) {
    && Shape(v)
    && (forall g | 0 <= g < |v.items| :: BlockInv(v, g))
    && (forall k | 0 <= k < |v.items| :: OffsetInv(v, k))
  }

  /** What a step of work item g changes in the additions. */
  lemma {:induction false} AddedStep(v: State, v': State, g: nat, k: nat, m: nat)
    requires Shape(v) && Shape(v') && v'.zero == v.zero && |v'.items| == |v.items| && m <= |v.items|
    requires g < |v.items| && forall h | 0 <= h < |v.items| && h != g :: v'.items[h] == v.items[h]
    requires HasAdded(v.items[g], k) ==> HasAdded(v'.items[g], k)
    ensures Added(v', k, m) == Added(v, k, m)
      + if g < m && g <= k && HasAdded(v'.items[g], k) && !HasAdded(v.items[g], k) then Total(v.zero, g) else 0
  {
    if m > 0 {
      AddedStep(v, v', g, k, m - 1);
    }
  }

  lemma LocalBlock(v: State, g: nat, h: nat)
    requires Inv(v) && Enabled(v, g) && v.items[g].Local? && Shape(Step(v, g)) && h < |v.items|
    ensures BlockInv(Step(v, g), h)
  {
    hide OffsetInv;
    var i := v.items[g].i;
    assert BlockInv(v, h);
    if h == g && i < 32 * g + 32 {
      CountGrows(v.zero, 32 * g, i);
      assert i > 32 * g ==> v.partial[i - 1] == InBlock(v.zero, g, i);
    }
  }

  lemma LocalStep(v: State, g: nat)
    requires Inv(v) && Enabled(v, g) && v.items[g].Local?
    ensures Inv(Step(v, g))
  {
    hide BlockInv, Count;
    var v' := Step(v, g);
    forall h | 0 <= h < |v.items|
      ensures BlockInv(v', h)
    {
      LocalBlock(v, g, h);
    }
    forall k | 0 <= k < |v.items|
      ensures OffsetInv(v', k)
    {
      assert OffsetInv(v, k);
      AddedStep(v, v', g, k, |v.items|);
    }
  }

  lemma AddStep(v: State, g: nat)
    requires Inv(v) && Enabled(v, g) && v.items[g].Adding?
    ensures Inv(Step(v, g))
  {
    var v' := Step(v, g);
    forall h | 0 <= h < |v.items|
      ensures BlockInv(v', h)
    {
      assert BlockInv(v, h);
    }
    assert BlockInv(v, g);
    forall k | 0 <= k < |v.items|
      ensures OffsetInv(v', k)
    {
      assert OffsetInv(v, k);
      AddedStep(v, v', g, k, |v.items|);
      ModAdds(Added(v, k, |v.items|), Total(v.zero, g));
    }
  }

  // ---------------------------------------------------------------------------------- Runs

  ghost predicate Next(v: State, v': State) {
    Shape(v) && exists g: nat :: Enabled(v, g) && v' == Step(v, g)
  }

  ghost predicate Follows(run: seq<State>, i: nat)
    requires 0 < i < |run|
  {
    Next(run[i - 1], run[i])
  }

  ghost predicate IsRun(run: seq<State>) {
    run != [] && Init(run[0]) && forall i | 0 < i < |run| :: Follows(run, i)
  }

  lemma {:induction false} RunInv(run: seq<State>, i: nat)
    requires IsRun(run) && i < |run|
    ensures Inv(run[i]) && run[i].zero == run[0].zero
  {
    if i == 0 {
      forall k | 0 <= k < |run[0].items|
        ensures OffsetInv(run[0], k)
      {
        NothingAdded(run[0], k, |run[0].items|);
      }
    } else {
      RunInv(run, i - 1);
      assert Follows(run, i);
      var g: nat :| Enabled(run[i - 1], g) && run[i] == Step(run[i - 1], g);
      if run[i - 1].items[g].Local? {
        LocalStep(run[i - 1], g);
      } else {
        AddStep(run[i - 1], g);
      }
    }
  }

  lemma {:induction false} NothingAdded(v: State, k: nat, m: nat)
    requires Shape(v) && m <= |v.items| && forall g | 0 <= g < |v.items| :: v.items[g].Local?
    ensures Added(v, k, m) == 0
  {
    if m > 0 {
      NothingAdded(v, k, m - 1);
    }
  }

  // ------------------------------------------------------------------------------- The result

  predicate Finished(v: State) {
    forall g | 0 <= g < |v.items| :: v.items[g] == Adding(|v.items|)
  }

  /** When all have added, an offset counts all blocks up to its own. */
  lemma {:induction false} AllAdded(v: State, k: nat, m: nat)
    requires Shape(v) && Finished(v) && k < |v.items| && m <= |v.items|
    ensures Added(v, k, m) == Count(v.zero, if m <= k then 32 * m else 32 * k + 32)
  {
    if m > 0 {
      AllAdded(v, k, m - 1);
    }
  }

  /** In every run of any number of work items, when all have finished: the partial sum of row i plus
    the offset of the block before is the number of zero boundaries in the rows 1 to i. */
  lemma PrefixSumIsCount(run: seq<State>, n: nat, i: nat)
    requires IsRun(run) && n < |run| && Finished(run[n]) && i < |run[0].zero|
    ensures i < |run[n].partial| && i / 32 <= |run[n].offsets|
    ensures run[n].partial[i] + (if i < 32 then 0 else run[n].offsets[i / 32 - 1])
         == |set j: nat | 1 <= j <= i && run[0].zero[j]|
  {
    PartialPlusOffset(run, n, i);
    CountIsNumber(run[0].zero, i + 1);
    assert ZeroRows(run[0].zero, i + 1) == set j: nat | 1 <= j <= i && run[0].zero[j];
  }

  lemma PartialPlusOffset(run: seq<State>, n: nat, i: nat)
    requires IsRun(run) && n < |run| && Finished(run[n]) && i < |run[0].zero|
    ensures i < |run[n].partial| && i / 32 <= |run[n].offsets|
    ensures run[n].partial[i] + (if i < 32 then 0 else run[n].offsets[i / 32 - 1]) == Count(run[0].zero, i + 1)
  {
    hide Init;
    RunInv(run, n);
    var v, g := run[n], i / 32;
    assert BlockInv(v, g) && Filled(v, g) == 32 * g + 32;
    if g > 0 {
      assert OffsetInv(v, g - 1);
      AllAdded(v, g - 1, |v.items|);
      CountGrows(v.zero, 0, 32 * g);
    }
  }

  // ---------------------------------------------------------------------------------- Progress

  /** The steps work item g of n has ahead of it. */
  function Ahead(pc: PC, g: nat, n: nat): int {
    match pc
    case Local(i) => 32 * g + 33 - i + (n - g)
    case Adding(k) => n - k
  }

  function TotalAhead(items: seq<PC>, m: nat): int
    requires m <= |items|
  {
    if m == 0 then 0 else TotalAhead(items, m - 1) + Ahead(items[m - 1], m - 1, |items|)
  }

  lemma {:induction false} AheadChange(items: seq<PC>, g: nat, pc: PC, m: nat)
    requires g < |items| && m <= |items|
    ensures TotalAhead(items[g := pc], m)
         == TotalAhead(items, m) + if g < m then Ahead(pc, g, |items|) - Ahead(items[g], g, |items|) else 0
  {
    if m > 0 {
      AheadChange(items, g, pc, m - 1);
    }
  }

  lemma {:induction false} AheadBounds(v: State, m: nat)
    requires Shape(v) && m <= |v.items|
    ensures 0 <= TotalAhead(v.items, m) <= m * (33 + |v.items|)
  {
    if m > 0 {
      AheadBounds(v, m - 1);
      assert m * (33 + |v.items|) == (m - 1) * (33 + |v.items|) + (33 + |v.items|);
    }
  }

  lemma OneStepLess(v: State, g: nat)
    requires Shape(v) && Enabled(v, g)
    ensures var v' := Step(v, g);
      |v'.items| == |v.items| && v'.items == v.items[g := v'.items[g]]
      && Ahead(v'.items[g], g, |v.items|) == Ahead(v.items[g], g, |v.items|) - 1
  {
  }

  lemma {:induction false} StepsRunOut(run: seq<State>, n: nat)
    requires IsRun(run) && n < |run|
    ensures |run[n].items| == |run[0].items|
    ensures n + TotalAhead(run[n].items, |run[n].items|) == TotalAhead(run[0].items, |run[0].items|)
  {
    hide Init, Step;
    if n > 0 {
      StepsRunOut(run, n - 1);
      assert Follows(run, n);
      var g: nat :| Enabled(run[n - 1], g) && run[n] == Step(run[n - 1], g);
      OneStepLess(run[n - 1], g);
      AheadChange(run[n - 1].items, g, run[n].items[g], |run[n].items|);
    }
  }

  /** Every run ends, after a number of steps that only the number of work items decides, and until all
    have finished some work item can take a step. */
  lemma EveryRunEnds(run: seq<State>, n: nat)
    requires IsRun(run) && n < |run|
    ensures n <= |run[0].items| * (33 + |run[0].items|)
    ensures Finished(run[n]) || exists g: nat :: Enabled(run[n], g)
  {
    hide Init, Step;
    RunInv(run, n);
    RunInv(run, 0);
    StepsRunOut(run, n);
    AheadBounds(run[0], |run[0].items|);
    AheadBounds(run[n], |run[n].items|);
    if !Finished(run[n]) {
      var g: nat :| g < |run[n].items| && run[n].items[g] != Adding(|run[n].items|);
      assert Enabled(run[n], g);
    }
  }
}
