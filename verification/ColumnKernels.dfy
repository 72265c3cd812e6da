/** The column kernels (OpenCL): selection to bitmaps, conjunction, materialisation, product
  and aggregation, on columns of 32 * n rows.

  A work item is a method; a launch runs the work items in some order. Work items write disjoint
  cells, or add to one cell atomically, so that any interleaving of them has the effect of some
  order. Words are 32-bit unsigned. */
module ColumnKernels {
  import opened Bits
  import opened Common

  /** An order in which n work items run. */
  ghost predicate IsOrder(order: seq<nat>, n: nat) {
    && |order| == n
    && (forall i | 0 <= i < n :: order[i] < n)
    && (forall i, j | 0 <= i < j < n :: order[i] != order[j])
    && (forall id | 0 <= id < n :: id in order)
  }

  lemma OrderLength(order: seq<nat>, n: nat)
    requires IsOrder(order, n)
    ensures |order| == n
  {
  }

  /** When a work item runs. */
  lemma Turn(order: seq<nat>, n: nat, id: nat) returns (k: nat)
    requires IsOrder(order, n) && id < n
    ensures k < n && order[k] == id
  {
    assert id in order;
    k :| 0 <= k < |order| && order[k] == id;
  }

  /** Row r of a bitmap. */
  predicate Row(bitmap: seq<nat>, r: nat)
    requires r < 32 * |bitmap|
  {
    BitAt(bitmap[r / 32], r % 32)
  }

  /** Bit r % 32 of word r / 32, counted from the lowest. */
  lemma RowIsBit(bitmap: seq<nat>, r: nat)
    requires r < 32 * |bitmap|
    ensures Row(bitmap, r) <==> bitmap[r / 32] / Pow2(r % 32) % 2 == 1
  {
    BitAtIsPlace(bitmap[r / 32], r % 32);
  }

  // --------------------------------------------------------------------------- Selection

  /** bm |= cond ? 0x1 << i : 0 */
  lemma SetBit(bm: nat, i: nat, cond: bool, j: nat)
    ensures BitAt(Or(bm, if cond then ShiftLeft(1, i) else 0), j) <==> BitAt(bm, j) || (cond && j == i)
  {
    OrBit(bm, if cond then ShiftLeft(1, i) else 0, j);
    ZeroBit(j);
    ShiftBit(1, i, j);
    if j >= i {
      OneBit(j - i);
    }
  }

  ghost predicate BlockSelected(data: seq<nat>, word: nat, c: nat, id: nat)
    requires 32 * id + 32 <= |data|
  {
    forall i | 0 <= i < 32 :: BitAt(word, i) <==> data[32 * id + i] < c
  }

  /** One work item of selection_less_than_block. */
  method SelectItem(data: array<nat>, bitmap: array<nat>, c: nat, id: nat)
    requires data.Length == 32 * bitmap.Length && id < bitmap.Length && data != bitmap
    modifies bitmap
    ensures BlockSelected(data[..], bitmap[id], c, id)
    ensures forall k | 0 <= k < bitmap.Length && k != id :: bitmap[k] == old(bitmap[k])
  {
    var pos := 32 * id;
    var bm := 0;
    forall j: nat
      ensures !BitAt(0, j)
    {
      ZeroBit(j);
    }
    for i := 0 to 32
      invariant pos == 32 * id + i
      invariant forall j: nat :: BitAt(bm, j) <==> j < i && data[32 * id + j] < c
    {
      ghost var before := bm;
      bm := Or(bm, if data[pos] < c then ShiftLeft(1, i) else 0);
      forall j: nat
        ensures BitAt(bm, j) <==> BitAt(before, j) || (data[pos] < c && j == i)
      {
        SetBit(before, i, data[pos] < c, j);
      }
      pos := pos + 1;
    }
    bitmap[id] := bm;
  }

  method Select(order: seq<nat>, data: array<nat>, bitmap: array<nat>, c: nat)
    requires data.Length == 32 * bitmap.Length && data != bitmap && IsOrder(order, bitmap.Length)
    modifies bitmap
    ensures forall r | 0 <= r < data.Length :: Row(bitmap[..], r) <==> data[r] < c
  {
    for n := 0 to |order|
      invariant forall k | 0 <= k < n :: BlockSelected(data[..], bitmap[order[k]], c, order[k])
    {
      SelectItem(data, bitmap, c, order[n]);
    }
    forall r | 0 <= r < data.Length
      ensures Row(bitmap[..], r) <==> data[r] < c
    {
      var id, i := r / 32, r % 32;
      var k := Turn(order, bitmap.Length, id);
      assert BlockSelected(data[..], bitmap[order[k]], c, order[k]);
      assert data[..][32 * id + i] == data[r];
    }
  }

  // ------------------------------------------------------------------------- Conjunction

  /** One work item of logical_block. */
  method AndItem(input: array<nat>, data2: array<nat>, bitmap: array<nat>, id: nat)
    requires id < input.Length == data2.Length == bitmap.Length
    modifies bitmap
    ensures bitmap[..] == old(bitmap[..])[id := And(old(input[id]), old(data2[id]))]
  {
    bitmap[id] := And(input[id], data2[id]);
  }

  /** The bitmap written may be one of those read. */
  method Conjoin(order: seq<nat>, input: array<nat>, data2: array<nat>, bitmap: array<nat>)
    requires input.Length == data2.Length == bitmap.Length && IsOrder(order, bitmap.Length)
    modifies bitmap
    ensures forall r | 0 <= r < 32 * bitmap.Length :: Row(bitmap[..], r) <==> Row(old(input[..]), r) && Row(old(data2[..]), r)
  {
    for n := 0 to |order|
      invariant forall k | 0 <= k < n :: bitmap[order[k]] == And(old(input[order[k]]), old(data2[order[k]]))
      invariant forall k | n <= k < |order| :: bitmap[order[k]] == old(bitmap[order[k]])
      invariant forall k | n <= k < |order| :: input[order[k]] == old(input[order[k]]) && data2[order[k]] == old(data2[order[k]])
    {
      AndItem(input, data2, bitmap, order[n]);
    }
    forall r | 0 <= r < 32 * bitmap.Length
      ensures Row(bitmap[..], r) <==> Row(old(input[..]), r) && Row(old(data2[..]), r)
    {
      var k := Turn(order, bitmap.Length, r / 32);
      AndBit(old(input[r / 32]), old(data2[r / 32]), r % 32);
    }
  }

  // ---------------------------------------------------------------------- Materialisation

  /** (word & (1 << i)) >> i */
  lemma {:induction false} BitAsNumber(word: nat, i: nat)
    ensures ShiftRight(And(word, ShiftLeft(1, i)), i) == if BitAt(word, i) then 1 else 0
    decreases i
  {
    if word == 0 {
      ZeroBit(i);
      ShiftZero(i);
    } else if i == 0 {
      assert And(word / 2, 0) == 0;
    } else {
      BitAsNumber(word / 2, i - 1);
      assert And(word, ShiftLeft(1, i)) / 2 == And(word / 2, ShiftLeft(1, i - 1));
    }
  }

  lemma {:induction false} ShiftZero(i: nat)
    ensures ShiftRight(0, i) == 0
  {
    if i > 0 {
      ShiftZero(i - 1);
    }
  }

  function Chosen(bitmap: seq<nat>, input: seq<nat>, r: nat): nat
    requires r < 32 * |bitmap| == |input|
  {
    if Row(bitmap, r) then input[r] else 0
  }

  /** One work item of materialize. */
  method MaterializeItem(input: array<nat>, bitmap: array<nat>, result: array<nat>, id: nat)
    requires input.Length == result.Length == 32 * bitmap.Length && id < bitmap.Length
    requires result != input && result != bitmap
    modifies result
    ensures forall r | 0 <= r < result.Length ::
      result[r] == if 32 * id <= r < 32 * id + 32 then Mod(Chosen(bitmap[..], input[..], r)) else old(result[r])
  {
    var pos := 32 * id;
    for i := 0 to 32
      invariant forall r | 0 <= r < result.Length ::
        result[r] == if pos <= r < pos + i then Mod(Chosen(bitmap[..], input[..], r)) else old(result[r])
    {
      BitAsNumber(bitmap[id], i);
      assert (pos + i) / 32 == id && (pos + i) % 32 == i;
      result[pos + i] := Mod(ShiftRight(And(bitmap[id], ShiftLeft(1, i)), i) * input[pos + i]);
    }
  }

  method Materialize(order: seq<nat>, input: array<nat>, bitmap: array<nat>, result: array<nat>)
    requires input.Length == result.Length == 32 * bitmap.Length && IsOrder(order, bitmap.Length)
    requires result != input && result != bitmap
    modifies result
    ensures forall r | 0 <= r < result.Length :: result[r] == Mod(Chosen(bitmap[..], input[..], r))
  {
    for n := 0 to |order|
      invariant forall r | 0 <= r < result.Length && r / 32 in order[..n] :: result[r] == Mod(Chosen(bitmap[..], input[..], r))
    {
      MaterializeItem(input, bitmap, result, order[n]);
    }
    assert order[..|order|] == order;
  }

  // ----------------------------------------------------------------------------- Product

  /** One work item of arith_mul. */
  method MultiplyItem(input: array<nat>, data2: array<nat>, res: array<nat>, id: nat)
    requires id < input.Length == data2.Length == res.Length
    modifies res
    ensures res[..] == old(res[..])[id := Mod(old(input[id]) * old(data2[id]))]
  {
    res[id] := Mod(input[id] * data2[id]);
  }

  method Multiply(order: seq<nat>, input: array<nat>, data2: array<nat>, res: array<nat>)
    requires input.Length == data2.Length == res.Length && IsOrder(order, res.Length)
    requires res != input && res != data2
    modifies res
    ensures forall r | 0 <= r < res.Length :: res[r] == Mod(input[r] * data2[r])
  {
    for n := 0 to |order|
      invariant forall k | 0 <= k < n :: res[order[k]] == Mod(input[order[k]] * data2[order[k]])
    {
      MultiplyItem(input, data2, res, order[n]);
    }
    forall r | 0 <= r < res.Length
      ensures res[r] == Mod(input[r] * data2[r])
    {
      var k := Turn(order, res.Length, r);
    }
  }

  // -------------------------------------------------------------------------- Aggregation

  /** The sum of the first n cells. */
  function Sum(s: seq<nat>, n: nat): nat
    requires n <= |s|
  {
    if n == 0 then 0 else Sum(s, n - 1) + s[n - 1]
  }

  lemma {:induction false} SumGrows(s: seq<nat>, m: nat, n: nat)
    requires m <= n <= |s|
    ensures Sum(s, m) <= Sum(s, n)
    decreases n
  {
    if m < n {
      SumGrows(s, m, n - 1);
    }
  }

  /** A sum of two parts is the sum of their sums, and of one cell the cell. */
  lemma {:induction false} SumOfParts(a: seq<nat>, b: seq<nat>)
    ensures Sum(a + b, |a| + |b|) == Sum(a, |a|) + Sum(b, |b|)
    ensures |a| == 1 ==> Sum(a, 1) == a[0]
    decreases |b|
  {
    SumFrame(a + b, a, |a|);
    if b != [] {
      var front := b[..|b| - 1];
      SumOfParts(a, front);
      SumFrame(a + b, a + front, |a| + |front|);
      SumFrame(b, front, |front|);
    }
  }

  lemma {:induction false} SumFrame(s: seq<nat>, t: seq<nat>, n: nat)
    requires n <= |s| && n <= |t| && forall i | 0 <= i < n :: s[i] == t[i]
    ensures Sum(s, n) == Sum(t, n)
  {
    if n > 0 {
      SumFrame(s, t, n - 1);
    }
  }

  /** The sum of block id. */
  function BlockSum(s: seq<nat>, id: nat): nat
    requires 32 * id + 32 <= |s|
  {
    SumGrows(s, 32 * id, 32 * id + 32);
    Sum(s, 32 * id + 32) - Sum(s, 32 * id)
  }

  /** The sums of the blocks in the order given. */
  function SumInOrder(s: seq<nat>, order: seq<nat>): nat
    requires forall k | 0 <= k < |order| :: 32 * order[k] + 32 <= |s|
  {
    if order == [] then 0 else SumInOrder(s, order[..|order| - 1]) + BlockSum(s, order[|order| - 1])
  }

  /** One work item of aggregate_block: the block is summed in a private word, which is added to the
    cell in one atomic step. */
  method AggregateItem(input: array<nat>, result: array<nat>, id: nat)
    requires 32 * id + 32 <= input.Length && result.Length == 1 && result != input
    modifies result
    ensures result[0] == Mod(old(result[0]) + BlockSum(input[..], id))
  {
    var pos, agg := 32 * id, 0;
    ghost var s := input[..];
    for i := 0 to 32
      modifies {}
      invariant Sum(s, pos) <= Sum(s, pos + i) && agg == Mod(Sum(s, pos + i) - Sum(s, pos))
    {
      ModAdds(Sum(s, pos + i) - Sum(s, pos), input[pos + i]);
      agg := Mod(agg + input[pos + i]);
    }
    ModAdds(result[0], BlockSum(s, id));
    result[0] := Mod(result[0] + agg);
  }

  method Aggregate(order: seq<nat>, input: array<nat>, result: array<nat>)
    requires input.Length == 32 * |order| && IsOrder(order, |order|) && result.Length == 1 && result != input
    requires result[0] == 0
    modifies result
    ensures result[0] == Mod(Sum(input[..], input.Length))
  {
    ghost var s := input[..];
    for n := 0 to |order|
      invariant result[0] == Mod(SumInOrder(s, order[..n]))
    {
      AggregateItem(input, result, order[n]);
      assert order[..n + 1][..n] == order[..n];
      ModAdds(SumInOrder(s, order[..n]), BlockSum(s, order[n]));
    }
    assert order[..|order|] == order;
    AnyOrder(s, order, |order|);
  }

  /** Taking the work item at place k out of an order. */
  function Without(order: seq<nat>, k: nat): seq<nat>
    requires k < |order|
  {
    order[..k] + order[k + 1..]
  }

  lemma {:induction false} TakeOut(s: seq<nat>, order: seq<nat>, k: nat)
    requires k < |order| && forall i | 0 <= i < |order| :: 32 * order[i] + 32 <= |s|
    ensures SumInOrder(s, order) == SumInOrder(s, Without(order, k)) + BlockSum(s, order[k])
    decreases |order|
  {
    var last := |order| - 1;
    if k < last {
      TakeOut(s, order[..last], k);
      assert Without(order, k)[..last - 1] == Without(order[..last], k);
    } else {
      assert Without(order, k) == order[..last];
    }
  }

  /** Every order of the work items gives the same sum. */
  lemma {:induction false} AnyOrder(s: seq<nat>, order: seq<nat>, n: nat)
    requires IsOrder(order, n) && 32 * n <= |s|
    ensures SumInOrder(s, order) == Sum(s, 32 * n)
    decreases n
  {
    if n > 0 {
      var k := Turn(order, n, n - 1);
      TakeOut(s, order, k);
      RestIsOrder(order, n, k);
      AnyOrder(s, Without(order, k), n - 1);
    }
  }

  lemma RestIsOrder(order: seq<nat>, n: nat, k: nat)
    requires IsOrder(order, n) && k < n && order[k] == n - 1
    ensures IsOrder(Without(order, k), n - 1)
  {
    var rest := Without(order, k);
    assert forall i | 0 <= i < n - 1 :: rest[i] == order[if i < k then i else i + 1];
    forall id | 0 <= id < n - 1
      ensures id in rest
    {
      var i := Turn(order, n, id);
      assert rest[if i < k then i else i - 1] == id;
    }
  }

  // -------------------------------------------------------------------------------- Query

  /** Row r satisfies all predicates. */
  predicate Satisfies(columns: seq<seq<nat>>, limits: seq<nat>, r: nat)
    requires |columns| == |limits|
    requires forall k | 0 <= k < |columns| :: r < |columns[k]|
  {
    forall k | 0 <= k < |columns| :: columns[k][r] < limits[k]
  }

  /** The sum over the first n rows of the products of those that satisfy all predicates. */
  function Expected(columns: seq<seq<nat>>, limits: seq<nat>, a: seq<nat>, b: seq<nat>, n: nat): nat
    requires |columns| == |limits| && n <= |a| && n <= |b|
    requires forall k | 0 <= k < |columns| :: n <= |columns[k]|
  {
    if n == 0 then 0
    else Expected(columns, limits, a, b, n - 1) + if Satisfies(columns, limits, n - 1) then a[n - 1] * b[n - 1] else 0
  }

  lemma {:induction false} SumIsExpected(columns: seq<seq<nat>>, limits: seq<nat>, a: seq<nat>, b: seq<nat>, products: seq<nat>, n: nat)
    requires |columns| == |limits| && n <= |a| && n <= |b| && n <= |products|
    requires forall k | 0 <= k < |columns| :: n <= |columns[k]|
    requires forall r | 0 <= r < n :: products[r] == if Satisfies(columns, limits, r) then Mod(a[r] * b[r]) else 0
    ensures Mod(Sum(products, n)) == Mod(Expected(columns, limits, a, b, n))
  {
    hide Satisfies, Mod;
    if n > 0 {
      SumIsExpected(columns, limits, a, b, products, n - 1);
      ModAdds(Sum(products, n - 1), products[n - 1]);
      ModAdds(Expected(columns, limits, a, b, n - 1), products[n - 1]);
      if Satisfies(columns, limits, n - 1) {
        ModAdds(Expected(columns, limits, a, b, n - 1), a[n - 1] * b[n - 1]);
      }
    }
  }

  /** The product of materialised rows. */
  lemma ProductOfChosen(bitmap: seq<nat>, a: seq<nat>, b: seq<nat>, r: nat)
    requires r < 32 * |bitmap| == |a| == |b| && a[r] < WORD && b[r] < WORD
    ensures Mod(Mod(Chosen(bitmap, a, r)) * Mod(Chosen(bitmap, b, r))) == if Row(bitmap, r) then Mod(a[r] * b[r]) else 0
  {
    assert Mod(a[r]) == a[r] && Mod(b[r]) == b[r] && Mod(0) == 0;
  }

  ghost function Values(columns: seq<array<nat>>): (values: seq<seq<nat>>)
    reads columns
    ensures |values| == |columns| && forall k | 0 <= k < |columns| :: values[k] == columns[k][..]
  {
    if columns == [] then [] else [columns[0][..]] + Values(columns[1..])
  }

  /** A selection kernel per column; their bitmaps are conjoined in place. */
  method SelectAll(columns: seq<array<nat>>, limits: seq<nat>, n: nat, blocks: nat -> seq<nat>) returns (bitmap: array<nat>)
    requires 0 < |columns| == |limits| && forall k | 0 <= k < |columns| :: columns[k].Length == 32 * n
    requires forall launch :: IsOrder(blocks(launch), n)
    ensures fresh(bitmap) && bitmap.Length == n
    ensures forall r | 0 <= r < 32 * n :: Row(bitmap[..], r) <==> forall k | 0 <= k < |columns| :: columns[k][r] < limits[k]
  {
    bitmap := new nat[n];
    Select(blocks(0), columns[0], bitmap, limits[0]);
    for m := 1 to |columns|
      invariant forall r | 0 <= r < 32 * n :: Row(bitmap[..], r) <==> forall k | 0 <= k < m :: columns[k][r] < limits[k]
    {
      var further := new nat[n];
      Select(blocks(2 * m - 1), columns[m], further, limits[m]);
      Conjoin(blocks(2 * m), bitmap, further, bitmap);
    }
  }

  lemma RowsSatisfy(columns: seq<array<nat>>, limits: seq<nat>, bitmap: seq<nat>, n: nat)
    requires |columns| == |limits| && |bitmap| == n && forall k | 0 <= k < |columns| :: columns[k].Length == 32 * n
    requires forall r | 0 <= r < 32 * n :: Row(bitmap, r) <==> forall k | 0 <= k < |columns| :: columns[k][r] < limits[k]
    ensures forall k | 0 <= k < |columns| :: |Values(columns)[k]| == 32 * n
    ensures forall r | 0 <= r < 32 * n :: Row(bitmap, r) <==> Satisfies(Values(columns), limits, r)
  {
    hide Row;
  }

  /** Two columns materialised and multiplied. */
  method Products(a: array<nat>, b: array<nat>, bitmap: array<nat>, left: seq<nat>, right: seq<nat>, rows: seq<nat>)
    returns (products: array<nat>)
    requires a.Length == b.Length == 32 * bitmap.Length && forall r | 0 <= r < a.Length :: a[r] < WORD && b[r] < WORD
    requires IsOrder(left, bitmap.Length) && IsOrder(right, bitmap.Length) && IsOrder(rows, a.Length)
    ensures fresh(products) && products.Length == a.Length
    ensures forall r | 0 <= r < a.Length :: products[r] == if Row(bitmap[..], r) then Mod(a[r] * b[r]) else 0
  {
    hide IsOrder, Row, Chosen, Mod;
    var first, second := new nat[a.Length], new nat[a.Length];
    products := new nat[a.Length];
    Materialize(left, a, bitmap, first);
    Materialize(right, b, bitmap, second);
    Multiply(rows, first, second, products);
    forall r | 0 <= r < a.Length
      ensures products[r] == if Row(bitmap[..], r) then Mod(a[r] * b[r]) else 0
    {
      ProductOfChosen(bitmap[..], a[..], b[..], r);
    }
  }

  /** Select, conjoin, materialise two columns, multiply and aggregate, every launch in an order of
    its own: the sum, modulo 2^32, of the products over the rows that satisfy all predicates. */
  method Query(columns: seq<array<nat>>, limits: seq<nat>, a: array<nat>, b: array<nat>, n: nat,
               blocks: nat -> seq<nat>, rows: seq<nat>)
    returns (result: nat)
    requires 0 < |columns| == |limits| && forall k | 0 <= k < |columns| :: columns[k].Length == 32 * n
    requires a.Length == b.Length == 32 * n
    requires forall r | 0 <= r < 32 * n :: a[r] < WORD && b[r] < WORD
    requires (forall launch :: IsOrder(blocks(launch), n)) && IsOrder(rows, 32 * n)
    ensures result == Mod(Expected(Values(columns), limits, a[..], b[..], 32 * n))
  {
    hide Expected, Sum, IsOrder, Row, Satisfies, Values, Mod;
    ghost var values := Values(columns);
    var bitmap := SelectAll(columns, limits, n, blocks);
    RowsSatisfy(columns, limits, bitmap[..], n);
    var products := Products(a, b, bitmap, blocks(2 * |columns|), blocks(2 * |columns| + 1), rows);
    OrderLength(blocks(2 * |columns| + 2), n);
    var cell := new nat[1](_ => 0);
    Aggregate(blocks(2 * |columns| + 2), products, cell);
    SumIsExpected(values, limits, a[..], b[..], products[..], 32 * n);
    result := cell[0];
  }
}
