/** Building and freeing the tree of barriers (Barrier.hpp) and handing its leaves to the
  workers of a group (Concurrency.hpp). */
module BarrierBuild {
  import opened BarrierProtocol
  import opened BarrierTree
  import opened Common

  // threadsPerBarrier is 8 throughout.

  /** Barriers in a level that `n` callers wait at. */
  function Leaves(n: nat): nat { (n + 7) / 8 }

  function LevelNode(n: nat, base: nat, i: nat): Node {
    Node(Some(base + i / 8), if 8 * (i + 1) <= n then 8 else n % 8)
  }

  function Level(n: nat, base: nat, size: nat): (level: seq<Node>)
    ensures |level| == size
    ensures forall i | 0 <= i < size :: level[i] == LevelNode(n, base, i)
  {
    seq(size, i requires 0 <= i < size => LevelNode(n, base, i))
  }

  /** The barriers `create(n)` leaves behind, in allocation order, when the first one gets
    address `at`. */
  function Built(n: nat, at: nat): (nodes: seq<Node>)
    requires n >= 1
    ensures |nodes| >= Leaves(n)
    decreases n
  {
    if n <= 8 then [Node(None, n)] else Below(Built(Leaves(n), at), n, Leaves(n), at)
  }

  /** The tree `up` for as many callers as the new level has barriers, and that level. */
  function Below(up: seq<Node>, n: nat, size: nat, at: nat): (nodes: seq<Node>)
    requires |up| >= Leaves(size)
    ensures |nodes| == |up| + size && nodes[..|up|] == up
    ensures forall i {:trigger nodes[|up| + i]} | 0 <= i < size :: nodes[|up| + i] == LevelNode(n, at + |up| - Leaves(size), i)
  {
    up + Level(n, at + |up| - Leaves(size), size)
  }

  lemma LevelOnTop(before: seq<Node>, up: seq<Node>, n: nat, size: nat)
    requires |up| >= Leaves(size)
    ensures before + up + Level(n, |before| + |up| - Leaves(size), size) == before + Below(up, n, size, |before|)
  {
  }

  function Addresses(from: nat, size: nat): seq<nat> {
    seq(size, i requires 0 <= i < size => from + i)
  }

  predicate Between(lo: nat, b: nat, hi: nat) { lo <= b < hi }

  function Range(lo: nat, hi: nat): set<nat> { set b: nat | b < hi && Between(lo, b, hi) }

  /** One more barrier at the end of a level. */
  lemma LevelGrows(n: nat, base: nat, from: nat, i: nat)
    ensures Level(n, base, i) + [LevelNode(n, base, i)] == Level(n, base, i + 1)
    ensures Addresses(from, i) + [from + i] == Addresses(from, i + 1)
    ensures Range(from, from + i) + {from + i} == Range(from, from + i + 1)
  {
  }

  lemma RangeSplits(lo: nat, mid: nat, hi: nat)
    requires lo <= mid <= hi
    ensures Range(lo, hi) == Range(lo, mid) + Range(mid, hi)
    ensures Range(lo, mid) == Range(lo, hi) - Range(mid, hi)
  {
  }

  lemma OneBarrier(b: nat)
    ensures Range(b, b + 1) == {b} && Addresses(b, 1) == [b]
  {
  }

  lemma AddressesLength(from: nat, size: nat)
    ensures |Addresses(from, size)| == size
  {
  }

  lemma AddressesInRange(from: nat, size: nat)
    ensures forall k | 0 <= k < |Addresses(from, size)| :: Addresses(from, size)[k] in Range(from, from + size)
  {
  }

  lemma LeavesCount(n: nat)
    ensures Leaves(n) == n / 8 + if n % 8 > 0 then 1 else 0
    ensures n > 8 ==> 1 < Leaves(n) < n
    ensures 0 < n <= 8 ==> Leaves(n) == 1
  {
  }

  lemma LevelStarts(n: nat, base: nat, from: nat)
    ensures Level(n, base, 0) == [] && Addresses(from, 0) == [] && Range(from, from) == {}
  {
  }

  /** The i-th barrier of a level and the parent it gets. */
  lemma LevelEntry(n: nat, base: nat, i: nat, parents: seq<nat>)
    requires parents == Addresses(base, Leaves(Leaves(n))) && i < Leaves(n)
    ensures i / 8 < |parents| && LevelNode(n, base, i) == Node(Some(parents[i / 8]), if i < n / 8 then 8 else n % 8)
    ensures i == Leaves(n) - 1 ==> i / 8 == |parents| - 1
  {
    assert i / 8 < |parents|;
    assert 8 * (i + 1) <= n <==> i < n / 8;
  }

  /** The memory the barriers live in: an address is the index of a node. */
  class Arena {
    var nodes: seq<Node>
    var live: set<nat>

    ghost predicate Valid()
      reads this
    {
      forall b | b in live :: b < |nodes|
    }

    constructor ()
      ensures nodes == [] && live == {}
    {
      nodes, live := [], {};
    }

    method New(nrThreads: nat, parent: Option<nat>) returns (b: nat)
      requires Valid()
      modifies this
      ensures Valid() && b == |old(nodes)| && nodes == old(nodes) + [Node(parent, nrThreads)] && live == old(live) + {b}
    {
      b := |nodes|;
      nodes := nodes + [Node(parent, nrThreads)];
      live := live + {b};
    }

    /** free: a barrier still allocated, or the null pointer. */
    method Free(b: Option<nat>)
      requires Valid()
      requires b.Some? ==> b.value in live
      modifies this`live
      ensures Valid() && live == old(live) - (if b.Some? then {b.value} else {})
    {
      if b.Some? {
        live := live - {b.value};
      }
    }

    method Create(nrThreads: nat) returns (result: seq<nat>)
      requires Valid() && nrThreads >= 1
      modifies this
      ensures Valid() && nodes == old(nodes) + Built(nrThreads, |old(nodes)|)
      ensures result == Addresses(|nodes| - Leaves(nrThreads), Leaves(nrThreads))
      ensures live == old(live) + Range(|old(nodes)|, |nodes|)
      decreases nrThreads
    {
      hide Leaves, Level, Below, Range, Addresses;
      LeavesCount(nrThreads);
      if nrThreads <= 8 {
        var b := New(nrThreads, None);
        OneBarrier(b);
        return [b];
      }
      var nrBarriersFull := nrThreads / 8;
      var threadsInRestBarrier := nrThreads % 8;
      var nrBarriers := nrBarriersFull + if threadsInRestBarrier > 0 then 1 else 0;
      var parentLevel := Create(nrBarriers);
      AddressesLength(|nodes| - Leaves(nrBarriers), Leaves(nrBarriers));
      ghost var middle := nodes;
      result := CreateLevel(nrThreads, nrBarriers, parentLevel, |nodes| - |parentLevel|);
      LevelOnTop(old(nodes), Built(nrBarriers, |old(nodes)|), nrThreads, nrBarriers);
      RangeSplits(|old(nodes)|, |middle|, |nodes|);
    }

    /** The lowest level of the tree: eight barriers share a parent. */
    method CreateLevel(nrThreads: nat, nrBarriers: nat, parentLevel: seq<nat>, ghost base: nat) returns (result: seq<nat>)
      requires Valid() && nrBarriers == Leaves(nrThreads) > 0
      requires parentLevel == Addresses(base, Leaves(nrBarriers))
      modifies this
      ensures Valid()
      ensures nodes == old(nodes) + Level(nrThreads, base, nrBarriers)
      ensures result == Addresses(|old(nodes)|, nrBarriers)
      ensures live == old(live) + Range(|old(nodes)|, |nodes|)
    {
      hide Leaves, Level, LevelNode, Range, Addresses;
      ghost var before := nodes;
      LevelStarts(nrThreads, base, |before|);
      LeavesCount(nrThreads);
      var parent := -1;
      result := [];
      for i := 0 to nrThreads / 8
        invariant 8 * parent < i <= 8 * parent + 8 || (i == 0 && parent == -1)
        invariant Valid() && nodes == before + Level(nrThreads, base, i)
        invariant result == Addresses(|before|, i)
        invariant live == old(live) + Range(|before|, |before| + i)
      {
        if i % 8 == 0 {
          parent := parent + 1;
        }
        LevelGrows(nrThreads, base, |before|, i);
        LevelEntry(nrThreads, base, i, parentLevel);
        assert parent == i / 8;
        var b := New(8, Some(parentLevel[parent]));
        result := result + [b];
      }
      if nrThreads % 8 > 0 {
        LevelGrows(nrThreads, base, |before|, nrThreads / 8);
        LevelEntry(nrThreads, base, nrThreads / 8, parentLevel);
        var b := New(nrThreads % 8, Some(parentLevel[|parentLevel| - 1]));
        result := result + [b];
      }
    }

    /** Frees the tree whose lowest level is `these`. Reading a parent and freeing both demand
      that the barrier has not been freed before. */
    method Destroy(these: seq<nat>, ghost n: nat, ghost at: nat)
      requires Valid() && n >= 1
      requires HoldsTree(nodes, n, at)
      requires these == Addresses(at + |Built(n, at)| - Leaves(n), Leaves(n))
      requires Range(at, at + |Built(n, at)|) <= live
      modifies this`live
      ensures Valid() && live == old(live) - Range(at, at + |Built(n, at)|)
      decreases n
    {
      hide Leaves, Built, HoldsTree, Addresses, EighthParent;
      AddressesLength(at + |Built(n, at)| - Leaves(n), Leaves(n));
      LeavesCount(n);
      LeavesCount(|these|);
      ghost var low := at + |Built(n, at)| - |these|;
      RangeSplits(at, low, at + |Built(n, at)|);
      AddressesInRange(low, |these|);
      var parents := Parents(these);
      FreeAll(these, low);
      if |parents| > 1 {
        LevelAbove(nodes, these, parents, n, at);
        Destroy(Unwrap(parents), Leaves(n), at);
      } else {
        OneParent(nodes, these, parents[0], n, at);
        Free(parents[|parents| - 1]);
      }
    }

    method Parents(these: seq<nat>) returns (parents: seq<Option<nat>>)
      requires Valid() && forall k | 0 <= k < |these| :: these[k] in live
      ensures |parents| == Leaves(|these|)
      ensures forall k | 0 <= k < |parents| :: EighthParent(nodes, these, k, parents[k])
    {
      parents := [];
      var i := 0;
      while i < |these|
        invariant i == 8 * |parents| < |these| + 8
        invariant forall k | 0 <= k < |parents| :: EighthParent(nodes, these, k, parents[k])
      {
        assert these[i] in live;
        parents := parents + [nodes[these[i]].parent];
        i := i + 8;
      }
    }

    method FreeAll(these: seq<nat>, ghost low: nat)
      requires Valid() && these == Addresses(low, |these|) && Range(low, low + |these|) <= live
      modifies this`live
      ensures Valid() && live == old(live) - Range(low, low + |these|)
    {
      for k := 0 to |these|
        invariant Valid() && live == old(live) - Range(low, low + k)
      {
        Free(Some(these[k]));
      }
    }
  }

  predicate EighthParent(nodes: seq<Node>, these: seq<nat>, k: nat, parent: Option<nat>) {
    8 * k < |these| && these[8 * k] < |nodes| && parent == nodes[these[8 * k]].parent
  }

  ghost predicate HoldsTree(nodes: seq<Node>, n: nat, at: nat)
    requires n >= 1
  {
    at + |Built(n, at)| <= |nodes| && nodes[at..at + |Built(n, at)|] == Built(n, at)
  }

  /** What lies above the lowest level is the tree for as many callers as that level has barriers. */
  lemma TreeAbove(nodes: seq<Node>, n: nat, at: nat)
    requires n > 8 && HoldsTree(nodes, n, at)
    ensures HoldsTree(nodes, Leaves(n), at)
    ensures |Built(n, at)| == |Built(Leaves(n), at)| + Leaves(n)
  {
    var built, up := Built(n, at), Built(Leaves(n), at);
    assert nodes[at..at + |up|] == nodes[at..at + |built|][..|up|];
  }

  lemma LevelNodes(nodes: seq<Node>, n: nat, at: nat, k: nat)
    requires n > 8 && HoldsTree(nodes, n, at) && k < Leaves(n)
    ensures var up := |Built(Leaves(n), at)|;
      up + k < |Built(n, at)| && nodes[at + up + k] == LevelNode(n, at + up - Leaves(Leaves(n)), k)
  {
    var built, up := Built(n, at), |Built(Leaves(n), at)|;
    assert nodes[at + (up + k)] == nodes[at..at + |built|][up + k];
  }

  lemma RootLevel(nodes: seq<Node>, n: nat, at: nat)
    requires 1 <= n <= 8 && HoldsTree(nodes, n, at)
    ensures |Built(n, at)| == Leaves(n) == 1 && nodes[at].parent == None
    ensures Range(at, at) == {} && Range(at, at + 1) == {at}
  {
    assert nodes[at] == nodes[at..at + 1][0];
  }

  function Unwrap(parents: seq<Option<nat>>): (up: seq<nat>)
    requires forall k | 0 <= k < |parents| :: parents[k].Some?
    ensures |up| == |parents| && forall k | 0 <= k < |up| :: up[k] == parents[k].value
  {
    seq(|parents|, k requires 0 <= k < |parents| => parents[k].value)
  }

  lemma LevelParent(n: nat, base: nat, k: nat)
    ensures LevelNode(n, base, 8 * k).parent == Some(base + k)
  {
    assert 8 * k / 8 == k;
  }

  lemma EighthNode(nodes: seq<Node>, these: seq<nat>, parent: Option<nat>, n: nat, at: nat, k: nat)
    requires n > 8 && HoldsTree(nodes, n, at)
    requires these == Addresses(at + |Built(n, at)| - Leaves(n), Leaves(n))
    requires EighthParent(nodes, these, k, parent)
    ensures parent == Some(at + |Built(Leaves(n), at)| - Leaves(Leaves(n)) + k)
  {
    hide Built, HoldsTree, LevelNode;
    var up := |Built(Leaves(n), at)|;
    TreeAbove(nodes, n, at);
    LevelNodes(nodes, n, at, 8 * k);
    LevelParent(n, at + up - Leaves(Leaves(n)), k);
    assert these[8 * k] == at + up + 8 * k;
  }

  lemma UnwrapAddresses(parents: seq<Option<nat>>, first: nat)
    requires forall k | 0 <= k < |parents| :: parents[k] == Some(first + k)
    ensures Unwrap(parents) == Addresses(first, |parents|)
  {
  }

  /** The parents of every eighth barrier of the lowest level are the level above, in order. */
  lemma LevelAbove(nodes: seq<Node>, these: seq<nat>, parents: seq<Option<nat>>, n: nat, at: nat)
    requires n > 8 && HoldsTree(nodes, n, at)
    requires these == Addresses(at + |Built(n, at)| - Leaves(n), Leaves(n))
    requires |parents| == Leaves(Leaves(n)) && forall k | 0 <= k < |parents| :: EighthParent(nodes, these, k, parents[k])
    ensures HoldsTree(nodes, Leaves(n), at)
    ensures |Built(n, at)| == |Built(Leaves(n), at)| + Leaves(n)
    ensures forall k | 0 <= k < |parents| :: parents[k].Some?
    ensures Unwrap(parents) == Addresses(at + |Built(Leaves(n), at)| - |parents|, |parents|)
  {
    TreeAbove(nodes, n, at);
    var first := at + |Built(Leaves(n), at)| - |parents|;
    forall k | 0 <= k < |parents|
      ensures parents[k] == Some(first + k)
    {
      EighthNode(nodes, these, parents[k], n, at, k);
    }
    UnwrapAddresses(parents, first);
  }

  /** The last parent to free is the root, or null if the root was the whole tree. */
  lemma OneParent(nodes: seq<Node>, these: seq<nat>, parent: Option<nat>, n: nat, at: nat)
    requires n >= 1 && Leaves(n) <= 8 && HoldsTree(nodes, n, at)
    requires these == Addresses(at + |Built(n, at)| - Leaves(n), Leaves(n)) && EighthParent(nodes, these, 0, parent)
    ensures Range(at, at + |Built(n, at)| - Leaves(n)) == if parent.Some? then {parent.value} else {}
  {
    if n <= 8 {
      RootLevel(nodes, n, at);
    } else {
      TreeAbove(nodes, n, at);
      RootLevel(nodes, Leaves(n), at);
      EighthNode(nodes, these, parent, n, at, 0);
    }
  }

  // ------------------------------------------------------------ The tree counts its callers

  /** Callers of the i-th barrier of a level for `n` callers. */
  function Share(n: nat, i: nat): nat
    requires 8 * i < n
  {
    if 8 * (i + 1) <= n then 8 else n - 8 * i
  }

  lemma ShareIsCount(n: nat, base: nat, i: nat)
    requires 8 * i < n
    ensures LevelNode(n, base, i).count == Share(n, i)
  {
  }

  function Low(n: nat): nat
    requires n >= 1
  {
    |Built(n, 0)| - Leaves(n)
  }

  /** The barrier worker `t` of a group of `n` waits at. */
  function LeafOf(n: nat, t: nat): nat
    requires n >= 1
  {
    Low(n) + t / 8
  }

  /** The tree `run` sets up for a group of `n` workers. */
  function GroupTree(n: nat): Tree
    requires n >= 1
  {
    Tree(Built(n, 0), seq(n, t requires 0 <= t < n => LeafOf(n, t)))
  }

  lemma {:induction false} RangeSize(lo: nat, hi: nat)
    requires lo <= hi
    ensures |Range(lo, hi)| == hi - lo
    decreases hi - lo
  {
    if lo < hi {
      RangeSize(lo, hi - 1);
      assert Range(lo, hi) == Range(lo, hi - 1) + {hi - 1};
    } else {
      assert Range(lo, hi) == {};
    }
  }

  lemma {:induction false} ImageSizes(ts: set<nat>, cs: set<nat>)
    ensures |set t | t in ts :: Thread(t)| == |ts|
    ensures |set c | c in cs :: Child(c)| == |cs|
    decreases |ts| + |cs|
  {
    if t :| t in ts {
      ImageSizes(ts - {t}, cs);
      assert (set x | x in ts :: Thread(x)) == (set x | x in ts - {t} :: Thread(x)) + {Thread(t)};
    } else if c :| c in cs {
      ImageSizes(ts, cs - {c});
      assert (set x | x in cs :: Child(x)) == (set x | x in cs - {c} :: Child(x)) + {Child(c)};
    } else {
      assert (set t | t in ts :: Thread(t)) == {} && (set c | c in cs :: Child(c)) == {};
    }
  }

  lemma PartsSize(tree: Tree, b: nat)
    ensures |PartsOf(tree, b)| == |ThreadsOf(tree.leaf, b)| + |ChildrenOf(tree.nodes, b)|
  {
    var ts, cs := ThreadsOf(tree.leaf, b), ChildrenOf(tree.nodes, b);
    ImageSizes(ts, cs);
    var threads, children := set t | t in ts :: Thread(t), set c | c in cs :: Child(c);
    assert threads !! children;
    assert PartsOf(tree, b) == threads + children;
  }

  /** Parents come first, and none of them is in the lowest level. */
  ghost predicate ParentsInv(n: nat)
    requires n >= 1
  {
    forall b | 0 <= b < |Built(n, 0)| ::
      match Built(n, 0)[b].parent
      case None => b == 0
      case Some(p) => b > 0 && p < Low(n) && p < b
  }

  /** Above the lowest level every barrier counts its children; in it, its share of the callers. */
  ghost predicate CountsInv(n: nat)
    requires n >= 1
  {
    && (forall b | 0 <= b < Low(n) :: |ChildrenOf(Built(n, 0), b)| == Built(n, 0)[b].count > 0)
    && (forall i | 0 <= i < Leaves(n) :: ShareInv(n, i))
  }

  ghost predicate ShareInv(n: nat, i: nat)
    requires n >= 1 && i < Leaves(n)
  {
    Built(n, 0)[Low(n) + i].count == Share(n, i)
  }

  lemma {:induction false} ParentsHold(n: nat)
    requires n >= 1
    ensures ParentsInv(n)
    decreases n
  {
    if n > 8 {
      var up := Built(Leaves(n), 0);
      ParentsHold(Leaves(n));
      forall b | 0 <= b < |Built(n, 0)|
        ensures match Built(n, 0)[b].parent
                case None => b == 0
                case Some(p) => b > 0 && p < Low(n) && p < b
      {
        if b < |up| {
          assert Built(n, 0)[b] == up[b];
        } else {
          assert Built(n, 0)[|up| + (b - |up|)] == LevelNode(n, |up| - Leaves(Leaves(n)), b - |up|);
        }
      }
    }
  }

  lemma ChildrenHigh(n: nat, b: nat)
    requires n > 8 && b < Low(Leaves(n))
    ensures ChildrenOf(Built(n, 0), b) == ChildrenOf(Built(Leaves(n), 0), b)
  {
    var up := Built(Leaves(n), 0);
    forall c | 0 <= c < |Built(n, 0)|
      ensures Built(n, 0)[c].parent == Some(b) <==> c < |up| && up[c].parent == Some(b)
    {
      if c < |up| {
        assert Built(n, 0)[c] == up[c];
      } else {
        assert Built(n, 0)[|up| + (c - |up|)] == LevelNode(n, |up| - Leaves(Leaves(n)), c - |up|);
      }
    }
  }

  lemma BuiltTwice(n: nat, size: nat)
    requires n > 8 && size == Leaves(n)
    ensures |Built(n, 0)| == |Built(size, 0)| + size
  {
  }

  lemma ParentInLow(n: nat, size: nat, j: nat, c: nat)
    requires n > 8 && size == Leaves(n) && j < Leaves(size) && ParentsInv(size) && c < |Built(n, 0)|
    ensures var m := |Built(size, 0)|;
      Built(n, 0)[c].parent == Some(Low(size) + j) <==> m + 8 * j <= c < m + 8 * j + Share(size, j)
  {
    hide CountsInv;
    var up := Built(size, 0);
    if c < |up| {
      assert Built(n, 0)[c] == up[c];
    } else {
      assert Built(n, 0)[|up| + (c - |up|)] == LevelNode(n, |up| - Leaves(size), c - |up|);
      EighthIs(c - |up|, j, size);
    }
  }

  lemma EighthIs(i: nat, j: nat, size: nat)
    requires i < size && 8 * j < size
    ensures i / 8 == j <==> 8 * j <= i < 8 * j + Share(size, j)
  {
  }

  lemma ChildrenLow(n: nat, size: nat, j: nat)
    requires n > 8 && size == Leaves(n) && j < Leaves(size) && ParentsInv(size)
    ensures |ChildrenOf(Built(n, 0), Low(size) + j)| == Share(size, j)
  {
    hide Built, ParentsInv;
    var up, built := Built(size, 0), Built(n, 0);
    var m, b := |up|, Low(size) + j;
    BuiltTwice(n, size);
    forall c | 0 <= c < |built|
      ensures built[c].parent == Some(b) <==> m + 8 * j <= c < m + 8 * j + Share(size, j)
    {
      ParentInLow(n, size, j, c);
    }
    assert ChildrenOf(built, b) == Range(m + 8 * j, m + 8 * j + Share(size, j));
    RangeSize(m + 8 * j, m + 8 * j + Share(size, j));
  }

  lemma CountHigh(n: nat, size: nat, b: nat)
    requires n > 8 && size == Leaves(n) && CountsInv(size) && ParentsInv(size) && b < |Built(size, 0)|
    ensures |ChildrenOf(Built(n, 0), b)| == Built(size, 0)[b].count > 0
  {
    if b < Low(size) {
      ChildrenHigh(n, b);
    } else {
      CountLow(n, size, b - Low(size));
    }
  }

  lemma CountLow(n: nat, size: nat, j: nat)
    requires n > 8 && size == Leaves(n) && CountsInv(size) && ParentsInv(size) && j < Leaves(size)
    ensures |ChildrenOf(Built(n, 0), Low(size) + j)| == Built(size, 0)[Low(size) + j].count > 0
  {
    assert ShareInv(size, j);
    ChildrenLow(n, size, j);
  }

  lemma {:induction false} CountsHold(n: nat)
    requires n >= 1
    ensures CountsInv(n)
    decreases n
  {
    if n > 8 {
      CountsHold(Leaves(n));
      ParentsHold(Leaves(n));
      forall b | 0 <= b < Low(n)
        ensures |ChildrenOf(Built(n, 0), b)| == Built(n, 0)[b].count > 0
      {
        assert Built(n, 0)[b] == Built(Leaves(n), 0)[b];
        CountHigh(n, Leaves(n), b);
      }
    }
    forall i | 0 <= i < Leaves(n)
      ensures ShareInv(n, i)
    {
      SharesHold(n, i);
    }
  }

  lemma SharesHold(n: nat, i: nat)
    requires n >= 1 && i < Leaves(n)
    ensures ShareInv(n, i)
  {
    if n > 8 {
      var up := Built(Leaves(n), 0);
      assert Built(n, 0)[|up| + i] == LevelNode(n, |up| - Leaves(Leaves(n)), i);
      ShareIsCount(n, |up| - Leaves(Leaves(n)), i);
    }
  }

  lemma WorkersOfLeaf(n: nat, i: nat)
    requires n >= 1 && i < Leaves(n)
    ensures ThreadsOf(GroupTree(n).leaf, Low(n) + i) == Range(8 * i, 8 * i + Share(n, i))
    ensures |ThreadsOf(GroupTree(n).leaf, Low(n) + i)| == Share(n, i)
  {
    forall t | 0 <= t < n
      ensures GroupTree(n).leaf[t] == Low(n) + i <==> 8 * i <= t < 8 * i + Share(n, i)
    {
    }
    assert ThreadsOf(GroupTree(n).leaf, Low(n) + i) == Range(8 * i, 8 * i + Share(n, i));
    RangeSize(8 * i, 8 * i + Share(n, i));
  }

  lemma InnerCounts(n: nat, b: nat)
    requires n >= 1 && b < Low(n)
    ensures CountsItsParts(GroupTree(n), b)
  {
    CountsHold(n);
    PartsSize(GroupTree(n), b);
    assert ThreadsOf(GroupTree(n).leaf, b) == {};
  }

  lemma LeafCounts(n: nat, i: nat)
    requires n >= 1 && i < Leaves(n)
    ensures CountsItsParts(GroupTree(n), Low(n) + i)
    ensures Built(n, 0)[Low(n) + i].count == |ThreadsOf(GroupTree(n).leaf, Low(n) + i)|
  {
    ParentsHold(n);
    SharesHold(n, i);
    WorkersOfLeaf(n, i);
    PartsSize(GroupTree(n), Low(n) + i);
    assert ChildrenOf(Built(n, 0), Low(n) + i) == {};
  }

  /** The counts of the first k leaves together. */
  function LeafTotal(n: nat, k: nat): nat
    requires n >= 1 && k <= Leaves(n)
  {
    if k == 0 then 0 else LeafTotal(n, k - 1) + Built(n, 0)[Low(n) + k - 1].count
  }

  lemma {:induction false} LeafTotals(n: nat, k: nat)
    requires n >= 1 && k <= Leaves(n)
    ensures LeafTotal(n, k) == if 8 * k <= n then 8 * k else n
  {
    hide Built;
    if k > 0 {
      LeafTotals(n, k - 1);
      SharesHold(n, k - 1);
      assert ShareInv(n, k - 1);
    }
  }

  /** The counts of all leaves sum to the number of callers. */
  lemma LeavesCountAll(n: nat)
    requires n >= 1
    ensures LeafTotal(n, Leaves(n)) == n
  {
    LeafTotals(n, Leaves(n));
  }

  lemma AllCount(n: nat, b: nat)
    requires n >= 1 && b < |Built(n, 0)|
    ensures CountsItsParts(GroupTree(n), b)
  {
    if b < Low(n) {
      InnerCounts(n, b);
    } else {
      LeafCounts(n, b - Low(n));
    }
  }

  /** For every number of workers, `create` and `run` together set up a well-formed tree. */
  lemma GroupTreeIsWellFormed(n: nat)
    requires n >= 1
    ensures WellFormed(GroupTree(n))
  {
    ParentsHold(n);
    forall b | 0 <= b < |Built(n, 0)|
      ensures CountsItsParts(GroupTree(n), b)
    {
      AllCount(n, b);
    }
  }

  // --------------------------------------------------------------------------- Worker groups

  /** WorkerGroup::run: the spawned workers fill the leaves in order, the calling thread takes
    the last one. Entry t of the result is the barrier of worker t. */
  method AssignWorkers(size: nat, barriers: seq<nat>) returns (places: seq<nat>)
    requires size >= 1 && |barriers| == Leaves(size)
    ensures |places| == size && forall t | 0 <= t < size :: places[t] == barriers[t / 8]
  {
    var group := -1;
    places := [];
    for i := 0 to size - 1
      invariant 8 * group < i <= 8 * group + 8 || (i == 0 && group == -1)
      invariant |places| == i && forall t | 0 <= t < i :: places[t] == barriers[t / 8]
    {
      if i % 8 == 0 {
        group := group + 1;
      }
      assert group == i / 8;
      places := places + [barriers[group]];
    }
    places := places + [barriers[|barriers| - 1]];
  }

  lemma PlacesAreLeaves(size: nat, barriers: seq<nat>, places: seq<nat>)
    requires size >= 1 && barriers == Addresses(Low(size), Leaves(size))
    requires |places| == size && forall t | 0 <= t < size :: places[t] == barriers[t / 8]
    ensures places == GroupTree(size).leaf
  {
  }

  /** The whole life of a group's barriers: built, handed out, and all freed. */
  method RunGroup(size: nat) returns (tree: Tree, arena: Arena)
    requires size >= 1
    ensures tree == GroupTree(size) && WellFormed(tree)
    ensures fresh(arena) && arena.nodes == tree.nodes && arena.live == {}
  {
    arena := new Arena();
    var barriers := arena.Create(size);
    assert arena.nodes == Built(size, 0) && HoldsTree(arena.nodes, size, 0);
    assert arena.live == Range(0, |arena.nodes|);
    var places := AssignWorkers(size, barriers);
    tree := Tree(arena.nodes, places);
    PlacesAreLeaves(size, barriers, places);
    GroupTreeIsWellFormed(size);
    arena.Destroy(barriers, size, 0);
  }

  /** Barriers made by `create(n)` for n workers never let one through early, run the finalizer once
    per round between the last arrival and the first departure, tell exactly one worker true per
    round, and never leave all of them stuck. */
  lemma CreatedBarriersAreSafe(n: nat, run: seq<State>, i: nat, k: nat)
    requires n >= 1 && IsRun(GroupTree(n), run) && i < |run|
    ensures |run[i].threads| == |run[i].arrived| == n && |run[i].round| == |Built(n, 0)| > 0
    ensures (exists t :: 0 <= t < n && |run[i].threads[t].results| >= k) ==> forall u | 0 <= u < n :: run[i].arrived[u] >= k
    ensures forall u | 0 <= u < n :: |run[i].threads[u].results| <= |run[i].winners| <= run[i].arrived[u]
    ensures run[i].round[0] <= |run[i].winners| <= run[i].round[0] + 1
    ensures (forall t | 0 <= t < n :: |run[i].threads[t].results| > k) ==> exists w :: OnlyWinner(run[i], k, w)
    ensures (forall t | 0 <= t < n :: run[i].threads[t].stack != []) ==>
      exists t :: 0 <= t < n && Top(run[i].threads[t]) < |run[i].round| && !Blocked(run[i].threads[t], run[i])
  {
    var tree := GroupTree(n);
    GroupTreeIsWellFormed(n);
    FinalizerRunsInBetween(tree, run, i);
    if t :| 0 <= t < n && |run[i].threads[t].results| >= k {
      NobodyLeavesEarly(tree, run, i, t, k);
    }
    if forall t | 0 <= t < n :: |run[i].threads[t].results| > k {
      ExactlyOneReturnsTrue(tree, run, i, k);
    }
    if forall t | 0 <= t < n :: run[i].threads[t].stack != [] {
      SomeThreadCanProceed(tree, run, i);
    }
  }

  /** In them, the byte comparison is exact for every spinning worker, and no worker decrements the
    counter of a barrier that another one leads. */
  lemma CreatedBarriersStayInStep(n: nat, run: seq<State>, i: nat, t: nat, u: nat)
    requires n >= 1 && IsRun(GroupTree(n), run) && i < |run| && t < n && u < n
    ensures |run[i].threads| == n
    ensures run[i].threads[u].stack != [] && run[i].threads[u].phase.Spin? ==>
      && Top(run[i].threads[u]) < |run[i].round|
      && (Byte(run[i].round[Top(run[i].threads[u])]) != run[i].threads[u].phase.prev
          <==> run[i].round[Top(run[i].threads[u])] == |run[i].threads[u].results| + 1)
    ensures run[i].threads[u].stack != [] && u != t && Leads(run[i].threads[t], Top(run[i].threads[u])) ==>
      run[i].threads[u].phase.Spin?
  {
    var tree := GroupTree(n);
    GroupTreeIsWellFormed(n);
    RunInv(tree, run, i);
    var s := run[i].threads[u];
    if s.stack != [] && s.phase.Spin? {
      ByteComparisonIsExact(tree, run, i, u);
    }
    if s.stack != [] && Leads(run[i].threads[t], Top(s)) {
      CounterIsQuietUntilRoundEnds(tree, run, i, t, u);
    }
  }
}
