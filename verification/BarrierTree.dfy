/** The shape of a tree of barriers and of the threads assigned to it (Barrier.hpp).

  Nodes are numbered in the order they are allocated. `create` allocates the level above
  first, so a parent always has a smaller number than its children and node 0 is the root. */
module BarrierTree {
  import opened Common

  /** A HierarchicBarrier: its parent and the threadCount of its Barrier. */
  datatype Node = Node(parent: Option<nat>, count: nat)

  /** `leaf[t]` is the barrier thread `t` waits at. */
  datatype Tree = Tree(nodes: seq<Node>, leaf: seq<nat>)

  /** Whoever calls `wait` on a barrier: a thread on its leaf, or the last arriver of a child. */
  datatype Part = Thread(t: nat) | Child(c: nat)

  predicate IsPart(tree: Tree, x: Part) {
    match x
    case Thread(t) => t < |tree.leaf|
    case Child(c) => c < |tree.nodes| && tree.nodes[c].parent.Some?
  }

  function Home(tree: Tree, x: Part): nat
    requires IsPart(tree, x)
  {
    match x
    case Thread(t) => tree.leaf[t]
    case Child(c) => tree.nodes[c].parent.value
  }

  function ThreadsOf(leaf: seq<nat>, b: nat): set<nat> {
    set t | 0 <= t < |leaf| && leaf[t] == b
  }

  function ChildrenOf(nodes: seq<Node>, b: nat): set<nat> {
    set c | 0 <= c < |nodes| && nodes[c].parent == Some(b)
  }

  function PartsOf(tree: Tree, b: nat): (parts: set<Part>)
    ensures forall x :: x in parts <==> IsPart(tree, x) && Home(tree, x) == b
  {
    (set t | t in ThreadsOf(tree.leaf, b) :: Thread(t)) + (set c | c in ChildrenOf(tree.nodes, b) :: Child(c))
  }

  predicate CountsItsParts(tree: Tree, b: nat)
    requires b < |tree.nodes|
  {
    tree.nodes[b].count == |PartsOf(tree, b)| > 0
  }

  /** One root, parents before children, and every barrier counts exactly its callers. */
  ghost predicate WellFormed(tree: Tree) {
    && tree.nodes != []
    && (forall b | 0 <= b < |tree.nodes| ::
          tree.nodes[b].parent == None <==> b == 0)
    && (forall b | 0 < b < |tree.nodes| :: tree.nodes[b].parent.value < b)
    && (forall t | 0 <= t < |tree.leaf| :: tree.leaf[t] < |tree.nodes|)
    && (forall b | 0 <= b < |tree.nodes| :: CountsItsParts(tree, b))
  }
}
