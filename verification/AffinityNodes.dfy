/** The linked objects of the content-affinity trie: buckets, nodes and the indexed candidate
    heaps, updated in place. `View` is the value snapshot of a set of nodes that the `Radix*`
    modules reason about. */
module AffinityNodes {
  import opened Prelude
  import opened CandidateOrder
  import opened RadixForest
  import opened RadixEdits

  class Bucket {
    const prefix: Path
    var root: Node?

    constructor (prefix: Path)
      requires |prefix| == MIN_ELEMENTS
      ensures this.prefix == prefix
      ensures root != null && fresh(root) && root.bucket == this && root.path == prefix
      ensures root.Snapshot() == FreshCell<Node>(prefix, None, [])
      ensures root.candidateHeap == null
    {
      this.prefix := prefix;
      root := null;
      new;
      root := new Node(this, null, [], |prefix|, prefix);
    }
  }

  class Node {
    const bucket: Bucket
    ghost const path: Path
    const depth: nat
    var parent: Node?
    var incoming: Path
    var children: map<Element, Node>
    var terminal: bool
    var credential: string
    var boundSequence: nat
    var nearestTerminal: Node?
    var candidateHeap: CandidateHeap?

    constructor (bucket: Bucket, parent: Node?, incoming: Path, depth: nat, ghost path: Path)
      requires depth == |path|
      ensures this.bucket == bucket && this.path == path
      ensures this.parent == parent && this.incoming == incoming && children == map[] && !terminal
      ensures nearestTerminal == null && candidateHeap == null
      ensures Snapshot() == FreshCell<Node>(path, if parent == null then None else Some(parent), incoming)
    {
      this.bucket := bucket;
      this.path := path;
      this.depth := depth;
      this.parent := parent;
      this.incoming := incoming;
      children := map[];
      terminal, credential, boundSequence := false, "", 0;
      nearestTerminal, candidateHeap := null, null;
    }

    ghost function Snapshot(): Cell<Node>
      reads this, candidateHeap
    {
      Cell(path, Opt(parent), incoming, children, terminal, credential, boundSequence, Opt(nearestTerminal),
           if candidateHeap == null then None else Some(Heap(candidateHeap.nodes, candidateHeap.positions)), depth)
    }

    ghost function Rank(): Rank
      reads `nearestTerminal, (if nearestTerminal == null then {} else {nearestTerminal})`boundSequence
    {
      if nearestTerminal == null then Unranked else Ranked(nearestTerminal.depth, nearestTerminal.boundSequence)
    }
  }

  ghost function Opt(n: Node?): Option<Node> {
    if n == null then None else Some(n)
  }

  predicate TerminalNewer(left: Node, right: Node)
    reads left, right
  {
    left.boundSequence > right.boundSequence
  }

  predicate BetterContentTerminal(left: Node?, right: Node?)
    reads left, right
  {
    if left == null then false
    else if right == null then true
    else if left.depth != right.depth then left.depth < right.depth
    else TerminalNewer(left, right)
  }

  ghost function RanksBy(ns: seq<Node>, rank: map<Node, Rank>): (ks: seq<Rank>)
    requires forall n | n in ns :: n in rank
    ensures |ks| == |ns| && forall i | 0 <= i < |ns| :: ks[i] == rank[ns[i]]
  {
    seq(|ns|, i requires 0 <= i < |ns| => rank[ns[i]])
  }

  lemma SwapRanks(ns: seq<Node>, rank: map<Node, Rank>, i: nat, j: nat)
    requires i < |ns| && j < |ns| && forall n | n in ns :: n in rank
    ensures forall n | n in Swapped(ns, i, j) :: n in rank
    ensures RanksBy(Swapped(ns, i, j), rank) == Swapped(RanksBy(ns, rank), i, j)
  {
  }

  ghost predicate Injective(children: map<Element, Node>) {
    forall d, e | d in children && e in children && children[d] == children[e] :: d == e
  }

  /** The indexed heap over the children of one node, by their cached bindings. The operations
      are those of Go's `container/heap` on this representation. */
  class CandidateHeap {
    ghost const owner: Node
    var nodes: seq<Node>
    var positions: map<Node, nat>

    ghost predicate Valid()
      reads `nodes, `positions
    {
      Indexed(Heap(nodes, positions))
    }

    ghost predicate RankedBy(rank: map<Node, Rank>)
      reads `nodes, nodes`nearestTerminal, (set n | n in nodes :: n.nearestTerminal)`boundSequence
    {
      forall n | n in nodes :: n in rank && rank[n] == n.Rank()
    }

    constructor (ghost owner: Node, children: map<Element, Node>, ghost rank: map<Node, Rank>)
      requires Injective(children)
      requires forall n | n in children.Values :: n in rank && rank[n] == n.Rank()
      ensures this.owner == owner
      ensures Valid() && positions.Keys == children.Values
      ensures RankedBy(rank) && Ordered(RanksBy(nodes, rank), |nodes|)
    {
      this.owner := owner;
      nodes := [];
      positions := map[];
      new;
      AddAll(children);
      assert forall n | n in nodes :: n in positions.Keys;
      Init(rank);
    }

    method AddAll(children: map<Element, Node>)
      requires Valid() && nodes == [] && positions == map[]
      requires Injective(children)
      modifies this
      ensures Valid() && positions.Keys == children.Values
    {
      hide Indexed;
      var left := children.Keys;
      while left != {}
        invariant Valid() && left <= children.Keys
        invariant positions.Keys == set e | e in children && e !in left :: children[e]
      {
        var e :| e in left;
        PushBack(children[e]);
        left := left - {e};
      }
    }

    predicate Less(left: nat, right: nat)
      requires left < |nodes| && right < |nodes|
      reads this, nodes, set n | n in nodes :: n.nearestTerminal
      ensures Less(left, right) <==> Better(nodes[left].Rank(), nodes[right].Rank())
    {
      BetterContentTerminal(nodes[left].nearestTerminal, nodes[right].nearestTerminal)
    }

    function BestTerminal(): Node?
      reads this, nodes
    {
      if |nodes| == 0 then null else nodes[0].nearestTerminal
    }

    method Swap(left: nat, right: nat, ghost rank: map<Node, Rank>)
      requires Valid() && RankedBy(rank) && left < |nodes| && right < |nodes|
      modifies this
      ensures Valid() && nodes == Swapped(old(nodes), left, right) && positions.Keys == old(positions.Keys)
      ensures |nodes| == |old(nodes)| && nodes[left] == old(nodes)[right] && nodes[right] == old(nodes)[left]
      ensures forall k | 0 <= k < |nodes| && k != left && k != right :: nodes[k] == old(nodes)[k]
      ensures RankedBy(rank) && RanksBy(nodes, rank) == Swapped(old(RanksBy(nodes, rank)), left, right)
    {
      hide Indexed, RanksBy;
      ghost var ks := RanksBy(nodes, rank);
      SwapKeepsIndex(Heap(nodes, positions), left, right);
      nodes := nodes[left := nodes[right]][right := nodes[left]];
      positions := positions[nodes[left] := left];
      positions := positions[nodes[right] := right];
      assert forall n | n in nodes :: n in old(nodes);
      SwapRanks(old(nodes), rank, left, right);
    }

    method PushBack(node: Node)
      requires Valid() && node !in positions
      modifies this
      ensures Valid() && nodes == old(nodes) + [node] && positions.Keys == old(positions.Keys) + {node}
    {
      positions := positions[node := |nodes|];
      nodes := nodes + [node];
    }

    method PopBack(ghost rank: map<Node, Rank>) returns (node: Node)
      requires Valid() && RankedBy(rank) && nodes != []
      modifies this
      ensures Valid() && positions.Keys == old(positions.Keys) - {node}
      ensures |nodes| == |old(nodes)| - 1 && node == old(nodes)[|nodes|]
      ensures RankedBy(rank) && RanksBy(nodes, rank) == old(RanksBy(nodes, rank))[..|nodes|]
    {
      var last := |nodes| - 1;
      node := nodes[last];
      nodes := nodes[..last];
      positions := positions - {node};
      assert forall n | n in nodes :: n in old(nodes);
    }

    method Down(start: nat, n: nat, ghost lo: nat, ghost rank: map<Node, Rank>) returns (moved: bool)
      requires Valid() && RankedBy(rank) && lo <= start < n <= |nodes|
      requires OrderedFromExcept(RanksBy(nodes, rank), n, start, lo)
      modifies this
      ensures Valid() && RankedBy(rank) && positions.Keys == old(positions.Keys)
      ensures |nodes| == |old(nodes)| && forall k | n <= k < |nodes| :: nodes[k] == old(nodes[k])
      ensures moved || (start >= 1 && Up(start) < lo) ==> OrderedFrom(RanksBy(nodes, rank), n, lo)
      ensures !moved && lo == 0 ==> OrderedButUp(RanksBy(nodes, rank), n, start)
    {
      hide OrderedFromExcept, OrderedFrom, OrderedButUp, Indexed, InOrder, Swapped, Up;
      var i := start;
      while true
        invariant Valid() && RankedBy(rank) && positions.Keys == old(positions.Keys)
        invariant |nodes| == |old(nodes)| && forall k | n <= k < |nodes| :: nodes[k] == old(nodes[k])
        invariant start <= i < n
        invariant OrderedFromExcept(RanksBy(nodes, rank), n, i, lo)
        invariant start < i ==> InOrder(RanksBy(nodes, rank), i)
        decreases n - i
      {
        ghost var ks := RanksBy(nodes, rank);
        var j := 2 * i + 1;
        if j >= n {
          ChildrenOf(ks, n, i);
          SiftDownDone(ks, n, i, lo);
          break;
        }
        if j + 1 < n && Less(j + 1, j) {
          j := j + 1;
        }
        ChildrenOf(ks, n, i);
        if !Less(j, i) {
          NoBetterChild(ks, n, i, j);
          SiftDownDone(ks, n, i, lo);
          break;
        }
        SiftDownStep(ks, n, i, j, lo);
        Swap(i, j, rank);
        i := j;
      }
      moved := i > start;
    }

    method SiftUp(start: nat, ghost n: nat, ghost rank: map<Node, Rank>)
      requires Valid() && RankedBy(rank) && start < n <= |nodes|
      requires OrderedButUp(RanksBy(nodes, rank), n, start)
      modifies this
      ensures Valid() && RankedBy(rank) && positions.Keys == old(positions.Keys)
      ensures |nodes| == |old(nodes)| && forall k | n <= k < |nodes| :: nodes[k] == old(nodes[k])
      ensures Ordered(RanksBy(nodes, rank), n)
    {
      hide OrderedExcept, OrderedFrom, OrderedButUp, Indexed, Swapped;
      var j: nat := start;
      while true
        invariant Valid() && RankedBy(rank) && positions.Keys == old(positions.Keys)
        invariant |nodes| == |old(nodes)| && forall k | n <= k < |nodes| :: nodes[k] == old(nodes[k])
        invariant 0 <= j < n
        invariant OrderedButUp(RanksBy(nodes, rank), n, j)
        decreases j
      {
        ghost var ks := RanksBy(nodes, rank);
        var i := Up(j);
        if i == j || !Less(j, i) {
          SiftUpDone(ks, n, j);
          break;
        }
        SiftUpStep(ks, n, j);
        Swap(j, i, rank);
        j := i;
      }
    }

    method Init(ghost rank: map<Node, Rank>)
      requires Valid() && RankedBy(rank)
      modifies this
      ensures Valid() && RankedBy(rank) && positions.Keys == old(positions.Keys)
      ensures Ordered(RanksBy(nodes, rank), |nodes|)
    {
      var n := |nodes|;
      var i: nat := n / 2;
      while i > 0
        invariant Valid() && RankedBy(rank) && positions.Keys == old(positions.Keys) && |nodes| == n
        invariant OrderedFrom(RanksBy(nodes, rank), n, i)
      {
        i := i - 1;
        var _ := Down(i, n, i, rank);
      }
    }

    method Fix(i: nat, ghost rank: map<Node, Rank>)
      requires Valid() && RankedBy(rank) && i < |nodes|
      requires OrderedExcept(RanksBy(nodes, rank), |nodes|, i)
      modifies this
      ensures Valid() && RankedBy(rank) && positions.Keys == old(positions.Keys)
      ensures Ordered(RanksBy(nodes, rank), |nodes|)
    {
      var moved := Down(i, |nodes|, 0, rank);
      if !moved {
        SiftUp(i, |nodes|, rank);
      }
    }

    method Push(node: Node, ghost rank: map<Node, Rank>)
      requires Valid() && RankedBy(rank) && node !in positions
      requires node in rank && rank[node] == node.Rank()
      requires Ordered(RanksBy(nodes, rank), |nodes|)
      modifies this
      ensures Valid() && RankedBy(rank) && positions.Keys == old(positions.Keys) + {node}
      ensures Ordered(RanksBy(nodes, rank), |nodes|)
    {
      ghost var ks := RanksBy(nodes, rank);
      PushBack(node);
      AppendedLast(ks, rank[node]);
      assert RanksBy(nodes, rank) == ks + [rank[node]];
      SiftUp(|nodes| - 1, |nodes|, rank);
    }

    /** Puts `node` in the slot of `previous`, then repairs that slot. */
    method Replace(previous: Node, node: Node, ghost rank: map<Node, Rank>)
      requires Valid() && RankedBy(rank) && previous in positions && node !in positions
      requires node in rank && rank[node] == node.Rank()
      requires OrderedExcept(RanksBy(nodes, rank), |nodes|, positions[previous])
      modifies this
      ensures Valid() && RankedBy(rank) && positions.Keys == old(positions.Keys) - {previous} + {node}
      ensures Ordered(RanksBy(nodes, rank), |nodes|)
    {
      hide OrderedFromExcept, OrderedFrom, RanksBy, Indexed;
      ReplaceKeepsIndex(Heap(nodes, positions), previous, node);
      var position := positions[previous];
      ghost var ks := RanksBy(nodes, rank);
      positions := positions - {previous};
      nodes := nodes[position := node];
      positions := positions[node := position];
      assert forall n | n in nodes :: n == node || n in old(nodes);
      ChangedAtOneSlot(ks, RanksBy(nodes, rank), |nodes|, position);
      Fix(position, rank);
    }

    method Remove(i: nat, ghost rank: map<Node, Rank>)
      requires Valid() && RankedBy(rank) && i < |nodes|
      requires OrderedExcept(RanksBy(nodes, rank), |nodes|, i)
      modifies this
      ensures Valid() && RankedBy(rank) && positions.Keys == old(positions.Keys) - {old(nodes[i])}
      ensures Ordered(RanksBy(nodes, rank), |nodes|)
    {
      hide OrderedFromExcept, OrderedFrom, OrderedButUp, Swapped, Indexed, RanksBy;
      var n := |nodes| - 1;
      ghost var removed := nodes[i];
      ghost var ks := RanksBy(nodes, rank);
      if n != i {
        Swap(i, n, rank);
        LastMovedTo(ks, n, i);
        var moved := Down(i, n, 0, rank);
        if !moved {
          SiftUp(i, n, rank);
        }
      } else {
        LastSlotOnly(ks, n);
      }
      ghost var ls := RanksBy(nodes, rank);
      assert nodes[n] == removed;
      var _ := PopBack(rank);
      OrderedPrefix(ls, RanksBy(nodes, rank), n);
    }
  }

  ghost function HeapsOf(ns: set<Node>): set<CandidateHeap>
    reads ns`candidateHeap
  {
    set n | n in ns && n.candidateHeap != null :: n.candidateHeap
  }

  /** The snapshot of a set of nodes. */
  ghost function View(ns: set<Node>): (f: Forest<Node>)
    reads ns, HeapsOf(ns)
    ensures f.Keys == ns && forall n | n in ns :: f[n] == n.Snapshot()
  {
    map n | n in ns :: n.Snapshot()
  }

  lemma InView(ns: set<Node>, n: Node)
    requires n in ns
    ensures View(ns)[n].path == n.path && View(ns)[n].incoming == n.incoming && View(ns)[n].children == n.children
    ensures View(ns)[n].terminal == n.terminal && View(ns)[n].parent == Opt(n.parent)
  {
  }

  /** No two nodes share a heap. */
  ghost predicate Owned(ns: set<Node>)
    reads ns`candidateHeap
  {
    forall n | n in ns && n.candidateHeap != null :: n.candidateHeap.owner == n
  }

  ghost function HeapOf(n: Node): set<CandidateHeap>
    reads n
  {
    if n.candidateHeap == null then {} else {n.candidateHeap}
  }
}
