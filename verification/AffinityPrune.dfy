/** Cutting back the path of an expired binding: removing empty leaves and merging nodes that only
    pass through. */
module AffinityPrune {
  import opened RadixForest
  import opened RadixRepair
  import opened RadixExpire
  import opened RadixEdits
  import opened RadixBindings
  import opened AffinityNodes
  import opened AffinityCaches
  import opened AffinityEdits
  import opened AffinityState

  /** Pruning after the binding `x` at `xp` expired has reached `n`: only the way to `n` still needs
      repair, and only `n` itself may be superfluous. */
  ghost predicate Pruning(n: Node, ns: set<Node>, buckets: map<Path, Bucket>, last: nat, xp: Path, x: Node)
    reads ns, HeapsOf(ns), buckets.Values
  {
    && n in ns && Owned(ns) && PruningAt(View(ns), n.path, xp, x) && CanonicalBut(View(ns), n)
    && Generations(View(ns), last) && BucketedFor(ns, buckets)
  }

  lemma LeafPruned(f: Forest<Node>, g: Forest<Node>, n: Node, p: Node, xp: Path, x: Node, last: nat)
    requires n in f && PruningAt(f, f[n].path, xp, x) && CanonicalBut(f, n) && Generations(f, last)
    requires LeafRemoved(f, g, n, p)
    ensures p in g && PruningAt(g, g[p].path, xp, x) && CanonicalBut(g, p) && Generations(g, last)
            && Terminals(g) == Terminals(f)
  {
    hide PruningAt, CanonicalBut, Generations, NodeDropped, Shape;
    PruningLinked(f, f[n].path, xp, x);
    LeafRemovedShape(f, g, n, p);
    DropMovesPruning(f, g, n, p, xp, x);
    LeafRemovalKeepsCanonical(f, g, n, p);
    DropKeepsGenerations(f, g, n, p, last);
  }

  lemma PassThroughPruned(f: Forest<Node>, g: Forest<Node>, n: Node, p: Node, c: Node, xp: Path, x: Node, last: nat)
    requires n in f && PruningAt(f, f[n].path, xp, x) && CanonicalBut(f, n) && Generations(f, last)
    requires NodeMerged(f, g, n, p, c)
    ensures p in g && PruningAt(g, g[p].path, xp, x) && CanonicalBut(g, p) && Generations(g, last)
            && Terminals(g) == Terminals(f)
  {
    hide PruningAt, CanonicalBut, Generations, NodeDropped, Shape;
    PruningLinked(f, f[n].path, xp, x);
    NodeMergedShape(f, g, n, p, c);
    DropMovesPruning(f, g, n, p, xp, x);
    MergeKeepsCanonical(f, g, n, p, c);
    DropKeepsGenerations(f, g, n, p, last);
  }

  lemma PruningLinked<Id>(f: Forest<Id>, q: Path, xp: Path, x: Id)
    requires PruningAt(f, q, xp, x)
    ensures Shape(f)
  {
  }

  lemma DropKeepsGenerations<Id>(f: Forest<Id>, g: Forest<Id>, n: Id, p: Id, last: nat)
    requires NodeDropped(f, g, n, p) && Generations(f, last)
    ensures p in g && g[p].path == f[p].path && Generations(g, last)
  {
  }

  lemma BucketedWithout(ns: set<Node>, buckets: map<Path, Bucket>, n: Node)
    requires BucketedFor(ns, buckets) && n in ns && |n.path| > MIN_ELEMENTS
    ensures BucketedFor(ns - {n}, buckets)
  {
  }

  /** Only bucket roots have no parent, and a parent is in the same bucket. */
  lemma BucketAbove(ns: set<Node>, buckets: map<Path, Bucket>, n: Node)
    requires BucketedFor(ns, buckets) && Shape(View(ns)) && n in ns
    ensures n == n.bucket.root <==> n.parent == null
    ensures n.parent != null ==> n.parent in ns && n.parent.bucket == n.bucket && |n.path| > MIN_ELEMENTS
  {
    var f := View(ns);
    assert ParentOk(f, n);
    var root := n.bucket.root;
    assert ParentOk(f, root);
    if n.parent == null {
      SamePathSameNode(f, n, root);
    } else {
      ParentAbove(f, n, n.parent);
      assert ParentOk(f, n.parent);
      assert n.parent.bucket.prefix == n.path[..MIN_ELEMENTS] == n.bucket.prefix;
    }
  }

  lemma PruningFacts(n: Node, ns: set<Node>, buckets: map<Path, Bucket>, last: nat, xp: Path, x: Node)
    requires Pruning(n, ns, buckets, last, xp, x)
    ensures n in ns && (n == n.bucket.root <==> n.parent == null)
    ensures n.parent != null ==> n.parent in ns && n.parent.bucket == n.bucket && BucketedFor(ns - {n}, buckets)
  {
    hide BucketedFor;
    PruningLinked(View(ns), n.path, xp, x);
    BucketAbove(ns, buckets, n);
    if n.parent != null {
      BucketedWithout(ns, buckets, n);
    }
  }

  method PruneLeaf(node: Node, parent: Node, ghost ns: set<Node>, ghost heaps: set<CandidateHeap>,
                   ghost buckets: map<Path, Bucket>, ghost last: nat, ghost xp: Path, ghost x: Node)
    requires Pruning(node, ns, buckets, last, xp, x) && HeapsWithin(ns, heaps)
    requires node.children == map[] && !node.terminal && node.parent == parent
    modifies parent`children, parent`candidateHeap, HeapOf(parent), node`parent
    ensures parent != node && Pruning(parent, ns - {node}, buckets, last, xp, x) && HeapsWithin(ns - {node}, heaps)
    ensures parent.bucket == node.bucket && Terminals(View(ns - {node})) == old(Terminals(View(ns)))
  {
    hide PruningAt, CanonicalBut, Generations, BucketedFor, Owned, LeafRemoved, Node.Snapshot;
    ghost var f := View(ns);
    PruningFacts(node, ns, buckets, last, xp, x);
    InView(ns, node);
    RemoveLeaf(node, parent, ns, xp, x);
    InView(ns - {node}, parent);
    LeafPruned(f, View(ns - {node}), node, parent, xp, x, last);
  }

  method PrunePassThrough(node: Node, parent: Node, ghost ns: set<Node>, ghost heaps: set<CandidateHeap>,
                          ghost buckets: map<Path, Bucket>, ghost last: nat, ghost xp: Path, ghost x: Node)
    requires Pruning(node, ns, buckets, last, xp, x) && HeapsWithin(ns, heaps)
    requires |node.children| == 1 && !node.terminal && node.parent == parent
    modifies ns`children, ns`candidateHeap, ns`incoming, ns`parent, heaps
    ensures parent != node && Pruning(parent, ns - {node}, buckets, last, xp, x)
    ensures HeapsWithin(ns - {node}, heaps)
    ensures parent.bucket == node.bucket && Terminals(View(ns - {node})) == old(Terminals(View(ns)))
  {
    hide PruningAt, CanonicalBut, Generations, BucketedFor, Owned, Node.Snapshot, HeapsWithin;
    var child := OnlyContentChild(node);
    assert HeapsOf(ns) == old(HeapsOf(ns));
    assert View(ns) == old(View(ns));
    MergeUp(node, parent, child, ns, heaps, buckets, last, xp, x);
  }

  method MergeUp(node: Node, parent: Node, child: Node, ghost ns: set<Node>, ghost heaps: set<CandidateHeap>,
                 ghost buckets: map<Path, Bucket>, ghost last: nat, ghost xp: Path, ghost x: Node)
    requires Pruning(node, ns, buckets, last, xp, x) && HeapsWithin(ns, heaps)
    requires node.children.Values == {child} && !node.terminal && node.parent == parent
    modifies ns`children, ns`candidateHeap, ns`incoming, ns`parent, heaps
    ensures parent != node && Pruning(parent, ns - {node}, buckets, last, xp, x)
    ensures HeapsWithin(ns - {node}, heaps)
    ensures parent.bucket == node.bucket && Terminals(View(ns - {node})) == old(Terminals(View(ns)))
  {
    hide *;
    ghost var f := View(ns);
    PruningParts(node, ns, buckets, last, xp, x);
    PruningFacts(node, ns, buckets, last, xp, x);
    CoveredHeap(parent, ns, heaps);
    MergeReady(node, child, ns, xp, x);
    MergeKept(node, parent, child, ns, heaps, ns - {node}, buckets, xp, x);
    PassThroughPruned(f, View(ns - {node}), node, parent, child, xp, x, last);
    InView(ns - {node}, parent);
    IsPruning(parent, ns - {node}, buckets, last, xp, x);
  }

  /** `MergeNode`, which leaves the heaps and buckets as they were. */
  method MergeKept(node: Node, parent: Node, child: Node, ghost ns: set<Node>, ghost heaps: set<CandidateHeap>,
                   ghost left: set<Node>, ghost buckets: map<Path, Bucket>, ghost xp: Path, ghost x: Node)
    requires Owned(ns) && node in ns && node.parent == parent && PruningAt(View(ns), node.path, xp, x)
    requires node.children.Values == {child} && !node.terminal && parent in ns && child in ns && HeapOf(parent) <= heaps
    requires HeapsWithin(ns, heaps) && BucketedFor(left, buckets) && left == ns - {node}
    modifies ns`children, ns`candidateHeap, ns`incoming, ns`parent, heaps
    ensures parent in ns && parent != node && child in ns && child != node && Owned(left)
    ensures NodeMerged(old(View(ns)), View(left), node, parent, child)
    ensures HeapsWithin(left, heaps) && BucketedFor(left, buckets)
  {
    hide BucketedFor, PruningAt, Owned, NodeMerged, View;
    MergeNode(node, parent, child, ns, xp, x);
  }

  lemma PruningParts(n: Node, ns: set<Node>, buckets: map<Path, Bucket>, last: nat, xp: Path, x: Node)
    requires Pruning(n, ns, buckets, last, xp, x)
    ensures n in ns && n in View(ns) && Owned(ns) && PruningAt(View(ns), n.path, xp, x) && CanonicalBut(View(ns), n)
    ensures Generations(View(ns), last) && BucketedFor(ns, buckets) && View(ns)[n].path == n.path
  {
  }

  lemma IsPruning(n: Node, ns: set<Node>, buckets: map<Path, Bucket>, last: nat, xp: Path, x: Node)
    requires n in ns && Owned(ns) && PruningAt(View(ns), n.path, xp, x) && CanonicalBut(View(ns), n)
    requires Generations(View(ns), last) && BucketedFor(ns, buckets)
    ensures Pruning(n, ns, buckets, last, xp, x)
  {
  }

  /** Where pruning stops. */
  ghost predicate PruneDone(n: Node)
    reads n`terminal, n`parent, n`children
  {
    n.terminal || n.parent == null || |n.children| >= 2
  }

  /** One round of the loop in `PruneEmptyPath`: the superfluous node below `parent` goes. */
  method PruneOne(node: Node, ghost ns: set<Node>, ghost heaps: set<CandidateHeap>,
                  ghost buckets: map<Path, Bucket>, ghost last: nat, ghost xp: Path, ghost x: Node)
    returns (parent: Node)
    requires Pruning(node, ns, buckets, last, xp, x) && HeapsWithin(ns, heaps)
    requires |node.children| <= 1 && !node.terminal && node != node.bucket.root
    modifies ns`children, ns`candidateHeap, ns`incoming, ns`parent, heaps
    ensures parent != node && Pruning(parent, ns - {node}, buckets, last, xp, x) && HeapsWithin(ns - {node}, heaps)
    ensures parent.bucket == node.bucket && Terminals(View(ns - {node})) == old(Terminals(View(ns)))
  {
    hide Pruning, HeapsWithin, View, Terminals;
    PruningFacts(node, ns, buckets, last, xp, x);
    CoveredHeap(node.parent, ns, heaps);
    parent := node.parent;
    if |node.children| == 0 {
      PruneLeaf(node, parent, ns, heaps, buckets, last, xp, x);
    } else {
      PrunePassThrough(node, parent, ns, heaps, buckets, last, xp, x);
    }
  }

  /** Removes or merges the nodes that only led to the expired binding at `start`. */
  method PruneEmptyPath(start: Node, ghost ns: set<Node>, ghost heaps: set<CandidateHeap>,
                        ghost buckets: map<Path, Bucket>, ghost last: nat)
    returns (recomputeFrom: Node?, ghost stop: Node, ghost left: set<Node>)
    requires Pruning(start, ns, buckets, last, start.path, start) && HeapsWithin(ns, heaps)
    modifies ns`children, ns`candidateHeap, ns`incoming, ns`parent, heaps
    ensures left <= ns && stop in left && HeapsWithin(left, heaps)
    ensures Pruning(stop, left, buckets, last, start.path, start) && PruneDone(stop) && stop.bucket == start.bucket
    ensures forall n | n in ns - left :: !n.terminal
    ensures Terminals(View(left)) == old(Terminals(View(ns)))
    ensures recomputeFrom == if stop.terminal then null else stop
  {
    hide *;
    var bucketRoot := start.bucket.root;
    var node := start;
    left := ns;
    while node != bucketRoot && !node.terminal
      invariant left <= ns && HeapsWithin(left, heaps)
      invariant Pruning(node, left, buckets, last, start.path, start) && node.bucket == start.bucket
      invariant forall n | n in ns - left :: !n.terminal
      invariant Terminals(View(left)) == old(Terminals(View(ns)))
      decreases left
    {
      PruningFacts(node, left, buckets, last, start.path, start);
      if |node.children| >= 2 {
        break;
      }
      ghost var was := node;
      node := PruneOne(node, left, heaps, buckets, last, start.path, start);
      left := left - {was};
    }
    PruneEnded(node, left, buckets, last, start.path, start);
    stop := node;
    recomputeFrom := if node.terminal then null else node;
  }

  lemma PruneEnded(n: Node, ns: set<Node>, buckets: map<Path, Bucket>, last: nat, xp: Path, x: Node)
    requires Pruning(n, ns, buckets, last, xp, x)
    requires n == n.bucket.root || n.terminal || |n.children| >= 2
    ensures n in ns && PruneDone(n)
  {
    PruningFacts(n, ns, buckets, last, xp, x);
  }

  /** After the caches are repaired only `stop` can be superfluous, and only when it is a root. */
  ghost predicate Settled(stop: Node, ns: set<Node>, buckets: map<Path, Bucket>, last: nat)
    reads ns, HeapsOf(ns), buckets.Values
  {
    && ReadyFor(stop, ns, buckets, last) && PruneDone(stop)
  }

  lemma StoppedAtBinding(stop: Node, ns: set<Node>, buckets: map<Path, Bucket>, last: nat, xp: Path, x: Node)
    requires Pruning(stop, ns, buckets, last, xp, x) && stop.terminal
    ensures Settled(stop, ns, buckets, last)
  {
    hide PruningAt, Repaired;
    PruningStopsAtBinding(View(ns), stop, xp, x);
  }

  lemma PruningRepairing(stop: Node, ns: set<Node>, buckets: map<Path, Bucket>, last: nat, xp: Path, x: Node)
    requires Pruning(stop, ns, buckets, last, xp, x)
    ensures stop in ns && Owned(ns) && RepairingUpFrom(View(ns), stop.path, x) && (x in ns ==> !x.terminal)
    ensures CanonicalBut(View(ns), stop) && Generations(View(ns), last) && BucketedFor(ns, buckets)
  {
  }

  lemma CachesKeepSettled(f: Forest<Node>, g: Forest<Node>, stop: Node, last: nat)
    requires OnlyCaches(f, g) && Generations(f, last) && CanonicalBut(f, stop)
    ensures Generations(g, last) && CanonicalBut(g, stop) && Terminals(g) == Terminals(f)
  {
    CachesKeepCanonical(f, g, stop);
    GenerationsKept(f, g, last);
  }

  lemma IsSettled(stop: Node, ns: set<Node>, buckets: map<Path, Bucket>, last: nat)
    requires stop in ns && Owned(ns) && Repaired(View(ns)) && CanonicalBut(View(ns), stop)
             && Generations(View(ns), last)
    requires BucketedFor(ns, buckets) && PruneDone(stop)
    ensures Settled(stop, ns, buckets, last)
  {
  }

  method RecomputeKept(start: Node, ghost ns: set<Node>, ghost heaps: set<CandidateHeap>,
                       ghost buckets: map<Path, Bucket>, ghost x: Node)
    requires Owned(ns) && start in ns && RepairingUpFrom(View(ns), start.path, x) && (x in ns ==> !x.terminal)
    requires HeapsWithin(ns, heaps) && BucketedFor(ns, buckets) && PruneDone(start)
    modifies ns`nearestTerminal, heaps
    ensures Owned(ns) && Repaired(View(ns)) && OnlyCaches(old(View(ns)), View(ns))
    ensures HeapsWithin(ns, heaps) && BucketedFor(ns, buckets) && PruneDone(start)
  {
    hide *;
    CoveredHeaps(ns, heaps);
    RecomputePath(start, ns, x);
  }

  /** Repairs the caches above the place where pruning stopped; none when it stopped at a binding. */
  method RepairAbove(recomputeFrom: Node?, ghost stop: Node, ghost ns: set<Node>, ghost heaps: set<CandidateHeap>,
                     ghost buckets: map<Path, Bucket>, ghost last: nat, ghost xp: Path, ghost x: Node)
    requires Pruning(stop, ns, buckets, last, xp, x) && PruneDone(stop) && HeapsWithin(ns, heaps)
    requires recomputeFrom == if stop.terminal then null else stop
    modifies ns`nearestTerminal, heaps
    ensures Settled(stop, ns, buckets, last) && HeapsWithin(ns, heaps)
    ensures Terminals(View(ns)) == old(Terminals(View(ns)))
  {
    hide *;
    if recomputeFrom != null {
      ghost var f := View(ns);
      PruningRepairing(stop, ns, buckets, last, xp, x);
      RecomputeKept(recomputeFrom, ns, heaps, buckets, x);
      CachesKeepSettled(f, View(ns), stop, last);
      IsSettled(stop, ns, buckets, last);
    } else {
      StoppedAtBinding(stop, ns, buckets, last, xp, x);
    }
  }

  /** Only an empty root can be superfluous, and it is the root of the bucket pruning went through. */
  lemma RootStays(stop: Node, ns: set<Node>, buckets: map<Path, Bucket>, last: nat)
    requires Settled(stop, ns, buckets, last)
    ensures stop.bucket.root != null && stop.bucket.prefix in buckets && buckets[stop.bucket.prefix] == stop.bucket
    ensures stop.bucket.root in ns
    ensures stop.bucket.root.terminal || |stop.bucket.root.children| > 0 ==> Sound(ns, buckets, last)
  {
    hide Repaired;
    var root := stop.bucket.root;
    if root.terminal || |root.children| > 0 {
      assert stop.parent == null ==> stop == root by { RepairedShape(View(ns)); BucketAbove(ns, buckets, stop); }
      assert Branches(View(ns), stop);
      assert Canonical(View(ns));
    }
  }

  lemma RepairedShape<Id>(f: Forest<Id>)
    requires Repaired(f)
    ensures Shape(f)
  {
  }

  lemma OnlyRootGoes(stop: Node, ns: set<Node>, buckets: map<Path, Bucket>, last: nat)
    requires Settled(stop, ns, buckets, last)
    requires stop.bucket.root != null && !stop.bucket.root.terminal && stop.bucket.root.children == map[]
    ensures stop == stop.bucket.root && stop.parent == null
  {
    hide Repaired, Owned, Generations;
    var root := stop.bucket.root;
    RepairedShape(View(ns));
    BucketAbove(ns, buckets, root);
    BucketAbove(ns, buckets, stop);
    assert !Branches(View(ns), root);
  }

  lemma BucketGoes(root: Node, ns: set<Node>, buckets: map<Path, Bucket>)
    requires Shape(View(ns)) && root in ns && root.children == map[] && BucketedFor(ns, buckets)
             && root == root.bucket.root
    ensures BucketedFor(ns - {root}, buckets - {root.bucket.prefix})
  {
    hide Shape;
    forall n | n in ns && n != root
      ensures n.bucket.prefix != root.bucket.prefix
    {
      if n.bucket.prefix == root.bucket.prefix {
        NothingBelowEmptyRoot(View(ns), root, n);
      }
    }
  }

  lemma RootRemovedView(root: Node, ns: set<Node>)
    requires root in ns && root.parent == null && !root.terminal && root.children == map[]
    ensures RootRemoved(View(ns), View(ns - {root}), root)
  {
  }

  lemma RootGone(f: Forest<Node>, g: Forest<Node>, r: Node, last: nat)
    requires Repaired(f) && CanonicalBut(f, r) && Generations(f, last) && RootRemoved(f, g, r)
    ensures Repaired(g) && Canonical(g) && Generations(g, last) && Terminals(g) == Terminals(f)
  {
    hide Repaired;
    RootRemovedRepaired(f, g, r);
    GenerationsKept(f, g, last);
    forall n | n in g
      ensures Branches(g, n)
    {
      assert Branches(f, n);
    }
  }

  lemma WithoutRoot(stop: Node, ns: set<Node>, buckets: map<Path, Bucket>, last: nat)
    requires Settled(stop, ns, buckets, last)
    requires stop.bucket.root != null && !stop.bucket.root.terminal && stop.bucket.root.children == map[]
    ensures stop == stop.bucket.root && Sound(ns - {stop}, buckets - {stop.bucket.prefix}, last)
    ensures Terminals(View(ns - {stop})) == Terminals(View(ns))
  {
    hide Repaired, CanonicalBut, Canonical, Generations, RootRemoved, BucketedFor, View;
    RepairedShape(View(ns));
    OnlyRootGoes(stop, ns, buckets, last);
    BucketGoes(stop, ns, buckets);
    RootRemovedView(stop, ns);
    RootGone(View(ns), View(ns - {stop}), stop, last);
  }
}
