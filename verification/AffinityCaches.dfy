/** Updating the cached nearest bindings in place: after a binding was set, and after one expired.

    Every method is proved against the snapshot of the nodes (`View`), and the facts about
    snapshots come from the `Radix*` modules. */
module AffinityCaches {
  import opened Prelude
  import opened CandidateOrder
  import opened RadixForest
  import opened RadixRepair
  import opened RadixBind
  import opened RadixExpire
  import opened AffinityNodes
  import opened AffinityChildren

  // ---------- Heaps of objects and heaps of the snapshot ----------

  lemma FitsIffShape(n: Node, ns: set<Node>)
    requires n in ns && Owned(ns)
    ensures HeapShape(View(ns), n) <==> HeapFits(n)
  {
  }

  /** `rank` agrees with the snapshot on the children of `p` other than `skip`. */
  ghost predicate RanksAgree(p: Node, ns: set<Node>, rank: map<Node, Rank>, skip: Option<Node>)
    reads p, ns, HeapsOf(ns)
  {
    && p.children.Values <= rank.Keys
    && forall c | c in p.children.Values && skip != Some(c) :: rank[c] == CandidateRank(View(ns), c)
  }

  lemma SortedFromView(p: Node, ns: set<Node>, rank: map<Node, Rank>)
    requires p in ns && HeapFits(p) && RanksAgree(p, ns, rank, None)
    ensures HeapOrdered(View(ns), p) <==> HeapSorted(p, rank)
  {
    if p.candidateHeap != null {
      var hs := p.candidateHeap.nodes;
      assert forall n | n in hs :: n in p.candidateHeap.positions.Keys;
      assert RanksBy(hs, rank) == Ranks(View(ns), hs);
    }
  }

  lemma SortedExceptFromView(p: Node, c: Node, ns: set<Node>, rank: map<Node, Rank>)
    requires p in ns && HeapFits(p) && RanksAgree(p, ns, rank, Some(c))
    requires HeapExcept(View(ns), p, c)
    ensures HeapSortedExcept(p, c, rank)
  {
    hide OrderedFromExcept;
    if p.candidateHeap != null && c in p.candidateHeap.positions {
      var hs := p.candidateHeap.nodes;
      assert forall n | n in hs :: n in p.candidateHeap.positions.Keys;
      ChangedAtOneSlot(Ranks(View(ns), hs), RanksBy(hs, rank), |hs|, p.candidateHeap.positions[c]);
    }
  }

  /** The siblings of the node under repair are right, so their ranks are the snapshot's. */
  lemma SiblingsRanked(f: Forest<Node>, node: Node, p: Node, c: Node, x: Node)
    requires node in f && RepairingUpFrom(f, f[node].path, x) && f[node].parent == Some(p)
    requires p in f && c in f[p].children.Values && c != node
    ensures NearestOk(f, c)
  {
    ChildInForest(f, p, c);
    if f[c].path <= f[node].path {
      OneChildOnPath(f, p, c, node, f[node].path);
    }
  }

  ghost function RankOfTerminal(t: Node?): Rank
    reads if t == null then {} else {t}
  {
    if t == null then Unranked else Ranked(t.depth, t.boundSequence)
  }

  lemma RefreshReady(node: Node, p: Node, t: Node?, ns: set<Node>, xp: Path, x: Node) returns (rank: map<Node, Rank>)
    requires node in ns && Owned(ns) && RepairingUpFrom(View(ns), node.path, x) && node.parent == p
    requires NamedOnlyOnPath(View(ns), xp, x) && node.path <= xp
    ensures p in ns && p != node && node in p.children.Values
    ensures HeapFits(p) && HeapSortedExcept(p, node, rank)
    ensures rank == RankMap(ns)[node := RankOfTerminal(t)]
    ensures forall c | c in p.children.Values ::
              c in ns && (c != node && c.nearestTerminal != null ==>
                          c.nearestTerminal in ns && c.nearestTerminal.terminal)
    ensures p.children.Values <= rank.Keys
  {
    hide HeapBut, NearestOk, HeapOrdered, HeapShape, HeapSortedExcept;
    var f := View(ns);
    rank := RankMap(ns)[node := RankOfTerminal(t)];
    HeapReadyForRefresh(f, node, p, xp, x);
    ParentAbove(f, node, p);
    assert HeapShape(f, p);
    FitsIffShape(p, ns);
    forall c | c in p.children.Values
      ensures c in ns
      ensures c != node ==> rank[c] == CandidateRank(f, c)
      ensures c != node && c.nearestTerminal != null ==> c.nearestTerminal in ns && c.nearestTerminal.terminal
    {
      ChildInForest(f, p, c);
      if c != node {
        SiblingsRanked(f, node, p, c, x);
        if c.nearestTerminal != null {
          NearestInForest(f, c);
        }
      }
    }
    SortedExceptFromView(p, node, ns, rank);
  }

  lemma NearestInForest<Id>(f: Forest<Id>, c: Id)
    requires NearestOk(f, c) && f[c].nearest.Some?
    ensures f[c].nearest.value in f && f[f[c].nearest.value].terminal
  {
  }

  // ---------- Caches ----------

  twostate predicate OnlyCacheOf(node: Node, ns: set<Node>)
    reads ns, HeapsOf(ns)
  {
    && node in ns && old(Owned(ns)) && Owned(ns)
    && (forall n | n in ns && n != node && node.parent != n ::
          unchanged(n) && (n.candidateHeap != null ==> unchanged(n.candidateHeap)))
    && (forall n | n in ns :: unchanged(n`parent, n`incoming, n`children, n`terminal, n`credential, n`boundSequence,
                                        n`candidateHeap))
    && (forall n | n in ns && n != node :: unchanged(n`nearestTerminal))
    && (node.parent != node && node.candidateHeap != null ==> unchanged(node.candidateHeap))
  }

  twostate lemma CacheSet(new node: Node, ns: set<Node>)
    requires node in ns && OnlyCacheOf(node, ns) && node.parent != node
    requires node.parent != null && node.parent in ns ==>
               HeapShape(View(ns), node.parent) && HeapOrdered(View(ns), node.parent)
    ensures NearestSet(old(View(ns)), View(ns), node, Opt(node.nearestTerminal))
  {
    hide HeapShape, HeapOrdered;
  }

  lemma HeapOwner(p: Node)
    requires HeapFits(p)
    ensures p.candidateHeap != null ==> p.candidateHeap.owner == p
  {
  }

  /** `setNearestTerminal` on one node and its parent's heap. */
  method SetNearestTerminal(node: Node, terminal: Node?, ghost rank: map<Node, Rank>, ghost ns: set<Node>)
    requires Owned(ns) && node in ns
    requires forall n | n in rank :: rank[n] == if n == node then RankOfTerminal(terminal) else n.Rank()
    requires node.parent != null ==>
               && node.parent != node && node in node.parent.children.Values
               && node.parent.children.Values <= rank.Keys
               && HeapFits(node.parent) && HeapSortedExcept(node.parent, node, rank)
    modifies node`nearestTerminal, if node.parent == null then {} else HeapOf(node.parent)
    ensures Owned(ns) && OnlyCacheOf(node, ns)
    ensures node.nearestTerminal == terminal && forall n | n in rank :: rank[n] == n.Rank()
    ensures node.parent != null ==> HeapFits(node.parent) && HeapSorted(node.parent, rank)
  {
    hide HeapFits, HeapSorted, HeapSortedExcept;
    if node.parent != null {
      HeapOwner(node.parent);
    }
    node.nearestTerminal := terminal;
    if node.parent != null {
      RefreshContentChildCandidate(node.parent, node, rank);
    }
  }

  lemma RanksStillAgree(node: Node, p: Node, ns: set<Node>, rank: map<Node, Rank>)
    requires node in ns && p in ns && p.children.Values <= ns && p.children.Values <= rank.Keys
    requires forall n | n in rank :: rank[n] == n.Rank()
    requires forall c | c in p.children.Values :: c.nearestTerminal == null || c.nearestTerminal in ns
    ensures RanksAgree(p, ns, rank, None)
  {
  }

  /** The same on the snapshot, while the way to `x` is under repair. */
  method UpdateNearest(node: Node, terminal: Node?, ghost ns: set<Node>, ghost xp: Path, ghost x: Node)
    requires node in ns && Owned(ns) && (terminal != null ==> terminal in ns)
    requires RepairingUpFrom(View(ns), node.path, x) && NamedOnlyOnPath(View(ns), xp, x) && node.path <= xp
    modifies node`nearestTerminal, if node.parent == null then {} else HeapOf(node.parent)
    ensures Owned(ns)
    ensures NearestSet(old(View(ns)), View(ns), node, Opt(terminal))
  {
    hide Node.Snapshot, RepairingUpFrom, HeapShape, HeapOrdered, HeapSorted, HeapSortedExcept, HeapFits, NearestOk;
    hide RanksAgree, NamedOnlyOnPath, Node.Rank, RankOfTerminal, OnlyCacheOf;
    ghost var p := node.parent;
    ghost var rank := map[];
    if p != null {
      rank := RefreshReady(node, p, terminal, ns, xp, x);
    }
    SetNearestTerminal(node, terminal, rank, ns);
    if p != null {
      RanksStillAgree(node, p, ns, rank);
      SortedFromView(p, ns, rank);
      FitsIffShape(p, ns);
    }
    CacheSet(node, ns);
  }

  lemma NearestSetIsCache<Id>(f: Forest<Id>, g: Forest<Id>, n: Id, b: Option<Id>)
    requires NearestSet(f, g, n, b)
    ensures OnlyCaches(f, g)
  {
  }

  lemma ParentInForest<Id>(f: Forest<Id>, n: Id)
    requires Shape(f) && n in f
    ensures f[n].parent.Some? ==>
              f[n].parent.value in f && ParentPath(f, n) == f[f[n].parent.value].path
              && |ParentPath(f, n)| < |f[n].path|
    ensures f[n].parent.None? ==> ParentPath(f, n) == []
    ensures ParentPath(f, n) <= f[n].path && ParentPath(f, n) != f[n].path
  {
    assert ParentOk(f, n);
    if f[n].parent.Some? {
      ParentAbove(f, n, f[n].parent.value);
    }
  }

  ghost function PathOf(n: Node?): Path {
    if n == null then [] else n.path
  }

  /** The test of `propagateTerminal` on one node. */
  predicate KeepsBetterBinding(node: Node, terminal: Node)
    reads node, node.nearestTerminal, terminal
  {
    var nearest := node.nearestTerminal;
    && nearest != null && nearest != terminal
    && (nearest.depth < terminal.depth
        || (nearest.depth == terminal.depth && !TerminalNewer(terminal, nearest)))
  }

  lemma KeepsIffStops(node: Node, terminal: Node, ns: set<Node>)
    requires node in ns && terminal in ns && (node.nearestTerminal != null ==> node.nearestTerminal in ns)
    ensures KeepsBetterBinding(node, terminal) <==> StopsPropagation(View(ns), node, terminal)
  {
  }

  /** One step: sets the cache of `node` to the new binding. */
  method PropagateOver(node: Node, terminal: Node, ghost ns: set<Node>)
    requires Owned(ns) && node in ns && PropagatingFrom(View(ns), node.path, terminal)
    requires !KeepsBetterBinding(node, terminal)
    modifies node`nearestTerminal, HeapsOf(ns)
    ensures Owned(ns) && OnlyCaches(old(View(ns)), View(ns))
    ensures PropagatingFrom(View(ns), PathOf(node.parent), terminal)
    ensures |PathOf(node.parent)| < |node.path| && (node.parent != null ==> node.parent in ns)
  {
    hide RepairingUpFrom, PropagatingFrom, Repaired, NearestBut, NearestOk, Newest, Shape, ParentPath, NearestSet,
         StopsPropagation, OnlyCaches, NamedOnlyOnPath;
    ghost var f := View(ns);
    PropagationFacts(f, node, terminal);
    KeepsIffStops(node, terminal, ns);
    UpdateNearest(node, terminal, ns, terminal.path, terminal);
    ghost var g := View(ns);
    PropagateStep(f, g, node, terminal);
    NearestSetIsCache(f, g, node, Some(terminal));
  }

  /** Walks up from the bound node until an ancestor keeps a better binding. */
  method PropagateTerminal(terminal: Node, ghost ns: set<Node>)
    requires Owned(ns) && terminal in ns && PropagatingFrom(View(ns), terminal.path, terminal)
    modifies ns`nearestTerminal, HeapsOf(ns)
    ensures Owned(ns) && Repaired(View(ns)) && OnlyCaches(old(View(ns)), View(ns))
  {
    hide RepairingUpFrom, PropagatingFrom, Repaired, OnlyCaches, StopsPropagation, KeepsBetterBinding, Node.Snapshot;
    ghost var f := View(ns);
    OnlyCachesRefl(f);
    var node: Node? := terminal;
    while node != null
      invariant Owned(ns) && (node == null || node in ns)
      invariant PropagatingFrom(View(ns), PathOf(node), terminal)
      invariant OnlyCaches(f, View(ns))
      decreases |PathOf(node)|
    {
      if KeepsBetterBinding(node, terminal) {
        KeepingIsSafe(node, terminal, ns);
        return;
      }
      ghost var g := View(ns);
      PropagateOver(node, terminal, ns);
      OnlyCachesCompose(f, g, View(ns));
      node := node.parent;
    }
    PropagationDone(View(ns), terminal);
  }

  lemma KeepingIsSafe(node: Node, terminal: Node, ns: set<Node>)
    requires Owned(ns) && node in ns && PropagatingFrom(View(ns), node.path, terminal)
    requires KeepsBetterBinding(node, terminal)
    ensures Repaired(View(ns))
  {
    PropagationFacts(View(ns), node, terminal);
    KeepsIffStops(node, terminal, ns);
    StopIsSafe(View(ns), node, terminal);
  }

  lemma OnlyCachesRefl<Id>(f: Forest<Id>)
    ensures OnlyCaches(f, f)
  {
  }

  lemma OnlyCachesCompose<Id>(f: Forest<Id>, g: Forest<Id>, h: Forest<Id>)
    requires OnlyCaches(f, g) && OnlyCaches(g, h)
    ensures OnlyCaches(f, h)
  {
  }

  lemma PropagationDone(f: Forest<Node>, terminal: Node)
    requires PropagatingFrom(f, [], terminal)
    ensures Repaired(f)
  {
    RepairReachedRoot(f, terminal);
  }

  lemma PropagationFacts(f: Forest<Node>, node: Node, terminal: Node)
    requires node in f && PropagatingFrom(f, f[node].path, terminal)
    ensures RepairingUpFrom(f, f[node].path, terminal) && NamedOnlyOnPath(f, f[terminal].path, terminal)
    ensures terminal in f && f[node].path <= f[terminal].path
    ensures f[node].nearest.Some? ==> f[node].nearest.value in f
    ensures f[node].parent.Some? ==>
              f[node].parent.value in f && ParentPath(f, node) == f[f[node].parent.value].path
              && |ParentPath(f, node)| < |f[node].path|
    ensures f[node].parent.None? ==> ParentPath(f, node) == []
    ensures f[node].path != []
  {
    assert ParentOk(f, node);
    PropagatingNamedOnPath(f, f[node].path, terminal);
    ParentInForest(f, node);
    assert NearestBut(f, node, terminal);
  }

  // ---------- Recomputing ----------

  /** The scan over the children, which nodes with few children use. */
  method ScanChildren(node: Node, ghost ns: set<Node>) returns (best: Node?)
    requires node in ns && node.children.Values <= ns
    requires forall c | c in node.children.Values && c.nearestTerminal != null :: c.nearestTerminal in ns
    ensures best != null ==> best in ns
    ensures BestOfChildren(View(ns), node, Opt(best))
  {
    best := null;
    var left := node.children.Keys;
    ghost var seen: set<Node> := {};
    while left != {}
      invariant left <= node.children.Keys
      invariant seen == set e | e in node.children && e !in left :: node.children[e]
      invariant best != null ==> best in ns && exists c :: c in seen && c.nearestTerminal == best
      invariant forall c | c in seen ::
                  !Better(c.Rank(), RankOfTerminal(best)) && (best == null ==> c.nearestTerminal == null)
      decreases left
    {
      var e :| e in left;
      var child := node.children[e];
      assert child in node.children.Values;
      var candidate := child.nearestTerminal;
      if BetterContentTerminal(candidate, best) {
        best := candidate;
      }
      left := left - {e};
      seen := seen + {child};
    }
    assert seen == node.children.Values;
    ScanIsBest(node, best, ns);
  }

  lemma ScanIsBest(node: Node, best: Node?, ns: set<Node>)
    requires node in ns && node.children.Values <= ns && (best != null ==> best in ns)
    requires forall c | c in node.children.Values && c.nearestTerminal != null :: c.nearestTerminal in ns
    requires best != null ==> exists c :: c in node.children.Values && c.nearestTerminal == best
    requires forall c | c in node.children.Values ::
               !Better(c.Rank(), RankOfTerminal(best)) && (best == null ==> c.nearestTerminal == null)
    ensures BestOfChildren(View(ns), node, Opt(best))
  {
  }

  /** Children of a node whose subtree needs no repair. */
  lemma ChildrenRight(f: Forest<Node>, node: Node, x: Node)
    requires node in f && RepairingUpFrom(f, f[node].path, x)
    ensures forall c | c in f[node].children.Values :: c in f && (f[c].nearest.Some? ==> f[c].nearest.value in f)
    ensures HeapShape(f, node) && HeapOrdered(f, node) && Shape(f)
  {
    forall c | c in f[node].children.Values
      ensures c in f && (f[c].nearest.Some? ==> f[c].nearest.value in f)
    {
      ChildInForest(f, node, c);
      ParentAbove(f, c, node);
      assert NearestOk(f, c);
    }
  }

  method BestBelow(node: Node, ghost ns: set<Node>, ghost x: Node) returns (best: Node?)
    requires Owned(ns) && node in ns && RepairingUpFrom(View(ns), node.path, x)
    ensures best != null ==> best in ns
    ensures View(ns)[node].path == node.path
    ensures if View(ns)[node].terminal then Opt(best) == Some(node) else BestOfChildren(View(ns), node, Opt(best))
  {
    hide RepairingUpFrom, HeapOrdered, BestOfChildren, Shape;
    if node.terminal {
      return node;
    }
    ChildrenRight(View(ns), node, x);
    if node.candidateHeap != null {
      FitsIffShape(node, ns);
      HeapTopIsBestOfChildren(View(ns), node);
      best := node.candidateHeap.BestTerminal();
    } else {
      best := ScanChildren(node, ns);
    }
  }

  method RecomputeNode(node: Node, ghost ns: set<Node>, ghost xp: Path, ghost x: Node)
    requires Owned(ns) && node in ns && RepairingUpFrom(View(ns), node.path, x)
    requires NamedOnlyOnPath(View(ns), xp, x) && node.path <= xp
    modifies node`nearestTerminal, if node.parent == null then {} else HeapOf(node.parent)
    ensures Owned(ns) && NearestSet(old(View(ns)), View(ns), node, Opt(node.nearestTerminal))
            && NearestOk(View(ns), node)
  {
    hide RepairingUpFrom, NamedOnlyOnPath, NearestSet, NearestOk, BestOfChildren, Node.Snapshot;
    ghost var f := View(ns);
    var best := BestBelow(node, ns, x);
    assert View(ns) == f;
    UpdateNearest(node, best, ns, xp, x);
    RecomputedNearest(f, View(ns), node, Opt(best), x);
    NearestWasSet(f, node, Opt(best), ns);
  }

  lemma NearestWasSet(f: Forest<Node>, n: Node, b: Option<Node>, ns: set<Node>)
    requires NearestSet(f, View(ns), n, b)
    ensures Opt(n.nearestTerminal) == b
  {
  }

  /** An unbound `x` can be named only where the repair has not been. */
  lemma UnboundNamedOnPath<Id>(f: Forest<Id>, q: Path, x: Id)
    requires RepairingUpFrom(f, q, x) && (x in f ==> !f[x].terminal)
    ensures NamedOnlyOnPath(f, q, x)
  {
    forall c | c in f && f[c].nearest == Some(x)
      ensures f[c].path <= q
    {
      assert f[c].path <= q || NearestOk(f, c);
    }
  }

  method RecomputeStep(node: Node, ghost ns: set<Node>, ghost x: Node)
    requires Owned(ns) && node in ns && RepairingUpFrom(View(ns), node.path, x) && (x in ns ==> !x.terminal)
    modifies node`nearestTerminal, HeapsOf(ns)
    ensures Owned(ns) && OnlyCaches(old(View(ns)), View(ns))
    ensures RepairingUpFrom(View(ns), PathOf(node.parent), x)
    ensures |PathOf(node.parent)| < |node.path| && (node.parent != null ==> node.parent in ns)
  {
    hide RepairingUpFrom, NamedOnlyOnPath, NearestSet, NearestOk, OnlyCaches, ParentPath, Shape;
    ghost var f := View(ns);
    UnboundNamedOnPath(f, node.path, x);
    ParentFacts(f, node, x);
    RecomputeNode(node, ns, node.path, x);
    ghost var g := View(ns);
    RepairStep(f, g, node, Opt(node.nearestTerminal), x, node.path);
    NearestSetIsCache(f, g, node, Opt(node.nearestTerminal));
  }

  lemma ParentFacts(f: Forest<Node>, node: Node, x: Node)
    requires node in f && RepairingUpFrom(f, f[node].path, x)
    ensures f[node].parent.Some? ==>
              f[node].parent.value in f && ParentPath(f, node) == f[f[node].parent.value].path
              && |ParentPath(f, node)| < |f[node].path|
    ensures f[node].parent.None? ==> ParentPath(f, node) == []
    ensures f[node].path != []
  {
    assert ParentOk(f, node);
    ParentInForest(f, node);
  }

  method RecomputePath(start: Node, ghost ns: set<Node>, ghost x: Node)
    requires Owned(ns) && start in ns && RepairingUpFrom(View(ns), start.path, x) && (x in ns ==> !x.terminal)
    modifies ns`nearestTerminal, HeapsOf(ns)
    ensures Owned(ns) && Repaired(View(ns)) && OnlyCaches(old(View(ns)), View(ns))
  {
    hide RepairingUpFrom, Repaired, OnlyCaches, Node.Snapshot;
    ghost var f := View(ns);
    OnlyCachesRefl(f);
    var node: Node? := start;
    while node != null
      invariant Owned(ns) && (node == null || node in ns)
      invariant RepairingUpFrom(View(ns), PathOf(node), x)
      invariant OnlyCaches(f, View(ns))
      decreases |PathOf(node)|
    {
      ghost var g := View(ns);
      RecomputeStep(node, ns, x);
      OnlyCachesCompose(f, g, View(ns));
      node := node.parent;
    }
    RepairReachedRoot(View(ns), x);
  }
}
