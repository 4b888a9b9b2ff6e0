/** The structural edits of the trie, in place: attaching a leaf, splitting an edge, removing a
    leaf and merging a pass-through node. */
module AffinityEdits {
  import opened Prelude
  import opened CandidateOrder
  import opened RadixForest
  import opened RadixRepair
  import opened RadixExpire
  import opened RadixEdits
  import opened AffinityNodes
  import opened AffinityChildren
  import opened AffinityCaches

  lemma ChildrenInjective(f: Forest<Node>, p: Node)
    requires Shape(f) && p in f
    ensures Injective(f[p].children)
  {
    assert ChildrenOk(f, p);
  }

  /** In a repaired trie the objects of any node meet the requirements for editing its children. */
  lemma EditReady(p: Node, ns: set<Node>, rank: map<Node, Rank>)
    requires Owned(ns) && Repaired(View(ns)) && p in ns && Live(rank) && ns <= rank.Keys
    ensures p.children.Values <= ns && p.children.Values <= rank.Keys && Injective(p.children)
    ensures HeapFits(p) && HeapSorted(p, rank)
    ensures forall c | c in p.children.Values :: c.parent == p && (c.nearestTerminal == null || c.nearestTerminal in ns)
  {
    hide HeapOrdered, HeapSorted, NearestOk, Injective;
    var f := View(ns);
    ChildrenInjective(f, p);
    forall c | c in p.children.Values
      ensures c in ns && c.parent == p && (c.nearestTerminal == null || c.nearestTerminal in ns)
    {
      ChildInForest(f, p, c);
      assert NearestOk(f, c);
      if c.nearestTerminal != null {
        NearestInForest(f, c);
      }
    }
    assert HeapShape(f, p) && HeapOrdered(f, p);
    FitsIffShape(p, ns);
    SortedFromView(p, ns, rank);
  }

  /** After an edit, the good heap object of `p` is a good heap of the snapshot. */
  lemma EditDone(p: Node, ns: set<Node>, rank: map<Node, Rank>)
    requires Owned(ns) && p in ns && Live(rank) && ns <= rank.Keys && p.children.Values <= ns
    requires forall c | c in p.children.Values :: c.nearestTerminal == null || c.nearestTerminal in ns
    requires HeapFits(p) && HeapSorted(p, rank)
    ensures HeapShape(View(ns), p) && HeapOrdered(View(ns), p)
  {
    hide HeapOrdered, HeapSorted, HeapFits, HeapShape;
    FitsIffShape(p, ns);
    SortedFromView(p, ns, rank);
  }

  /** Of the nodes other than `p`, and of their heaps, nothing changed. */
  twostate predicate OnlyHeapOf(p: Node, ns: set<Node>)
    reads ns, HeapsOf(ns)
  {
    && p in ns && old(Owned(ns))
    && unchanged(p`parent, p`incoming, p`terminal, p`credential, p`boundSequence, p`nearestTerminal)
    && (forall n | n in ns && n != p :: unchanged(n))
    && (forall n | n in ns && n != p && n.candidateHeap != null && n.candidateHeap != old(p.candidateHeap) ::
          unchanged(n.candidateHeap))
  }

  /** `SetContentChild`, stated for the whole trie. */
  method PutChild(parent: Node, child: Node, ghost rank: map<Node, Rank>, ghost ns: set<Node>)
    requires parent in ns && Owned(ns)
    requires child.incoming != [] && Injective(parent.children) && child !in parent.children.Values
    requires parent.children.Values <= rank.Keys && child in rank && Live(rank)
    requires HeapFits(parent)
    requires SlotReady(parent, child.incoming[0], rank)
    modifies parent`children, parent`candidateHeap, HeapOf(parent)
    ensures parent.children == old(parent.children[child.incoming[0] := child])
    ensures HeapFits(parent) && HeapSorted(parent, rank) && Live(rank)
    ensures parent.candidateHeap == null || parent.candidateHeap == old(parent.candidateHeap)
            || fresh(parent.candidateHeap)
    ensures OnlyHeapOf(parent, ns) && Owned(ns)
  {
    hide HeapFits, HeapSorted, HeapSortedExcept, Injective;
    SetContentChild(parent, child, rank);
    OwnedStill(parent, ns);
  }

  twostate lemma LeafView(new p: Node, new leaf: Node, ns: set<Node>, new incoming: Path)
    requires p in ns && leaf !in ns && incoming != [] && old(incoming[0] !in p.children)
    requires OnlyHeapOf(p, ns)
    requires p.children == old(p.children)[incoming[0] := leaf]
    requires leaf.Snapshot() == FreshCell<Node>(p.path + incoming, Some(p), incoming)
    requires HeapShape(View(ns + {leaf}), p) && HeapOrdered(View(ns + {leaf}), p)
    ensures LeafAdded(old(View(ns)), View(ns + {leaf}), p, leaf, incoming)
  {
    hide HeapShape, HeapOrdered;
  }

  method HangLeaf(parent: Node, leaf: Node, incoming: Path, ghost rank: map<Node, Rank>, ghost ns: set<Node>)
    requires Owned(ns) && parent in ns && leaf !in ns && rank.Keys == ns + {leaf} && Live(rank)
    requires incoming != [] && incoming[0] !in parent.children
    requires leaf.Snapshot() == FreshCell<Node>(parent.path + incoming, Some(parent), incoming)
    requires parent.children.Values <= ns && Injective(parent.children) && HeapFits(parent) && HeapSorted(parent, rank)
    requires forall c | c in parent.children.Values :: c.nearestTerminal == null || c.nearestTerminal in ns
    modifies parent`children, parent`candidateHeap, HeapOf(parent)
    ensures Owned(ns + {leaf})
    ensures LeafAdded(old(View(ns)), View(ns + {leaf}), parent, leaf, incoming)
    ensures parent.candidateHeap == null || parent.candidateHeap == old(parent.candidateHeap)
            || fresh(parent.candidateHeap)
  {
    hide HeapShape, HeapOrdered, HeapSorted, HeapFits, Injective, LeafAdded, Live, OnlyHeapOf, Owned;
    PutChild(parent, leaf, rank, ns);
    OwnedWithMore(ns, leaf);
    EditDone(parent, ns + {leaf}, rank);
    LeafView(parent, leaf, ns, incoming);
  }

  method AttachLeaf(parent: Node, incoming: Path, depth: nat, ghost ns: set<Node>) returns (leaf: Node)
    requires Owned(ns) && Repaired(View(ns)) && parent in ns
    requires incoming != [] && incoming[0] !in parent.children && depth == |parent.path| + |incoming|
    modifies parent`children, parent`candidateHeap, HeapOf(parent)
    ensures fresh(leaf) && leaf.bucket == parent.bucket && leaf.candidateHeap == null && Owned(ns + {leaf})
    ensures LeafAdded(old(View(ns)), View(ns + {leaf}), parent, leaf, incoming)
    ensures parent.candidateHeap == null || parent.candidateHeap == old(parent.candidateHeap)
            || fresh(parent.candidateHeap)
  {
    hide Repaired, HeapShape, HeapOrdered, HeapSorted, HeapFits, Injective, LeafAdded, Node.Snapshot, Live, Owned;
    ghost var f := View(ns);
    ghost var rank := RankMap(ns);
    RankMapLive(ns);
    EditReady(parent, ns, rank);
    leaf := new Node(parent.bucket, parent, incoming, depth, parent.path + incoming);
    SortedWithMore(parent, rank, leaf, Unranked);
    LiveWithMore(rank, leaf);
    assert View(ns) == f;
    HangLeaf(parent, leaf, incoming, rank[leaf := Unranked], ns);
  }

  lemma RankMapLive(ns: set<Node>)
    ensures Live(RankMap(ns))
  {
  }

  lemma LiveWithMore(rank: map<Node, Rank>, n: Node)
    requires Live(rank) && n.nearestTerminal == null
    ensures Live(rank[n := Unranked])
  {
  }

  lemma SortedWithMore(p: Node, rank: map<Node, Rank>, n: Node, r: Rank)
    requires HeapFits(p) && HeapSorted(p, rank) && p.children.Values <= rank.Keys && n !in p.children.Values
    ensures HeapSorted(p, rank[n := r])
  {
    if p.candidateHeap != null {
      var hs := p.candidateHeap.nodes;
      assert forall m | m in hs :: m in p.candidateHeap.positions.Keys;
      assert RanksBy(hs, rank) == RanksBy(hs, rank[n := r]);
    }
  }

  lemma OwnedWithMore(ns: set<Node>, n: Node)
    requires Owned(ns) && n.candidateHeap == null
    ensures Owned(ns + {n})
  {
  }

  // ---------- Splitting an edge ----------

  twostate lemma SplitView(new p: Node, new c: Node, new s: Node, ns: set<Node>, new common: nat)
    requires p in ns && c in ns && p != c && s !in ns && old(c.parent) == p && 0 < common < |old(c.incoming)|
    requires forall n | n in ns && n != p && n != c :: n.Snapshot() == old(n.Snapshot())
    requires c.Snapshot() == old(c.Snapshot()).(parent := Some(s), incoming := old(c.incoming)[common..])
    requires p.Snapshot() == old(p.Snapshot()).(children := old(p.children)[old(c.incoming)[0] := s],
                                                heap := p.Snapshot().heap)
    requires s.Snapshot() == FreshCell<Node>(p.path + old(c.incoming)[..common], Some(p), old(c.incoming)[..common])
                             .(children := map[old(c.incoming)[common] := c])
    requires HeapShape(View(ns + {s}), p) && HeapOrdered(View(ns + {s}), p)
    ensures EdgeSplit(old(View(ns)), View(ns + {s}), p, c, s, common)
  {
    hide HeapShape, HeapOrdered;
  }

  lemma SplitReady(p: Node, c: Node, ns: set<Node>) returns (rank: map<Node, Rank>)
    requires Owned(ns) && Repaired(View(ns)) && p in ns && c in ns && c.parent == p
    ensures rank.Keys == ns && Live(rank)
    ensures p != c && p.children.Values <= ns && Injective(p.children) && HeapFits(p) && HeapSortedExcept(p, c, rank)
    ensures c.incoming != [] && c.incoming[0] in p.children && p.children[c.incoming[0]] == c
    ensures p.depth == |p.path|
    ensures forall n | n in p.children.Values :: n.nearestTerminal == null || n.nearestTerminal in ns
  {
    hide HeapOrdered, NearestOk, Injective, ChildrenOk;
    rank := RankMap(ns);
    EditReady(p, ns, rank);
    EdgeLabel(View(ns), c, p);
    ParentAbove(View(ns), c, p);
    DepthIsPathLength(View(ns), p);
    SortedIsSortedExcept(p, c, rank);
  }

  lemma SortedIsSortedExcept(p: Node, c: Node, rank: map<Node, Rank>)
    requires HeapFits(p) && HeapSorted(p, rank)
    ensures HeapSortedExcept(p, c, rank)
  {
    hide OrderedFrom, OrderedFromExcept;
    if p.candidateHeap != null && c in p.candidateHeap.positions {
      OrderedIsOrderedExcept(RanksBy(p.candidateHeap.nodes, rank), |p.candidateHeap.nodes|,
                             p.candidateHeap.positions[c]);
    }
  }

  lemma RankFresh(p: Node, c: Node, rank: map<Node, Rank>, n: Node) returns (more: map<Node, Rank>)
    requires HeapFits(p) && HeapSortedExcept(p, c, rank) && p.children.Values <= rank.Keys && n !in rank
    requires Live(rank) && n.nearestTerminal == null
    ensures more.Keys == rank.Keys + {n} && Live(more) && HeapSortedExcept(p, c, more)
  {
    more := rank[n := Unranked];
    SortedExceptWithMore(p, c, rank, n, Unranked);
  }

  lemma SortedExceptWithMore(p: Node, c: Node, rank: map<Node, Rank>, n: Node, r: Rank)
    requires HeapFits(p) && HeapSortedExcept(p, c, rank) && p.children.Values <= rank.Keys && n !in p.children.Values
    ensures HeapSortedExcept(p, c, rank[n := r])
  {
    if p.candidateHeap != null && c in p.candidateHeap.positions {
      var hs := p.candidateHeap.nodes;
      assert forall m | m in hs :: m in p.candidateHeap.positions.Keys;
      assert RanksBy(hs, rank) == RanksBy(hs, rank[n := r]);
    }
  }

  lemma NoHeapFits(n: Node, rank: map<Node, Rank>)
    requires n.candidateHeap == null && n.children == map[]
    ensures HeapFits(n) && HeapSorted(n, rank) && Injective(n.children)
  {
  }

  /** `SetContentChild` on a node that has no children yet. */
  method SetOnlyChild(parent: Node, child: Node, ghost rank: map<Node, Rank>)
    requires parent.children == map[] && parent.candidateHeap == null && child.incoming != []
    requires child in rank && Live(rank)
    modifies parent`children, parent`candidateHeap
    ensures parent.children == map[child.incoming[0] := child] && parent.candidateHeap == null
  {
    hide HeapFits, HeapSorted, Injective;
    NoHeapFits(parent, rank);
    SetContentChild(parent, child, rank);
    OneChildNoHeap(parent);
  }

  /** Hangs `split` between `parent` and `child`. */
  method Interpose(parent: Node, child: Node, split: Node, common: nat, ghost rank: map<Node, Rank>,
                   ghost ns: set<Node>)
    requires Owned(ns) && parent in ns && child in ns && parent != child && split !in ns
    requires 0 < common < |child.incoming| && split.incoming == child.incoming[..common]
    requires child.incoming[0] in parent.children && parent.children[child.incoming[0]] == child
    requires split.children == map[] && split.candidateHeap == null && split !in parent.children.Values
    requires Injective(parent.children) && parent.children.Values <= rank.Keys && split in rank && child in rank
    requires Live(rank) && HeapFits(parent) && HeapSortedExcept(parent, child, rank)
    modifies parent`children, parent`candidateHeap, HeapOf(parent), child`incoming, child`parent, split`children,
             split`candidateHeap
    ensures child.incoming == old(child.incoming)[common..] && child.parent == split
    ensures parent.children == old(parent.children)[old(child.incoming)[0] := split]
    ensures split.children == map[old(child.incoming)[common] := child] && split.candidateHeap == null
    ensures HeapFits(parent) && HeapSorted(parent, rank) && Live(rank)
    ensures parent.candidateHeap == old(parent.candidateHeap)
    ensures Owned(ns)
    ensures Interposed(parent, child, split, ns)
  {
    hide HeapFits, HeapSorted, HeapSortedExcept, Injective, Live, Owned;
    var original := child.incoming;
    child.incoming := original[common..];
    child.parent := split;
    SetContentChild(parent, split, rank);
    SetOnlyChild(split, child, rank);
    OwnedStill(parent, ns);
  }

  lemma OneChildNoHeap(n: Node)
    requires HeapFits(n) && |n.children| == 1
    ensures n.candidateHeap == null
  {
  }

  twostate lemma OwnedStill(new p: Node, ns: set<Node>)
    requires p in ns && old(Owned(ns)) && HeapFits(p)
    requires forall n | n in ns && n != p :: unchanged(n`candidateHeap)
    ensures Owned(ns)
  {
  }

  /** What hanging `s` between `p` and `c` leaves alone. */
  twostate predicate Interposed(p: Node, c: Node, s: Node, ns: set<Node>)
    reads p, c, s, ns, HeapsOf(ns)
  {
    && unchanged(c`children, c`terminal, c`credential, c`boundSequence, c`nearestTerminal, c`candidateHeap)
    && unchanged(p`parent, p`incoming, p`terminal, p`credential, p`boundSequence, p`nearestTerminal)
    && unchanged(s`parent, s`incoming, s`terminal, s`credential, s`boundSequence, s`nearestTerminal, s`candidateHeap)
    && (forall n | n in ns && n != p && n != c :: unchanged(n))
    && (forall n | n in ns && n != p && n.candidateHeap != null && n.candidateHeap != old(p.candidateHeap) ::
          unchanged(n.candidateHeap))
  }

  twostate lemma InterposedView(new p: Node, new c: Node, new s: Node, ns: set<Node>, new common: nat)
    requires p in ns && c in ns && p != c && s !in ns && old(c.parent) == p && 0 < common < |old(c.incoming)|
    requires old(allocated(s)) && old(Owned(ns)) && Owned(ns)
    requires Interposed(p, c, s, ns)
    requires c.incoming == old(c.incoming)[common..] && c.parent == s
    requires p.children == old(p.children)[old(c.incoming)[0] := s]
    requires s.children == map[old(c.incoming)[common] := c]
    requires old(s.Snapshot()) == FreshCell<Node>(p.path + old(c.incoming)[..common], Some(p),
                                                  old(c.incoming)[..common])
    requires HeapShape(View(ns + {s}), p) && HeapOrdered(View(ns + {s}), p)
    ensures EdgeSplit(old(View(ns)), View(ns + {s}), p, c, s, common)
  {
    hide HeapShape, HeapOrdered;
    SplitView(p, c, s, ns, common);
  }

  lemma HeapAfterSplit(p: Node, s: Node, before: map<Element, Node>, key: Element, rank: map<Node, Rank>, ns: set<Node>)
    requires Owned(ns) && p in ns && s.candidateHeap == null && Live(rank) && ns + {s} <= rank.Keys
    requires before.Values <= ns && p.children == before[key := s] && s.nearestTerminal == null
    requires forall n | n in before.Values :: n.nearestTerminal == null || n.nearestTerminal in ns
    requires HeapFits(p) && HeapSorted(p, rank)
    ensures Owned(ns + {s}) && HeapShape(View(ns + {s}), p) && HeapOrdered(View(ns + {s}), p)
  {
    hide HeapFits, HeapSorted, HeapShape, HeapOrdered;
    OwnedWithMore(ns, s);
    EditDone(p, ns + {s}, rank);
  }

  method HangSplit(parent: Node, child: Node, split: Node, common: nat, ghost rank: map<Node, Rank>,
                   ghost ns: set<Node>)
    requires Owned(ns) && parent in ns && child in ns && parent != child && child.parent == parent
    requires split !in ns && rank.Keys == ns + {split} && Live(rank)
    requires 0 < common < |child.incoming|
    requires split.Snapshot() == FreshCell<Node>(parent.path + child.incoming[..common], Some(parent),
                                                 child.incoming[..common])
    requires child.incoming[0] in parent.children && parent.children[child.incoming[0]] == child
    requires parent.children.Values <= ns && Injective(parent.children) && HeapFits(parent)
    requires HeapSortedExcept(parent, child, rank)
    requires forall n | n in parent.children.Values :: n.nearestTerminal == null || n.nearestTerminal in ns
    modifies parent`children, parent`candidateHeap, HeapOf(parent), child`incoming, child`parent, split`children,
             split`candidateHeap
    ensures split.parent == parent && split.candidateHeap == null && Owned(ns + {split})
    ensures EdgeSplit(old(View(ns)), View(ns + {split}), parent, child, split, common)
    ensures parent.candidateHeap == old(parent.candidateHeap)
  {
    hide HeapShape, HeapOrdered, HeapSorted, HeapSortedExcept, HeapFits, Injective, EdgeSplit, Live, Owned, Interposed;
    ghost var children := parent.children;
    ghost var key := child.incoming[0];
    Interpose(parent, child, split, common, rank, ns);
    HeapAfterSplit(parent, split, children, key, rank, ns);
    InterposedView(parent, child, split, ns, common);
  }

  method SplitLinks(parent: Node, child: Node, common: nat, ghost ns: set<Node>) returns (split: Node)
    requires Owned(ns) && Repaired(View(ns)) && parent in ns && child in ns
    requires child.parent == parent && 0 < common < |child.incoming|
    modifies parent`children, parent`candidateHeap, HeapOf(parent), child`incoming, child`parent
    ensures fresh(split) && split.bucket == parent.bucket && split.parent == parent && split.candidateHeap == null
    ensures Owned(ns + {split})
    ensures EdgeSplit(old(View(ns)), View(ns + {split}), parent, child, split, common)
    ensures parent.candidateHeap == old(parent.candidateHeap)
  {
    hide Repaired, HeapShape, HeapOrdered, HeapSorted, HeapSortedExcept, HeapFits, Injective, EdgeSplit, Live;
    hide Node.Snapshot, Owned;
    ghost var f := View(ns);
    ghost var rank := SplitReady(parent, child, ns);
    var original := child.incoming;
    split := new Node(parent.bucket, parent, original[..common], parent.depth + common,
                      parent.path + original[..common]);
    assert View(ns) == f;
    rank := RankFresh(parent, child, rank, split);
    HangSplit(parent, child, split, common, rank, ns);
  }

  method SplitChild(parent: Node, child: Node, common: nat, ghost ns: set<Node>)
    returns (split: Node, ghost mid: Forest<Node>)
    requires Owned(ns) && Repaired(View(ns)) && parent in ns && child in ns
    requires child.parent == parent && 0 < common < |child.incoming|
    modifies parent`children, parent`candidateHeap, HeapOf(parent), child`incoming, child`parent
    ensures fresh(split) && split.bucket == parent.bucket && split.candidateHeap == null
    ensures Owned(ns + {split}) && Repaired(View(ns + {split}))
    ensures EdgeSplit(old(View(ns)), mid, parent, child, split, common) && OnlyCaches(mid, View(ns + {split}))
    ensures parent.candidateHeap == old(parent.candidateHeap)
  {
    hide Repaired, RepairingUpFrom, RepairedBut, EdgeSplit, NearestSet, NearestOk, NamedOnlyOnPath, OnlyCaches, Owned,
         Node.Snapshot;
    ghost var f := View(ns);
    split := SplitLinks(parent, child, common, ns);
    mid := View(ns + {split});
    EdgeSplitRepairedBut(f, mid, parent, child, split, common);
    RepairedButIsRepairing(mid, split);
    InView(ns + {split}, split);
    RecomputeNode(split, ns + {split}, split.path, split);
    LastCacheSet(mid, View(ns + {split}), split, Opt(split.nearestTerminal));
    NearestSetIsCache(mid, View(ns + {split}), split, Opt(split.nearestTerminal));
  }

  // ---------- Removing a node ----------

  twostate predicate Unhooked(n: Node, p: Node, ns: set<Node>)
    reads n, p, ns, HeapsOf(ns)
  {
    && unchanged(p`parent, p`incoming, p`terminal, p`credential, p`boundSequence, p`nearestTerminal)
    && (forall m | m in ns && m != p && m != n :: unchanged(m))
    && (forall m | m in ns && m != p && m != n && m.candidateHeap != null && m.candidateHeap != old(p.candidateHeap) ::
          unchanged(m.candidateHeap))
  }

  twostate lemma LeafRemovedView(new n: Node, new p: Node, ns: set<Node>)
    requires n in ns && p in ns && n != p && old(Owned(ns)) && Unhooked(n, p, ns)
    requires old(!n.terminal && n.parent == p && n.children == map[] && n.incoming != [])
    requires p.children == old(p.children) - {old(n.incoming)[0]}
    requires HeapShape(View(ns - {n}), p) && HeapOrdered(View(ns - {n}), p)
    ensures LeafRemoved(old(View(ns)), View(ns - {n}), n, p)
  {
    hide HeapShape, HeapOrdered;
  }

  /** The heap of `p` after its edit, when every candidate is bound or absent. */
  lemma HeapAfterDrop(n: Node, p: Node, rank: map<Node, Rank>, ns: set<Node>)
    requires Owned(ns) && p in ns && n != p && !n.terminal && Live(rank) && ns <= rank.Keys
    requires p.children.Values <= ns - {n}
    requires forall c | c in p.children.Values && c.nearestTerminal != null ::
               c.nearestTerminal in ns && c.nearestTerminal.terminal
    requires HeapFits(p) && HeapSorted(p, rank)
    ensures Owned(ns - {n}) && HeapShape(View(ns - {n}), p) && HeapOrdered(View(ns - {n}), p)
  {
    hide HeapFits, HeapSorted, HeapShape, HeapOrdered;
    EditDone(p, ns - {n}, rank);
  }

  lemma DropReady(n: Node, p: Node, ns: set<Node>, xp: Path, x: Node) returns (rank: map<Node, Rank>)
    requires Owned(ns) && n in ns && n.parent == p && PruningAt(View(ns), n.path, xp, x)
    ensures rank.Keys == ns && Live(rank)
    ensures p in ns && p != n && HeapFits(p) && HeapSortedExcept(p, n, rank)
    ensures Injective(p.children) && p.children.Values <= ns
    ensures n.incoming != [] && n.incoming[0] in p.children && p.children[n.incoming[0]] == n
    ensures forall c | c in p.children.Values && c != n && c.nearestTerminal != null ::
              c.nearestTerminal in ns && c.nearestTerminal.terminal
  {
    hide RepairingUpFrom, HeapSortedExcept, HeapFits, Shape, NamedOnlyOnPath, Injective, ChildrenOk;
    PruningNamedOnPath(View(ns), n.path, xp, x);
    rank := RefreshReady(n, p, n.nearestTerminal, ns, xp, x);
    assert rank == RankMap(ns);
    RankMapLive(ns);
    RepairingShape(View(ns), n.path, x);
    ChildrenInjective(View(ns), p);
    EdgeLabel(View(ns), n, p);
  }

  lemma RepairingShape<Id>(f: Forest<Id>, q: Path, x: Id)
    requires RepairingUpFrom(f, q, x)
    ensures Shape(f)
  {
  }

  method UnhookLeaf(node: Node, parent: Node, ghost rank: map<Node, Rank>, ghost ns: set<Node>)
    requires Owned(ns) && node in ns && parent in ns && node != parent && rank.Keys == ns && Live(rank)
    requires HeapFits(parent) && HeapSortedExcept(parent, node, rank) && Injective(parent.children)
             && parent.children.Values <= ns
    requires node.incoming != [] && node.incoming[0] in parent.children && parent.children[node.incoming[0]] == node
    modifies parent`children, parent`candidateHeap, HeapOf(parent), node`parent
    ensures parent.children == old(parent.children) - {node.incoming[0]}
    ensures parent.children.Values == old(parent.children).Values - {node}
    ensures HeapFits(parent) && HeapSorted(parent, rank) && Live(rank) && Owned(ns)
    ensures parent.candidateHeap == null || parent.candidateHeap == old(parent.candidateHeap)
    ensures Unhooked(node, parent, ns)
  {
    hide HeapFits, HeapSorted, HeapSortedExcept, Injective, Live, Owned;
    ChildDropped(parent.children, node.incoming[0]);
    var _ := DeleteContentChild(parent, node.incoming[0], rank);
    node.parent := null;
    OwnedStill(parent, ns);
  }

  method RemoveLeaf(node: Node, parent: Node, ghost ns: set<Node>, ghost xp: Path, ghost x: Node)
    requires Owned(ns) && node in ns && node.parent == parent && PruningAt(View(ns), node.path, xp, x)
    requires node.children == map[] && !node.terminal
    modifies parent`children, parent`candidateHeap, HeapOf(parent), node`parent
    ensures parent in ns && parent != node && Owned(ns - {node})
            && LeafRemoved(old(View(ns)), View(ns - {node}), node, parent)
    ensures parent.candidateHeap == null || parent.candidateHeap == old(parent.candidateHeap)
  {
    hide PruningAt, HeapFits, HeapSorted, HeapSortedExcept, HeapShape, HeapOrdered, Injective, LeafRemoved;
    hide Live, Node.Snapshot, Unhooked, Owned;
    ghost var rank := DropReady(node, parent, ns, xp, x);
    UnhookLeaf(node, parent, rank, ns);
    HeapAfterDrop(node, parent, rank, ns);
    LeafRemovedView(node, parent, ns);
  }

  method OnlyContentChild(node: Node) returns (child: Node)
    requires |node.children| == 1
    ensures node.children.Values == {child}
  {
    var e :| e in node.children;
    child := node.children[e];
    assert node.children.Keys == {e} by {
      assert |node.children.Keys - {e}| == 0;
    }
  }

  lemma MergeReady(n: Node, c: Node, ns: set<Node>, xp: Path, x: Node)
    requires Owned(ns) && n in ns && n.parent != null && PruningAt(View(ns), n.path, xp, x)
    requires c in n.children.Values
    ensures n.parent in ns && c in ns && c != n && c != n.parent && c.parent == n && c.incoming != []
    ensures n.parent != n && c !in n.parent.children.Values
    ensures c.nearestTerminal != null ==> c.nearestTerminal in ns && c.nearestTerminal.terminal
  {
    hide ChildrenOk;
    var f := View(ns);
    RepairingShape(f, n.path, x);
    ChildInForest(f, n, c);
    ParentAbove(f, c, n);
    ParentAbove(f, n, n.parent);
    EdgeLabel(f, c, n);
    if c in n.parent.children.Values {
      ChildInForest(f, n.parent, c);
    }
    assert NearestOk(f, c);
    if c.nearestTerminal != null {
      NearestInForest(f, c);
    }
  }

  twostate predicate Merged(n: Node, p: Node, c: Node, ns: set<Node>)
    reads n, p, c, ns, HeapsOf(ns)
  {
    && unchanged(c`children, c`terminal, c`credential, c`boundSequence, c`nearestTerminal, c`candidateHeap)
    && unchanged(p`parent, p`incoming, p`terminal, p`credential, p`boundSequence, p`nearestTerminal)
    && (forall m | m in ns && m != p && m != n && m != c :: unchanged(m))
    && (forall m | m in ns && m != p && m != n && m.candidateHeap != null && m.candidateHeap != old(p.candidateHeap) ::
          unchanged(m.candidateHeap))
  }

  twostate lemma NodeMergedView(new n: Node, new p: Node, new c: Node, ns: set<Node>)
    requires n in ns && p in ns && c in ns && n != p && c != p && c != n
    requires old(Owned(ns)) && Merged(n, p, c, ns)
    requires old(!n.terminal && n.parent == p && n.children.Values == {c} && n.incoming != [])
    requires c.parent == p && c.incoming == old(n.incoming + c.incoming)
    requires p.children == old(p.children)[old(n.incoming)[0] := c]
    requires HeapShape(View(ns - {n}), p) && HeapOrdered(View(ns - {n}), p)
    ensures NodeMerged(old(View(ns)), View(ns - {n}), n, p, c)
  {
    hide HeapShape, HeapOrdered;
  }

  method Detach(node: Node)
    modifies node`parent, node`children, node`candidateHeap
    ensures node.parent == null && node.children == map[] && node.candidateHeap == null
  {
    node.parent := null;
    node.children := map[];
    node.candidateHeap := null;
  }

  method Adopt(parent: Node, child: Node, combined: Path, ghost rank: map<Node, Rank>)
    requires child != parent && combined != [] && child in rank && Live(rank)
    requires HeapFits(parent) && Injective(parent.children) && parent.children.Values <= rank.Keys
    requires combined[0] in parent.children && HeapSortedExcept(parent, parent.children[combined[0]], rank)
    requires child !in parent.children.Values
    modifies parent`children, parent`candidateHeap, HeapOf(parent), child`parent, child`incoming
    ensures child.parent == parent && child.incoming == combined
    ensures parent.children == old(parent.children)[combined[0] := child]
    ensures HeapFits(parent) && HeapSorted(parent, rank) && Live(rank)
    ensures parent.candidateHeap == old(parent.candidateHeap)
  {
    hide HeapFits, HeapSorted, HeapSortedExcept, Injective;
    child.parent := parent;
    child.incoming := combined;
    SetContentChild(parent, child, rank);
  }

  method Bypass(node: Node, parent: Node, child: Node, ghost rank: map<Node, Rank>, ghost ns: set<Node>)
    requires Owned(ns) && node in ns && parent in ns && child in ns && node != parent && child != parent
             && child != node
    requires rank.Keys == ns && Live(rank)
    requires HeapFits(parent) && HeapSortedExcept(parent, node, rank) && Injective(parent.children)
             && parent.children.Values <= ns
    requires node.incoming != [] && node.incoming[0] in parent.children && parent.children[node.incoming[0]] == node
    requires child.incoming != [] && child !in parent.children.Values
    modifies parent`children, parent`candidateHeap, HeapOf(parent), child`parent, child`incoming
    modifies node`parent, node`children, node`candidateHeap
    ensures child.parent == parent && child.incoming == old(node.incoming + child.incoming)
    ensures parent.children == old(parent.children)[old(node.incoming)[0] := child]
    ensures parent.children.Values == old(parent.children).Values - {node} + {child}
    ensures HeapFits(parent) && HeapSorted(parent, rank) && Live(rank) && Owned(ns)
    ensures parent.candidateHeap == old(parent.candidateHeap)
    ensures Merged(node, parent, child, ns)
  {
    hide HeapFits, HeapSorted, HeapSortedExcept, Injective, Live, Owned;
    ChildPut(parent.children, node.incoming[0], child);
    Adopt(parent, child, node.incoming + child.incoming, rank);
    Detach(node);
    OwnedAfterClear(node, parent, ns);
  }

  twostate lemma OwnedAfterClear(new n: Node, new p: Node, ns: set<Node>)
    requires p in ns && old(Owned(ns)) && HeapFits(p) && n.candidateHeap == null
    requires forall m | m in ns && m != p && m != n :: unchanged(m`candidateHeap)
    ensures Owned(ns)
  {
  }

  method MergeNode(node: Node, parent: Node, child: Node, ghost ns: set<Node>, ghost xp: Path, ghost x: Node)
    requires Owned(ns) && node in ns && node.parent == parent && PruningAt(View(ns), node.path, xp, x)
    requires node.children.Values == {child} && !node.terminal
    modifies parent`children, parent`candidateHeap, HeapOf(parent), child`parent, child`incoming
    modifies node`parent, node`children, node`candidateHeap
    ensures parent in ns && parent != node && child in ns && child != node && Owned(ns - {node})
    ensures NodeMerged(old(View(ns)), View(ns - {node}), node, parent, child)
    ensures parent.candidateHeap == old(parent.candidateHeap)
  {
    hide PruningAt, HeapFits, HeapSorted, HeapSortedExcept, HeapShape, HeapOrdered, Injective, NodeMerged;
    hide Live, Node.Snapshot, Merged, Owned;
    ghost var rank := DropReady(node, parent, ns, xp, x);
    MergeReady(node, child, ns, xp, x);
    Bypass(node, parent, child, rank, ns);
    HeapAfterDrop(node, parent, rank, ns);
    NodeMergedView(node, parent, child, ns);
  }
}
