/** The structural edits of the trie: a new root, a new leaf, a split edge, a removed leaf and a
    merged pass-through node. Each keeps the forest well linked and every cache right. */
module RadixEdits {
  import opened Prelude
  import opened RadixForest
  import opened RadixRepair
  import opened RadixExpire

  ghost function FreshCell<Id>(path: Path, parent: Option<Id>, incoming: Path): Cell<Id> {
    Cell(path, parent, incoming, map[], false, "", 0, None, None, |path|)
  }

  // ---------- A new root ----------

  ghost predicate RootAdded<Id>(f: Forest<Id>, g: Forest<Id>, r: Id, path: Path) {
    && r !in f && |path| == MIN_ELEMENTS
    && g == f[r := FreshCell(path, None, [])]
    && (forall s {:trigger IsRoot(f, s)} | s in f && IsRoot(f, s) :: f[s].path != path)
  }

  // ---------- A new leaf ----------

  /** `setContentChild(p, n)` for a new node `n` whose edge leaves `p` by an unused element. */
  ghost predicate LeafAdded<Id>(f: Forest<Id>, g: Forest<Id>, p: Id, n: Id, incoming: Path) {
    && p in f && n !in f
    && incoming != [] && incoming[0] !in f[p].children
    && g.Keys == f.Keys + {n}
    && g[n] == FreshCell(f[p].path + incoming, Some(p), incoming)
    && g[p] == f[p].(children := f[p].children[incoming[0] := n], heap := g[p].heap)
    && (forall m | m in f && m != p :: g[m] == f[m])
    && HeapShape(g, p) && HeapOrdered(g, p)
  }

  lemma LeafAddedLinks<Id>(f: Forest<Id>, g: Forest<Id>, p: Id, n: Id, incoming: Path, m: Id)
    requires Shape(f) && LeafAdded(f, g, p, n, incoming) && m in g
    ensures ParentOk(g, m) && ChildrenOk(g, m)
  {
    hide RootsDistinct, HeapShape, HeapOrdered;
    assert ParentOk(f, p);
    if m != n {
      assert ParentOk(f, m) && ChildrenOk(f, m);
    }
  }

  lemma LeafAddedShape<Id>(f: Forest<Id>, g: Forest<Id>, p: Id, n: Id, incoming: Path)
    requires Shape(f) && LeafAdded(f, g, p, n, incoming)
    ensures Shape(g)
  {
    hide ParentOk, ChildrenOk, HeapShape, HeapOrdered;
    forall m | m in g
      ensures ParentOk(g, m) && ChildrenOk(g, m)
    {
      LeafAddedLinks(f, g, p, n, incoming, m);
    }
    RootsKept(f, g);
  }

  lemma NothingBelowNewLeaf<Id>(f: Forest<Id>, p: Id, incoming: Path, u: Id)
    requires Shape(f) && p in f && incoming != [] && incoming[0] !in f[p].children
    requires u in f
    ensures !(f[p].path + incoming <= f[u].path)
  {
    if f[p].path + incoming <= f[u].path {
      assert f[p].path <= f[u].path && f[u].path[|f[p].path|] == incoming[0];
      var c := StepTowards(f, p, u);
    }
  }

  lemma LeafAddedRepaired<Id>(f: Forest<Id>, g: Forest<Id>, p: Id, n: Id, incoming: Path)
    requires Repaired(f) && LeafAdded(f, g, p, n, incoming)
    ensures Repaired(g)
  {
    hide ParentOk, ChildrenOk, HeapOrdered;
    LeafAddedShape(f, g, p, n, incoming);
    forall m | m in g
      ensures HeapShape(g, m) && NearestOk(g, m) && HeapOrdered(g, m)
    {
      if m == n {
        NoHeapOrdered(g, m);
        forall u | u in f
          ensures !Binding(g, n, u)
        {
          NothingBelowNewLeaf(f, p, incoming, u);
        }
      } else {
        assert NearestOk(f, m) && HeapShape(f, m);
        NearestKept(f, g, m);
        if m != p {
          ChildRanksKept(f, g, m);
          HeapSame(f, g, m);
        }
      }
    }
  }

  lemma NoHeapOrdered<Id>(f: Forest<Id>, n: Id)
    requires n in f && f[n].heap.None?
    ensures HeapOrdered(f, n)
  {
  }

  lemma ChildRanksKept<Id>(f: Forest<Id>, g: Forest<Id>, m: Id)
    requires Repaired(f) && m in f
    requires forall c | c in f :: c in g && g[c].nearest == f[c].nearest
                                  && g[c].depth == f[c].depth && g[c].seqNo == f[c].seqNo
    ensures forall c | c in f[m].children.Values :: CandidateRank(g, c) == CandidateRank(f, c)
  {
    forall c | c in f[m].children.Values
      ensures CandidateRank(g, c) == CandidateRank(f, c)
    {
      ChildInForest(f, m, c);
      assert NearestOk(f, c);
    }
  }

  lemma RootAddedShape<Id>(f: Forest<Id>, g: Forest<Id>, r: Id, path: Path)
    requires Shape(f) && RootAdded(f, g, r, path)
    ensures Shape(g)
  {
    forall m | m in g
      ensures ParentOk(g, m) && ChildrenOk(g, m)
    {
      if m != r {
        assert ParentOk(f, m) && ChildrenOk(f, m);
      }
    }
    forall a, b | a in g && b in g && IsRoot(g, a) && IsRoot(g, b) && g[a].path == g[b].path
      ensures a == b
    {
      assert a == r || IsRoot(f, a);
      assert b == r || IsRoot(f, b);
    }
  }

  lemma RootAddedRepaired<Id>(f: Forest<Id>, g: Forest<Id>, r: Id, path: Path)
    requires Repaired(f) && RootAdded(f, g, r, path)
    ensures Repaired(g)
  {
    hide ParentOk, ChildrenOk, HeapOrdered;
    RootAddedShape(f, g, r, path);
    forall m | m in g
      ensures HeapShape(g, m) && NearestOk(g, m) && HeapOrdered(g, m)
    {
      if m == r {
        NoHeapOrdered(g, r);
        forall u | u in f
          ensures !Binding(g, r, u)
        {
          NothingBelowNewRoot(f, path, u);
        }
      } else {
        assert NearestOk(f, m) && HeapShape(f, m);
        NearestKept(f, g, m);
        ChildRanksKept(f, g, m);
        HeapSame(f, g, m);
      }
    }
  }

  lemma NothingBelowNewRoot<Id>(f: Forest<Id>, path: Path, u: Id)
    requires Shape(f) && |path| == MIN_ELEMENTS && u in f
    requires forall s {:trigger IsRoot(f, s)} | s in f && IsRoot(f, s) :: f[s].path != path
    ensures !(path <= f[u].path)
  {
    var root := RootAbove(f, u);
    assert ParentOk(f, root);
    assert f[root].path == f[u].path[..MIN_ELEMENTS];
  }

  lemma {:induction false} RootAbove<Id>(f: Forest<Id>, n: Id) returns (r: Id)
    requires Shape(f) && n in f
    ensures IsRoot(f, r) && Under(f, r, n)
    decreases |f[n].path|
  {
    assert ParentOk(f, n);
    if f[n].parent.None? {
      r := n;
    } else {
      ParentAbove(f, n, f[n].parent.value);
      r := RootAbove(f, f[n].parent.value);
    }
  }

  // ---------- A split edge ----------

  /** `splitChild(p, c, common)` before the cache of the new node `s` is computed: `s` takes over
      the first `common` elements of the edge to `c`. */
  ghost predicate EdgeSplit<Id>(f: Forest<Id>, g: Forest<Id>, p: Id, c: Id, s: Id, common: nat) {
    && p in f && c in f && p != c && s !in f
    && f[c].parent == Some(p) && 0 < common < |f[c].incoming|
    && g.Keys == f.Keys + {s}
    && g[s] == FreshCell(f[p].path + f[c].incoming[..common], Some(p), f[c].incoming[..common])
               .(children := map[f[c].incoming[common] := c])
    && g[c] == f[c].(parent := Some(s), incoming := f[c].incoming[common..])
    && g[p] == f[p].(children := f[p].children[f[c].incoming[0] := s], heap := g[p].heap)
    && (forall m | m in f && m != p && m != c :: g[m] == f[m])
    && HeapShape(g, p) && HeapOrdered(g, p)
  }

  lemma EdgeLabel<Id>(f: Forest<Id>, c: Id, p: Id)
    requires Shape(f) && c in f && f[c].parent == Some(p)
    ensures p in f && f[c].path == f[p].path + f[c].incoming && f[c].incoming != []
    ensures f[c].incoming[0] in f[p].children && f[p].children[f[c].incoming[0]] == c
  {
    assert ParentOk(f, c);
  }

  lemma EdgeSplitLinks<Id>(f: Forest<Id>, g: Forest<Id>, p: Id, c: Id, s: Id, common: nat, m: Id)
    requires Shape(f) && EdgeSplit(f, g, p, c, s, common) && m in g
    ensures ParentOk(g, m) && ChildrenOk(g, m)
  {
    hide RootsDistinct, HeapShape, HeapOrdered;
    EdgeLabel(f, c, p);
    assert ParentOk(f, c) && ParentOk(f, p);
    var i := f[c].incoming;
    assert i == i[..common] + i[common..];
    assert f[c].path == g[s].path + i[common..];
    if m != s {
      assert ParentOk(f, m) && ChildrenOk(f, m);
    }
  }

  lemma EdgeSplitShape<Id>(f: Forest<Id>, g: Forest<Id>, p: Id, c: Id, s: Id, common: nat)
    requires Shape(f) && EdgeSplit(f, g, p, c, s, common)
    ensures Shape(g)
  {
    hide ParentOk, ChildrenOk, HeapShape, HeapOrdered;
    EdgeLabel(f, c, p);
    forall m | m in g
      ensures ParentOk(g, m) && ChildrenOk(g, m)
    {
      EdgeSplitLinks(f, g, p, c, s, common, m);
    }
    RootsKept(f, g);
  }

  /** Everything is right except the cached binding of the unbound node `s`. */
  ghost predicate RepairedBut<Id>(f: Forest<Id>, s: Id) {
    && Linked(f) && s in f && !f[s].terminal
    && (forall n {:trigger NearestOk(f, n)} | n in f && n != s :: NearestOk(f, n))
    && (forall n {:trigger HeapOrdered(f, n)} | n in f :: HeapOrdered(f, n))
    && (forall n | n in f :: f[n].nearest != Some(s))
  }

  lemma EdgeSplitRepairedBut<Id>(f: Forest<Id>, g: Forest<Id>, p: Id, c: Id, s: Id, common: nat)
    requires Repaired(f) && EdgeSplit(f, g, p, c, s, common)
    ensures RepairedBut(g, s)
  {
    hide ParentOk, ChildrenOk, HeapOrdered;
    EdgeSplitShape(f, g, p, c, s, common);
    EdgeLabel(f, c, p);
    forall m | m in g
      ensures HeapShape(g, m) && HeapOrdered(g, m) && g[m].nearest != Some(s)
      ensures m != s ==> NearestOk(g, m)
    {
      if m == s {
        NoHeapOrdered(g, s);
      } else {
        assert NearestOk(f, m) && HeapShape(f, m);
        NearestKept(f, g, m);
        if m != p {
          ChildRanksKept(f, g, m);
          HeapSame(f, g, m);
        }
      }
    }
  }

  lemma RepairedButIsRepairing<Id>(f: Forest<Id>, s: Id)
    requires RepairedBut(f, s)
    ensures RepairingUpFrom(f, f[s].path, s) && NamedOnlyOnPath(f, f[s].path, s)
  {
  }

  /** Setting the one missing cache right repairs everything. */
  lemma LastCacheSet<Id>(f: Forest<Id>, g: Forest<Id>, s: Id, b: Option<Id>)
    requires RepairedBut(f, s) && NearestSet(f, g, s, b) && NearestOk(g, s)
    ensures Repaired(g)
  {
    hide ParentOk, ChildrenOk, HeapOrdered;
    SameLinksKeepShape(f, g);
    RepairedButIsRepairing(f, s);
    forall m | m in g
      ensures HeapShape(g, m) && NearestOk(g, m) && HeapOrdered(g, m)
    {
      assert HeapShape(f, m) && HeapOrdered(f, m);
      if m != s {
        assert NearestOk(f, m);
        NearestKept(f, g, m);
      }
      if f[s].parent != Some(m) {
        RepairStepHeap(f, g, s, m, b, s, f[s].path);
      } else {
        ParentAbove(f, s, m);
      }
    }
  }

  // ---------- A removed node ----------

  /** What pruning an unbound node `n` below `p` changes, whether it was a leaf or passed through. */
  ghost predicate NodeDropped<Id>(f: Forest<Id>, g: Forest<Id>, n: Id, p: Id) {
    && n in f && p in f && n != p && !f[n].terminal && f[n].parent == Some(p)
    && g.Keys == f.Keys - {n}
    && (forall m | m in g ::
          && g[m] == f[m].(parent := g[m].parent, incoming := g[m].incoming, children := g[m].children,
                           heap := g[m].heap)
          && (m != p ==> g[m].children == f[m].children && g[m].heap == f[m].heap))
    && HeapShape(g, p) && HeapOrdered(g, p)
  }

  ghost predicate LeafRemoved<Id>(f: Forest<Id>, g: Forest<Id>, n: Id, p: Id) {
    && NodeDropped(f, g, n, p)
    && f[n].children == map[] && f[n].incoming != []
    && g[p] == f[p].(children := f[p].children - {f[n].incoming[0]}, heap := g[p].heap)
    && (forall m | m in g && m != p :: g[m] == f[m])
  }

  ghost predicate NodeMerged<Id>(f: Forest<Id>, g: Forest<Id>, n: Id, p: Id, c: Id) {
    && NodeDropped(f, g, n, p)
    && f[n].incoming != [] && c in f && c != n && c != p
    && f[n].children.Values == {c}
    && g[c] == f[c].(parent := Some(p), incoming := f[n].incoming + f[c].incoming)
    && g[p] == f[p].(children := f[p].children[f[n].incoming[0] := c], heap := g[p].heap)
    && (forall m | m in g && m != p && m != c :: g[m] == f[m])
  }

  lemma LeafRemovedLinks<Id>(f: Forest<Id>, g: Forest<Id>, n: Id, p: Id, m: Id)
    requires Shape(f) && LeafRemoved(f, g, n, p) && m in g
    ensures ParentOk(g, m) && ChildrenOk(g, m)
  {
    hide RootsDistinct, HeapShape, HeapOrdered;
    EdgeLabel(f, n, p);
    assert ParentOk(f, m) && ChildrenOk(f, m);
  }

  lemma LeafRemovedShape<Id>(f: Forest<Id>, g: Forest<Id>, n: Id, p: Id)
    requires Shape(f) && LeafRemoved(f, g, n, p)
    ensures Shape(g)
  {
    hide ParentOk, ChildrenOk, HeapShape, HeapOrdered;
    forall m | m in g
      ensures ParentOk(g, m) && ChildrenOk(g, m)
    {
      LeafRemovedLinks(f, g, n, p, m);
    }
    RootsKept(f, g);
  }

  lemma NodeMergedLinks<Id>(f: Forest<Id>, g: Forest<Id>, n: Id, p: Id, c: Id, m: Id)
    requires Shape(f) && NodeMerged(f, g, n, p, c) && m in g
    ensures ParentOk(g, m) && ChildrenOk(g, m)
  {
    hide RootsDistinct, HeapShape, HeapOrdered;
    EdgeLabel(f, n, p);
    ChildInForest(f, n, c);
    EdgeLabel(f, c, n);
    assert f[c].path == f[p].path + (f[n].incoming + f[c].incoming);
    assert ParentOk(f, m) && ChildrenOk(f, m);
    if f[m].parent == Some(n) {
      assert m in f[n].children.Values;
    }
  }

  lemma NodeMergedShape<Id>(f: Forest<Id>, g: Forest<Id>, n: Id, p: Id, c: Id)
    requires Shape(f) && NodeMerged(f, g, n, p, c)
    ensures Shape(g)
  {
    hide ParentOk, ChildrenOk, HeapShape, HeapOrdered;
    forall m | m in g
      ensures ParentOk(g, m) && ChildrenOk(g, m)
    {
      NodeMergedLinks(f, g, n, p, c, m);
    }
    RootsKept(f, g);
  }

  /** Pruning one node moves the repair to its parent. */
  lemma DropMovesPruning<Id>(f: Forest<Id>, g: Forest<Id>, n: Id, p: Id, xp: Path, x: Id)
    requires n in f && PruningAt(f, f[n].path, xp, x) && NodeDropped(f, g, n, p) && Shape(g)
    ensures PruningAt(g, f[p].path, xp, x)
  {
    hide ParentOk, ChildrenOk, HeapBut, HeapOrdered, NearestStale, ParentPath, OnPath;
    PathStep(f, n, n);
    PathStep(f, n, p);
    PruningNamedOnPath(f, f[n].path, xp, x);
    forall m | m in g
      ensures HeapShape(g, m)
      ensures !(g[m].path <= f[p].path) ==> NearestOk(g, m)
      ensures g[m].path <= f[p].path ==> NearestStale(g, m, x, |xp|)
      ensures if g[m].path < f[p].path then HeapBut(g, m, x) else HeapOrdered(g, m)
      ensures g[m].path <= xp ==> g[m].path <= f[p].path
    {
      PathStep(f, n, m);
      DropKeepsCache(f, g, n, p, m, x, |xp|);
      assert HeapShape(f, m);
      if m != p {
        DropKeepsHeap(f, g, n, p, m, xp, x);
      }
    }
    assert |f[p].path| < |f[n].path| by { ParentAbove(f, n, p); }
  }

  lemma DropKeepsCache<Id>(f: Forest<Id>, g: Forest<Id>, n: Id, p: Id, m: Id, x: Id, depth: nat)
    requires NodeDropped(f, g, n, p) && m in g
    ensures NearestOk(f, m) ==> NearestOk(g, m)
    ensures NearestStale(f, m, x, depth) ==> NearestStale(g, m, x, depth)
  {
    forall u | u in g && Binding(g, m, u)
      ensures Binding(f, m, u) && BindingRank(g, u) == BindingRank(f, u)
    {
    }
    if f[m].nearest.Some? && Binding(f, m, f[m].nearest.value) {
      assert Binding(g, m, f[m].nearest.value);
    }
  }

  lemma DropKeepsHeap<Id>(f: Forest<Id>, g: Forest<Id>, n: Id, p: Id, m: Id, xp: Path, x: Id)
    requires n in f && PruningAt(f, f[n].path, xp, x) && NodeDropped(f, g, n, p)
    requires m in g && m != p && HeapShape(f, m)
    ensures HeapBut(f, m, x) ==> HeapBut(g, m, x)
    ensures HeapOrdered(f, m) && !(f[m].path < f[n].path) ==> HeapOrdered(g, m)
  {
    hide ParentOk, ChildrenOk, HeapBut, HeapOrdered, NearestStale;
    PruningNamedOnPath(f, f[n].path, xp, x);
    forall c | c in f[m].children.Values
      ensures c in f && f[c].parent == Some(m) && f[m].path < f[c].path && c in g && g[c].nearest == f[c].nearest
      ensures f[c].nearest != Some(x) ==> CandidateRank(g, c) == CandidateRank(f, c)
    {
      ChildInForest(f, m, c);
      ParentAbove(f, c, m);
      if f[c].nearest.Some? && f[c].nearest != Some(x) {
        assert f[c].path <= xp || NearestOk(f, c);
        StaleOrBound(f, n, c, xp, x);
      }
    }
    forall c, d | c in f[m].children.Values && d in f[m].children.Values
                  && f[c].nearest == Some(x) && f[d].nearest == Some(x)
      ensures c == d
    {
      OneChildOnPath(f, m, c, d, xp);
    }
    HeapKept(f, g, m, x);
    if HeapOrdered(f, m) && !(f[m].path < f[n].path) {
      HeapSame(f, g, m);
    }
  }

  lemma StaleOrBound<Id>(f: Forest<Id>, n: Id, c: Id, xp: Path, x: Id)
    requires n in f && PruningAt(f, f[n].path, xp, x)
    requires c in f && f[c].nearest.Some? && f[c].nearest.value != x
    ensures Binding(f, c, f[c].nearest.value)
  {
    assert NearestStale(f, c, x, |xp|) || NearestOk(f, c);
  }

  // ---------- A removed root ----------

  ghost predicate RootRemoved<Id>(f: Forest<Id>, g: Forest<Id>, r: Id) {
    && r in f && f[r].parent.None? && !f[r].terminal && f[r].children == map[]
    && g == f - {r}
  }

  lemma RootRemovedShape<Id>(f: Forest<Id>, g: Forest<Id>, r: Id)
    requires Shape(f) && RootRemoved(f, g, r)
    ensures Shape(g)
  {
    forall m | m in g
      ensures ParentOk(g, m) && ChildrenOk(g, m)
    {
      assert ParentOk(f, m) && ChildrenOk(f, m);
    }
    RootsKept(f, g);
  }

  lemma RootRemovedRepaired<Id>(f: Forest<Id>, g: Forest<Id>, r: Id)
    requires Repaired(f) && RootRemoved(f, g, r)
    ensures Repaired(g)
  {
    hide ParentOk, ChildrenOk, HeapOrdered;
    RootRemovedShape(f, g, r);
    forall m | m in g
      ensures HeapShape(g, m) && NearestOk(g, m) && HeapOrdered(g, m)
    {
      assert NearestOk(f, m) && HeapShape(f, m);
      if f[m].nearest.Some? {
        assert Binding(f, m, f[m].nearest.value);
      }
      NearestKept(f, g, m);
      forall c | c in f[m].children.Values
        ensures CandidateRank(g, c) == CandidateRank(f, c)
      {
        ChildInForest(f, m, c);
        assert NearestOk(f, c);
        if f[c].nearest.Some? {
          assert Binding(f, c, f[c].nearest.value);
        }
      }
      HeapSame(f, g, m);
    }
  }

  /** Nothing lies below an empty root. */
  lemma NothingBelowEmptyRoot<Id>(f: Forest<Id>, r: Id, m: Id)
    requires Shape(f) && r in f && f[r].children == map[] && m in f && f[r].path <= f[m].path
    ensures m == r
  {
    if f[r].path == f[m].path {
      SamePathSameNode(f, r, m);
    } else {
      var c := StepTowards(f, r, m);
    }
  }
}
