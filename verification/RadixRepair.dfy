/** Keeping the cached bindings and the candidate heaps right while one path is being repaired.

    Inserting or expiring a binding disturbs only the nodes on the way to it. The lemmas here say
    what is still right above the node the loop has reached, and that the early exits of
    `propagateTerminal` and `pruneEmptyPath` lose nothing. */
module RadixRepair {
  import opened Prelude
  import opened CandidateOrder
  import opened RadixForest

  // ---------- A forest with one path under repair ----------

  ghost predicate Linked<Id>(f: Forest<Id>) {
    Shape(f) && forall n {:trigger HeapShape(f, n)} | n in f :: HeapShape(f, n)
  }

  /** Only nodes on the way to `q` may have a wrong cached binding, and only nodes strictly above
      `q` may have a heap that is disturbed, by the entry whose cached binding is `x`. */
  ghost predicate RepairingUpFrom<Id>(f: Forest<Id>, q: Path, x: Id) {
    && Linked(f)
    && (forall n {:trigger NearestOk(f, n)} | n in f && !(f[n].path <= q) :: NearestOk(f, n))
    && (forall n {:trigger HeapBut(f, n, x)} | n in f && f[n].path < q :: HeapBut(f, n, x))
    && (forall n {:trigger HeapOrdered(f, n)} | n in f && !(f[n].path < q) :: HeapOrdered(f, n))
  }

  /** Only nodes on the way to `xp` may name `x` as their nearest binding. */
  ghost predicate NamedOnlyOnPath<Id>(f: Forest<Id>, xp: Path, x: Id) {
    forall c | c in f && f[c].nearest == Some(x) :: f[c].path <= xp
  }

  /** What `setNearestTerminal` does: one cache, and the order of the parent's heap. */
  ghost predicate NearestSet<Id>(f: Forest<Id>, g: Forest<Id>, n: Id, b: Option<Id>) {
    && n in f && f.Keys == g.Keys
    && g[n] == f[n].(nearest := b)
    && (forall m | m in f && m != n && f[n].parent != Some(m) :: g[m] == f[m])
    && (f[n].parent.Some? && f[n].parent.value in f ==>
          var p := f[n].parent.value;
          p != n && g[p] == f[p].(heap := g[p].heap) && HeapShape(g, p) && HeapOrdered(g, p))
  }

  ghost function ParentPath<Id>(f: Forest<Id>, n: Id): Path
    requires n in f
  {
    if f[n].parent.Some? && f[n].parent.value in f then f[f[n].parent.value].path else []
  }

  /** Before a cache on the path is rewritten, its parent's heap is in order except at that entry. */
  lemma HeapReadyForRefresh<Id>(f: Forest<Id>, n: Id, p: Id, xp: Path, x: Id)
    requires n in f && f[n].path <= xp && f[n].parent == Some(p)
    requires RepairingUpFrom(f, f[n].path, x) && NamedOnlyOnPath(f, xp, x)
    ensures HeapExcept(f, p, n)
  {
    hide ParentOk, ChildrenOk, NearestOk, OrderedExcept, Ordered;
    ParentAbove(f, n, p);
    assert HeapBut(f, p, x) && HeapShape(f, p);
    if f[p].heap.Some? && n in f[p].heap.value.positions {
      var h := f[p].heap.value;
      forall c | c in h.positions && c in f && f[c].nearest == Some(x)
        ensures c == n
      {
        ChildInForest(f, p, c);
        OneChildOnPath(f, p, c, n, xp);
      }
      if f[n].nearest != Some(x) {
        OrderedIsOrderedExcept(Ranks(f, h.nodes), |h.nodes|, h.positions[n]);
      }
    }
  }

  /** A heap keeps its order while the ranks of its entries stay, and keeps it around the one
      entry that names `x` whatever that entry's rank becomes. */
  lemma HeapKept<Id>(f: Forest<Id>, g: Forest<Id>, m: Id, x: Id)
    requires m in f && m in g && g[m].heap == f[m].heap && HeapShape(f, m)
    requires forall c | c in f[m].children.Values ::
               c in f && c in g && g[c].nearest == f[c].nearest
               && (f[c].nearest != Some(x) ==> CandidateRank(g, c) == CandidateRank(f, c))
    requires forall c, d | c in f[m].children.Values && d in f[m].children.Values
                           && f[c].nearest == Some(x) && f[d].nearest == Some(x) :: c == d
    ensures HeapBut(f, m, x) ==> HeapBut(g, m, x)
    ensures HeapOrdered(f, m) ==> HeapBut(g, m, x)
  {
    hide Ordered, OrderedExcept;
    if f[m].heap.Some? && (HeapBut(f, m, x) || HeapOrdered(f, m)) {
      var h := f[m].heap.value;
      var ks, ls := Ranks(f, h.nodes), Ranks(g, h.nodes);
      assert forall i | 0 <= i < |h.nodes| :: h.nodes[i] in h.positions.Keys;
      if c :| c in h.positions && f[c].nearest == Some(x) {
        var i := h.positions[c];
        forall j | 0 <= j < |h.nodes| && j != i
          ensures ks[j] == ls[j]
        {
          assert h.nodes[j] != c;
        }
        if HeapOrdered(f, m) {
          OrderedIsOrderedExcept(ks, |h.nodes|, i);
        } else {
          assert HeapExcept(f, m, c);
        }
        ChangedAtOneSlot(ks, ls, |h.nodes|, i);
        assert HeapExcept(g, m, c);
      } else {
        assert ks == ls;
      }
    }
  }

  lemma HeapSame<Id>(f: Forest<Id>, g: Forest<Id>, m: Id)
    requires m in f && m in g && g[m].heap == f[m].heap && HeapShape(f, m) && HeapOrdered(f, m)
    requires forall c | c in f[m].children.Values :: CandidateRank(g, c) == CandidateRank(f, c)
    ensures HeapOrdered(g, m)
  {
    if f[m].heap.Some? {
      var h := f[m].heap.value;
      assert forall i | 0 <= i < |h.nodes| :: h.nodes[i] in h.positions.Keys;
      assert Ranks(f, h.nodes) == Ranks(g, h.nodes);
    }
  }

  /** The cached binding of `m` stays right when the bindings below it stay. */
  lemma NearestKept<Id>(f: Forest<Id>, g: Forest<Id>, m: Id)
    requires NearestOk(f, m) && m in g && g[m].nearest == f[m].nearest
    requires f[m].nearest.Some? ==> Binding(g, m, f[m].nearest.value)
    requires forall u | u in g && Binding(g, m, u) :: Binding(f, m, u) && BindingRank(g, u) == BindingRank(f, u)
    ensures NearestOk(g, m)
  {
  }

  /** A node on the way to `n` but not on the way to its parent is `n`; a node strictly above `n`
      that is not its parent is strictly above the parent. */
  lemma PathStep<Id>(f: Forest<Id>, n: Id, m: Id)
    requires Shape(f) && n in f && m in f
    ensures f[m].path <= f[n].path && !(f[m].path <= ParentPath(f, n)) ==> m == n
    ensures f[m].path < f[n].path && f[n].parent != Some(m) ==> f[m].path < ParentPath(f, n)
    ensures f[m].path < ParentPath(f, n) ==> f[m].path < f[n].path
    ensures f[n].parent == Some(m) ==> ParentPath(f, n) == f[m].path
    ensures !(f[n].path <= ParentPath(f, n))
    ensures ParentPath(f, n) <= f[n].path
  {
    assert ParentOk(f, n) && ParentOk(f, m);
    var q := ParentPath(f, n);
    if f[n].parent.Some? {
      ParentAbove(f, n, f[n].parent.value);
    }
    if f[m].path <= f[n].path && !(f[m].path <= q) {
      NothingBetween(f, n, m);
    }
    if f[m].path < f[n].path && f[n].parent != Some(m) && f[m].path == q {
      SamePathSameNode(f, m, f[n].parent.value);
    }
  }

  /** Rewriting the cache at the current node correctly moves the repair to its parent. */
  lemma RepairStep<Id>(f: Forest<Id>, g: Forest<Id>, n: Id, b: Option<Id>, x: Id, xp: Path)
    requires n in f && RepairingUpFrom(f, f[n].path, x) && NamedOnlyOnPath(f, xp, x) && f[n].path <= xp
    requires NearestSet(f, g, n, b) && NearestOk(g, n)
    ensures RepairingUpFrom(g, ParentPath(f, n), x)
  {
    hide ParentOk, ChildrenOk, HeapOrdered, HeapBut, ParentPath, OnPath;
    SameLinksKeepShape(f, g);
    forall m | m in g
      ensures HeapShape(g, m)
    {
      assert HeapShape(f, m);
    }
    var q := ParentPath(f, n);
    forall m | m in g && !(g[m].path <= q)
      ensures NearestOk(g, m)
    {
      PathStep(f, n, m);
      if m != n {
        NearestKept(f, g, m);
      }
    }
    PathStep(f, n, n);
    forall m | m in g
      ensures if g[m].path < q then HeapBut(g, m, x) else HeapOrdered(g, m)
    {
      PathStep(f, n, m);
      if f[n].parent == Some(m) {
        ParentAbove(f, n, m);
      } else {
        RepairStepHeap(f, g, n, m, b, x, xp);
      }
    }
  }

  lemma RepairStepHeap<Id>(f: Forest<Id>, g: Forest<Id>, n: Id, m: Id, b: Option<Id>, x: Id, xp: Path)
    requires Shape(f) && n in f && m in f && f[n].parent != Some(m) && HeapShape(f, m)
    requires NearestSet(f, g, n, b) && NamedOnlyOnPath(f, xp, x)
    ensures HeapBut(f, m, x) ==> HeapBut(g, m, x)
    ensures HeapOrdered(f, m) ==> HeapOrdered(g, m)
  {
    hide ParentOk, ChildrenOk, HeapOrdered, HeapBut;
    forall c | c in f[m].children.Values
      ensures c in f && g[c].nearest == f[c].nearest && CandidateRank(g, c) == CandidateRank(f, c)
    {
      ChildInForest(f, m, c);
    }
    forall c, d | c in f[m].children.Values && d in f[m].children.Values
                  && f[c].nearest == Some(x) && f[d].nearest == Some(x)
      ensures c == d
    {
      ChildInForest(f, m, c);
      ChildInForest(f, m, d);
      OneChildOnPath(f, m, c, d, xp);
    }
    HeapKept(f, g, m, x);
    if HeapOrdered(f, m) {
      HeapSame(f, g, m);
    }
  }

  /** Every cached binding is right and every heap is in order. */
  ghost predicate Repaired<Id>(f: Forest<Id>) {
    && Linked(f)
    && forall n {:trigger NearestOk(f, n)} {:trigger HeapOrdered(f, n)} | n in f ::
         NearestOk(f, n) && HeapOrdered(f, n)
  }

  lemma RepairReachedRoot<Id>(f: Forest<Id>, x: Id)
    requires RepairingUpFrom(f, [], x)
    ensures Repaired(f)
  {
    forall n | n in f
      ensures NearestOk(f, n) && HeapOrdered(f, n)
    {
      assert ParentOk(f, n);
    }
  }

  // ---------- A changed binding ----------

  /** `x` was bound, bound again or unbound; nothing else changed. */
  ghost predicate BindingChanged<Id>(f: Forest<Id>, g: Forest<Id>, x: Id) {
    && x in f && f.Keys == g.Keys
    && g[x] == f[x].(terminal := g[x].terminal, credential := g[x].credential, seqNo := g[x].seqNo)
    && forall m | m in f && m != x :: g[m] == f[m]
  }

  lemma NamedOnPath<Id>(f: Forest<Id>, x: Id)
    requires Repaired(f) && x in f
    ensures NamedOnlyOnPath(f, f[x].path, x)
  {
    forall c | c in f && f[c].nearest == Some(x)
      ensures f[c].path <= f[x].path
    {
      assert NearestOk(f, c) && Binding(f, c, x);
    }
  }

  lemma BindingChangeKeepsHeap<Id>(f: Forest<Id>, g: Forest<Id>, x: Id, m: Id)
    requires Repaired(f) && BindingChanged(f, g, x) && m in f
    ensures HeapBut(g, m, x)
    ensures !(f[m].path < f[x].path) ==> HeapOrdered(g, m)
  {
    hide ParentOk, ChildrenOk, HeapBut, NearestOk;
    NamedOnPath(f, x);
    forall c | c in f[m].children.Values
      ensures c in f && f[m].path < f[c].path
    {
      ChildInForest(f, m, c);
      ParentAbove(f, c, m);
    }
    forall c, d | c in f[m].children.Values && d in f[m].children.Values
                  && f[c].nearest == Some(x) && f[d].nearest == Some(x)
      ensures c == d
    {
      ChildInForest(f, m, c);
      ChildInForest(f, m, d);
      OneChildOnPath(f, m, c, d, f[x].path);
    }
    HeapKept(f, g, m, x);
    if !(f[m].path < f[x].path) {
      HeapSame(f, g, m);
    }
  }

  /** Changing one binding leaves wrong caches and heaps only on the way to it. */
  lemma BindingChangeStartsRepair<Id>(f: Forest<Id>, g: Forest<Id>, x: Id)
    requires Repaired(f) && BindingChanged(f, g, x)
    ensures RepairingUpFrom(g, f[x].path, x) && NamedOnlyOnPath(g, f[x].path, x)
  {
    hide ParentOk, ChildrenOk, HeapBut, HeapOrdered;
    NamedOnPath(f, x);
    SameLinksKeepShape(f, g);
    forall n | n in g
      ensures HeapShape(g, n)
      ensures !(g[n].path <= f[x].path) ==> NearestOk(g, n)
      ensures if g[n].path < f[x].path then HeapBut(g, n, x) else HeapOrdered(g, n)
    {
      assert HeapShape(f, n);
      BindingChangeKeepsHeap(f, g, x, n);
      if !(g[n].path <= f[x].path) {
        NearestKept(f, g, n);
      }
    }
  }

  /** Only cached bindings and the arrangement of heaps changed. */
  ghost predicate OnlyCaches<Id>(f: Forest<Id>, g: Forest<Id>) {
    f.Keys == g.Keys && forall n | n in f :: g[n] == f[n].(nearest := g[n].nearest, heap := g[n].heap)
  }
}
