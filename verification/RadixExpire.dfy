/** Why recomputing from the highest node that pruning touched repairs every cache, and why
    nothing needs recomputing once pruning stops at a bound node. */
module RadixExpire {
  import opened Prelude
  import opened CandidateOrder
  import opened RadixForest
  import opened RadixRepair

  /** Pruning after the binding `x` at path `xp` expired has reached the node at `q`. */
  ghost predicate PruningAt<Id>(f: Forest<Id>, q: Path, xp: Path, x: Id) {
    && RepairingUpFrom(f, q, x)
    && (x in f ==> !f[x].terminal)
    && q <= xp
    && (q == xp ==> x in f && f[x].path == xp)
    && (forall n | n in f && f[n].path <= xp :: f[n].path <= q)
    && (forall n {:trigger NearestStale(f, n, x, |xp|)} | n in f && f[n].path <= q :: NearestStale(f, n, x, |xp|))
  }

  lemma PruningNamedOnPath<Id>(f: Forest<Id>, q: Path, xp: Path, x: Id)
    requires PruningAt(f, q, xp, x)
    ensures NamedOnlyOnPath(f, xp, x)
  {
    forall c | c in f && f[c].nearest == Some(x)
      ensures f[c].path <= xp
    {
      assert f[c].path <= q || NearestOk(f, c);
    }
  }

  lemma UnbindStartsPruning<Id>(f: Forest<Id>, g: Forest<Id>, x: Id)
    requires Repaired(f) && BindingChanged(f, g, x) && f[x].terminal && !g[x].terminal
    ensures PruningAt(g, f[x].path, f[x].path, x)
  {
    hide ParentOk, ChildrenOk, NearestOk, NearestStale, HeapOrdered, HeapBut, HeapShape;
    BindingChangeStartsRepair(f, g, x);
    forall n | n in g && g[n].path <= f[x].path
      ensures NearestStale(g, n, x, |f[x].path|)
    {
      UnboundAt(f, g, x, n);
    }
  }

  lemma UnboundAt<Id>(f: Forest<Id>, g: Forest<Id>, x: Id, n: Id)
    requires Shape(f) && BindingChanged(f, g, x) && f[x].terminal && !g[x].terminal
    requires n in f && NearestOk(f, n)
    ensures NearestStale(g, n, x, |f[x].path|)
  {
    forall u | u in g && Binding(g, n, u)
      ensures g[n].nearest.Some?
      ensures if g[n].nearest.value == x then g[u].depth >= |f[x].path|
              else !Better(BindingRank(g, u), CandidateRank(g, n))
    {
      assert Binding(f, n, u);
      DepthIsPathLength(f, x);
    }
  }

  lemma BoundAncestorNotStale<Id>(f: Forest<Id>, t: Id, xp: Path, x: Id, m: Id)
    requires t in f && f[t].terminal && PruningAt(f, f[t].path, xp, x)
    requires m in f && f[m].path <= f[t].path
    ensures f[m].nearest != Some(x) && NearestOk(f, m)
  {
    assert NearestStale(f, m, x, |xp|);
    assert Binding(f, m, t);
    assert ParentOk(f, t);
    if f[m].nearest == Some(x) {
      assert f[t].path == xp;
      SamePathSameNode(f, t, x);
    }
  }

  /** Reaching a bound node ends the repair: above it nobody names the expired binding. */
  lemma PruningStopsAtBinding<Id>(f: Forest<Id>, t: Id, xp: Path, x: Id)
    requires t in f && f[t].terminal && PruningAt(f, f[t].path, xp, x)
    ensures Repaired(f)
  {
    hide ParentOk, ChildrenOk, NearestOk, NearestStale, Ranks, Ordered;
    PruningNamedOnPath(f, f[t].path, xp, x);
    forall m | m in f
      ensures NearestOk(f, m) && HeapOrdered(f, m)
    {
      if f[m].path <= f[t].path {
        BoundAncestorNotStale(f, t, xp, x, m);
      }
      if f[m].path < f[t].path && f[m].heap.Some? {
        forall c | c in f[m].heap.value.positions && c in f
          ensures f[c].nearest != Some(x)
        {
          if f[c].nearest == Some(x) {
            BoundAncestorNotStale(f, t, xp, x, c);
          }
        }
        assert HeapBut(f, m, x);
      }
    }
  }

  /** `b` is what a scan over the cached bindings of the children of `n` yields. */
  ghost predicate BestOfChildren<Id>(f: Forest<Id>, n: Id, b: Option<Id>) {
    && n in f
    && (forall c | c in f[n].children.Values && c in f ::
          (b.None? ==> f[c].nearest.None?)
          && !Better(CandidateRank(f, c), if b.Some? then BindingRank(f, b.value) else Unranked))
    && (b.Some? ==> exists c :: c in f[n].children.Values && c in f && f[c].nearest == b)
  }

  /** The heap's top agrees with the scan. */
  lemma HeapTopIsBestOfChildren<Id>(f: Forest<Id>, n: Id)
    requires Shape(f) && n in f && HeapShape(f, n) && HeapOrdered(f, n) && f[n].heap.Some?
    requires forall c | c in f[n].children.Values && c in f && f[c].nearest.Some? :: f[c].nearest.value in f
    ensures |f[n].heap.value.nodes| > 0 && f[n].heap.value.nodes[0] in f
    ensures BestOfChildren(f, n, f[f[n].heap.value.nodes[0]].nearest)
  {
    var h := f[n].heap.value;
    assert f[n].children.Keys != {};
    var e :| e in f[n].children;
    assert f[n].children[e] in h.positions.Keys;
    assert h.nodes[0] in h.positions.Keys;
    ChildInForest(f, n, h.nodes[0]);
    forall c | c in f[n].children.Values && c in f
      ensures !Better(CandidateRank(f, c), CandidateRank(f, h.nodes[0]))
    {
      assert c in h.positions.Keys;
      TopIsBest(Ranks(f, h.nodes), |h.nodes|, h.positions[c]);
    }
  }

  /** One step of `recomputePath`. */
  lemma RecomputedNearest<Id>(f: Forest<Id>, g: Forest<Id>, n: Id, b: Option<Id>, x: Id)
    requires n in f && RepairingUpFrom(f, f[n].path, x)
    requires if f[n].terminal then b == Some(n) else BestOfChildren(f, n, b)
    requires NearestSet(f, g, n, b)
    ensures NearestOk(g, n)
  {
    hide ParentOk, ChildrenOk, HeapBut, HeapOrdered, HeapShape;
    forall c | c in f[n].children.Values
      ensures c in f && NearestOk(f, c) && f[n].path < f[c].path
    {
      ChildInForest(f, n, c);
      ParentAbove(f, c, n);
    }
    if !f[n].terminal && b.Some? {
      var c :| c in f[n].children.Values && c in f && f[c].nearest == b;
      assert Binding(f, c, b.value);
      assert Binding(g, n, b.value);
    }
    forall t | t in g && Binding(g, n, t)
      ensures b.Some? && !Better(BindingRank(g, t), CandidateRank(g, n))
    {
      if f[n].path == f[t].path {
        SamePathSameNode(f, n, t);
      } else if f[n].terminal {
        DepthIsPathLength(f, n);
        DepthIsPathLength(f, t);
      } else {
        var c := StepTowards(f, n, t);
        assert c in f[n].children.Values;
        assert Binding(f, c, t);
      }
    }
  }

  lemma DepthIsPathLength<Id>(f: Forest<Id>, n: Id)
    requires Shape(f) && n in f
    ensures f[n].depth == |f[n].path|
  {
    assert ParentOk(f, n);
  }
}
