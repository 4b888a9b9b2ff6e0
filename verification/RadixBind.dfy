/** Why `propagateTerminal` may stop at the first ancestor whose cached binding beats the new one. */
module RadixBind {
  import opened Prelude
  import opened CandidateOrder
  import opened RadixForest
  import opened RadixRepair

  /** `t` carries the highest sequence number. */
  ghost predicate Newest<Id>(f: Forest<Id>, t: Id) {
    && t in f && f[t].terminal
    && forall u | u in f && u != t :: f[u].seqNo < f[t].seqNo
  }

  /** The loop has reached the node at `q`; from there up, caches do not yet reflect the binding `t`. */
  ghost predicate PropagatingFrom<Id>(f: Forest<Id>, q: Path, t: Id) {
    && RepairingUpFrom(f, q, t)
    && Newest(f, t) && q <= f[t].path
    && (forall n {:trigger NearestBut(f, n, t)} | n in f && f[n].path <= q :: NearestBut(f, n, t))
  }

  lemma PropagatingNamedOnPath<Id>(f: Forest<Id>, q: Path, t: Id)
    requires PropagatingFrom(f, q, t)
    ensures NamedOnlyOnPath(f, f[t].path, t)
  {
    forall c | c in f && f[c].nearest == Some(t)
      ensures f[c].path <= f[t].path
    {
      assert NearestOk(f, c) || NearestBut(f, c, t);
      assert Binding(f, c, t);
    }
  }

  /** `markTerminal` with a fresh sequence number. */
  lemma MarkStartsPropagation<Id>(f: Forest<Id>, g: Forest<Id>, t: Id)
    requires Repaired(f) && BindingChanged(f, g, t) && g[t].terminal
    requires forall u | u in f :: f[u].seqNo < g[t].seqNo
    ensures PropagatingFrom(g, f[t].path, t)
  {
    hide ParentOk, ChildrenOk, NearestOk, NearestBut, HeapOrdered, HeapBut, HeapShape;
    BindingChangeStartsRepair(f, g, t);
    forall n | n in g && g[n].path <= f[t].path
      ensures NearestBut(g, n, t)
    {
      MarkedAt(f, g, t, n);
    }
  }

  lemma MarkedAt<Id>(f: Forest<Id>, g: Forest<Id>, t: Id, n: Id)
    requires BindingChanged(f, g, t) && g[t].terminal && f[t].seqNo < g[t].seqNo
    requires n in f && NearestOk(f, n)
    ensures NearestBut(g, n, t)
  {
    forall u | u in g && Binding(g, n, u) && u != t
      ensures g[n].nearest.Some? && !Better(BindingRank(g, u), CandidateRank(g, n))
    {
      assert Binding(f, n, u);
    }
  }

  /** The test that makes `propagateTerminal` return, on the node's cached binding. */
  ghost predicate StopsPropagation<Id>(f: Forest<Id>, n: Id, t: Id)
    requires n in f && t in f
  {
    && f[n].nearest.Some? && f[n].nearest != Some(t) && f[n].nearest.value in f
    && var b := f[n].nearest.value;
       f[b].depth < f[t].depth || (f[b].depth == f[t].depth && !(f[t].seqNo > f[b].seqNo))
  }

  lemma PropagateStep<Id>(f: Forest<Id>, g: Forest<Id>, n: Id, t: Id)
    requires n in f && PropagatingFrom(f, f[n].path, t) && !StopsPropagation(f, n, t)
    requires NearestSet(f, g, n, Some(t))
    ensures PropagatingFrom(g, ParentPath(f, n), t)
  {
    hide ParentOk, ChildrenOk, HeapBut, HeapOrdered, HeapShape, ParentPath, OnPath, NearestBut, NearestOk,
         StopsPropagation;
    PropagatedAt(f, g, n, t);
    PropagatingNamedOnPath(f, f[n].path, t);
    assert Newest(g, t) by { NewestKept(f, g, n, t); }
    RepairStep(f, g, n, Some(t), t, f[t].path);
    PathStep(f, n, n);
    forall m | m in g && g[m].path <= ParentPath(f, n)
      ensures NearestBut(g, m, t)
    {
      PathStep(f, n, m);
      StillButAt(f, g, n, t, m);
    }
  }

  lemma NewestKept<Id>(f: Forest<Id>, g: Forest<Id>, n: Id, t: Id)
    requires Newest(f, t) && NearestSet(f, g, n, Some(t))
    ensures Newest(g, t)
  {
  }

  lemma PropagatedAt<Id>(f: Forest<Id>, g: Forest<Id>, n: Id, t: Id)
    requires n in f && t in f && NearestBut(f, n, t) && !StopsPropagation(f, n, t)
    requires Binding(f, n, t) && NearestSet(f, g, n, Some(t))
    ensures NearestOk(g, n)
  {
    forall u | u in g && Binding(g, n, u)
      ensures !Better(BindingRank(g, u), CandidateRank(g, n))
    {
      assert Binding(f, n, u);
    }
  }

  lemma StillButAt<Id>(f: Forest<Id>, g: Forest<Id>, n: Id, t: Id, m: Id)
    requires m in f && m != n && NearestBut(f, m, t) && NearestSet(f, g, n, Some(t))
    ensures NearestBut(g, m, t)
  {
    forall u | u in g && Binding(g, m, u) && u != t
      ensures g[m].nearest.Some? && !Better(BindingRank(g, u), CandidateRank(g, m))
    {
      assert Binding(f, m, u);
    }
  }

  /** Above a node that keeps a better binding, `t` is nobody's nearest and every cache is right. */
  lemma StopIsSafeAt<Id>(f: Forest<Id>, n: Id, t: Id, m: Id)
    requires n in f && Newest(f, t) && NearestBut(f, n, t) && NearestBut(f, m, t) && StopsPropagation(f, n, t)
    requires f[m].path <= f[n].path
    ensures NearestOk(f, m) && f[m].nearest != Some(t)
  {
    var b := f[n].nearest.value;
    assert Binding(f, n, b) && Binding(f, m, b);
    forall u | u in f && Binding(f, m, u)
      ensures !Better(BindingRank(f, u), CandidateRank(f, m))
    {
      assert !Better(BindingRank(f, b), CandidateRank(f, m));
    }
  }

  /** The early return loses no update. */
  lemma StopIsSafe<Id>(f: Forest<Id>, n: Id, t: Id)
    requires n in f && PropagatingFrom(f, f[n].path, t) && StopsPropagation(f, n, t)
    ensures Repaired(f)
  {
    hide ParentOk, ChildrenOk, NearestOk, NearestBut, StopsPropagation, Ranks, Ordered;
    PropagatingNamedOnPath(f, f[n].path, t);
    forall m | m in f
      ensures NearestOk(f, m) && HeapOrdered(f, m)
    {
      if f[m].path <= f[n].path {
        StopIsSafeAt(f, n, t, m);
      }
      if f[m].path < f[n].path && f[m].heap.Some? {
        var h := f[m].heap.value;
        forall c | c in h.positions && c in f
          ensures f[c].nearest != Some(t)
        {
          if f[c].nearest == Some(t) {
            assert HeapShape(f, m);
            ChildInForest(f, m, c);
            var d := StepTowards(f, m, n);
            OneChildOnPath(f, m, c, d, f[t].path);
            StopIsSafeAt(f, n, t, c);
          }
        }
        assert HeapBut(f, m, t);
      }
    }
  }
}
