/** What a trie means: the map from fingerprints to bindings, and the canonical shape. */
module RadixBindings {
  import opened RadixForest
  import opened RadixRepair
  import opened RadixEdits

  datatype Entry = Entry(path: Path, credential: string, generation: nat)

  /** The bound nodes and what they bind. */
  ghost function Terminals<Id>(f: Forest<Id>): (ts: map<Id, Entry>)
    ensures ts.Keys == set n | n in f && f[n].terminal
    ensures forall n | n in ts :: ts[n] == Entry(f[n].path, f[n].credential, f[n].seqNo)
  {
    map n | n in f && f[n].terminal :: Entry(f[n].path, f[n].credential, f[n].seqNo)
  }

  ghost predicate Holds<Id>(f: Forest<Id>, n: Id, p: Path) {
    n in f && f[n].terminal && f[n].path == p
  }

  ghost function BoundPaths<Id>(f: Forest<Id>): set<Path> {
    set n | n in f && f[n].terminal :: f[n].path
  }

  /** The finite map a trie stands for. */
  ghost function Bound<Id>(f: Forest<Id>): (m: map<Path, Entry>)
    ensures forall p | p in m :: exists n :: n in f && Holds(f, n, p)
  {
    map p | p in BoundPaths(f) ::
      assert exists n :: n in f && Holds(f, n, p) by {
        var n :| n in f && f[n].terminal && f[n].path == p;
        assert Holds(f, n, p);
      }
      var n :| n in f && Holds(f, n, p); Terminals(f)[n]
  }

  lemma BoundAt<Id>(f: Forest<Id>, n: Id)
    requires Shape(f) && n in f && f[n].terminal
    ensures f[n].path in Bound(f) && Bound(f)[f[n].path] == Terminals(f)[n]
  {
    assert Holds(f, n, f[n].path);
    assert f[n].path in Bound(f);
    var m :| m in f && Holds(f, m, f[n].path) && Bound(f)[f[n].path] == Terminals(f)[m];
    SamePathSameNode(f, m, n);
  }

  lemma BoundBy<Id>(f: Forest<Id>, p: Path) returns (n: Id)
    requires Shape(f) && p in Bound(f)
    ensures n in f && f[n].terminal && f[n].path == p && Bound(f)[p] == Terminals(f)[n]
  {
    n :| n in f && Holds(f, n, p);
    BoundAt(f, n);
  }

  /** Binding one node is updating one key. */
  lemma BoundAfterBind<Id>(f: Forest<Id>, g: Forest<Id>, t: Id, e: Entry)
    requires Shape(f) && Shape(g) && Terminals(g) == Terminals(f)[t := e]
    requires t in f ==> f[t].path == e.path
    requires t !in f ==> forall n | n in f && f[n].terminal :: f[n].path != e.path
    ensures Bound(g) == Bound(f)[e.path := e]
  {
    hide Shape, Bound, Holds;
    assert t in Terminals(g);
    BoundAt(g, t);
    forall p | p in Bound(g) && p != e.path
      ensures p in Bound(f) && Bound(g)[p] == Bound(f)[p]
    {
      var n := BoundBy(g, p);
      assert n in Terminals(g);
      BoundAt(f, n);
    }
    forall p | p in Bound(f) && p != e.path
      ensures p in Bound(g)
    {
      var n := BoundBy(f, p);
      assert n in Terminals(g);
      BoundAt(g, n);
    }
  }

  /** Expiring one bound node is removing one key. */
  lemma BoundAfterExpire<Id>(f: Forest<Id>, g: Forest<Id>, x: Id)
    requires Shape(f) && Shape(g) && x in f && f[x].terminal && Terminals(g) == Terminals(f) - {x}
    ensures Bound(g) == Bound(f) - {f[x].path}
  {
    hide Shape, Bound, Holds;
    forall p | p in Bound(g)
      ensures p != f[x].path && p in Bound(f) && Bound(g)[p] == Bound(f)[p]
    {
      var n := BoundBy(g, p);
      assert n in Terminals(g);
      BoundAt(f, n);
      if p == f[x].path {
        SamePathSameNode(f, n, x);
      }
    }
    forall p | p in Bound(f) && p != f[x].path
      ensures p in Bound(g)
    {
      var n := BoundBy(f, p);
      assert n in Terminals(g);
      BoundAt(g, n);
    }
  }

  // ---------- Canonical shape ----------

  /** An unbound node exists only to branch, or as the root of a bucket in use. */
  ghost predicate Branches<Id>(f: Forest<Id>, n: Id) {
    n in f && (f[n].terminal || |f[n].children| >= if f[n].parent.None? then 1 else 2)
  }

  ghost predicate Canonical<Id>(f: Forest<Id>) {
    forall n {:trigger Branches(f, n)} | n in f :: Branches(f, n)
  }

  ghost predicate CanonicalBut<Id>(f: Forest<Id>, x: Id) {
    forall n {:trigger Branches(f, n)} | n in f && n != x :: Branches(f, n)
  }

  lemma PutSize<K, V>(m: map<K, V>, k: K, v: V)
    ensures |m[k := v]| == |m| + if k in m then 0 else 1
  {
  }

  lemma LeafKeepsCanonical<Id>(f: Forest<Id>, g: Forest<Id>, p: Id, n: Id, incoming: Path)
    requires LeafAdded(f, g, p, n, incoming) && CanonicalBut(f, p)
    requires f[p].terminal || f[p].parent.None? || |f[p].children| >= 1
    ensures CanonicalBut(g, n) && Terminals(g) == Terminals(f)
  {
    hide HeapShape, HeapOrdered, ParentOk, ChildrenOk;
    PutSize(f[p].children, incoming[0], n);
    forall m | m in g && m != n
      ensures Branches(g, m)
    {
      assert m == p || Branches(f, m);
    }
    assert forall m :: m in Terminals(g) <==> m in Terminals(f);
  }

  lemma RootKeepsCanonical<Id>(f: Forest<Id>, g: Forest<Id>, r: Id, path: Path)
    requires RootAdded(f, g, r, path) && Canonical(f)
    ensures CanonicalBut(g, r) && Terminals(g) == Terminals(f)
  {
    forall m | m in g && m != r
      ensures Branches(g, m)
    {
      assert Branches(f, m);
    }
  }

  lemma SplitKeepsCanonical<Id>(f: Forest<Id>, g: Forest<Id>, p: Id, c: Id, s: Id, common: nat)
    requires Shape(f) && EdgeSplit(f, g, p, c, s, common) && Canonical(f)
    ensures CanonicalBut(g, s) && |g[s].children| == 1
  {
    hide HeapShape, HeapOrdered, ParentOk, ChildrenOk;
    EdgeLabel(f, c, p);
    PutSize(f[p].children, f[c].incoming[0], s);
    forall m | m in g && m != s
      ensures Branches(g, m)
    {
      assert Branches(f, m);
    }
  }

  lemma SplitKeepsBindings<Id>(f: Forest<Id>, g: Forest<Id>, p: Id, c: Id, s: Id, common: nat)
    requires EdgeSplit(f, g, p, c, s, common)
    ensures Terminals(g) == Terminals(f)
  {
  }

  lemma LeafRemovalKeepsCanonical<Id>(f: Forest<Id>, g: Forest<Id>, n: Id, p: Id)
    requires LeafRemoved(f, g, n, p) && CanonicalBut(f, n)
    ensures CanonicalBut(g, p) && Terminals(g) == Terminals(f)
  {
    hide HeapShape, HeapOrdered, ParentOk, ChildrenOk;
    forall m | m in g && m != p
      ensures Branches(g, m)
    {
      assert Branches(f, m);
    }
  }

  lemma MergeKeepsCanonical<Id>(f: Forest<Id>, g: Forest<Id>, n: Id, p: Id, c: Id)
    requires Shape(f) && NodeMerged(f, g, n, p, c) && CanonicalBut(f, n)
    ensures CanonicalBut(g, p) && Terminals(g) == Terminals(f)
  {
    hide HeapShape, HeapOrdered, ParentOk, ChildrenOk;
    EdgeLabel(f, n, p);
    ChildInForest(f, n, c);
    PutSize(f[p].children, f[n].incoming[0], c);
    forall m | m in g && m != p
      ensures Branches(g, m)
    {
      assert Branches(f, m);
    }
  }

  // ---------- Every node leads to a binding ----------

  ghost function Below<Id>(f: Forest<Id>, n: Id): set<Id>
    requires n in f
  {
    set m | m in f && f[n].path < f[m].path
  }

  lemma {:induction false} LeadsToBinding<Id>(f: Forest<Id>, n: Id) returns (t: Id)
    requires Shape(f) && Canonical(f) && n in f
    ensures Binding(f, n, t)
    decreases |Below(f, n)|
  {
    assert Branches(f, n);
    if f[n].terminal {
      t := n;
    } else {
      assert f[n].children.Keys != {};
      var e :| e in f[n].children;
      var c := f[n].children[e];
      assert c in f[n].children.Values;
      ChildInForest(f, n, c);
      ParentAbove(f, c, n);
      assert c in Below(f, n) && c !in Below(f, c);
      assert Below(f, c) < Below(f, n);
      SmallerSet(Below(f, c), Below(f, n));
      t := LeadsToBinding(f, c);
    }
  }

  lemma {:induction false} SmallerSet<T>(a: set<T>, b: set<T>)
    requires a < b
    ensures |a| < |b|
  {
    assert |b| == |a| + |b - a|;
  }

  lemma CachesKeepCanonical<Id>(f: Forest<Id>, g: Forest<Id>, x: Id)
    requires OnlyCaches(f, g)
    ensures CanonicalBut(f, x) ==> CanonicalBut(g, x)
    ensures Canonical(f) ==> Canonical(g)
    ensures Terminals(g) == Terminals(f)
  {
    if CanonicalBut(f, x) {
      forall m | m in g && m != x
        ensures Branches(g, m)
      {
        assert Branches(f, m);
      }
    }
    if Canonical(f) {
      forall m | m in g
        ensures Branches(g, m)
      {
        assert Branches(f, m);
      }
    }
  }

  lemma BindKeepsCanonical<Id>(f: Forest<Id>, g: Forest<Id>, t: Id)
    requires BindingChanged(f, g, t) && g[t].terminal && CanonicalBut(f, t)
    ensures Canonical(g)
    ensures Terminals(g) == Terminals(f)[t := Entry(f[t].path, g[t].credential, g[t].seqNo)]
  {
    forall m | m in g
      ensures Branches(g, m)
    {
      assert m == t || Branches(f, m);
    }
  }

  lemma UnbindKeepsCanonical<Id>(f: Forest<Id>, g: Forest<Id>, x: Id)
    requires BindingChanged(f, g, x) && !g[x].terminal && Canonical(f)
    ensures CanonicalBut(g, x) && Terminals(g) == Terminals(f) - {x}
  {
    assert Terminals(g).Keys == Terminals(f).Keys - {x};
    forall m | m in g && m != x
      ensures Branches(g, m)
    {
      assert Branches(f, m);
    }
  }

  /** Sequence numbers: bound nodes carry distinct positive ones, no higher than `last`. */
  ghost predicate Generations<Id>(f: Forest<Id>, last: nat) {
    && (forall t, u | t in f && u in f && f[t].terminal && f[u].terminal && f[t].seqNo == f[u].seqNo :: t == u)
    && (forall n | n in f :: f[n].seqNo <= last && (f[n].terminal <==> f[n].seqNo > 0))
  }

  lemma GenerationsKept<Id>(f: Forest<Id>, g: Forest<Id>, last: nat)
    requires Generations(f, last)
    requires forall n | n in g ::
               (n in f && g[n].seqNo == f[n].seqNo && g[n].terminal == f[n].terminal)
               || (g[n].seqNo == 0 && !g[n].terminal)
    ensures Generations(g, last)
  {
  }

  lemma NewestGeneration<Id>(f: Forest<Id>, g: Forest<Id>, t: Id, last: nat)
    requires Generations(f, last) && BindingChanged(f, g, t) && g[t].terminal && g[t].seqNo == last + 1
    ensures Generations(g, last + 1) && forall u | u in f :: f[u].seqNo < g[t].seqNo
  {
  }
}
