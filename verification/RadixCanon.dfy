/** The shape of a trie is determined by the set of bound fingerprints alone. */
module RadixCanon {
  import opened Prelude
  import opened RadixForest
  import opened RadixRepair
  import opened RadixEdits
  import opened RadixBindings

  /** `a` and `b` leave `p` by different elements. */
  ghost predicate ForkAt(p: Path, a: Path, b: Path) {
    p < a && p < b && a[|p|] != b[|p|]
  }

  /** The paths at which a trie for `keys` must have a node: the keys, the fixed prefixes in use,
      and the points where two keys part. */
  ghost predicate NeedsNode(keys: set<Path>, p: Path) {
    || p in keys
    || (|p| == MIN_ELEMENTS && exists k :: k in keys && p <= k)
    || (|p| > MIN_ELEMENTS && exists a, b :: a in keys && b in keys && ForkAt(p, a, b))
  }

  ghost predicate NodeAt<Id>(f: Forest<Id>, n: Id, p: Path) {
    n in f && f[n].path == p
  }

  lemma NodeIsNeeded<Id>(f: Forest<Id>, n: Id)
    requires Shape(f) && Canonical(f) && n in f
    ensures NeedsNode(BoundPaths(f), f[n].path)
  {
    hide ChildrenOk;
    assert ParentOk(f, n) && Branches(f, n);
    if !f[n].terminal {
      if f[n].parent.None? {
        var t := LeadsToBinding(f, n);
        assert f[t].path in BoundPaths(f);
      } else {
        var d, e := TwoKeys(f[n].children);
        var a := BindingBeyond(f, n, d);
        var b := BindingBeyond(f, n, e);
        assert a in BoundPaths(f) && b in BoundPaths(f) && ForkAt(f[n].path, a, b);
      }
    }
  }

  lemma TwoKeys<K, V>(m: map<K, V>) returns (d: K, e: K)
    requires |m| >= 2
    ensures d in m && e in m && d != e
  {
    d :| d in m;
    assert |m.Keys - {d}| == |m| - 1;
    e :| e in m.Keys - {d};
  }

  lemma BindingBeyond<Id>(f: Forest<Id>, n: Id, e: Element) returns (k: Path)
    requires Shape(f) && Canonical(f) && n in f && e in f[n].children
    ensures k in BoundPaths(f) && f[n].path < k && k[|f[n].path|] == e
  {
    var c := f[n].children[e];
    assert ChildrenOk(f, n);
    ParentAbove(f, c, n);
    EdgeLabel(f, c, n);
    var t := LeadsToBinding(f, c);
    k := f[t].path;
    assert k[|f[n].path|] == f[c].path[|f[n].path|];
  }

  /** The deepest node on the way to a bound path, not beyond `p`. */
  lemma {:induction false} LastNodeBefore<Id>(f: Forest<Id>, n: Id, p: Path) returns (m: Id)
    requires Shape(f) && n in f && MIN_ELEMENTS <= |p| && p <= f[n].path
    ensures m in f && f[m].path <= p
    ensures f[m].path == p || (exists c :: c in f && f[c].parent == Some(m) && p < f[c].path && Under(f, c, n))
    decreases |f[n].path|
  {
    assert ParentOk(f, n);
    if f[n].path == p {
      m := n;
    } else {
      var q := f[n].parent.value;
      ParentAbove(f, n, q);
      if |f[q].path| <= |p| {
        m := q;
        PrefixesCompare(f[q].path, p, f[n].path);
      } else {
        PrefixesCompare(p, f[q].path, f[n].path);
        m := LastNodeBefore(f, q, p);
      }
    }
  }

  lemma NeededHasNode<Id>(f: Forest<Id>, p: Path) returns (m: Id)
    requires Shape(f) && NeedsNode(BoundPaths(f), p)
    ensures NodeAt(f, m, p)
  {
    if p in BoundPaths(f) {
      m :| m in f && f[m].terminal && f[m].path == p;
    } else if |p| == MIN_ELEMENTS {
      var k :| k in BoundPaths(f) && p <= k;
      var t :| t in f && f[t].terminal && f[t].path == k;
      m := LastNodeBefore(f, t, p);
      assert ParentOk(f, m);
    } else {
      var a, b :| a in BoundPaths(f) && b in BoundPaths(f) && ForkAt(p, a, b);
      var t :| t in f && f[t].terminal && f[t].path == a;
      var u :| u in f && f[u].terminal && f[u].path == b;
      m := LastNodeBefore(f, t, p);
      if f[m].path != p {
        var c :| c in f && f[c].parent == Some(m) && p < f[c].path && Under(f, c, t);
        EdgeIsShared(f, m, c, u, p);
      }
    }
  }

  /** An edge that passes `p` on the way to one path is shared by every path beyond `p`. */
  lemma EdgeIsShared<Id>(f: Forest<Id>, m: Id, c: Id, u: Id, p: Path)
    requires Shape(f) && m in f && c in f && u in f && f[m].path < p && f[c].parent == Some(m) && p < f[c].path
    requires p < f[u].path
    ensures f[c].path <= f[u].path
  {
    ParentAbove(f, c, m);
    assert f[m].path < f[u].path;
    var d := StepTowards(f, m, u);
    assert f[u].path[|f[m].path|] == p[|f[m].path|] == f[c].path[|f[m].path|];
  }

  /** The nodes are exactly where the bound set needs them. */
  lemma NodesFromBindings<Id>(f: Forest<Id>, p: Path)
    requires Shape(f) && Canonical(f)
    ensures (exists n :: n in f && NodeAt(f, n, p)) <==> NeedsNode(BoundPaths(f), p)
  {
    if n :| n in f && NodeAt(f, n, p) {
      NodeIsNeeded(f, n);
    }
    if NeedsNode(BoundPaths(f), p) {
      var m := NeededHasNode(f, p);
    }
  }

  /** Nodes for the same path look the same: same edge, same place, same branching. */
  ghost predicate SameNode<Id>(f: Forest<Id>, n: Id, g: Forest<Id>, m: Id)
    requires n in f && m in g
  {
    && f[n].path == g[m].path && f[n].depth == g[m].depth && f[n].terminal == g[m].terminal
    && f[n].parent.Some? == g[m].parent.Some?
    && ParentPath(f, n) == ParentPath(g, m)
    && (f[n].parent.Some? ==> f[n].incoming == g[m].incoming)
    && f[n].children.Keys == g[m].children.Keys
    && f[n].heap.Some? == g[m].heap.Some?
  }

  lemma ParentNotLonger<Id>(f: Forest<Id>, n: Id, g: Forest<Id>, m: Id)
    requires Shape(f) && Canonical(f) && Shape(g) && Canonical(g) && BoundPaths(f) == BoundPaths(g)
    requires n in f && m in g && f[n].path == g[m].path && g[m].parent.Some?
    ensures f[n].parent.Some? && g[m].parent.value in g && f[n].parent.value in f
    ensures |g[g[m].parent.value].path| <= |f[f[n].parent.value].path|
  {
    assert ParentOk(f, n) && ParentOk(g, m);
    var p, q := f[n].parent.value, g[m].parent.value;
    ParentAbove(f, n, p);
    ParentAbove(g, m, q);
    NodeIsNeeded(g, q);
    var r := NeededHasNode(f, g[q].path);
    if |f[p].path| < |f[r].path| {
      NothingBetween(f, n, r);
    }
  }

  lemma ChildKeysFollow<Id>(f: Forest<Id>, n: Id, g: Forest<Id>, m: Id, e: Element)
    requires Shape(f) && Canonical(f) && Shape(g) && BoundPaths(f) == BoundPaths(g)
    requires n in f && m in g && f[n].path == g[m].path && e in f[n].children
    ensures e in g[m].children
  {
    var k := BindingBeyond(f, n, e);
    var t :| t in g && g[t].terminal && g[t].path == k;
    var c := StepTowards(g, m, t);
  }

  /** Two tries with the same bound fingerprints have the same shape. */
  lemma ShapeDetermined<Id>(f: Forest<Id>, n: Id, g: Forest<Id>) returns (m: Id)
    requires Repaired(f) && Canonical(f) && Repaired(g) && Canonical(g) && BoundPaths(f) == BoundPaths(g)
    requires n in f
    ensures m in g && SameNode(f, n, g, m)
  {
    hide ParentOk, ChildrenOk, NearestOk, HeapOrdered, Branches;
    NodeIsNeeded(f, n);
    m := NeededHasNode(g, f[n].path);
    SameParents(f, n, g, m);
    forall e | e in f[n].children || e in g[m].children
      ensures e in f[n].children && e in g[m].children
    {
      if e in f[n].children {
        ChildKeysFollow(f, n, g, m, e);
      } else {
        ChildKeysFollow(g, m, f, n, e);
      }
    }
    assert f[n].children.Keys == g[m].children.Keys;
    assert |f[n].children| == |g[m].children|;
    assert HeapShape(f, n) && HeapShape(g, m);
    SameBoundness(f, n, g, m);
    SameBoundness(g, m, f, n);
  }

  lemma SameBoundness<Id>(f: Forest<Id>, n: Id, g: Forest<Id>, m: Id)
    requires Shape(g) && n in f && m in g && f[n].path == g[m].path && BoundPaths(f) == BoundPaths(g)
    ensures f[n].terminal ==> g[m].terminal
  {
    if f[n].terminal {
      assert f[n].path in BoundPaths(g);
      var t :| t in g && g[t].terminal && g[t].path == f[n].path;
      SamePathSameNode(g, t, m);
    }
  }

  lemma SameParents<Id>(f: Forest<Id>, n: Id, g: Forest<Id>, m: Id)
    requires Shape(f) && Canonical(f) && Shape(g) && Canonical(g) && BoundPaths(f) == BoundPaths(g)
    requires n in f && m in g && f[n].path == g[m].path
    ensures f[n].depth == g[m].depth && f[n].parent.Some? == g[m].parent.Some? && ParentPath(f, n) == ParentPath(g, m)
    ensures f[n].parent.Some? ==> f[n].incoming == g[m].incoming
  {
    assert ParentOk(f, n) && ParentOk(g, m);
    if f[n].parent.Some? {
      ParentNotLonger(f, n, g, m);
      ParentNotLonger(g, m, f, n);
      var p, q := f[n].parent.value, g[m].parent.value;
      ParentAbove(f, n, p);
      ParentAbove(g, m, q);
      PrefixesCompare(f[p].path, g[q].path, f[n].path);
      assert f[n].incoming == f[n].path[|f[p].path|..];
      assert g[m].incoming == g[m].path[|g[q].path|..];
    }
  }

  ghost predicate Mirrored<Id>(f: Forest<Id>, n: Id, g: Forest<Id>) {
    n in f && exists m :: m in g && SameNode(f, n, g, m)
  }

  lemma PathsAreKeys<Id>(f: Forest<Id>)
    requires Shape(f)
    ensures BoundPaths(f) == Bound(f).Keys
  {
  }

  /** Binding a key that was not bound and expiring it again leaves a trie of the earlier shape: each
      trie has a node like every node of the other. */
  lemma FreshKeyLeavesNoTrace<Id>(f: Forest<Id>, h: Forest<Id>, fp: Path, e: Entry)
    requires Repaired(f) && Canonical(f) && Repaired(h) && Canonical(h)
    requires fp !in Bound(f) && Bound(h) == Bound(f)[fp := e] - {fp}
    ensures Bound(h) == Bound(f)
    ensures forall n {:trigger Mirrored(f, n, h)} | n in f :: Mirrored(f, n, h)
    ensures forall n {:trigger Mirrored(h, n, f)} | n in h :: Mirrored(h, n, f)
  {
    hide *;
    RepairedHasShape(f);
    RepairedHasShape(h);
    PathsAreKeys(f);
    PathsAreKeys(h);
    assert Bound(h) == Bound(f);
    forall n | n in f
      ensures Mirrored(f, n, h)
    {
      HasMirror(f, n, h);
    }
    forall n | n in h
      ensures Mirrored(h, n, f)
    {
      HasMirror(h, n, f);
    }
  }

  lemma HasMirror<Id>(f: Forest<Id>, n: Id, g: Forest<Id>)
    requires Repaired(f) && Canonical(f) && Repaired(g) && Canonical(g) && BoundPaths(f) == BoundPaths(g) && n in f
    ensures Mirrored(f, n, g)
  {
    hide Repaired, Canonical, BoundPaths, SameNode;
    var m := ShapeDetermined(f, n, g);
  }

  lemma RepairedHasShape<Id>(f: Forest<Id>)
    requires Repaired(f)
    ensures Shape(f)
  {
  }
}
