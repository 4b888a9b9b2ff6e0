/** A value snapshot of the nodes of one content-affinity trie, and the facts about it.

    The trie keeps one root per fixed prefix of `MIN_ELEMENTS` elements, so a snapshot is a
    forest. `Id` is the node identity. `path` is the full fingerprint a node stands for; it never
    changes during a node's life, only the way it is split into edges does. */
module RadixForest {
  import opened Prelude
  import opened CandidateOrder

  const MIN_ELEMENTS: nat := 4
  const HEAP_THRESHOLD: nat := 10

  /** An 8-byte digest of one request element. */
  newtype Element = x: int | 0 <= x < 0x1_0000_0000_0000_0000

  type Path = seq<Element>

  datatype Heap<Id> = Heap(nodes: seq<Id>, positions: map<Id, nat>)

  datatype Cell<Id> = Cell(
    path: Path,
    parent: Option<Id>,
    incoming: Path,
    children: map<Element, Id>,
    terminal: bool,
    credential: string,
    seqNo: nat,
    nearest: Option<Id>,
    heap: Option<Heap<Id>>,
    depth: nat)

  type Forest<Id> = map<Id, Cell<Id>>

  // ---------- Shape ----------

  ghost predicate ParentOk<Id>(f: Forest<Id>, n: Id)
    requires n in f
  {
    var c := f[n];
    && c.depth == |c.path| >= MIN_ELEMENTS
    && (c.parent.None? <==> |c.path| == MIN_ELEMENTS)
    && (c.parent.Some? ==>
          var p := c.parent.value;
          && p in f
          && c.incoming != []
          && c.path == f[p].path + c.incoming
          && c.incoming[0] in f[p].children
          && f[p].children[c.incoming[0]] == n)
  }

  ghost predicate ChildrenOk<Id>(f: Forest<Id>, n: Id)
    requires n in f
  {
    forall e | e in f[n].children ::
      var c := f[n].children[e];
      && c in f
      && f[c].parent == Some(n)
      && f[c].incoming != []
      && f[c].incoming[0] == e
  }

  ghost predicate IsRoot<Id>(f: Forest<Id>, r: Id) {
    r in f && f[r].parent.None?
  }

  ghost predicate RootsDistinct<Id>(f: Forest<Id>) {
    forall r, s | r in f && s in f && IsRoot(f, r) && IsRoot(f, s) && f[r].path == f[s].path :: r == s
  }

  /** Every edge is non-empty, keyed by its first element and labelled with the elements between
      the two paths; depths are path lengths; parents and children agree. */
  ghost predicate Shape<Id>(f: Forest<Id>) {
    && (forall n {:trigger ParentOk(f, n)} {:trigger ChildrenOk(f, n)} | n in f :: ParentOk(f, n) && ChildrenOk(f, n))
    && RootsDistinct(f)
  }

  /** `m` lies in the subtree of `n` (`n` included). */
  ghost predicate Under<Id>(f: Forest<Id>, n: Id, m: Id) {
    n in f && m in f && f[n].path <= f[m].path
  }

  /** `n` lies on the way from its root to `p`. */
  ghost predicate OnPath<Id>(f: Forest<Id>, n: Id, p: Path) {
    n in f && f[n].path <= p
  }

  lemma PrefixesCompare(a: Path, b: Path, c: Path)
    requires a <= c && b <= c && |a| <= |b|
    ensures a <= b
    ensures |a| == |b| ==> a == b
    ensures |a| < |b| ==> b[|a|] == c[|a|]
  {
  }

  lemma ParentAbove<Id>(f: Forest<Id>, n: Id, p: Id)
    requires Shape(f) && n in f && f[n].parent == Some(p)
    ensures Under(f, p, n) && |f[p].path| < |f[n].path|
    ensures f[n].path[|f[p].path|] in f[p].children && f[p].children[f[n].path[|f[p].path|]] == n
  {
    assert ParentOk(f, n);
  }

  /** No two nodes stand for the same path. */
  lemma {:induction false} SamePathSameNode<Id>(f: Forest<Id>, a: Id, b: Id)
    requires Shape(f) && a in f && b in f && f[a].path == f[b].path
    ensures a == b
    decreases |f[b].path|, 0
  {
    assert ParentOk(f, a) && ParentOk(f, b);
    if f[a].parent.Some? {
      var p, q := f[a].parent.value, f[b].parent.value;
      ParentAbove(f, a, p);
      ParentAbove(f, b, q);
      if |f[p].path| <= |f[q].path| {
        PrefixesCompare(f[p].path, f[q].path, f[b].path);
        SameChild(f, p, q, a, b);
      } else {
        PrefixesCompare(f[q].path, f[p].path, f[b].path);
        SameChild(f, q, p, b, a);
      }
    } else {
      assert IsRoot(f, a) && IsRoot(f, b);
    }
  }

  lemma {:induction false} SameChild<Id>(f: Forest<Id>, p: Id, q: Id, a: Id, b: Id)
    requires Shape(f) && a in f && b in f && f[a].path == f[b].path
    requires f[a].parent == Some(p) && f[b].parent == Some(q)
    requires Under(f, p, q) && |f[q].path| < |f[b].path|
    ensures a == b
    decreases |f[q].path|, 2
  {
    ParentAbove(f, a, p);
    ParentAbove(f, b, q);
    if |f[p].path| == |f[q].path| {
      PrefixesCompare(f[p].path, f[q].path, f[b].path);
      SamePathSameNode(f, p, q);
    } else {
      PrefixesCompare(f[p].path, f[q].path, f[b].path);
      var c := StepTowards(f, p, q);
      assert false;
    }
  }

  /** A node strictly above another has a child on the way to it. */
  lemma {:induction false} StepTowards<Id>(f: Forest<Id>, a: Id, b: Id) returns (c: Id)
    requires Shape(f) && Under(f, a, b) && |f[a].path| < |f[b].path|
    ensures f[b].path[|f[a].path|] in f[a].children
    ensures c == f[a].children[f[b].path[|f[a].path|]]
    ensures c in f && f[c].parent == Some(a) && Under(f, c, b) && |f[a].path| < |f[c].path|
    decreases |f[b].path|, 1
  {
    assert ParentOk(f, a) && ParentOk(f, b);
    var p := f[b].parent.value;
    ParentAbove(f, b, p);
    if |f[p].path| <= |f[a].path| {
      PrefixesCompare(f[p].path, f[a].path, f[b].path);
      if |f[p].path| < |f[a].path| {
        var d := StepTowards(f, p, a);
        assert false;
      } else {
        SamePathSameNode(f, p, a);
      }
      c := b;
    } else {
      PrefixesCompare(f[a].path, f[p].path, f[b].path);
      c := StepTowards(f, a, p);
    }
  }

  /** Only `n` itself lies between `n` and its parent. */
  lemma NothingBetween<Id>(f: Forest<Id>, n: Id, m: Id)
    requires Shape(f) && Under(f, m, n)
    requires f[n].parent.Some? ==> f[n].parent.value in f && !(f[m].path <= f[f[n].parent.value].path)
    ensures m == n
  {
    assert ParentOk(f, n) && ParentOk(f, m);
    if f[n].parent.Some? {
      var p := f[n].parent.value;
      ParentAbove(f, n, p);
      PrefixesCompare(f[p].path, f[m].path, f[n].path);
      var c := StepTowards(f, p, m);
      assert f[n].path <= f[m].path;
    }
    assert f[m].path == f[n].path;
    SamePathSameNode(f, m, n);
  }

  /** Two children of one node that lie on the way to the same path are the same child. */
  lemma OneChildOnPath<Id>(f: Forest<Id>, p: Id, c: Id, d: Id, q: Path)
    requires Shape(f) && p in f && OnPath(f, c, q) && OnPath(f, d, q)
    requires f[c].parent == Some(p) && f[d].parent == Some(p)
    ensures c == d
  {
    ParentAbove(f, c, p);
    ParentAbove(f, d, p);
  }

  lemma ChildInForest<Id>(f: Forest<Id>, p: Id, c: Id)
    requires Shape(f) && p in f && c in f[p].children.Values
    ensures c in f && f[c].parent == Some(p)
  {
    assert ChildrenOk(f, p);
  }

  ghost predicate SameLinks<Id>(f: Forest<Id>, g: Forest<Id>) {
    && f.Keys == g.Keys
    && forall n | n in f ::
         && g[n].path == f[n].path && g[n].parent == f[n].parent && g[n].incoming == f[n].incoming
         && g[n].children == f[n].children && g[n].depth == f[n].depth
  }

  lemma SameLinksKeepShape<Id>(f: Forest<Id>, g: Forest<Id>)
    requires Shape(f) && SameLinks(f, g)
    ensures Shape(g)
  {
    forall n | n in g
      ensures ParentOk(g, n) && ChildrenOk(g, n)
    {
      assert ParentOk(f, n) && ChildrenOk(f, n);
    }
    RootsKept(f, g);
  }

  lemma RootsKept<Id>(f: Forest<Id>, g: Forest<Id>)
    requires RootsDistinct(f)
    requires forall n {:trigger IsRoot(g, n)} | n in g && IsRoot(g, n) :: IsRoot(f, n) && f[n].path == g[n].path
    ensures RootsDistinct(g)
  {
  }

  // ---------- Cached nearest bindings ----------

  ghost function BindingRank<Id>(f: Forest<Id>, t: Id): Rank {
    if t in f then Ranked(f[t].depth, f[t].seqNo) else Unranked
  }

  ghost function CandidateRank<Id>(f: Forest<Id>, n: Id): Rank {
    if n in f && f[n].nearest.Some? then BindingRank(f, f[n].nearest.value) else Unranked
  }

  ghost predicate Binding<Id>(f: Forest<Id>, n: Id, t: Id) {
    Under(f, n, t) && f[t].terminal
  }

  /** The cached binding is one of the subtree's, and no binding of the subtree beats it. */
  ghost predicate NearestOk<Id>(f: Forest<Id>, n: Id) {
    && n in f
    && (f[n].nearest.Some? ==> Binding(f, n, f[n].nearest.value))
    && (forall t {:trigger Binding(f, n, t)} | t in f && Binding(f, n, t) ::
          f[n].nearest.Some? && !Better(BindingRank(f, t), CandidateRank(f, n)))
  }

  /** As `NearestOk`, but the binding `x` has not been taken into account yet. */
  ghost predicate NearestBut<Id>(f: Forest<Id>, n: Id, x: Id) {
    && n in f
    && (f[n].nearest.Some? ==> Binding(f, n, f[n].nearest.value))
    && (forall t {:trigger Binding(f, n, t)} | t in f && Binding(f, n, t) && t != x ::
          f[n].nearest.Some? && !Better(BindingRank(f, t), CandidateRank(f, n)))
  }

  /** The cache may still name the expired binding `x`, which stood at depth `depth`. */
  ghost predicate NearestStale<Id>(f: Forest<Id>, n: Id, x: Id, depth: nat) {
    && n in f
    && (f[n].nearest.Some? && f[n].nearest.value != x ==> Binding(f, n, f[n].nearest.value))
    && (forall t {:trigger Binding(f, n, t)} | t in f && Binding(f, n, t) ::
          && f[n].nearest.Some?
          && (if f[n].nearest.value == x then f[t].depth >= depth
              else !Better(BindingRank(f, t), CandidateRank(f, n))))
  }

  // ---------- Candidate heaps ----------

  ghost predicate Indexed<Id>(h: Heap<Id>) {
    && (forall i | 0 <= i < |h.nodes| :: h.nodes[i] in h.positions && h.positions[h.nodes[i]] == i)
    && (forall n | n in h.positions :: h.positions[n] < |h.nodes| && h.nodes[h.positions[n]] == n)
  }

  lemma SwapKeepsIndex<Id>(h: Heap<Id>, i: nat, j: nat)
    requires Indexed(h) && i < |h.nodes| && j < |h.nodes|
    ensures Indexed(Heap(Swapped(h.nodes, i, j), h.positions[h.nodes[j] := i][h.nodes[i] := j]))
    ensures h.nodes[i] in h.positions && h.nodes[j] in h.positions
  {
  }

  lemma ReplaceKeepsIndex<Id>(h: Heap<Id>, previous: Id, n: Id)
    requires Indexed(h) && previous in h.positions && n !in h.positions
    ensures var i := h.positions[previous];
            && i < |h.nodes|
            && Indexed(Heap(h.nodes[i := n], (h.positions - {previous})[n := i]))
  {
  }

  /** A node indexes its candidates exactly when it has more than `HEAP_THRESHOLD` children; the
      index holds exactly the children, and `positions` is its inverse. */
  ghost predicate HeapShape<Id>(f: Forest<Id>, n: Id) {
    && n in f
    && (f[n].heap.Some? <==> |f[n].children| > HEAP_THRESHOLD)
    && (f[n].heap.Some? ==>
          Indexed(f[n].heap.value) && f[n].heap.value.positions.Keys == f[n].children.Values)
  }

  ghost function Ranks<Id>(f: Forest<Id>, ns: seq<Id>): (ks: seq<Rank>)
    ensures |ks| == |ns| && forall i | 0 <= i < |ns| :: ks[i] == CandidateRank(f, ns[i])
  {
    seq(|ns|, i requires 0 <= i < |ns| => CandidateRank(f, ns[i]))
  }

  ghost predicate HeapOrdered<Id>(f: Forest<Id>, n: Id) {
    n in f && (f[n].heap.Some? ==> Ordered(Ranks(f, f[n].heap.value.nodes), |f[n].heap.value.nodes|))
  }

  ghost predicate HeapExcept<Id>(f: Forest<Id>, n: Id, c: Id) {
    && n in f
    && (f[n].heap.Some? && c in f[n].heap.value.positions ==>
          OrderedExcept(Ranks(f, f[n].heap.value.nodes), |f[n].heap.value.nodes|, f[n].heap.value.positions[c]))
  }

  /** Heap order, except around an entry whose cached binding is `x`. */
  ghost predicate HeapBut<Id>(f: Forest<Id>, n: Id, x: Id) {
    && n in f
    && (f[n].heap.Some? ==>
          var h := f[n].heap.value;
          if exists c :: c in h.positions && c in f && f[c].nearest == Some(x)
          then forall c | c in h.positions && c in f && f[c].nearest == Some(x) :: HeapExcept(f, n, c)
          else HeapOrdered(f, n))
  }
}
