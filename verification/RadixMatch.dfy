/** Looking a fingerprint up: the walk down the trie against a naive scan of the bound map. */
module RadixMatch {
  import opened Prelude
  import opened CandidateOrder
  import opened RadixForest
  import opened RadixRepair
  import opened RadixExpire
  import opened RadixEdits
  import opened RadixBindings

  /** Length of the longest common prefix. */
  function CommonLen(a: Path, b: Path): (k: nat)
    ensures k <= |a| && k <= |b| && a[..k] == b[..k]
    ensures k < |a| && k < |b| ==> a[k] != b[k]
  {
    if a == [] || b == [] || a[0] != b[0] then 0
    else
      var k := CommonLen(a[1..], b[1..]);
      assert a[..k + 1] == [a[0]] + a[1..][..k] && b[..k + 1] == [b[0]] + b[1..][..k];
      k + 1
  }

  lemma CommonLenAtLeast(a: Path, b: Path, k: nat)
    requires k <= |a| && k <= |b| && a[..k] == b[..k]
    ensures CommonLen(a, b) >= k
  {
  }

  lemma CommonLenShares(a: Path, b: Path)
    ensures forall i | 0 <= i < CommonLen(a, b) :: a[i] == b[i]
  {
  }

  /** What a scan over all bound sequences would pick for `fp`: `w` shares `d` elements with it,
      nothing shares more, and among those that share `d` nothing is shorter, or equally short
      and newer. */
  ghost predicate BestMatch(bound: map<Path, Entry>, fp: Path, d: nat, w: Path) {
    && w in bound && CommonLen(w, fp) == d
    && (forall q | q in bound :: CommonLen(q, fp) <= d)
    && (forall q | q in bound && q != w && CommonLen(q, fp) == d ::
          |w| < |q| || (|w| == |q| && bound[w].generation > bound[q].generation))
  }

  lemma BestMatchUnique(bound: map<Path, Entry>, fp: Path, d: nat, w: Path, d': nat, w': Path)
    requires BestMatch(bound, fp, d, w) && BestMatch(bound, fp, d', w')
    ensures d == d' && w == w'
  {
  }

  /** The walk has found the subtree of everything that shares `d` elements with `fp`, and nothing
      shares more. */
  ghost predicate Frontier<Id>(f: Forest<Id>, n: Id, fp: Path, d: nat) {
    && n in f && d <= |fp| && fp[..d] <= f[n].path
    && (forall t | t in f && f[t].terminal && fp[..d] <= f[t].path :: Binding(f, n, t))
    && (forall t | t in f && f[t].terminal :: CommonLen(f[t].path, fp) <= d)
  }

  lemma SharedIsUnder(p: Path, fp: Path, d: nat)
    requires d <= |fp| && CommonLen(p, fp) > d
    ensures fp[..d] <= p && |p| > d && p[d] == fp[d]
  {
  }

  /** No child continues with the next element. */
  lemma FrontierAtNode<Id>(f: Forest<Id>, n: Id, fp: Path, d: nat)
    requires Shape(f) && n in f && d <= |fp| && f[n].path == fp[..d]
    requires d < |fp| ==> fp[d] !in f[n].children
    ensures Frontier(f, n, fp, d)
  {
    forall t | t in f && f[t].terminal
      ensures CommonLen(f[t].path, fp) <= d
    {
      if CommonLen(f[t].path, fp) > d {
        SharedIsUnder(f[t].path, fp, d);
        var c := StepTowards(f, n, t);
      }
    }
  }

  lemma EdgeStops(edge: Path, p: Path, fp: Path, d: nat)
    requires edge <= p && d < |edge| && (d < |fp| ==> edge[d] != fp[d])
    ensures CommonLen(p, fp) <= d
  {
  }

  /** The edge to `c` is left after `common` elements. */
  lemma FrontierInEdge<Id>(f: Forest<Id>, n: Id, c: Id, fp: Path, pos: nat)
    requires Shape(f) && n in f && pos < |fp| && f[n].path == fp[..pos]
    requires fp[pos] in f[n].children && c == f[n].children[fp[pos]] && c in f
    requires CommonLen(f[c].incoming, fp[pos..]) < |f[c].incoming|
    ensures Frontier(f, c, fp, pos + CommonLen(f[c].incoming, fp[pos..]))
  {
    assert c in f[n].children.Values;
    ChildInForest(f, n, c);
    EdgeLabel(f, c, n);
    assert f[c].incoming[0] == fp[pos] by { assert ChildrenOk(f, n); }
    CommonLenAtLeast(f[c].incoming, fp[pos..], 1);
    var common := CommonLen(f[c].incoming, fp[pos..]);
    var d := pos + common;
    assert fp[..d] == fp[..pos] + fp[pos..][..common];
    assert fp[..d] <= f[c].path;
    assert f[c].path[d] == f[c].incoming[common] && (d < |fp| ==> fp[d] == fp[pos..][common]);
    forall t | t in f && f[t].terminal && fp[..d] <= f[t].path
      ensures Binding(f, c, t)
    {
      assert f[t].path[pos] == fp[..d][pos];
      var s := StepTowards(f, n, t);
    }
    forall t | t in f && f[t].terminal
      ensures CommonLen(f[t].path, fp) <= d
    {
      if CommonLen(f[t].path, fp) > d {
        SharedIsUnder(f[t].path, fp, d);
        EdgeStops(f[c].path, f[t].path, fp, d);
      }
    }
  }

  /** The cached binding at the frontier is what the naive scan picks. */
  lemma FrontierIsBestMatch<Id>(f: Forest<Id>, last: nat, n: Id, fp: Path, d: nat) returns (t: Id)
    requires Repaired(f) && Canonical(f) && Generations(f, last) && Frontier(f, n, fp, d)
    ensures f[n].nearest == Some(t) && t in f && f[t].terminal
    ensures BestMatch(Bound(f), fp, d, f[t].path)
    ensures Bound(f)[f[t].path] == Terminals(f)[t]
  {
    hide ParentOk, ChildrenOk, HeapOrdered, HeapShape, Bound, Holds, Generations;
    var u := LeadsToBinding(f, n);
    assert NearestOk(f, n);
    t := f[n].nearest.value;
    assert Binding(f, n, t);
    BoundAt(f, t);
    var w := f[t].path;
    CommonLenAtLeast(w, fp, d);
    forall q | q in Bound(f)
      ensures CommonLen(q, fp) <= d
      ensures q != w && CommonLen(q, fp) == d ==>
                |w| < |q| || (|w| == |q| && Bound(f)[w].generation > Bound(f)[q].generation)
    {
      var m := BoundBy(f, q);
      if q != w && CommonLen(q, fp) == d {
        RivalLoses(f, last, n, fp, d, t, m);
      }
    }
  }

  lemma RivalLoses<Id>(f: Forest<Id>, last: nat, n: Id, fp: Path, d: nat, t: Id, m: Id)
    requires Shape(f) && NearestOk(f, n) && Generations(f, last) && Frontier(f, n, fp, d)
    requires f[n].nearest == Some(t) && t in f && f[t].terminal
    requires m in f && f[m].terminal && m != t && CommonLen(f[m].path, fp) == d
    ensures |f[t].path| < |f[m].path| || (|f[t].path| == |f[m].path| && f[t].seqNo > f[m].seqNo)
  {
    assert f[m].path[..d] == fp[..d];
    assert Binding(f, n, m);
    DepthIsPathLength(f, m);
    DepthIsPathLength(f, t);
    assert !Better(BindingRank(f, m), CandidateRank(f, n));
  }
}
