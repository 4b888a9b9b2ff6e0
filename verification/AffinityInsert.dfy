/** Finding or making the node of a fingerprint: the structural half of `insert`. */
module AffinityInsert {
  import opened Prelude
  import opened RadixForest
  import opened RadixRepair
  import opened RadixEdits
  import opened RadixBindings
  import opened RadixMatch
  import opened AffinityNodes
  import opened AffinityEdits
  import opened AffinityState

  method CommonElementPrefix(left: Path, right: Path) returns (index: nat)
    ensures index == CommonLen(left, right)
  {
    index := 0;
    var limit := if |left| < |right| then |left| else |right|;
    while index < limit
      invariant index <= limit
      invariant left[..index] == right[..index]
    {
      if left[index] != right[index] {
        break;
      }
      index := index + 1;
    }
    CommonLenAtLeast(left, right, index);
    CommonLenShares(left, right);
  }

  /** Hangs a new leaf below `current`. */
  method AddLeaf(current: Node, incoming: Path, depth: nat,
                 ghost ns: set<Node>, ghost heaps: set<CandidateHeap>, ghost buckets: map<Path, Bucket>,
                 ghost last: nat)
    returns (leaf: Node, ghost grown: set<CandidateHeap>)
    requires HeapsWithin(ns, heaps)
    requires ReadyFor(current, ns, buckets, last) && GrowsAt(View(ns), current)
    requires incoming != [] && incoming[0] !in current.children && depth == |current.path| + |incoming|
    modifies current`children, current`candidateHeap, HeapOf(current)
    ensures fresh(leaf) && leaf.candidateHeap == null && leaf.path == current.path + incoming
    ensures ReadyFor(leaf, ns + {leaf}, buckets, last)
    ensures Terminals(View(ns + {leaf})) == old(Terminals(View(ns)))
    ensures fresh(grown) && HeapsWithin(ns + {leaf}, heaps + grown)
  {
    hide Repaired, CanonicalBut, Generations, LeafAdded, Node.Snapshot, GrowsAt, Owned, BucketedFor, HeapsWithin;
    CoveredHeap(current, ns, heaps);
    ghost var f := View(ns);
    leaf := AttachLeaf(current, incoming, depth, ns);
    LeafAddedFacts(f, ns + {leaf}, current, leaf, incoming, last);
    BucketedWithMore(ns, buckets, current, leaf);
    grown := HeapsStillWithin(current, leaf, ns, heaps);
  }

  lemma LeafAddedFacts(f: Forest<Node>, ns: set<Node>, p: Node, n: Node, incoming: Path, last: nat)
    requires Repaired(f) && CanonicalBut(f, p) && GrowsAt(f, p) && Generations(f, last)
    requires LeafAdded(f, View(ns), p, n, incoming) && p in ns && n in ns
    ensures var g := View(ns); Repaired(g) && CanonicalBut(g, n) && Generations(g, last) && Terminals(g) == Terminals(f)
    ensures n.path == p.path + incoming
  {
    hide Repaired, CanonicalBut, Generations, HeapShape, HeapOrdered;
    var g := View(ns);
    LeafAddedRepaired(f, g, p, n, incoming);
    LeafKeepsCanonical(f, g, p, n, incoming);
    GenerationsKept(f, g, last);
  }

  lemma RestOf(fp: Path, pos: nat)
    requires pos < |fp|
    ensures fp == fp[..pos] + fp[pos..] && fp[pos..] != [] && fp[pos..][0] == fp[pos]
  {
  }

  lemma PartOf(fp: Path, pos: nat, common: nat)
    requires pos <= |fp| && common <= |fp[pos..]|
    ensures fp[..pos + common] == fp[..pos] + fp[pos..][..common]
    ensures pos + common < |fp| ==> fp[pos + common] == fp[pos..][common]
  {
  }

  /** The rest of the fingerprint becomes one leaf below `current`. */
  method PlaceLeaf(current: Node, position: nat, fingerprint: Path,
                   ghost ns: set<Node>, ghost heaps: set<CandidateHeap>, ghost buckets: map<Path, Bucket>,
                   ghost last: nat)
    returns (leaf: Node, ghost grown: set<CandidateHeap>)
    requires HeapsWithin(ns, heaps)
    requires current in ns && ReadyFor(current, ns, buckets, last) && GrowsAt(View(ns), current)
    requires position < |fingerprint| && current.path == fingerprint[..position]
    requires fingerprint[position] !in current.children
    modifies current`children, current`candidateHeap, HeapOf(current)
    ensures fresh(leaf) && fresh(grown) && HeapsWithin(ns + {leaf}, heaps + grown)
    ensures leaf.path == fingerprint && ReadyFor(leaf, ns + {leaf}, buckets, last)
    ensures Terminals(View(ns + {leaf})) == old(Terminals(View(ns)))
  {
    hide *;
    RestOf(fingerprint, position);
    leaf, grown := AddLeaf(current, fingerprint[position..], |fingerprint|, ns, heaps, buckets, last);
  }

  lemma SplitFacts(f: Forest<Node>, mid: Forest<Node>, ns: set<Node>, p: Node, c: Node, s: Node, common: nat, last: nat)
    requires Repaired(f) && Canonical(f) && Generations(f, last)
    requires EdgeSplit(f, mid, p, c, s, common) && OnlyCaches(mid, View(ns)) && p in ns && s in ns
    ensures var g := View(ns);
            CanonicalBut(g, s) && Generations(g, last) && Terminals(g) == Terminals(f) && GrowsAt(g, s)
    ensures s.path == p.path + f[c].incoming[..common] && s.children.Keys == {f[c].incoming[common]}
  {
    hide Canonical, CanonicalBut, Generations, HeapShape, HeapOrdered;
    var g := View(ns);
    SplitKeepsCanonical(f, mid, p, c, s, common);
    SplitKeepsBindings(f, mid, p, c, s, common);
    CachesKeepCanonical(mid, g, s);
    GenerationsKept(f, g, last);
  }

  twostate lemma HeapsWithinSplit(new current: Node, new node: Node, ns: set<Node>, new heaps: set<CandidateHeap>)
    requires old(allocated(heaps)) && current in ns && node.candidateHeap == null && old(HeapsWithin(ns, heaps))
    requires forall n | n in ns :: n.candidateHeap == old(n.candidateHeap)
    ensures HeapsWithin(ns + {node}, heaps)
  {
  }

  /** Splits the edge to `child` after `common` elements. */
  method SplitEdge(current: Node, child: Node, common: nat,
                   ghost ns: set<Node>, ghost heaps: set<CandidateHeap>, ghost buckets: map<Path, Bucket>,
                   ghost last: nat)
    returns (split: Node)
    requires HeapsWithin(ns, heaps)
    requires Sound(ns, buckets, last) && current in ns && child in ns && child.parent == current
    requires 0 < common < |child.incoming|
    modifies current`children, current`candidateHeap, HeapOf(current), child`incoming, child`parent
    ensures fresh(split) && split.candidateHeap == null && split.path == current.path + old(child.incoming)[..common]
    ensures split.children.Keys == {old(child.incoming)[common]}
    ensures ReadyFor(split, ns + {split}, buckets, last) && GrowsAt(View(ns + {split}), split)
    ensures Terminals(View(ns + {split})) == old(Terminals(View(ns)))
    ensures HeapsWithin(ns + {split}, heaps)
  {
    hide Repaired, Canonical, CanonicalBut, Generations, EdgeSplit, OnlyCaches, Node.Snapshot, GrowsAt, Owned;
    hide BucketedFor, HeapsWithin;
    ghost var f := View(ns);
    InView(ns, child);
    ghost var mid: Forest<Node>;
    split, mid := SplitChild(current, child, common, ns);
    HeapsWithinSplit(current, split, ns, heaps);
    SplitFacts(f, mid, ns + {split}, current, child, split, common, last);
    BucketedWithMore(ns, buckets, current, split);
  }

  /** The edge to `child` is split where the fingerprint leaves it, or ends. */
  method PlaceInEdge(current: Node, child: Node, common: nat, position: nat, fingerprint: Path,
                     ghost ns: set<Node>, ghost heaps: set<CandidateHeap>, ghost buckets: map<Path, Bucket>,
                     ghost last: nat)
    returns (node: Node, ghost added: set<Node>, ghost grown: set<CandidateHeap>)
    requires HeapsWithin(ns, heaps)
    requires Sound(ns, buckets, last) && current in ns && child in ns && child.parent == current && child != current
    requires position < |fingerprint| && current.path == fingerprint[..position]
    requires 0 < common < |child.incoming| && common == CommonLen(child.incoming, fingerprint[position..])
    modifies current`children, current`candidateHeap, HeapOf(current), child`incoming, child`parent
    ensures fresh(added) && fresh(grown) && HeapsWithin(ns + added, heaps + grown)
    ensures node in ns + added && node.path == fingerprint && ReadyFor(node, ns + added, buckets, last)
    ensures Terminals(View(ns + added)) == old(Terminals(View(ns)))
  {
    hide *;
    PartOf(fingerprint, position, common);
    var split: Node;
    split := SplitEdge(current, child, common, ns, heaps, buckets, last);
    if position + common == |fingerprint| {
      UnionNone(heaps);
      return split, {split}, {};
    }
    NoHeapOf(split);
    var leaf: Node;
    leaf, grown := PlaceLeaf(split, position + common, fingerprint, ns + {split}, heaps, buckets, last);
    UnionAssoc(ns, {split}, {leaf});
    return leaf, {split} + {leaf}, grown;
  }

  /** The child that continues with the next element. */
  lemma ChildStep(f: Forest<Node>, n: Node, fp: Path, pos: nat)
    requires Repaired(f) && n in f && pos < |fp| && f[n].path == fp[..pos] && fp[pos] in f[n].children
    ensures var c := f[n].children[fp[pos]];
            && c in f && f[c].parent == Some(n) && f[c].incoming != [] && f[c].incoming[0] == fp[pos]
            && f[c].path == fp[..pos] + f[c].incoming
            && CommonLen(f[c].incoming, fp[pos..]) >= 1
            && (CommonLen(f[c].incoming, fp[pos..]) == |f[c].incoming| ==> f[c].path == fp[..pos + |f[c].incoming|])
  {
    assert ChildrenOk(f, n);
    var c := f[n].children[fp[pos]];
    EdgeLabel(f, c, n);
    CommonLenAtLeast(f[c].incoming, fp[pos..], 1);
    if CommonLen(f[c].incoming, fp[pos..]) == |f[c].incoming| {
      assert fp[..pos + |f[c].incoming|] == fp[..pos] + fp[pos..][..|f[c].incoming|];
    }
  }

  lemma ChildStepAt(ns: set<Node>, n: Node, fp: Path, pos: nat)
    requires Repaired(View(ns)) && n in ns && pos < |fp| && n.path == fp[..pos] && fp[pos] in n.children
    ensures var c := n.children[fp[pos]];
            && c in ns && c.parent == n && c.incoming != [] && c.incoming[0] == fp[pos]
            && c.path == fp[..pos] + c.incoming
            && CommonLen(c.incoming, fp[pos..]) >= 1
            && (CommonLen(c.incoming, fp[pos..]) == |c.incoming| ==> c.path == fp[..pos + |c.incoming|])
  {
    ChildStep(View(ns), n, fp, pos);
  }

  /** Following a whole edge keeps the trie ready at the next node. */
  lemma ChildReady(n: Node, fp: Path, pos: nat, ns: set<Node>, buckets: map<Path, Bucket>, last: nat)
    requires ReadyFor(n, ns, buckets, last) && GrowsAt(View(ns), n)
    requires n in ns && pos < |fp| && n.path == fp[..pos] && fp[pos] in n.children
    requires n.parent == null || Branches(View(ns), n)
    ensures Sound(ns, buckets, last)
    ensures var c := n.children[fp[pos]];
            && c in ns && c != n && c.parent == n && ReadyFor(c, ns, buckets, last) && GrowsAt(View(ns), c)
            && Branches(View(ns), c)
            && CommonLen(c.incoming, fp[pos..]) >= 1
            && (CommonLen(c.incoming, fp[pos..]) == |c.incoming| ==> c.path == fp[..pos + |c.incoming|])
  {
    ChildStepAt(ns, n, fp, pos);
    var f := View(ns);
    assert Branches(f, n) by {
      assert f[n].children.Keys != {};
    }
    assert Canonical(f);
    assert Branches(f, n.children[fp[pos]]);
  }

  lemma StartsReady(root: Node, ns: set<Node>, buckets: map<Path, Bucket>, last: nat)
    requires ReadyFor(root, ns, buckets, last) && IsRoot(View(ns), root)
    ensures root in ns && root.parent == null && GrowsAt(View(ns), root)
  {
  }

  /** Compares the next edge with the rest of the fingerprint. */
  method Advance(current: Node, fingerprint: Path, position: nat,
                 ghost ns: set<Node>, ghost buckets: map<Path, Bucket>, ghost last: nat)
    returns (child: Node, common: nat)
    requires ReadyFor(current, ns, buckets, last) && GrowsAt(View(ns), current)
    requires current in ns && position < |fingerprint| && current.path == fingerprint[..position]
    requires fingerprint[position] in current.children
    requires current.parent == null || Branches(View(ns), current)
    ensures View(ns) == old(View(ns)) && Sound(ns, buckets, last)
    ensures child == current.children[fingerprint[position]] && child in ns && child != current
            && child.parent == current
    ensures ReadyFor(child, ns, buckets, last) && GrowsAt(View(ns), child) && Branches(View(ns), child)
    ensures 1 <= common <= |child.incoming| && common == CommonLen(child.incoming, fingerprint[position..])
    ensures common == |child.incoming| ==> child.path == fingerprint[..position + common]
  {
    hide Repaired, Canonical, CanonicalBut, Generations, Branches, BucketedFor, GrowsAt, Node.Snapshot, CommonLen;
    child := current.children[fingerprint[position]];
    common := CommonElementPrefix(child.incoming, fingerprint[position..]);
    assert View(ns) == old(View(ns));
    ChildReady(current, fingerprint, position, ns, buckets, last);
  }

  /** Finds the node of `fingerprint`, or makes it: as a leaf, by splitting an edge, or both. */
  method Place(bucket: Bucket, fingerprint: Path, ghost ns: set<Node>, ghost heaps: set<CandidateHeap>,
               ghost buckets: map<Path, Bucket>, ghost last: nat)
    returns (node: Node, ghost added: set<Node>, ghost grown: set<CandidateHeap>)
    requires bucket.root != null && ReadyFor(bucket.root, ns, buckets, last) && HeapsWithin(ns, heaps)
    requires IsRoot(View(ns), bucket.root)
    requires MIN_ELEMENTS <= |fingerprint| && bucket.root.path == fingerprint[..MIN_ELEMENTS]
    modifies ns`children, ns`candidateHeap, ns`incoming, ns`parent, heaps
    ensures fresh(added) && fresh(grown) && HeapsWithin(ns + added, heaps + grown)
    ensures node in ns + added && node.path == fingerprint && ReadyFor(node, ns + added, buckets, last)
    ensures Terminals(View(ns + added)) == old(Terminals(View(ns)))
  {
    hide *;
    ghost var f := View(ns);
    var current := bucket.root;
    var position: nat := MIN_ELEMENTS;
    StartsReady(current, ns, buckets, last);
    while position < |fingerprint|
      invariant View(ns) == f && HeapsWithin(ns, heaps)
      invariant MIN_ELEMENTS <= position <= |fingerprint|
      invariant current in ns && current.path == fingerprint[..position]
      invariant ReadyFor(current, ns, buckets, last) && GrowsAt(View(ns), current)
      invariant current.parent == null || Branches(View(ns), current)
    {
      CoveredHeap(current, ns, heaps);
      var next := fingerprint[position];
      if next !in current.children {
        node, grown := PlaceLeaf(current, position, fingerprint, ns, heaps, buckets, last);
        return node, {node}, grown;
      }
      var child, common := Advance(current, fingerprint, position, ns, buckets, last);
      if common < |child.incoming| {
        node, added, grown := PlaceInEdge(current, child, common, position, fingerprint, ns, heaps, buckets, last);
        return;
      }
      position := position + common;
      current := child;
    }
    UnionNone(ns);
    UnionNone(heaps);
    return current, {}, {};
  }
}
