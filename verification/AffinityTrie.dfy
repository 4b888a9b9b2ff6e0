/** The content-affinity trie of one model: binding, expiring and looking up fingerprints. */
module AffinityTrie {
  import opened Prelude
  import opened RadixForest
  import opened RadixRepair
  import opened RadixBind
  import opened RadixExpire
  import opened RadixEdits
  import opened RadixBindings
  import opened RadixMatch
  import opened RadixCanon
  import opened AffinityNodes
  import opened AffinityCaches
  import opened AffinityEdits
  import opened AffinityState
  import opened AffinityInsert
  import opened AffinityPrune

  class Trie {
    ghost var nodes: set<Node>
    ghost var retired: set<Node>
    ghost var heaps: set<CandidateHeap>
    var buckets: map<Path, Bucket>
    var bindSequence: nat

    /** `nodes` are the linked nodes and `heaps` covers their candidate heaps. `retired` are the nodes
        that pruning unlinked; deletion events may still name them. */
    ghost predicate Valid()
      reads this, nodes, HeapsOf(nodes), buckets.Values, retired
    {
      && Sound(nodes, buckets, bindSequence) && HeapsWithin(nodes, heaps)
      && retired !! nodes && (forall n | n in retired :: !n.terminal)
    }

    /** What the trie binds. */
    ghost function Meaning(): map<Path, Entry>
      reads this, nodes, HeapsOf(nodes)
    {
      Bound(View(nodes))
    }

    /** The bound nodes. */
    ghost function Endpoints(): map<Node, Entry>
      reads this, nodes, HeapsOf(nodes)
    {
      Terminals(View(nodes))
    }

    constructor ()
      ensures Valid() && Meaning() == map[] && Endpoints() == map[] && Empty()
    {
      nodes, retired, heaps := {}, {}, {};
      buckets := map[];
      bindSequence := 0;
      new;
      EmptyIsValid();
    }

    ghost predicate Empty()
      reads this
    {
      nodes == retired == {} && heaps == {} && buckets == map[] && bindSequence == 0
    }

    lemma EmptyIsValid()
      requires Empty()
      ensures Valid() && Meaning() == map[] && Endpoints() == map[]
    {
      hide Sound, Bound;
      NoNodes(nodes, buckets);
      assert HeapsWithin(nodes, heaps);
    }

    method MarkTerminal(node: Node, credential: string)
      modifies this`bindSequence, node`terminal, node`credential, node`boundSequence
      ensures bindSequence == old(bindSequence) + 1
      ensures node.terminal && node.credential == credential && node.boundSequence == bindSequence
    {
      bindSequence := bindSequence + 1;
      node.terminal := true;
      node.credential := credential;
      node.boundSequence := bindSequence;
    }

    /** `markTerminal` on a trie that is ready for it. */
    method MarkNode(t: Node, credential: string, ghost ns: set<Node>)
      requires ReadyFor(t, ns, buckets, bindSequence)
      modifies this`bindSequence, t`terminal, t`credential, t`boundSequence
      ensures Owned(ns) && BucketedFor(ns, buckets) && bindSequence == old(bindSequence) + 1
      ensures PropagatingFrom(View(ns), t.path, t)
      ensures Canonical(View(ns)) && Generations(View(ns), bindSequence)
      ensures Terminals(View(ns)) == old(Terminals(View(ns)))[t := Entry(t.path, credential, bindSequence)]
    {
      hide Repaired, PropagatingFrom, CanonicalBut, Canonical, Generations, BucketedFor, BindingChanged, Node.Snapshot;
      ghost var f := View(ns);
      MarkTerminal(t, credential);
      MarkedView(t, ns);
      Marked(f, t, ns, bindSequence);
    }

    /** `markTerminal`, then `propagateTerminal`. */
    method BindNode(t: Node, credential: string, ghost ns: set<Node>, ghost heaps: set<CandidateHeap>)
      requires ReadyFor(t, ns, buckets, bindSequence) && HeapsWithin(ns, heaps)
      modifies this`bindSequence, t`terminal, t`credential, t`boundSequence, ns`nearestTerminal, heaps
      ensures Sound(ns, buckets, bindSequence) && HeapsWithin(ns, heaps) && bindSequence == old(bindSequence) + 1
      ensures Terminals(View(ns)) == old(Terminals(View(ns)))[t := Entry(t.path, credential, bindSequence)]
    {
      hide *;
      ReadyNode(t, ns, buckets, bindSequence);
      MarkNode(t, credential, ns);
      ghost var g := View(ns);
      PropagateKept(t, ns, heaps, buckets);
      CachesKeepMeaning(g, View(ns), t, bindSequence);
      IsSound(ns, buckets, bindSequence);
    }

    lemma Parts()
      requires Valid()
      ensures Sound(nodes, buckets, bindSequence) && HeapsWithin(nodes, heaps) && Repaired(View(nodes))
      ensures retired !! nodes && forall n | n in retired :: !n.terminal
      ensures Meaning() == Bound(View(nodes)) && Endpoints() == Terminals(View(nodes))
      ensures forall n | n in nodes ::
                n in View(nodes) && View(nodes)[n].path == n.path && View(nodes)[n].terminal == n.terminal
    {
    }

    lemma EndpointFields(n: Node)
      requires Valid() && n in nodes + retired
      ensures n in Endpoints() <==> n.terminal
      ensures n.terminal ==> n in nodes && Endpoints()[n] == Entry(n.path, n.credential, n.boundSequence)
    {
    }

    lemma EndpointsLinked()
      ensures Endpoints().Keys <= nodes
    {
    }

    /** Takes over the new sets of nodes and heaps. */
    ghost method Commit(ns: set<Node>, rs: set<Node>, hs: set<CandidateHeap>)
      requires Sound(ns, buckets, bindSequence) && HeapsWithin(ns, hs)
      requires rs !! ns && forall n | n in rs :: !n.terminal
      modifies this`nodes, this`retired, this`heaps
      ensures nodes == ns && retired == rs && heaps == hs && Valid()
      ensures View(ns) == old(View(ns))
    {
      hide Sound, HeapsWithin, View;
      nodes, retired, heaps := ns, rs, hs;
      assert HeapsOf(ns) == old(HeapsOf(ns));
      assert View(ns) == old(View(ns));
    }

    /** The bucket of a fixed prefix, new when there is none yet. */
    method BucketFor(prefix: Path) returns (bucket: Bucket, ghost ns: set<Node>)
      requires Sound(nodes, buckets, bindSequence) && HeapsWithin(nodes, heaps) && |prefix| == MIN_ELEMENTS
      modifies this`buckets
      ensures nodes <= ns && fresh(ns - nodes) && HeapsWithin(ns, heaps)
      ensures bucket.root != null && bucket.root.path == prefix && IsRoot(View(ns), bucket.root)
      ensures ReadyFor(bucket.root, ns, buckets, bindSequence)
      ensures Terminals(View(ns)) == old(Terminals(View(nodes)))
    {
      hide *;
      if prefix in buckets {
        bucket, ns := buckets[prefix], nodes;
        KnownRoot(bucket, prefix, nodes, buckets, bindSequence);
      } else {
        ghost var bs: map<Path, Bucket>;
        bucket, ns, bs := MakeBucket(prefix, nodes, buckets, bindSequence, heaps);
        label Made:
        buckets := buckets[prefix := bucket];
        assert HeapsOf(ns) == old@Made(HeapsOf(ns));
        assert View(ns) == old@Made(View(ns));
      }
    }

    /** Binds `fingerprint` below the root of its bucket. */
    method Insert(bucket: Bucket, fingerprint: Path, credential: string, ghost ns: set<Node>,
                  ghost hs: set<CandidateHeap>)
      returns (node: Node, ghost added: set<Node>, ghost grown: set<CandidateHeap>)
      requires bucket.root != null && ReadyFor(bucket.root, ns, buckets, bindSequence) && HeapsWithin(ns, hs)
      requires IsRoot(View(ns), bucket.root)
      requires MIN_ELEMENTS <= |fingerprint| && bucket.root.path == fingerprint[..MIN_ELEMENTS]
      modifies this`bindSequence, ns, hs
      ensures Sound(ns + added, buckets, bindSequence) && HeapsWithin(ns + added, hs + grown)
      ensures bindSequence == old(bindSequence) + 1 && fresh(added) && fresh(grown)
      ensures node in ns + added && node.path == fingerprint
      ensures Terminals(View(ns + added)) == old(Terminals(View(ns)))[node := Entry(fingerprint, credential,
                                                                                    bindSequence)]
    {
      hide *;
      node, added, grown := Place(bucket, fingerprint, ns, hs, buckets, bindSequence);
      BindNode(node, credential, ns + added, hs + grown);
    }

    method BindNew(fingerprint: Path, credential: string)
      returns (node: Node, ghost ns: set<Node>, ghost grown: set<CandidateHeap>)
      requires Sound(nodes, buckets, bindSequence) && HeapsWithin(nodes, heaps) && MIN_ELEMENTS <= |fingerprint|
      modifies this`buckets, this`bindSequence, nodes, heaps
      ensures nodes <= ns && fresh(ns - nodes) && fresh(grown)
      ensures Sound(ns, buckets, bindSequence) && HeapsWithin(ns, heaps + grown)
              && bindSequence == old(bindSequence) + 1
      ensures node in ns && node.path == fingerprint
      ensures Terminals(View(ns)) == old(Terminals(View(nodes)))[node := Entry(fingerprint, credential, bindSequence)]
    {
      hide *;
      var bucket;
      ghost var added;
      bucket, ns := BucketFor(fingerprint[..MIN_ELEMENTS]);
      node, added, grown := Insert(bucket, fingerprint, credential, ns, heaps);
      ns := ns + added;
    }

    /** The structural part of `bind`: makes `fingerprint` the newest binding. */
    method Bind(fingerprint: Path, credential: string) returns (node: Node, generation: nat)
      requires Valid() && MIN_ELEMENTS <= |fingerprint|
      modifies this, nodes, heaps
      ensures Valid() && old(nodes) <= nodes && retired == old(retired)
      ensures fresh(nodes - old(nodes)) && fresh(heaps - old(heaps))
      ensures node in nodes && node.path == fingerprint && generation == bindSequence == old(bindSequence) + 1
      ensures Endpoints() == old(Endpoints())[node := Entry(fingerprint, credential, generation)]
      ensures Meaning() == old(Meaning())[fingerprint := Entry(fingerprint, credential, generation)]
    {
      hide *;
      Parts();
      ghost var f := View(nodes);
      ghost var ns, grown;
      node, ns, grown := BindNew(fingerprint, credential);
      generation := bindSequence;
      SoundParts(ns, buckets, bindSequence, node);
      MeaningAfterBind(f, View(ns), node, Entry(fingerprint, credential, generation));
      Commit(ns, retired, heaps + grown);
      Parts();
    }

    method ClearTerminal(node: Node, ghost ns: set<Node>)
      requires Sound(ns, buckets, bindSequence) && node in ns && node.terminal
      modifies node`terminal, node`credential, node`boundSequence
      ensures Pruning(node, ns, buckets, bindSequence, node.path, node) && !node.terminal
      ensures Terminals(View(ns)) == old(Terminals(View(ns))) - {node}
    {
      hide Repaired, PruningAt, CanonicalBut, Canonical, Generations, BucketedFor, BindingChanged, Node.Snapshot;
      ghost var f := View(ns);
      InView(ns, node);
      node.terminal := false;
      node.credential := "";
      node.boundSequence := 0;
      MarkedView(node, ns);
      Cleared(f, node, ns, bindSequence);
    }

    /** Forgets the binding at `node`, prunes its path and repairs what named it. */
    method ExpireNodes(node: Node) returns (ghost stop: Node, ghost left: set<Node>)
      requires Sound(nodes, buckets, bindSequence) && HeapsWithin(nodes, heaps) && node in nodes && node.terminal
      modifies nodes, heaps
      ensures left <= nodes && stop.bucket == node.bucket && HeapsWithin(left, heaps)
      ensures forall n | n in nodes - left :: !n.terminal
      ensures Settled(stop, left, buckets, bindSequence)
      ensures Terminals(View(left)) == old(Terminals(View(nodes))) - {node}
    {
      hide *;
      ClearTerminal(node, nodes);
      var recomputeFrom;
      recomputeFrom, stop, left := PruneEmptyPath(node, nodes, heaps, buckets, bindSequence);
      RepairAbove(recomputeFrom, stop, left, heaps, buckets, bindSequence, node.path, node);
    }

    method DropEmptyBucket(bucket: Bucket, ghost stop: Node, ghost left: set<Node>) returns (ghost left': set<Node>)
      requires Settled(stop, left, buckets, bindSequence) && stop.bucket == bucket && HeapsWithin(left, heaps)
      modifies this`buckets
      ensures left' <= left && HeapsWithin(left', heaps) && forall n | n in left - left' :: !n.terminal
      ensures Sound(left', buckets, bindSequence)
      ensures Terminals(View(left')) == old(Terminals(View(left)))
    {
      hide *;
      RootStays(stop, left, buckets, bindSequence);
      if bucket.prefix in buckets && buckets[bucket.prefix] == bucket && !bucket.root.terminal
        && |bucket.root.children| == 0 {
        WithoutRoot(stop, left, buckets, bindSequence);
        left' := left - {stop};
        FewerHeaps(left', left, heaps);
        RemoveBucket(bucket.prefix, left');
      } else {
        left' := left;
      }
    }

    method RemoveBucket(prefix: Path, ghost ns: set<Node>)
      requires Sound(ns, buckets - {prefix}, bindSequence) && HeapsWithin(ns, heaps)
      modifies this`buckets
      ensures buckets == old(buckets) - {prefix} && Sound(ns, buckets, bindSequence) && HeapsWithin(ns, heaps)
      ensures View(ns) == old(View(ns))
    {
      hide *;
      buckets := buckets - {prefix};
      assert HeapsOf(ns) == old(HeapsOf(ns));
      assert View(ns) == old(View(ns));
    }

    /** `expireTerminal`: removes exactly the binding at `node`. */
    method ExpireTerminal(node: Node)
      requires Valid() && node in nodes && node.terminal
      modifies this, nodes, heaps
      ensures Valid() && nodes <= old(nodes) && retired == old(retired) + (old(nodes) - nodes)
      ensures heaps == old(heaps) && bindSequence == old(bindSequence)
      ensures Endpoints() == old(Endpoints()) - {node}
      ensures Meaning() == old(Meaning()) - {node.path}
    {
      hide *;
      Parts();
      ghost var f, was := View(nodes), nodes;
      var bucket := node.bucket;
      ghost var stop, left;
      stop, left := ExpireNodes(node);
      left := DropEmptyBucket(bucket, stop, left);
      MeaningAfterExpire(f, left, node, buckets, bindSequence);
      Commit(left, retired + (was - left), heaps);
      Parts();
    }

    /** Binding a fingerprint that was not bound and expiring it at once restores the bindings and the
        shape: every node has a counterpart with the same place, edge and branching, both ways. */
    method BindThenExpire(fingerprint: Path, credential: string)
      requires Valid() && MIN_ELEMENTS <= |fingerprint| && fingerprint !in Meaning()
      modifies this, nodes, heaps
      ensures Valid() && Meaning() == old(Meaning())
      ensures forall n {:trigger Mirrored(old(View(nodes)), n, View(nodes))} | n in old(nodes) ::
                Mirrored(old(View(nodes)), n, View(nodes))
      ensures forall n {:trigger Mirrored(View(nodes), n, old(View(nodes)))} | n in nodes ::
                Mirrored(View(nodes), n, old(View(nodes)))
    {
      hide *;
      Parts();
      SoundForest(nodes, buckets, bindSequence);
      ghost var f := View(nodes);
      var node, generation := Bind(fingerprint, credential);
      EndpointFields(node);
      ExpireTerminal(node);
      Parts();
      SoundForest(nodes, buckets, bindSequence);
      FreshKeyLeavesNoTrace(f, View(nodes), fingerprint, Entry(fingerprint, credential, generation));
    }

    /** Walks down while whole edges match. */
    method Lookup(bucket: Bucket, fingerprint: Path) returns (matchedDepth: nat, nearest: Node?)
      requires Valid() && MIN_ELEMENTS <= |fingerprint|
      requires bucket.prefix == fingerprint[..MIN_ELEMENTS] && bucket.prefix in buckets
               && buckets[bucket.prefix] == bucket
      ensures Valid() && View(nodes) == old(View(nodes))
      ensures nearest != null && nearest in nodes && nearest.terminal
      ensures BestMatch(Bound(View(nodes)), fingerprint, matchedDepth, nearest.path)
      ensures Bound(View(nodes))[nearest.path] == Entry(nearest.path, nearest.credential, nearest.boundSequence)
    {
      hide BucketedFor, Repaired, Canonical, Generations, Bound, BestMatch, Node.Snapshot;
      ghost var f := View(nodes);
      matchedDepth := MIN_ELEMENTS;
      var current := RootOf(bucket, fingerprint);
      assert View(nodes) == f;
      var position: nat := MIN_ELEMENTS;
      while position < |fingerprint|
        invariant View(nodes) == f
        invariant MIN_ELEMENTS <= position <= |fingerprint| && matchedDepth == position
        invariant current in nodes && current.path == fingerprint[..position]
      {
        if fingerprint[position] !in current.children {
          FoundAtNode(nodes, bindSequence, current, fingerprint, position);
          return matchedDepth, current.nearestTerminal;
        }
        var child := current.children[fingerprint[position]];
        ChildStepAt(nodes, current, fingerprint, position);
        var common := CommonElementPrefix(child.incoming, fingerprint[position..]);
        assert View(nodes) == f;
        if common < |child.incoming| {
          FoundInEdge(nodes, bindSequence, current, child, fingerprint, position);
          return position + common, child.nearestTerminal;
        }
        position := position + common;
        matchedDepth := position;
        current := child;
      }
      FoundAtNode(nodes, bindSequence, current, fingerprint, position);
      nearest := current.nearestTerminal;
    }

    lemma EndpointsApart()
      requires Valid()
      ensures forall n, m | n in Endpoints() && m in Endpoints() && Endpoints()[n].path == Endpoints()[m].path :: n == m
    {
      hide HeapsWithin, Canonical, Generations, BucketedFor, Owned, HeapOrdered, NearestOk, HeapShape;
      forall n, m | n in Endpoints() && m in Endpoints() && Endpoints()[n].path == Endpoints()[m].path
        ensures n == m
      {
        SamePathSameNode(View(nodes), n, m);
      }
    }

    /** The lookup of `match`, with the bucket of the fingerprint when there is one. */
    method Find(fingerprint: Path) returns (matchedDepth: nat, nearest: Node?)
      requires Valid() && MIN_ELEMENTS <= |fingerprint|
      ensures Valid() && Meaning() == old(Meaning())
      ensures nearest == null ==> forall p | p in Meaning() :: CommonLen(p, fingerprint) < MIN_ELEMENTS
      ensures nearest != null ==>
                && nearest in nodes && nearest.terminal
                && BestMatch(Meaning(), fingerprint, matchedDepth, nearest.path)
                && Meaning()[nearest.path] == Entry(nearest.path, nearest.credential, nearest.boundSequence)
    {
      hide Sound, Bound, View, BestMatch, HeapsWithin, CommonLen;
      var prefix := fingerprint[..MIN_ELEMENTS];
      if prefix !in buckets {
        NoBucketNoMatch(fingerprint, nodes, buckets, bindSequence);
        return 0, null;
      }
      BucketPrefix(prefix, nodes, buckets, bindSequence);
      matchedDepth, nearest := Lookup(buckets[prefix], fingerprint);
    }

    method RootOf(bucket: Bucket, ghost fingerprint: Path) returns (root: Node)
      requires Valid() && MIN_ELEMENTS <= |fingerprint|
      requires bucket.prefix == fingerprint[..MIN_ELEMENTS] && bucket.prefix in buckets
               && buckets[bucket.prefix] == bucket
      ensures root == bucket.root && root in nodes && root.path == fingerprint[..MIN_ELEMENTS] && root.bucket == bucket
    {
      root := bucket.root;
    }
  }

  /** The binding cached at `n` is the naive scan's answer. */
  ghost predicate Answers(ns: set<Node>, n: Node, fp: Path, d: nat)
    reads ns, HeapsOf(ns), n, n.nearestTerminal
  {
    var t := n.nearestTerminal;
    && t != null && t in ns && t.terminal
    && BestMatch(Bound(View(ns)), fp, d, t.path)
    && Bound(View(ns))[t.path] == Entry(t.path, t.credential, t.boundSequence)
  }

  lemma FoundAtNode(ns: set<Node>, last: nat, n: Node, fp: Path, d: nat)
    requires Repaired(View(ns)) && Canonical(View(ns)) && Generations(View(ns), last) && n in ns
    requires d <= |fp| && n.path == fp[..d] && (d < |fp| ==> fp[d] !in n.children)
    ensures Answers(ns, n, fp, d)
  {
    hide NearestOk, HeapOrdered, HeapShape, ParentOk, ChildrenOk, Bound, BestMatch, Canonical;
    FrontierAtNode(View(ns), n, fp, d);
    var t := FrontierIsBestMatch(View(ns), last, n, fp, d);
  }

  lemma FoundInEdge(ns: set<Node>, last: nat, n: Node, c: Node, fp: Path, pos: nat)
    requires Repaired(View(ns)) && Canonical(View(ns)) && Generations(View(ns), last) && n in ns && c in ns
    requires pos < |fp| && n.path == fp[..pos] && fp[pos] in n.children && c == n.children[fp[pos]]
    requires CommonLen(c.incoming, fp[pos..]) < |c.incoming|
    ensures Answers(ns, c, fp, pos + CommonLen(c.incoming, fp[pos..]))
  {
    hide NearestOk, HeapOrdered, HeapShape, ParentOk, ChildrenOk, Bound, BestMatch, Canonical, Frontier, CommonLen;
    FrontierInEdge(View(ns), n, c, fp, pos);
    assert Frontier(View(ns), c, fp, pos + CommonLen(c.incoming, fp[pos..]));
    var t := FrontierIsBestMatch(View(ns), last, c, fp, pos + CommonLen(c.incoming, fp[pos..]));
  }

  lemma CachesKeepMeaning(f: Forest<Node>, g: Forest<Node>, t: Node, last: nat)
    requires OnlyCaches(f, g) && Generations(f, last) && Canonical(f)
    ensures Generations(g, last) && Canonical(g) && Terminals(g) == Terminals(f)
  {
    CachesKeepCanonical(f, g, t);
    GenerationsKept(f, g, last);
  }

  twostate lemma MarkedView(new t: Node, ns: set<Node>)
    requires t in ns && unchanged(t`parent, t`incoming, t`children, t`nearestTerminal, t`candidateHeap)
    requires forall n | n in ns && n != t :: unchanged(n)
    requires forall n | n in ns && n.candidateHeap != null :: unchanged(n.candidateHeap)
    ensures BindingChanged(old(View(ns)), View(ns), t)
  {
  }

  lemma Marked(f: Forest<Node>, t: Node, ns: set<Node>, last: nat)
    requires Repaired(f) && CanonicalBut(f, t) && last > 0 && Generations(f, last - 1)
    requires t in ns && BindingChanged(f, View(ns), t) && t.terminal && t.boundSequence == last
    ensures PropagatingFrom(View(ns), t.path, t) && Canonical(View(ns)) && Generations(View(ns), last)
    ensures Terminals(View(ns)) == Terminals(f)[t := Entry(t.path, t.credential, last)]
  {
    hide Repaired, PropagatingFrom, CanonicalBut, Canonical, Generations;
    NewestGeneration(f, View(ns), t, last - 1);
    MarkStartsPropagation(f, View(ns), t);
    BindKeepsCanonical(f, View(ns), t);
  }

  lemma KnownRoot(bucket: Bucket, prefix: Path, ns: set<Node>, buckets: map<Path, Bucket>, last: nat)
    requires Sound(ns, buckets, last) && prefix in buckets && bucket == buckets[prefix]
    ensures bucket.root != null && bucket.root.path == prefix && IsRoot(View(ns), bucket.root)
    ensures ReadyFor(bucket.root, ns, buckets, last)
  {
    var root := bucket.root;
    assert ParentOk(View(ns), root);
    CanonicalIsBut(View(ns), root);
  }

  lemma CanonicalIsBut<Id>(f: Forest<Id>, n: Id)
    requires Canonical(f)
    ensures CanonicalBut(f, n)
  {
  }

  lemma NoNodes(ns: set<Node>, buckets: map<Path, Bucket>)
    requires ns == {} && buckets == map[]
    ensures Sound(ns, buckets, 0) && Bound(View(ns)) == map[] && Terminals(View(ns)) == map[]
  {
    var f := View(ns);
    assert f == map[];
    assert Shape(f) && Repaired(f) && Canonical(f) && Generations(f, 0);
    assert BoundPaths(f) == {};
    assert Bound(f) == map[];
    assert Terminals(f) == map[];
  }

  lemma BucketPrefix(prefix: Path, ns: set<Node>, buckets: map<Path, Bucket>, last: nat)
    requires Sound(ns, buckets, last) && prefix in buckets
    ensures buckets[prefix].prefix == prefix
  {
  }

  lemma LongShare(p: Path, fp: Path)
    requires CommonLen(p, fp) >= MIN_ELEMENTS
    ensures |p| >= MIN_ELEMENTS && |fp| >= MIN_ELEMENTS && p[..MIN_ELEMENTS] == fp[..MIN_ELEMENTS]
  {
  }

  lemma PrefixHasBucket(n: Node, ns: set<Node>, buckets: map<Path, Bucket>)
    requires BucketedFor(ns, buckets) && n in ns
    ensures |n.path| >= MIN_ELEMENTS && n.path[..MIN_ELEMENTS] in buckets
  {
    assert n.bucket.prefix == n.path[..MIN_ELEMENTS];
  }

  lemma ShareHasBucket(p: Path, fp: Path, ns: set<Node>, buckets: map<Path, Bucket>, last: nat)
    requires Sound(ns, buckets, last) && p in Bound(View(ns)) && CommonLen(p, fp) >= MIN_ELEMENTS
    ensures |fp| >= MIN_ELEMENTS && fp[..MIN_ELEMENTS] in buckets
  {
    hide Bound, HeapOrdered, NearestOk, HeapShape, Canonical, Generations, Owned, CommonLen, BucketedFor;
    var n := BoundBy(View(ns), p);
    PrefixHasBucket(n, ns, buckets);
    LongShare(p, fp);
  }

  /** Without a bucket for the fixed prefix nothing bound shares it. */
  lemma NoBucketNoMatch(fp: Path, ns: set<Node>, buckets: map<Path, Bucket>, last: nat)
    requires Sound(ns, buckets, last) && MIN_ELEMENTS <= |fp| && fp[..MIN_ELEMENTS] !in buckets
    ensures forall p | p in Bound(View(ns)) :: CommonLen(p, fp) < MIN_ELEMENTS
  {
    hide Bound, CommonLen, Sound, View;
    forall p | p in Bound(View(ns))
      ensures CommonLen(p, fp) < MIN_ELEMENTS
    {
      if CommonLen(p, fp) >= MIN_ELEMENTS {
        ShareHasBucket(p, fp, ns, buckets, last);
      }
    }
  }

  method PropagateKept(t: Node, ghost ns: set<Node>, ghost heaps: set<CandidateHeap>, ghost buckets: map<Path, Bucket>)
    requires Owned(ns) && t in ns && PropagatingFrom(View(ns), t.path, t) && HeapsWithin(ns, heaps)
             && BucketedFor(ns, buckets)
    modifies ns`nearestTerminal, heaps
    ensures Owned(ns) && Repaired(View(ns)) && OnlyCaches(old(View(ns)), View(ns))
    ensures HeapsWithin(ns, heaps) && BucketedFor(ns, buckets)
  {
    hide *;
    CoveredHeaps(ns, heaps);
    PropagateTerminal(t, ns);
  }

  lemma ReadyNode(t: Node, ns: set<Node>, buckets: map<Path, Bucket>, last: nat)
    requires ReadyFor(t, ns, buckets, last)
    ensures t in ns
  {
  }

  lemma IsSound(ns: set<Node>, buckets: map<Path, Bucket>, last: nat)
    requires Owned(ns) && Repaired(View(ns)) && Canonical(View(ns)) && Generations(View(ns), last)
             && BucketedFor(ns, buckets)
    ensures Sound(ns, buckets, last)
  {
  }

  lemma SoundForest(ns: set<Node>, buckets: map<Path, Bucket>, last: nat)
    requires Sound(ns, buckets, last)
    ensures Repaired(View(ns)) && Canonical(View(ns)) && View(ns).Keys == ns
  {
  }

  lemma FewerHeaps(ns: set<Node>, more: set<Node>, heaps: set<CandidateHeap>)
    requires ns <= more && HeapsWithin(more, heaps)
    ensures HeapsWithin(ns, heaps)
  {
  }

  lemma Cleared(f: Forest<Node>, t: Node, ns: set<Node>, last: nat)
    requires Repaired(f) && Canonical(f) && Generations(f, last) && t in f && f[t].terminal
    requires t in ns && BindingChanged(f, View(ns), t) && !t.terminal && t.boundSequence == 0
    ensures PruningAt(View(ns), t.path, t.path, t) && CanonicalBut(View(ns), t) && Generations(View(ns), last)
    ensures Terminals(View(ns)) == Terminals(f) - {t}
  {
    hide Repaired, PruningAt, CanonicalBut, Canonical, Generations;
    UnbindStartsPruning(f, View(ns), t);
    UnbindKeepsCanonical(f, View(ns), t);
    GenerationsKept(f, View(ns), last);
  }

  lemma MeaningAfterExpire(f: Forest<Node>, ns: set<Node>, x: Node, buckets: map<Path, Bucket>, last: nat)
    requires Sound(ns, buckets, last) && Repaired(f) && x in f && f[x].terminal && f[x].path == x.path
    requires Terminals(View(ns)) == Terminals(f) - {x}
    ensures Bound(View(ns)) == Bound(f) - {x.path}
  {
    hide Bound, HeapOrdered, NearestOk, HeapShape, Canonical, Generations, BucketedFor, Owned;
    BoundAfterExpire(f, View(ns), x);
  }

  lemma MeaningAfterBind(f: Forest<Node>, g: Forest<Node>, t: Node, e: Entry)
    requires Repaired(f) && Repaired(g) && t in g && g[t].path == e.path && (t in f ==> f[t].path == e.path)
    requires Terminals(g) == Terminals(f)[t := e]
    ensures Bound(g) == Bound(f)[e.path := e]
  {
    hide Bound, HeapOrdered, NearestOk, HeapShape;
    if t !in f {
      forall n | n in f && f[n].terminal
        ensures f[n].path != e.path
      {
        assert n in Terminals(g);
        if f[n].path == e.path {
          SamePathSameNode(g, n, t);
        }
      }
    }
    BoundAfterBind(f, g, t, e);
  }

  lemma SoundParts(ns: set<Node>, buckets: map<Path, Bucket>, last: nat, n: Node)
    requires Sound(ns, buckets, last) && n in ns
    ensures Repaired(View(ns)) && n in View(ns) && View(ns)[n].path == n.path
  {
  }

  /** A new bucket adds an empty root, which is about to be bound or to get a child. */
  lemma NewRoot(bucket: Bucket, prefix: Path, ns: set<Node>, buckets: map<Path, Bucket>, last: nat,
                heaps: set<CandidateHeap>)
    requires Sound(ns, buckets, last) && HeapsWithin(ns, heaps) && prefix !in buckets && |prefix| == MIN_ELEMENTS
    requires bucket.root != null && bucket.root !in ns && bucket.root.bucket == bucket && bucket.prefix == prefix
    requires bucket.root.path == prefix && bucket.root.candidateHeap == null
    requires bucket.root.Snapshot() == FreshCell<Node>(prefix, None, [])
    ensures var ns' := ns + {bucket.root}; var bs := buckets[prefix := bucket];
            && IsRoot(View(ns'), bucket.root) && ReadyFor(bucket.root, ns', bs, last) && HeapsWithin(ns', heaps)
            && Terminals(View(ns')) == Terminals(View(ns))
  {
    hide Repaired, Canonical, CanonicalBut, Generations, BucketedFor, Owned, HeapsWithin, Node.Snapshot;
    var root := bucket.root;
    forall s | s in ns && IsRoot(View(ns), s)
      ensures s.path != prefix
    {
      RootPrefix(ns, buckets, s);
    }
    RootJoins(root, prefix, ns, last);
    OwnedWithMore(ns, root);
    BucketJoins(bucket, prefix, ns, buckets, heaps);
  }

  method MakeBucket(prefix: Path, ghost ns: set<Node>, ghost buckets: map<Path, Bucket>, ghost last: nat,
                    ghost heaps: set<CandidateHeap>)
    returns (bucket: Bucket, ghost ns': set<Node>, ghost bs: map<Path, Bucket>)
    requires Sound(ns, buckets, last) && HeapsWithin(ns, heaps) && prefix !in buckets && |prefix| == MIN_ELEMENTS
    ensures bucket.root != null && bucket.root.path == prefix && fresh(bucket) && fresh(bucket.root)
    ensures ns' == ns + {bucket.root} && bs == buckets[prefix := bucket]
    ensures IsRoot(View(ns'), bucket.root) && ReadyFor(bucket.root, ns', bs, last) && HeapsWithin(ns', heaps)
    ensures Terminals(View(ns')) == old(Terminals(View(ns)))
  {
    hide Repaired, Canonical, CanonicalBut, Generations, BucketedFor, Owned, HeapsWithin, Terminals, IsRoot;
    hide Node.Snapshot;
    bucket := new Bucket(prefix);
    assert View(ns) == old(View(ns));
    NewRoot(bucket, prefix, ns, buckets, last, heaps);
    ns', bs := ns + {bucket.root}, buckets[prefix := bucket];
  }

  lemma BucketJoins(bucket: Bucket, prefix: Path, ns: set<Node>, buckets: map<Path, Bucket>, heaps: set<CandidateHeap>)
    requires BucketedFor(ns, buckets) && HeapsWithin(ns, heaps) && prefix !in buckets && |prefix| == MIN_ELEMENTS
    requires bucket.root != null && bucket.root.bucket == bucket && bucket.prefix == prefix
    requires bucket.root.path == prefix && bucket.root.candidateHeap == null
    ensures BucketedFor(ns + {bucket.root}, buckets[prefix := bucket]) && HeapsWithin(ns + {bucket.root}, heaps)
  {
  }

  lemma RootJoins(root: Node, prefix: Path, ns: set<Node>, last: nat)
    requires Repaired(View(ns)) && Canonical(View(ns)) && Generations(View(ns), last)
    requires root !in ns && |prefix| == MIN_ELEMENTS && root.Snapshot() == FreshCell<Node>(prefix, None, [])
    requires forall s | s in ns && IsRoot(View(ns), s) :: s.path != prefix
    ensures var g := View(ns + {root});
            && IsRoot(g, root) && Repaired(g) && CanonicalBut(g, root) && Generations(g, last)
              && Terminals(g) == Terminals(View(ns))
  {
    hide Repaired, Canonical, CanonicalBut, Generations;
    var f, g := View(ns), View(ns + {root});
    assert g == f[root := FreshCell(prefix, None, [])];
    RootAddedRepaired(f, g, root, prefix);
    RootKeepsCanonical(f, g, root, prefix);
    GenerationsKept(f, g, last);
  }

  lemma RootPrefix(ns: set<Node>, buckets: map<Path, Bucket>, s: Node)
    requires Repaired(View(ns)) && BucketedFor(ns, buckets) && IsRoot(View(ns), s)
    ensures s.path in buckets
  {
    assert ParentOk(View(ns), s);
    assert s.path == s.bucket.prefix;
  }
}
