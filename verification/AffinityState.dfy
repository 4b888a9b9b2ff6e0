/** The invariants of a content-affinity trie, on its nodes and buckets. */
module AffinityState {
  import opened RadixForest
  import opened RadixRepair
  import opened RadixBindings
  import opened AffinityNodes

  /** Every node belongs to the bucket of its first elements, and every bucket has its root here. */
  ghost predicate BucketedFor(ns: set<Node>, buckets: map<Path, Bucket>)
    reads buckets.Values
  {
    && (forall n | n in ns ::
          n.bucket.prefix in buckets && buckets[n.bucket.prefix] == n.bucket && n.bucket.prefix <= n.path)
    && (forall p | p in buckets ::
          var b := buckets[p];
          |p| == MIN_ELEMENTS && b.prefix == p && b.root != null && b.root in ns && b.root.path == p
            && b.root.bucket == b)
  }

  ghost predicate Sound(ns: set<Node>, buckets: map<Path, Bucket>, last: nat)
    reads ns, HeapsOf(ns), buckets.Values
  {
    Owned(ns) && Repaired(View(ns)) && Canonical(View(ns)) && Generations(View(ns), last) && BucketedFor(ns, buckets)
  }

  /** Everything but the canonical form at `t`, which is about to be bound. */
  ghost predicate ReadyFor(t: Node, ns: set<Node>, buckets: map<Path, Bucket>, last: nat)
    reads ns, HeapsOf(ns), buckets.Values
  {
    && t in ns && Owned(ns) && Repaired(View(ns)) && CanonicalBut(View(ns), t) && Generations(View(ns), last)
    && BucketedFor(ns, buckets)
  }

  /** A node where a child can be added without leaving a useless unbound node behind. */
  ghost predicate GrowsAt<Id>(f: Forest<Id>, n: Id) {
    n in f && (f[n].terminal || f[n].parent.None? || |f[n].children| >= 1)
  }

  /** `heaps` covers the heaps of all nodes; it is the frame of everything below. */
  ghost predicate HeapsWithin(ns: set<Node>, heaps: set<CandidateHeap>)
    reads ns`candidateHeap
  {
    forall n | n in ns && n.candidateHeap != null :: n.candidateHeap in heaps
  }

  lemma CoveredHeap(n: Node, ns: set<Node>, heaps: set<CandidateHeap>)
    requires n in ns && HeapsWithin(ns, heaps)
    ensures HeapOf(n) <= heaps
  {
  }

  lemma CoveredHeaps(ns: set<Node>, heaps: set<CandidateHeap>)
    requires HeapsWithin(ns, heaps)
    ensures HeapsOf(ns) <= heaps
  {
  }

  twostate lemma HeapsStillWithin(new current: Node, new node: Node, ns: set<Node>, new heaps: set<CandidateHeap>)
    returns (grown: set<CandidateHeap>)
    requires old(allocated(heaps)) && current in ns && node.candidateHeap == null && old(HeapsWithin(ns, heaps))
    requires forall n | n in ns && n != current :: unchanged(n`candidateHeap)
    requires current.candidateHeap == null || current.candidateHeap == old(current.candidateHeap)
             || fresh(current.candidateHeap)
    ensures fresh(grown) && HeapsWithin(ns + {node}, heaps + grown)
  {
    grown := if fresh(HeapOf(current)) then HeapOf(current) else {};
  }

  lemma NoHeapOf(n: Node)
    requires n.candidateHeap == null
    ensures HeapOf(n) == {}
  {
  }

  lemma UnionNone<T>(a: set<T>)
    ensures a + {} == a
  {
  }

  lemma UnionAssoc<T>(a: set<T>, b: set<T>, c: set<T>)
    ensures a + b + c == a + (b + c)
  {
  }

  /** Adding a node below another in the same bucket. */
  lemma BucketedWithMore(ns: set<Node>, buckets: map<Path, Bucket>, p: Node, n: Node)
    requires BucketedFor(ns, buckets) && p in ns && n.bucket == p.bucket && p.path <= n.path
    ensures BucketedFor(ns + {n}, buckets)
  {
  }
}
