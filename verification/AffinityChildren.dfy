/** Adding, replacing and deleting children, and keeping the indexed candidate heap of the parent
    in step. The contracts speak about one parent and its heap only. */
module AffinityChildren {
  import opened CandidateOrder
  import opened RadixForest
  import opened AffinityNodes

  ghost function RankMap(ns: set<Node>): (rank: map<Node, Rank>)
    reads ns`nearestTerminal, (set n | n in ns :: n.nearestTerminal)`boundSequence
    ensures rank.Keys == ns && forall n | n in ns :: rank[n] == n.Rank()
  {
    map n | n in ns :: n.Rank()
  }

  /** `rank` gives the current rank of every node it lists. */
  ghost predicate Live(rank: map<Node, Rank>)
    reads rank.Keys`nearestTerminal, (set n | n in rank :: n.nearestTerminal)`boundSequence
  {
    forall n | n in rank :: rank[n] == n.Rank()
  }

  /** The heap exists exactly above the threshold and holds exactly the children. */
  ghost predicate HeapFits(node: Node)
    reads node, node.candidateHeap
  {
    && (node.candidateHeap != null <==> |node.children| > HEAP_THRESHOLD)
    && (node.candidateHeap != null ==>
          && node.candidateHeap.owner == node
          && node.candidateHeap.Valid()
          && node.candidateHeap.positions.Keys == node.children.Values)
  }

  ghost predicate HeapSorted(node: Node, rank: map<Node, Rank>)
    reads node, node.candidateHeap
  {
    node.candidateHeap != null ==>
      && (forall n | n in node.candidateHeap.nodes :: n in rank)
      && Ordered(RanksBy(node.candidateHeap.nodes, rank), |node.candidateHeap.nodes|)
  }

  ghost predicate HeapSortedExcept(node: Node, c: Node, rank: map<Node, Rank>)
    reads node, node.candidateHeap
  {
    node.candidateHeap != null && c in node.candidateHeap.positions ==>
      && (forall n | n in node.candidateHeap.nodes :: n in rank)
      && OrderedExcept(RanksBy(node.candidateHeap.nodes, rank), |node.candidateHeap.nodes|,
                       node.candidateHeap.positions[c])
  }

  /** The heap is in order, except around the child that `key` would displace. */
  ghost predicate SlotReady(parent: Node, key: Element, rank: map<Node, Rank>)
    reads parent, parent.candidateHeap
  {
    && (key in parent.children ==> HeapSortedExcept(parent, parent.children[key], rank))
    && (key !in parent.children ==> HeapSorted(parent, rank))
  }

  lemma ChildPut(m: map<Element, Node>, key: Element, child: Node)
    requires Injective(m) && child !in m.Values
    ensures Injective(m[key := child])
    ensures m[key := child].Values == m.Values - (if key in m then {m[key]} else {}) + {child}
    ensures |m[key := child]| == |m| + if key in m then 0 else 1
  {
    assert m[key := child].Keys == m.Keys + {key};
    PutValues(m, key, child);
  }

  lemma PutValues(m: map<Element, Node>, key: Element, child: Node)
    requires Injective(m) && child !in m.Values
    ensures m[key := child].Values == m.Values - (if key in m then {m[key]} else {}) + {child}
  {
    var m' := m[key := child];
    var kept := m.Values - (if key in m then {m[key]} else {});
    forall c | c in kept
      ensures c in m'.Values
    {
      var e :| e in m && m[e] == c;
      assert m'[e] == c;
    }
    forall c | c in m'.Values && c != child
      ensures c in kept
    {
      var e :| e in m' && m'[e] == c;
      assert e in m && e != key;
    }
    assert m'[key] == child;
  }

  lemma ChildDropped(m: map<Element, Node>, key: Element)
    requires Injective(m) && key in m
    ensures Injective(m - {key}) && (m - {key}).Values == m.Values - {m[key]} && |m - {key}| == |m| - 1
  {
    var m' := m - {key};
    assert m'.Keys == m.Keys - {key};
    forall c | c in m.Values && c != m[key]
      ensures c in m'.Values
    {
      var e :| e in m && m[e] == c;
      assert m'[e] == c;
    }
  }

  method RebuildCandidateHeap(node: Node, ghost rank: map<Node, Rank>)
    requires Injective(node.children) && node.children.Values <= rank.Keys && Live(rank)
    modifies node`candidateHeap
    ensures HeapFits(node) && HeapSorted(node, rank)
    ensures node.candidateHeap == null || fresh(node.candidateHeap)
  {
    hide Indexed, OrderedFrom, RanksBy, Injective;
    if |node.children| <= HEAP_THRESHOLD {
      node.candidateHeap := null;
      return;
    }
    var candidates := new CandidateHeap(node, node.children, rank);
    node.candidateHeap := candidates;
  }

  lemma HeapIsRanked(h: CandidateHeap, rank: map<Node, Rank>)
    requires h.Valid() && h.positions.Keys <= rank.Keys && Live(rank)
    ensures h.RankedBy(rank)
    ensures forall n | n in h.positions :: h.positions[n] < |h.nodes| && h.nodes[h.positions[n]] == n
  {
  }

  method SetContentChild(parent: Node, child: Node, ghost rank: map<Node, Rank>)
    requires child.incoming != [] && Injective(parent.children) && child !in parent.children.Values
    requires parent.children.Values <= rank.Keys && child in rank && Live(rank)
    requires HeapFits(parent)
    requires SlotReady(parent, child.incoming[0], rank)
    modifies parent`children, parent`candidateHeap, HeapOf(parent)
    ensures parent.children == old(parent.children[child.incoming[0] := child])
    ensures HeapFits(parent) && HeapSorted(parent, rank)
    ensures parent.candidateHeap == null || parent.candidateHeap == old(parent.candidateHeap)
            || fresh(parent.candidateHeap)
    ensures child.incoming[0] in old(parent.children) ==> parent.candidateHeap == old(parent.candidateHeap)
  {
    hide Indexed, OrderedFrom, OrderedFromExcept, RanksBy, Injective;
    var key := child.incoming[0];
    ChildPut(parent.children, key, child);
    var replaced := key in parent.children;
    var previous := if replaced then parent.children[key] else child;
    parent.children := parent.children[key := child];
    var candidates := parent.candidateHeap;
    if candidates == null {
      RebuildCandidateHeap(parent, rank);
      return;
    }
    HeapIsRanked(candidates, rank);
    if !replaced {
      candidates.Push(child, rank);
    } else if previous !in candidates.positions {
      assert false;
    } else {
      candidates.Replace(previous, child, rank);
    }
  }

  method DeleteContentChild(parent: Node, key: Element, ghost rank: map<Node, Rank>) returns (child: Node?)
    requires Injective(parent.children) && HeapFits(parent)
    requires parent.children.Values <= rank.Keys && Live(rank)
    requires key in parent.children ==> HeapSortedExcept(parent, parent.children[key], rank)
    modifies parent`children, parent`candidateHeap, HeapOf(parent)
    ensures key !in old(parent.children) ==>
              && child == null && unchanged(parent)
              && (parent.candidateHeap != null ==> unchanged(parent.candidateHeap))
    ensures key in old(parent.children) ==>
              && child == old(parent.children[key]) && parent.children == old(parent.children) - {key}
              && HeapFits(parent) && HeapSorted(parent, rank)
    ensures parent.candidateHeap == null || parent.candidateHeap == old(parent.candidateHeap)
  {
    hide Indexed, OrderedFrom, OrderedFromExcept, RanksBy, Injective, Live;
    if key !in parent.children {
      return null;
    }
    child := parent.children[key];
    ChildDropped(parent.children, key);
    parent.children := parent.children - {key};
    var candidates := parent.candidateHeap;
    if candidates == null {
      return;
    }
    if child !in candidates.positions {
      assert false;
    }
    HeapIsRanked(candidates, rank);
    candidates.Remove(candidates.positions[child], rank);
    if |parent.children| <= HEAP_THRESHOLD {
      parent.candidateHeap := null;
    }
  }

  method RefreshContentChildCandidate(parent: Node, child: Node, ghost rank: map<Node, Rank>)
    requires HeapFits(parent) && HeapSortedExcept(parent, child, rank) && child in parent.children.Values
    requires parent.children.Values <= rank.Keys && Live(rank)
    modifies HeapOf(parent)
    ensures HeapFits(parent) && HeapSorted(parent, rank)
  {
    hide Indexed, OrderedFrom, OrderedFromExcept, RanksBy, Live;
    var candidates := parent.candidateHeap;
    if candidates == null {
      return;
    }
    if child !in candidates.positions {
      assert false;
    }
    HeapIsRanked(candidates, rank);
    candidates.Fix(candidates.positions[child], rank);
  }
}
