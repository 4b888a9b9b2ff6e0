/** Content affinity of one model: its trie together with the cache that decides which bindings live. */
module AffinityTable {
  import opened Prelude
  import opened RadixForest
  import opened RadixBindings
  import opened RadixMatch
  import opened AffinityNodes
  import opened AffinityTrie
  import opened AffinityProtocol

  /** The elements of a request and the position (from 1) of its first dialogue element. */
  datatype ContentHash = ContentHash(elements: Path, firstDialogue: int) {
    predicate Valid() {
      firstDialogue > 0 && firstDialogue <= |elements| && |elements| >= MIN_ELEMENTS
    }
  }

  /** What `match` takes from the trie before it releases the lock. */
  datatype Reading = Reading(node: Node, generation: nat, credential: string)

  /** Whatever is bound with a generation up to `last` was bound like that in `seen`. */
  ghost predicate GrownFrom(seen: map<Node, Entry>, last: nat, ends: map<Node, Entry>) {
    forall n | n in ends && ends[n].generation <= last :: n in seen && seen[n] == ends[n]
  }

  /** Steps of the table keep it: they bind with a higher generation, unbind, or leave the trie alone. */
  lemma GrownStays(seen: map<Node, Entry>, last: nat, ends: map<Node, Entry>, ends': map<Node, Entry>, n: Node,
                   e: Entry)
    requires GrownFrom(seen, last, ends)
    requires ends' == ends || ends' == ends - {n} || (ends' == ends[n := e] && e.generation > last)
    ensures GrownFrom(seen, last, ends')
  {
  }

  ghost function GenerationsOf(ends: map<Node, Entry>): map<Node, nat> {
    map n | n in ends :: ends[n].generation
  }

  class Table {
    const trie: Trie
    var entries: map<Node, nat>
    /** Deletions the cache has not reported yet. */
    ghost var pending: multiset<Event<Node>>
    /** The bind that has marked its node and not stored the generation yet; it holds `bindMu`. */
    ghost var inFlight: Option<Event<Node>>

    ghost function Protocol(): State<Node>
      reads this, trie, trie.nodes, HeapsOf(trie.nodes)
    {
      State(GenerationsOf(trie.Endpoints()), entries, pending, inFlight, trie.bindSequence)
    }

    ghost predicate Valid()
      reads this, trie, trie.nodes, HeapsOf(trie.nodes), trie.buckets.Values, trie.retired
    {
      && trie.Valid() && Inv(Protocol())
      && (forall e | e in pending :: e.node in trie.nodes + trie.retired)
    }

    constructor ()
      ensures Valid() && Protocol() == Init() && trie.Meaning() == map[]
      ensures fresh(trie) && trie.Empty()
    {
      hide *;
      trie := new Trie();
      entries := map[];
      pending, inFlight := multiset{}, None;
      new;
      Started();
    }

    lemma Started()
      requires trie.Empty() && entries == map[] && pending == multiset{} && inFlight == None
      ensures Valid() && Protocol() == Init() && trie.Meaning() == map[]
    {
      hide Trie.Valid, Trie.Endpoints, Trie.Meaning;
      trie.EmptyIsValid();
    }

    lemma Parts()
      requires Valid()
      ensures trie.Valid() && Inv(Protocol()) && forall e | e in pending :: e.node in trie.nodes + trie.retired
      ensures Protocol() == State(GenerationsOf(trie.Endpoints()), entries, pending, inFlight, trie.bindSequence)
    {
      hide Trie.Valid, Trie.Endpoints, Inv;
    }

    /** Replaces the bookkeeping beside the trie. */
    method Record(entries': map<Node, nat>, ghost pending': multiset<Event<Node>>, ghost inFlight': Option<Event<Node>>)
      requires trie.Valid() && Inv(State(GenerationsOf(trie.Endpoints()), entries', pending', inFlight',
                                         trie.bindSequence))
      requires forall e | e in pending' :: e.node in trie.nodes + trie.retired
      modifies this
      ensures Valid() && entries == entries' && pending == pending' && inFlight == inFlight'
      ensures Protocol() == State(GenerationsOf(old(trie.Endpoints())), entries', pending', inFlight',
                                  trie.bindSequence)
      ensures trie.Meaning() == old(trie.Meaning()) && trie.Endpoints() == old(trie.Endpoints())
    {
      hide Trie.Valid, Trie.Endpoints, Trie.Meaning, Inv;
      entries := entries';
      pending, inFlight := pending', inFlight';
      assert HeapsOf(trie.nodes) == old(HeapsOf(trie.nodes));
    }

    /** First half of `bind`, under `bindMu` and the structure lock. */
    method MarkBinding(fingerprint: Path, credential: string) returns (node: Node, generation: nat)
      requires Valid() && inFlight.None? && MIN_ELEMENTS <= |fingerprint|
      modifies this, trie, trie.nodes, trie.heaps
      ensures Valid() && Next(old(Protocol()), Mark(node), Protocol()) && inFlight == Some(Event(node, generation))
      ensures trie.Meaning() == old(trie.Meaning())[fingerprint := Entry(fingerprint, credential, trie.bindSequence)]
      ensures trie.Endpoints() == old(trie.Endpoints())[node := Entry(fingerprint, credential, generation)]
      ensures node.path == fingerprint && generation > old(trie.bindSequence)
      ensures fresh(trie.nodes - old(trie.nodes)) && fresh(trie.heaps - old(trie.heaps))
      ensures old(trie.nodes + trie.retired) <= trie.nodes + trie.retired
    {
      hide *;
      Parts();
      ghost var s, ends := Protocol(), trie.Endpoints();
      node, generation := trie.Bind(fingerprint, credential);
      MarkStep(s, ends, node, Entry(fingerprint, credential, generation));
      Record(entries, pending, Some(Event(node, generation)));
    }

    lemma CachedNode(n: Node)
      requires Valid() && n in entries
      ensures n in trie.nodes
    {
      hide Trie.Valid, Trie.Endpoints;
      assert CachedForBound(Protocol(), n);
      trie.EndpointsLinked();
    }

    /** Second half of `bind`: stores the generation, which replaces an older entry of the node. */
    method CacheSet(node: Node, generation: nat)
      requires Valid() && inFlight == Some(Event(node, generation))
      modifies this
      ensures Valid() && Next(old(Protocol()), Step.CacheSet, Protocol()) && inFlight == None
      ensures trie.Meaning() == old(trie.Meaning()) && trie.Endpoints() == old(trie.Endpoints())
    {
      hide *;
      Parts();
      ghost var s := Protocol();
      if node in entries {
        CachedNode(node);
      }
      ghost var reported := if node in entries then multiset{Event(node, entries[node])} else multiset{};
      CacheSetStep(s, node, generation);
      Record(entries[node := generation], pending + reported, None);
    }

    /** The cache deletes an entry by itself: its time is up, or the cache is full. */
    method CacheDrop(node: Node)
      requires Valid() && node in entries
      modifies this
      ensures Valid() && Next(old(Protocol()), Step.CacheDrop(node), Protocol())
      ensures trie.Meaning() == old(trie.Meaning()) && trie.Endpoints() == old(trie.Endpoints())
    {
      hide *;
      Parts();
      ghost var s := Protocol();
      CachedNode(node);
      CacheDropStep(s, node);
      Record(entries - {node}, pending + multiset{Event(node, entries[node])}, inFlight);
    }

    /** `expireContentAffinityBinding`: one reported deletion reaches the trie. */
    method Deliver(event: Event<Node>)
      requires Valid() && event in pending
      modifies this, trie, trie.nodes, trie.heaps
      ensures Valid() && Next(old(Protocol()), Step.Deliver(event), Protocol())
      ensures trie.Meaning() == if Names(old(Protocol()), event) then old(trie.Meaning()) - {event.node.path}
              else old(trie.Meaning())
      ensures trie.Endpoints() == if Names(old(Protocol()), event) then old(trie.Endpoints()) - {event.node}
              else old(trie.Endpoints())
      ensures trie.nodes <= old(trie.nodes) && trie.heaps == old(trie.heaps)
    {
      hide *;
      Parts();
      ghost var s, ends := Protocol(), trie.Endpoints();
      var node := event.node;
      trie.EndpointFields(node);
      NamesNode(s, ends, event);
      DeliverStep(s, ends, event);
      if node.terminal && node.boundSequence == event.generation {
        trie.ExpireTerminal(node);
      }
      FewerPending(pending, event);
      Record(entries, pending - multiset{event}, inFlight);
    }

    /** The binding at `w` is live: the cache has its node, with its generation. */
    ghost predicate Stored(w: Path)
      reads this, trie, trie.nodes, HeapsOf(trie.nodes)
    {
      var ends := trie.Endpoints();
      exists n :: n in ends && n in entries && ends[n].path == w && entries[n] == ends[n].generation
    }

    /** A whole `bind`, with no other step between its halves. Afterwards the fingerprint is bound, with a
        new generation, and live: the cache has that generation for its node. Only this node's entry in
        the cache changes, and an entry it replaces is reported later. */
    method Bind(fingerprint: ContentHash, credential: string)
      requires Valid() && inFlight.None?
      modifies this, trie, trie.nodes, trie.heaps
      ensures Valid() && inFlight.None?
      ensures var fp := fingerprint.elements;
              var binds := 0 < fingerprint.firstDialogue <= |fp| && |fp| >= MIN_ELEMENTS && credential != "";
              && (!binds ==> trie.Meaning() == old(trie.Meaning()) && Protocol() == old(Protocol()))
              && (binds ==>
                    && fp in trie.Meaning() && trie.Meaning()[fp].credential == credential
                    && trie.Meaning() - {fp} == old(trie.Meaning()) - {fp} && Stored(fp)
                    && exists n: Node :: n.path == fp && Protocol() == AfterBind(old(Protocol()), n))
      ensures fresh(trie.nodes - old(trie.nodes)) && fresh(trie.heaps - old(trie.heaps))
    {
      hide Table.Valid, Trie.Meaning, Trie.Valid, Trie.Endpoints, Next, Protocol, Stored, AfterBind;
      if !fingerprint.Valid() || credential == "" {
        return;
      }
      ghost var s := Protocol();
      var node, generation := MarkBinding(fingerprint.elements, credential);
      ghost var t, e := Protocol(), Entry(fingerprint.elements, credential, generation);
      CacheSet(node, generation);
      BothHalves(s, node, t, Protocol());
      StoredNow(s, node, e);
    }

    lemma StoredNow(s: State<Node>, n: Node, e: Entry)
      requires n in trie.Endpoints() && trie.Endpoints()[n] == e && Protocol() == AfterBind(s, n)
      ensures Stored(e.path)
    {
      hide Trie.Endpoints;
      assert Protocol().bound[n] == e.generation;
    }

    /** Binding a fingerprint makes it match: the credential just bound is the answer. */
    method BindThenMatch(fingerprint: ContentHash, credential: string) returns (matched: string)
      requires Valid() && inFlight.None? && fingerprint.Valid() && credential != ""
      modifies this, trie, trie.nodes, trie.heaps
      ensures matched == credential
    {
      hide Table.Valid, Trie.Meaning, Trie.Valid, Trie.Endpoints, Stored, BestMatch, Protocol;
      Bind(fingerprint, credential);
      BestOfItself(trie.Meaning(), fingerprint.elements);
      assert Hit(fingerprint, |fingerprint.elements|, fingerprint.elements);
      label Bound:
      matched := Match(fingerprint);
      assert HeapsOf(trie.nodes) == old@Bound(HeapsOf(trie.nodes));
      assert trie.Meaning() == old@Bound(trie.Meaning());
      assert Stored(fingerprint.elements) == old@Bound(Stored(fingerprint.elements));
      assert Hit(fingerprint, |fingerprint.elements|, fingerprint.elements);
    }

    /** `w` is what a scan over everything bound would pick for the fingerprint, and it shares enough
        elements with it. */
    ghost predicate Promising(fingerprint: ContentHash, d: nat, w: Path)
      reads this, trie, trie.nodes, HeapsOf(trie.nodes)
    {
      && fingerprint.Valid() && BestMatch(trie.Meaning(), fingerprint.elements, d, w)
      && d >= fingerprint.firstDialogue && d >= MIN_ELEMENTS
    }

    /** The first half of `match`, under the read lock of the trie. */
    method MatchLookup(fingerprint: ContentHash) returns (reading: Option<Reading>)
      requires Valid()
      ensures Valid()
      ensures reading.None? ==> forall d, w :: !Promising(fingerprint, d, w)
      ensures reading.Some? ==>
                var r := reading.value;
                && r.node in trie.Endpoints()
                && trie.Endpoints()[r.node] == Entry(r.node.path, r.credential, r.generation)
                && (exists d :: Promising(fingerprint, d, r.node.path))
                && (forall d, w | Promising(fingerprint, d, w) :: w == r.node.path)
                && r.node.path in trie.Meaning() && trie.Meaning()[r.node.path].credential == r.credential
                && (Stored(r.node.path) <==> r.node in entries && entries[r.node] == r.generation)
    {
      hide Table.Valid, Trie.Valid, Trie.Meaning, Trie.Endpoints, BestMatch, CommonLen, Stored;
      if !fingerprint.Valid() {
        return None;
      }
      Parts();
      var matchedDepth, nearest := trie.Find(fingerprint.elements);
      assert HeapsOf(trie.nodes) == old(HeapsOf(trie.nodes));
      assert Valid() == old(Valid());
      var minimumMatched := if fingerprint.firstDialogue > MIN_ELEMENTS then fingerprint.firstDialogue
        else MIN_ELEMENTS;
      if nearest == null {
        NothingShared(trie.Meaning(), fingerprint.elements);
        return None;
      }
      OnlyBest(trie.Meaning(), fingerprint.elements, matchedDepth, nearest.path);
      if matchedDepth < minimumMatched {
        return None;
      }
      StoredAt(nearest);
      trie.EndpointFields(nearest);
      assert Promising(fingerprint, matchedDepth, nearest.path);
      return Some(Reading(nearest, nearest.boundSequence, nearest.credential));
    }

    /** The second half, after any steps: `seen` is what was bound at the reading, up to generation `last`.
        With a hit the binding that was read is still the current one, or the same fingerprint has been
        bound again and that bind is not finished. */
    method MatchConfirm(reading: Reading, ghost seen: map<Node, Entry>, ghost last: nat) returns (credential: string)
      requires Valid() && GrownFrom(seen, last, trie.Endpoints()) && reading.generation <= last
      requires reading.node in seen
      requires seen[reading.node] == Entry(reading.node.path, reading.credential, reading.generation)
      ensures var hit := reading.node in entries && entries[reading.node] == reading.generation;
              && credential == (if hit then reading.credential else "")
              && (hit ==>
                    && reading.node in trie.Endpoints()
                    && var now := trie.Endpoints()[reading.node];
                       now == seen[reading.node]
                       || (now.generation > reading.generation
                           && inFlight == Some(Event(reading.node, now.generation))))
    {
      hide Trie.Valid, Trie.Endpoints;
      if reading.node !in entries || entries[reading.node] != reading.generation {
        return "";
      }
      assert CachedForBound(Protocol(), reading.node);
      return reading.credential;
    }

    /** The match of a fingerprint is promising and its binding is live. */
    ghost predicate Hit(fingerprint: ContentHash, d: nat, w: Path)
      reads this, trie, trie.nodes, HeapsOf(trie.nodes)
    {
      Promising(fingerprint, d, w) && Stored(w)
    }

    /** Both halves of `match` with no step between them. */
    method Match(fingerprint: ContentHash) returns (credential: string)
      requires Valid()
      ensures (exists d, w :: Hit(fingerprint, d, w)) || credential == ""
      ensures forall d, w | Hit(fingerprint, d, w) :: w in trie.Meaning() && credential == trie.Meaning()[w].credential
    {
      hide Table.Valid, Trie.Valid, Trie.Meaning, Trie.Endpoints, Stored, Promising;
      var reading := MatchLookup(fingerprint);
      if reading.None? {
        return "";
      }
      ghost var d :| Promising(fingerprint, d, reading.value.node.path);
      label Read:
      credential := MatchConfirm(reading.value, trie.Endpoints(), reading.value.generation);
      assert HeapsOf(trie.nodes) == old@Read(HeapsOf(trie.nodes));
      assert trie.Meaning() == old@Read(trie.Meaning());
      assert forall d, w :: Promising(fingerprint, d, w) == old@Read(Promising(fingerprint, d, w));
      assert forall w :: Stored(w) == old@Read(Stored(w));
      assert credential != "" ==> Hit(fingerprint, d, reading.value.node.path);
    }

    lemma StoredAt(n: Node)
      requires trie.Valid() && n in trie.nodes && n.terminal
      ensures Stored(n.path) <==> n in entries && entries[n] == n.boundSequence
    {
      hide Trie.Valid, Trie.Endpoints;
      trie.EndpointFields(n);
      trie.EndpointsApart();
    }
  }

  /** Both halves of a bind of `n`. */
  ghost function AfterBind<Id>(s: State<Id>, n: Id): State<Id> {
    State(s.bound[n := s.last + 1],
          s.cached[n := s.last + 1],
          s.pending + (if n in s.cached then multiset{Event(n, s.cached[n])} else multiset{}),
          None,
          s.last + 1)
  }

  lemma BothHalves(s: State<Node>, n: Node, t: State<Node>, u: State<Node>)
    requires Next(s, Mark(n), t) && Next(t, Step.CacheSet, u)
    ensures u == AfterBind(s, n)
  {
  }

  /** What is bound is its own best match: whatever shares as much extends it. */
  lemma BestOfItself(bound: map<Path, Entry>, fp: Path)
    requires fp in bound
    ensures BestMatch(bound, fp, |fp|, fp)
  {
    CommonLenAtLeast(fp, fp, |fp|);
    forall q | q in bound && q != fp && CommonLen(q, fp) == |fp|
      ensures |fp| < |q|
    {
      assert q[..|fp|] == fp[..|fp|] == fp;
      assert q == fp + q[|fp|..];
    }
  }

  lemma MarkStep(s: State<Node>, ends: map<Node, Entry>, n: Node, e: Entry)
    requires Inv(s) && s.bound == GenerationsOf(ends) && s.inFlight.None? && e.generation == s.last + 1
    ensures var t := State(GenerationsOf(ends[n := e]), s.cached, s.pending, Some(Event(n, e.generation)), s.last + 1);
            Next(s, Mark(n), t) && Inv(t)
  {
    hide Inv;
    var t := State(GenerationsOf(ends[n := e]), s.cached, s.pending, Some(Event(n, e.generation)), s.last + 1);
    assert GenerationsOf(ends[n := e]) == GenerationsOf(ends)[n := e.generation];
    NextKeeps(s, Mark(n), t);
  }

  lemma CacheSetStep(s: State<Node>, n: Node, g: nat)
    requires Inv(s) && s.inFlight == Some(Event(n, g))
    ensures var t := State(s.bound, s.cached[n := g],
                           s.pending + (if n in s.cached then multiset{Event(n, s.cached[n])} else multiset{}), None,
                             s.last);
            Next(s, Step.CacheSet, t) && Inv(t)
  {
    hide Inv;
    var t := State(s.bound, s.cached[n := g],
                   s.pending + (if n in s.cached then multiset{Event(n, s.cached[n])} else multiset{}), None, s.last);
    NextKeeps(s, Step.CacheSet, t);
  }

  lemma CacheDropStep(s: State<Node>, n: Node)
    requires Inv(s) && n in s.cached
    ensures var t := State(s.bound, s.cached - {n}, s.pending + multiset{Event(n, s.cached[n])}, s.inFlight, s.last);
            Next(s, Step.CacheDrop(n), t) && Inv(t)
  {
    hide Inv;
    NextKeeps(s, Step.CacheDrop(n),
              State(s.bound, s.cached - {n}, s.pending + multiset{Event(n, s.cached[n])}, s.inFlight, s.last));
  }

  lemma NamesNode(s: State<Node>, ends: map<Node, Entry>, e: Event<Node>)
    requires s.bound == GenerationsOf(ends)
    ensures Names(s, e) <==> e.node in ends && ends[e.node].generation == e.generation
  {
  }

  lemma DeliverStep(s: State<Node>, ends: map<Node, Entry>, e: Event<Node>)
    requires Inv(s) && s.bound == GenerationsOf(ends) && e in s.pending
    ensures var t := State(GenerationsOf(if Names(s, e) then ends - {e.node} else ends), s.cached,
                           s.pending - multiset{e},
                           s.inFlight, s.last);
            Next(s, Step.Deliver(e), t) && Inv(t)
  {
    hide Inv;
    assert GenerationsOf(ends - {e.node}) == GenerationsOf(ends) - {e.node};
    NextKeeps(s, Step.Deliver(e),
              State(GenerationsOf(if Names(s, e) then ends - {e.node} else ends), s.cached, s.pending - multiset{e},
                    s.inFlight, s.last));
  }

  lemma FewerPending(pending: multiset<Event<Node>>, e: Event<Node>)
    requires e in pending
    ensures forall d | d in pending - multiset{e} :: d in pending
  {
  }

  lemma NothingShared(bound: map<Path, Entry>, fp: Path)
    requires forall p | p in bound :: CommonLen(p, fp) < MIN_ELEMENTS
    ensures forall d: nat, w | BestMatch(bound, fp, d, w) :: d < MIN_ELEMENTS
  {
  }

  lemma OnlyBest(bound: map<Path, Entry>, fp: Path, d: nat, w: Path)
    requires BestMatch(bound, fp, d, w)
    ensures w in bound && forall d': nat, w' | BestMatch(bound, fp, d', w') :: d' == d && w' == w
  {
  }
}
