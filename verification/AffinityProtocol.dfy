/** Which deletion events may remove a binding.

    `bind` marks a node with a fresh generation under the structure lock and stores that generation
    in the cache after releasing it; `bindMu` lets one bind of a model be between the two at a time.
    The cache may delete any entry whenever it likes (expiry, eviction, replacement), and it reports
    each deletion later, with the generation the entry had. All interleavings are allowed. */
module AffinityProtocol {
  import opened Prelude

  datatype Event<Id> = Event(node: Id, generation: nat)

  datatype State<Id> = State(
    bound: map<Id, nat>,
    cached: map<Id, nat>,
    pending: multiset<Event<Id>>,
    inFlight: Option<Event<Id>>,
    last: nat)

  datatype Step<Id> = Mark(node: Id) | CacheSet | CacheDrop(node: Id) | Deliver(event: Event<Id>)

  ghost predicate Next<Id>(s: State<Id>, step: Step<Id>, t: State<Id>) {
    match step
    case Mark(n) =>
      && s.inFlight.None?
      && t == s.(bound := s.bound[n := s.last + 1], inFlight := Some(Event(n, s.last + 1)), last := s.last + 1)
    case CacheSet =>
      && s.inFlight.Some?
      && var e := s.inFlight.value;
         t == s.(cached := s.cached[e.node := e.generation],
                 pending := s.pending + (if e.node in s.cached then multiset{Event(e.node, s.cached[e.node])}
                                         else multiset{}),
                 inFlight := None)
    case CacheDrop(n) =>
      && n in s.cached
      && t == s.(cached := s.cached - {n}, pending := s.pending + multiset{Event(n, s.cached[n])})
    case Deliver(e) =>
      && e in s.pending
      && t == s.(bound := if Names(s, e) then s.bound - {e.node} else s.bound, pending := s.pending - multiset{e})
  }

  /** The test of the deletion callback: the event names the current binding of its node. */
  ghost predicate Names<Id>(s: State<Id>, e: Event<Id>) {
    e.node in s.bound && s.bound[e.node] == e.generation
  }

  ghost function Init<Id>(): State<Id> {
    State(map[], map[], multiset{}, None, 0)
  }

  /** Where a generation of a node still is: being stored, in the cache, or in an undelivered event. */
  ghost function Traces<Id>(s: State<Id>, e: Event<Id>): nat {
    (if s.inFlight == Some(e) then 1 else 0)
    + (if e.node in s.cached && s.cached[e.node] == e.generation then 1 else 0)
    + s.pending[e]
  }

  ghost predicate CurrentOnce<Id>(s: State<Id>, n: Id)
    requires n in s.bound
  {
    0 < s.bound[n] <= s.last && Traces(s, Event(n, s.bound[n])) == 1
  }

  ghost predicate CachedForBound<Id>(s: State<Id>, n: Id)
    requires n in s.cached
  {
    && n in s.bound && s.cached[n] <= s.bound[n]
    && (s.cached[n] < s.bound[n] ==> s.inFlight == Some(Event(n, s.bound[n])))
  }

  ghost predicate PendingOld<Id>(s: State<Id>, e: Event<Id>) {
    e.generation <= s.last && (e.node in s.bound ==> e.generation <= s.bound[e.node])
  }

  /** Every current generation is in exactly one place, and the cache knows bound nodes only. */
  ghost predicate Inv<Id>(s: State<Id>) {
    && (forall n {:trigger CurrentOnce(s, n)} | n in s.bound :: CurrentOnce(s, n))
    && (forall n {:trigger CachedForBound(s, n)} | n in s.cached :: CachedForBound(s, n))
    && (forall e {:trigger PendingOld(s, e)} | e in s.pending :: PendingOld(s, e))
    && (s.inFlight.Some? ==> Names(s, s.inFlight.value))
  }

  lemma MarkKeeps<Id>(s: State<Id>, n: Id, t: State<Id>)
    requires Inv(s) && Next(s, Mark(n), t)
    ensures Inv(t)
  {
    assert n in s.cached ==> CachedForBound(s, n);
    assert n in s.bound ==> CurrentOnce(s, n);
    assert !PendingOld(s, Event(n, t.last));
    forall m | m in t.bound
      ensures CurrentOnce(t, m)
    {
      if m != n {
        assert CurrentOnce(s, m);
      }
    }
    forall m | m in t.cached
      ensures CachedForBound(t, m)
    {
      assert CachedForBound(s, m);
    }
    forall e | e in t.pending
      ensures PendingOld(t, e)
    {
      assert PendingOld(s, e);
    }
  }

  lemma CacheSetKeeps<Id>(s: State<Id>, t: State<Id>)
    requires Inv(s) && Next(s, CacheSet, t)
    ensures Inv(t)
  {
    var e := s.inFlight.value;
    assert CurrentOnce(s, e.node);
    assert e.node in s.cached ==> CachedForBound(s, e.node);
    forall m | m in t.bound
      ensures CurrentOnce(t, m)
    {
      assert CurrentOnce(s, m);
    }
    forall m | m in t.cached
      ensures CachedForBound(t, m)
    {
      assert m != e.node ==> CachedForBound(s, m);
    }
    forall d | d in t.pending
      ensures PendingOld(t, d)
    {
      assert d in s.pending ==> PendingOld(s, d);
    }
  }

  lemma CacheDropKeeps<Id>(s: State<Id>, n: Id, t: State<Id>)
    requires Inv(s) && Next(s, CacheDrop(n), t)
    ensures Inv(t)
  {
    assert CachedForBound(s, n) && CurrentOnce(s, n);
    forall m | m in t.bound
      ensures CurrentOnce(t, m)
    {
      assert CurrentOnce(s, m);
    }
    forall m | m in t.cached
      ensures CachedForBound(t, m)
    {
      assert CachedForBound(s, m);
    }
    forall d | d in t.pending
      ensures PendingOld(t, d)
    {
      assert d in s.pending ==> PendingOld(s, d);
    }
  }

  /** An event that removes a binding was the last trace of it: the cache has no entry for the node
      any more, and no bind of the node is under way. */
  lemma RemovalIsFinal<Id>(s: State<Id>, e: Event<Id>, t: State<Id>)
    requires Inv(s) && Next(s, Deliver(e), t) && Names(s, e)
    ensures e.node !in s.cached && e.node !in t.bound && (s.inFlight.Some? ==> s.inFlight.value.node != e.node)
  {
    assert CurrentOnce(s, e.node);
    assert e.node in s.cached ==> CachedForBound(s, e.node);
  }

  lemma DeliverKeeps<Id>(s: State<Id>, e: Event<Id>, t: State<Id>)
    requires Inv(s) && Next(s, Deliver(e), t)
    ensures Inv(t)
  {
    if Names(s, e) {
      RemovalIsFinal(s, e, t);
    }
    forall m | m in t.bound
      ensures CurrentOnce(t, m)
    {
      assert CurrentOnce(s, m);
    }
    forall m | m in t.cached
      ensures CachedForBound(t, m)
    {
      assert CachedForBound(s, m);
    }
    forall d | d in t.pending
      ensures PendingOld(t, d)
    {
      assert PendingOld(s, d);
    }
  }

  lemma NextKeeps<Id>(s: State<Id>, step: Step<Id>, t: State<Id>)
    requires Inv(s) && Next(s, step, t)
    ensures Inv(t)
  {
    match step
    case Mark(n) => MarkKeeps(s, n, t);
    case CacheSet => CacheSetKeeps(s, t);
    case CacheDrop(n) => CacheDropKeeps(s, n, t);
    case Deliver(e) => DeliverKeeps(s, e, t);
  }

  // ---------- Runs ----------

  ghost predicate NextAt<Id>(ss: seq<State<Id>>, steps: seq<Step<Id>>, i: nat) {
    i < |steps| && i + 1 < |ss| && Next(ss[i], steps[i], ss[i + 1])
  }

  ghost predicate Run<Id>(ss: seq<State<Id>>, steps: seq<Step<Id>>) {
    && |ss| == |steps| + 1 && ss[0] == Init()
    && forall i {:trigger NextAt(ss, steps, i)} | 0 <= i < |steps| :: NextAt(ss, steps, i)
  }

  lemma {:induction false} RunKeeps<Id>(ss: seq<State<Id>>, steps: seq<Step<Id>>, i: nat)
    requires Run(ss, steps) && i < |ss|
    ensures Inv(ss[i])
  {
    if i > 0 {
      RunKeeps(ss, steps, i - 1);
      assert NextAt(ss, steps, i - 1);
      NextKeeps(ss[i - 1], steps[i - 1], ss[i]);
    }
  }

  /** When no event is undelivered and no bind is half done, the bound nodes are the cached ones, with
      the same generations. */
  lemma QuietMeansAgreement<Id>(ss: seq<State<Id>>, steps: seq<Step<Id>>, i: nat)
    requires Run(ss, steps) && i < |ss| && ss[i].pending == multiset{} && ss[i].inFlight.None?
    ensures ss[i].bound == ss[i].cached
  {
    RunKeeps(ss, steps, i);
    var s := ss[i];
    forall n | n in s.bound
      ensures n in s.cached && s.cached[n] == s.bound[n]
    {
      assert CurrentOnce(s, n);
    }
    forall n | n in s.cached
      ensures n in s.bound
    {
      assert CachedForBound(s, n);
    }
  }

  /** The cache gave up this generation of this node. */
  ghost predicate Drops<Id>(s: State<Id>, step: Step<Id>, e: Event<Id>) {
    step == CacheDrop(e.node) && e.node in s.cached && s.cached[e.node] == e.generation
  }

  /** A binding that is stored or being stored stays until the cache drops it or it is bound again;
      no event about an older generation removes it. */
  lemma {:induction false} BindingSurvives<Id>(ss: seq<State<Id>>, steps: seq<Step<Id>>, i: nat, j: nat, e: Event<Id>)
    requires Run(ss, steps) && i <= j < |ss| && Names(ss[i], e) && e !in ss[i].pending
    requires forall k | i <= k < j :: !Drops(ss[k], steps[k], e) && steps[k] != Mark(e.node)
    ensures Names(ss[j], e) && e !in ss[j].pending
  {
    if i < j {
      BindingSurvives(ss, steps, i, j - 1, e);
      RunKeeps(ss, steps, j - 1);
      assert NextAt(ss, steps, j - 1);
      var s, t := ss[j - 1], ss[j];
      assert e.node in s.cached ==> CachedForBound(s, e.node);
      assert CurrentOnce(s, e.node);
      assert !Drops(s, steps[j - 1], e);
    }
  }

  /** A generation that is not current any more never becomes current again. */
  lemma {:induction false} NeverAgain<Id>(ss: seq<State<Id>>, steps: seq<Step<Id>>, i: nat, j: nat, e: Event<Id>)
    requires Run(ss, steps) && i <= j < |ss| && !Names(ss[i], e) && e.generation <= ss[i].last
    ensures !Names(ss[j], e) && e.generation <= ss[j].last
  {
    if i < j {
      NeverAgain(ss, steps, i, j - 1, e);
      assert NextAt(ss, steps, j - 1);
    }
  }

  /** `match` reads a binding at `i` and finds its generation in the cache at `j`. Then the binding has been
      current all the time, or the same node has been bound again and that bind is not finished. */
  lemma HitIsCurrent<Id>(ss: seq<State<Id>>, steps: seq<Step<Id>>, i: nat, j: nat, e: Event<Id>)
    requires Run(ss, steps) && i <= j < |ss| && Names(ss[i], e)
    requires e.node in ss[j].cached && ss[j].cached[e.node] == e.generation
    ensures || (forall k | i <= k <= j :: Names(ss[k], e))
            || (e.node in ss[j].bound && ss[j].bound[e.node] > e.generation
                && ss[j].inFlight == Some(Event(e.node, ss[j].bound[e.node])))
  {
    RunKeeps(ss, steps, j);
    assert CachedForBound(ss[j], e.node);
    if Names(ss[j], e) {
      forall k | i <= k <= j
        ensures Names(ss[k], e)
      {
        if !Names(ss[k], e) {
          LastGrows(ss, steps, i, k);
          RunKeeps(ss, steps, i);
          assert CurrentOnce(ss[i], e.node);
          NeverAgain(ss, steps, k, j, e);
        }
      }
    }
  }

  lemma {:induction false} LastGrows<Id>(ss: seq<State<Id>>, steps: seq<Step<Id>>, i: nat, j: nat)
    requires Run(ss, steps) && i <= j < |ss|
    ensures ss[i].last <= ss[j].last
  {
    if i < j {
      LastGrows(ss, steps, i, j - 1);
      assert NextAt(ss, steps, j - 1);
    }
  }
}
