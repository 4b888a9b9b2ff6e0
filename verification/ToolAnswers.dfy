/** Exactly when the calls that tool pairing keeps are answered in the message directly after.

    A kept call can lose its answer in one way only: the message that answers it has calls of its own,
    loses them, and with them goes a part that is call and response at once. */
module ToolAnswers {
  import opened ToolMessages
  import opened ToolMatching
  import opened ToolPairing

  /** Every call of model message `k` has its own response in the message directly after. */
  ghost predicate CoveredAt(cs: seq<Content>, k: nat)
    requires k < |cs|
  {
    cs[k].role == MODEL && CallIds(cs[k]) != [] ==> k + 1 < |cs| && Covered(cs[k], cs[k + 1])
  }

  /** Every call of the model has its own response in the message directly after. */
  ghost predicate AllAnswered(cs: seq<Content>) {
    forall k {:trigger CoveredAt(cs, k)} | 0 <= k < |cs| :: CoveredAt(cs, k)
  }

  lemma {:induction false} FilteredFewer(parts: seq<Part>, kind: Kind, allowed: seq<string>, other: Kind)
    ensures multiset(Ids(Filtered(parts, kind, allowed), other)) <= multiset(Ids(parts, other))
  {
    hide Ids, Filtered;
    if parts == [] {
      NothingFiltered(parts, kind, allowed);
    } else {
      FilteredFewer(Front(parts), kind, allowed, other);
      FilteredLast(parts, kind, allowed);
      assert parts == Front(parts) + [Last(parts)];
      IdsLast(Front(parts), Last(parts), other);
      IdsLast(Filtered(Front(parts), kind, allowed), Last(parts), other);
    }
  }

  /** Fewer calls are still covered, and more responses still cover. */
  lemma CoveredMore(c: Content, d: Content, c': Content, d': Content)
    requires Covered(c, d)
    requires multiset(CallIds(c')) <= multiset(CallIds(c)) && multiset(ResponseIds(d)) <= multiset(ResponseIds(d'))
    ensures Covered(c', d')
  {
    forall id | id in CallIds(c')
      ensures id != ""
    {
      assert id in multiset(CallIds(c'));
      assert id in multiset(CallIds(c));
      assert id in CallIds(c);
    }
  }

  /** Dropping responses to nothing keeps those that `last` needs, and cannot supply others. */
  lemma CoveredFiltered(last: Content, c: Content)
    ensures var d := Answering(c, Named(CallIds(last)));
            && (Covered(last, c) <==> Covered(last, d)) && (Covered(last, c) && CallIds(last) != [] ==> d.parts != [])
  {
    hide Covered, CallIds, Filtered, Named;
    var d := Answering(c, Named(CallIds(last)));
    if Covered(last, c) {
      NamedIds(CallIds(last));
      CoveredAfterFilter(last, c, Named(CallIds(last)));
    }
    if Covered(last, d) {
      FilteredFewer(c.parts, Response, Named(CallIds(last)), Response);
      CoveredMore(last, d, last, c);
    }
  }

  lemma NamedIds(ids: seq<string>)
    ensures forall id | id in ids && id != "" :: id in Named(ids)
  {
  }

  /** A covered call keeps its response, whatever else is filtered out. */
  lemma CoveredAfterFilter(last: Content, c: Content, allowed: seq<string>)
    requires Covered(last, c) && forall id | id in CallIds(last) && id != "" :: id in allowed
    ensures Covered(last, c.(parts := Filtered(c.parts, Response, allowed)))
    ensures CallIds(last) != [] ==> Filtered(c.parts, Response, allowed) != []
  {
    var d := c.(parts := Filtered(c.parts, Response, allowed));
    FilteredIds(c.parts, Response, allowed);
    forall id | id in CallIds(last)
      ensures multiset(CallIds(last))[id] <= multiset(ResponseIds(d))[id]
    {
    }
    if CallIds(last) != [] {
      assert CallIds(last)[0] in multiset(ResponseIds(d));
    }
  }

  /** The first message from `y` on that keeps anything after `last` answers all calls of `last`. */
  ghost predicate Rescued(cs: seq<Content>, draws: Draws, last: Content, y: nat)
    requires y <= |cs|
    decreases |cs| - y
  {
    && y < |cs|
    && var d := Answering(Left(cs, draws, y), Named(CallIds(last)));
       if d.parts == [] then Rescued(cs, draws, last, y + 1) else Covered(last, d)
  }

  lemma {:induction false} RescuedIff(cs: seq<Content>, draws: Draws, k: nat, y: nat)
    requires y <= |cs| && k < |Paired(cs, draws).kept| && Kept(cs, draws, y).kept == Paired(cs, draws).kept[..k + 1]
    ensures var out := Paired(cs, draws).kept;
            Rescued(cs, draws, out[k], y) <==> k + 1 < |out| && Covered(out[k], out[k + 1])
    decreases |cs| - y
  {
    hide Left, Covered, CallIds, Named, Kept;
    var out := Paired(cs, draws).kept;
    if y < |cs| {
      assert Last(out[..k + 1]) == out[k];
      KeptNext(cs, draws, y);
      KeptGrows(cs, draws, y + 1, |cs|);
      if Round(cs, draws, y, out[..k + 1]).parts == [] {
        RescuedIff(cs, draws, k, y + 1);
      }
    }
  }

  /** Message `y` keeps the responses that the calls of `last` need, although it may lose its own calls. */
  ghost predicate Spares(cs: seq<Content>, draws: Draws, last: Content, y: nat)
    requires y < |cs|
  {
    Loses(cs, y) ==> Covered(last, WithoutCalls(Found(cs, draws, y)))
  }

  /** A kept model message with calls: the message it was paired with, and what that is worth. */
  lemma PairedWith(cs: seq<Content>, draws: Draws, k: nat)
    requires var r := Paired(cs, draws); k < |r.kept| && r.kept[k].role == MODEL && CallIds(r.kept[k]) != []
    ensures var r := Paired(cs, draws); var y := r.from[k] + 1;
            && y < |cs| && Covered(r.kept[k], Found(cs, draws, y))
            && (Spares(cs, draws, r.kept[k], y) <==> Covered(r.kept[k], Left(cs, draws, y)))
  {
    hide Left, Found, Covered, CallIds, ResponseIds, AllowedAfter, Derived, Tidy, LosesCalls, WithoutCalls, Kept;
    var r := Paired(cs, draws);
    var x, d := r.from[k], r.kept[k];
    KeptAt(cs, draws, |cs|, k);
    LeftFacts(cs, draws, x);
    RoundFacts(cs, draws, x, r.kept[..k]);
    FewerCalls(Left(cs, draws, x), AllowedAfter(r.kept[..k]));
    CoveredMore(Left(cs, draws, x), Found(cs, draws, x + 1), d, Found(cs, draws, x + 1));
    LeftFacts(cs, draws, x + 1);
    var lost := if Loses(cs, x + 1) then WithoutCalls(Found(cs, draws, x + 1)) else Found(cs, draws, x + 1);
    CoveredSame(d, lost, Left(cs, draws, x + 1));
  }

  lemma FewerCalls(c: Content, allowed: seq<string>)
    ensures multiset(CallIds(Answering(c, allowed))) <= multiset(CallIds(c))
    ensures CallIds(Answering(c, allowed)) != [] ==> CallIds(c) != []
  {
    FilteredFewer(c.parts, Response, allowed, Call);
    if CallIds(Answering(c, allowed)) != [] {
      FewerIds(c.parts, Response, allowed, Call, CallIds(Answering(c, allowed))[0]);
    }
  }

  lemma CoveredSame(last: Content, c: Content, d: Content)
    requires ResponseIds(d) == ResponseIds(c)
    ensures Covered(last, c) <==> Covered(last, d)
  {
  }

  /** The calls of a kept model message are answered directly after it if and only if the message they
      were paired with does not lose its own calls, or what comes next after this loss answers them. */
  lemma AnsweredExactly(cs: seq<Content>, draws: Draws, k: nat)
    requires var r := Paired(cs, draws); k < |r.kept| && r.kept[k].role == MODEL && CallIds(r.kept[k]) != []
    ensures var r := Paired(cs, draws); var y := r.from[k] + 1;
            && y < |cs| && (CoveredAt(r.kept, k) <==> (Loses(cs, y) ==> Rescued(cs, draws, r.kept[k], y)))
            && (Spares(cs, draws, r.kept[k], y) ==> CoveredAt(r.kept, k))
  {
    hide Left, Found, Covered, CallIds, Kept, Named, LosesCalls;
    var r := Paired(cs, draws);
    var y := r.from[k] + 1;
    PairedWith(cs, draws, k);
    KeptAt(cs, draws, |cs|, k);
    RescuedIff(cs, draws, k, y);
    CoveredFiltered(r.kept[k], Left(cs, draws, y));
  }

  /** No two responses have the same id, as their rounds find them. */
  ghost predicate ResponsesUnique(cs: seq<Content>, draws: Draws) {
    && (forall y, id | 0 <= y < |cs| && id in ResponseIds(Found(cs, draws, y)) ::
          multiset(ResponseIds(Found(cs, draws, y)))[id] == 1)
    && (forall y, z, id | 0 <= y < |cs| && 0 <= z < |cs| && y != z && id in ResponseIds(Found(cs, draws, y)) ::
          id !in ResponseIds(Found(cs, draws, z)))
  }

  /** Without repeated response ids no other message can answer by chance: the calls are answered if and
      only if the message they were paired with, losing its own calls, keeps the responses to them. */
  lemma AnsweredWhenUnique(cs: seq<Content>, draws: Draws, k: nat)
    requires var r := Paired(cs, draws); k < |r.kept| && r.kept[k].role == MODEL && CallIds(r.kept[k]) != []
    requires ResponsesUnique(cs, draws)
    ensures var r := Paired(cs, draws); var y := r.from[k] + 1;
            y < |cs| && (CoveredAt(r.kept, k) <==> Spares(cs, draws, r.kept[k], y))
  {
    hide Left, Found, Covered, CallIds, Kept, LosesCalls, ResponsesUnique;
    var r := Paired(cs, draws);
    AnsweredExactly(cs, draws, k);
    PairedWith(cs, draws, k);
    if CoveredAt(r.kept, k) && !Spares(cs, draws, r.kept[k], r.from[k] + 1) {
      var id := Uncovered(cs, draws, r.kept[k], r.from[k] + 1);
      NotElsewhere(cs, draws, k, id);
      CoversId(r.kept[k], r.kept[k + 1], id);
      assert false;
    }
  }

  lemma CoversId(c: Content, d: Content, id: string)
    requires Covered(c, d) && id in CallIds(c)
    ensures id in ResponseIds(d)
  {
    assert id in multiset(CallIds(c));
    assert id in multiset(ResponseIds(d));
  }

  /** A call whose only response went with the calls of message `y`. */
  lemma Uncovered(cs: seq<Content>, draws: Draws, last: Content, y: nat) returns (id: string)
    requires y < |cs| && ResponsesUnique(cs, draws)
    requires Covered(last, Found(cs, draws, y)) && !Covered(last, Left(cs, draws, y))
    ensures id in CallIds(last) && id in ResponseIds(Found(cs, draws, y)) && id !in ResponseIds(Left(cs, draws, y))
  {
    hide Left, Found;
    var calls, all, rest := multiset(CallIds(last)), multiset(ResponseIds(Found(cs, draws, y))),
      multiset(ResponseIds(Left(cs, draws, y)));
    id :| id in calls && calls[id] > rest[id];
    assert id in all && all[id] == 1;
  }

  lemma LeftResponses(cs: seq<Content>, draws: Draws, z: nat)
    requires z < |cs|
    ensures forall id | id in ResponseIds(Left(cs, draws, z)) :: id in ResponseIds(Found(cs, draws, z))
  {
    hide Left, Found, CallIds, ResponseIds, Derived, Tidy, Covered, LosesCalls;
    LeftFacts(cs, draws, z);
    forall id | id in ResponseIds(WithoutCalls(Found(cs, draws, z)))
      ensures id in ResponseIds(Found(cs, draws, z))
    {
      NoNewResponse(Found(cs, draws, z), id);
    }
  }

  lemma NoNewResponse(c: Content, id: string)
    requires id in ResponseIds(WithoutCalls(c))
    ensures id in ResponseIds(c)
  {
    FewerIds(c.parts, Call, [], Response, id);
  }

  lemma FewerIds(parts: seq<Part>, kind: Kind, allowed: seq<string>, other: Kind, id: string)
    requires id in Ids(Filtered(parts, kind, allowed), other)
    ensures id in Ids(parts, other)
  {
    FilteredFewer(parts, kind, allowed, other);
    assert id in multiset(Ids(Filtered(parts, kind, allowed), other));
    assert id in multiset(Ids(parts, other));
  }

  lemma NotElsewhere(cs: seq<Content>, draws: Draws, k: nat, id: string)
    requires ResponsesUnique(cs, draws)
    requires var r := Paired(cs, draws); k + 1 < |r.kept| && r.from[k] + 1 < |cs|
    requires var y := Paired(cs, draws).from[k] + 1;
             id in ResponseIds(Found(cs, draws, y)) && id !in ResponseIds(Left(cs, draws, y))
    ensures id !in ResponseIds(Paired(cs, draws).kept[k + 1])
  {
    hide Left, Found, ResponseIds, Kept, AllowedAfter;
    var r := Paired(cs, draws);
    var z := r.from[k + 1];
    KeptAt(cs, draws, |cs|, k + 1);
    LeftResponses(cs, draws, z);
    FewerResponses(Left(cs, draws, z), AllowedAfter(r.kept[..k + 1]), id);
  }

  lemma FewerResponses(c: Content, allowed: seq<string>, id: string)
    ensures id in ResponseIds(Answering(c, allowed)) ==> id in ResponseIds(c)
  {
    if id in ResponseIds(Answering(c, allowed)) {
      FewerIds(c.parts, Response, allowed, Response, id);
    }
  }
}
