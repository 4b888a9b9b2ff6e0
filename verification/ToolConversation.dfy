/** The rewriting of a whole conversation for Claude (`normalizeClaudeContents`): what it guarantees for
    every conversation, when every call is answered, and when a second run changes nothing. */
module ToolConversation {
  import opened Prelude
  import opened ToolMessages
  import opened ToolMatching
  import opened ToolPairing
  import opened ToolAnswers

  /** The first `i` messages, arranged, without the empty ones. */
  function Arrange(cs: seq<Content>, i: nat): (r: Outcome)
    requires i <= |cs|
    ensures InOrder(r, i)
  {
    if i == 0 then Outcome([], [])
    else With(Arrange(cs, i - 1), cs[i - 1].(parts := Arranged(cs[i - 1])), i - 1)
  }

  function Trimmed(cs: seq<Content>): seq<Content> {
    if cs != [] && Last(cs).role == MODEL then Trimmed(Front(cs)) else cs
  }

  function Arrangement(contents: seq<Content>): Outcome {
    Arrange(contents, |contents|)
  }

  /** The whole rewriting. */
  function Normalized(contents: seq<Content>, draws: Draws): seq<Content> {
    Trimmed(Paired(Arrangement(contents).kept, draws).kept)
  }

  method NormalizeClaudeContents(contents: seq<Content>, draws: Draws) returns (out: seq<Content>)
    ensures out == Normalized(contents, draws)
  {
    hide Arranged, Kept;
    var normalized := [];
    for i := 0 to |contents|
      invariant normalized == Arrange(contents, i).kept
    {
      var keep, content := NormalizeClaudeContent(contents[i]);
      if keep {
        normalized := normalized + [content];
      }
    }
    out := KeepPairedToolParts(normalized, draws);
    ghost var kept := out;
    while out != [] && Last(out).role == MODEL
      invariant Trimmed(out) == Trimmed(kept)
    {
      out := Front(out);
    }
  }

  // ---------- The whole conversation ----------

  lemma {:induction false} TrimmedFacts(cs: seq<Content>)
    ensures Trimmed(cs) <= cs && (Trimmed(cs) != [] ==> Last(Trimmed(cs)).role != MODEL)
    ensures forall k | |Trimmed(cs)| <= k < |cs| :: cs[k].role == MODEL
  {
    if cs != [] && Last(cs).role == MODEL {
      TrimmedFacts(Front(cs));
    }
  }

  /** In the arranged conversation: the kept message `k` has no calls, or the message they were paired
      with does not lose its own, or what comes next after this loss answers them. */
  ghost predicate Secured(cs: seq<Content>, draws: Draws, k: nat)
    requires k < |Paired(cs, draws).kept|
  {
    var r := Paired(cs, draws);
    r.kept[k].role == MODEL && CallIds(r.kept[k]) != [] ==>
      r.from[k] + 1 < |cs| && (Loses(cs, r.from[k] + 1) ==> Rescued(cs, draws, r.kept[k], r.from[k] + 1))
  }

  /** For every conversation: all model calls in the result are answered directly after, if and only if
      every kept message that is not trimmed off is secured. */
  lemma EveryCallAnsweredIff(contents: seq<Content>, draws: Draws)
    ensures var cs := Arrangement(contents).kept; var out := Normalized(contents, draws);
            && |out| <= |Paired(cs, draws).kept|
            && (AllAnswered(out) <==>
                  forall k {:trigger Secured(cs, draws, k)} | 0 <= k < |out| :: Secured(cs, draws, k))
  {
    hide Rescued, CallIds, LosesCalls, Kept, Arrange;
    var cs := Arrangement(contents).kept;
    var r, out := Paired(cs, draws), Normalized(contents, draws);
    TrimmedFacts(r.kept);
    forall k | 0 <= k < |out|
      ensures CoveredAt(out, k) <==> Secured(cs, draws, k)
    {
      if r.kept[k].role == MODEL && CallIds(r.kept[k]) != [] {
        AnsweredExactly(cs, draws, k);
      }
    }
  }

  /** The same with the condition on the message that answers alone. */
  ghost predicate Spared(cs: seq<Content>, draws: Draws, k: nat)
    requires k < |Paired(cs, draws).kept|
  {
    var r := Paired(cs, draws);
    r.kept[k].role == MODEL && CallIds(r.kept[k]) != [] ==>
      r.from[k] + 1 < |cs| && Spares(cs, draws, r.kept[k], r.from[k] + 1)
  }

  /** If no two responses have the same id: all model calls in the result are answered directly after, if
      and only if no message that loses its calls loses with them a response that a kept call needs. */
  lemma EveryCallAnsweredWhenUnique(contents: seq<Content>, draws: Draws)
    requires ResponsesUnique(Arrangement(contents).kept, draws)
    ensures var cs := Arrangement(contents).kept; var out := Normalized(contents, draws);
            && |out| <= |Paired(cs, draws).kept|
            && (AllAnswered(out) <==> forall k {:trigger Spared(cs, draws, k)} | 0 <= k < |out| :: Spared(cs, draws, k))
  {
    hide Rescued, Spares, CallIds, LosesCalls, Kept, Arrange, ResponsesUnique;
    var cs := Arrangement(contents).kept;
    var r, out := Paired(cs, draws), Normalized(contents, draws);
    TrimmedFacts(r.kept);
    forall k | 0 <= k < |out|
      ensures CoveredAt(out, k) <==> Spared(cs, draws, k)
    {
      if r.kept[k].role == MODEL && CallIds(r.kept[k]) != [] {
        AnsweredWhenUnique(cs, draws, k);
      }
    }
  }

  /** Enough for this: no message that loses its calls has parts that are call and response. */
  lemma AnsweredIfLosersExclusive(contents: seq<Content>, draws: Draws)
    requires var cs := Arrangement(contents).kept; forall y | 0 <= y < |cs| && Loses(cs, y) :: Exclusive(cs[y].parts)
    ensures AllAnswered(Normalized(contents, draws))
  {
    hide Rescued, CallIds, LosesCalls, Kept, Arrange, Covered, Exclusive, Found, Left, ResponseIds;
    var cs := Arrangement(contents).kept;
    var r, out := Paired(cs, draws), Normalized(contents, draws);
    TrimmedFacts(r.kept);
    forall k | 0 <= k < |out|
      ensures CoveredAt(out, k)
    {
      if r.kept[k].role == MODEL && CallIds(r.kept[k]) != [] {
        var y := r.from[k] + 1;
        PairedWith(cs, draws, k);
        if Loses(cs, y) {
          ExclusiveKeepsResponses(cs, draws, y);
          CoveredSame(r.kept[k], Found(cs, draws, y), WithoutCalls(Found(cs, draws, y)));
        }
        AnsweredExactly(cs, draws, k);
      }
    }
  }

  lemma ExclusiveKeepsResponses(cs: seq<Content>, draws: Draws, y: nat)
    requires y < |cs| && Exclusive(cs[y].parts)
    ensures ResponseIds(WithoutCalls(Found(cs, draws, y))) == ResponseIds(Found(cs, draws, y))
  {
    hide Found;
    FoundFacts(cs, draws, y);
    ResponsesFilled(cs[y], Found(cs, draws, y));
    DerivedExclusive(cs[y], Found(cs, draws, y));
    FilteredOther(Found(cs, draws, y).parts, Call, [], Response);
  }

  /** A conversation as the rewriting leaves it when every call is answered. */
  ghost predicate Settled(cs: seq<Content>) {
    OutOk(cs) && AllAnswered(cs) && (forall c | c in cs :: Tidy(c)) && (cs != [] ==> Last(cs).role != MODEL)
  }

  lemma NothingCollected(contents: seq<Content>)
    ensures Collected(contents, 0, [], [])
  {
  }

  lemma {:induction false} ArrangeFacts(contents: seq<Content>, i: nat)
    requires i <= |contents|
    ensures var r := Arrange(contents, i); Collected(contents, i, r.kept, r.from)
  {
    hide Arranged, Tidy, Collected;
    if i == 0 {
      NothingCollected(contents);
    } else {
      ArrangeFacts(contents, i - 1);
      var r := Arrange(contents, i - 1);
      CollectNext(contents, i - 1, r.kept, r.from, contents[i - 1].(parts := Arranged(contents[i - 1])));
    }
  }

  /** For every conversation: each response left answers a call of the message directly before it, no
      message is empty, the parts are in order, and the last message is not the model's. So it is settled
      exactly when every call is answered. */
  lemma NormalizedFacts(contents: seq<Content>, draws: Draws)
    ensures var out := Normalized(contents, draws);
            && OutOk(out) && (forall c | c in out :: Tidy(c)) && (out != [] ==> Last(out).role != MODEL)
            && (Settled(out) <==> AllAnswered(out))
  {
    hide Tidy, Arranged, CoveredAt, Kept, Arrange;
    var n := Arrangement(contents);
    var out, kept := Normalized(contents, draws), Paired(n.kept, draws).kept;
    ArrangeFacts(contents, |contents|);
    KeptFacts(n.kept, draws, |n.kept|);
    TrimmedFacts(kept);
    PrefixOk(kept, out);
  }

  lemma PrefixOk(kept: seq<Content>, out: seq<Content>)
    requires OutOk(kept) && out <= kept
    ensures OutOk(out)
  {
    forall k | 0 <= k < |out|
      ensures AnsweredAt(out, k)
    {
      assert AnsweredAt(kept, k);
    }
  }

  /** `d` is what is left of `c`: its parts arranged, calls and responses possibly gone or given an id. */
  ghost predicate LeftOf(c: Content, d: Content) {
    Derived(c.(parts := Arranged(c)), d)
  }

  /** Messages without plain parts may be gone, and model messages at the end. */
  ghost predicate MayGo(contents: seq<Content>, x: nat, from: seq<nat>)
    requires x < |contents|
  {
    Plain(Arranged(contents[x])) == [] || (contents[x].role == MODEL && forall k | 0 <= k < |from| :: from[k] < x)
  }

  ghost predicate TracedAll(contents: seq<Content>, out: seq<Content>, from: seq<nat>) {
    && |from| == |out| && (forall k, l | 0 <= k < l < |from| :: from[k] < from[l])
    && (forall k | 0 <= k < |from| :: from[k] < |contents| && LeftOf(contents[from[k]], out[k]))
    && (forall x | 0 <= x < |contents| && x !in from :: MayGo(contents, x, from))
  }

  /** The messages that have parts, arranged. */
  ghost predicate Collected(contents: seq<Content>, i: nat, normalized: seq<Content>, at: seq<nat>) {
    && i <= |contents| && |at| == |normalized|
    && (forall k, l | 0 <= k < l < |at| :: at[k] < at[l])
    && (forall k | 0 <= k < |at| :: at[k] < i && normalized[k] == contents[at[k]].(parts := Arranged(contents[at[k]])))
    && (forall x | 0 <= x < i && x !in at :: Arranged(contents[x]) == [])
    && (forall c | c in normalized :: Tidy(c) && c.parts != [])
  }

  lemma CollectNext(contents: seq<Content>, i: nat, normalized: seq<Content>, at: seq<nat>, d: Content)
    requires Collected(contents, i, normalized, at) && i < |contents|
             && d == contents[i].(parts := Arranged(contents[i]))
    ensures d.parts != [] ==> Collected(contents, i + 1, normalized + [d], at + [i])
    ensures d.parts == [] ==> Collected(contents, i + 1, normalized, at)
  {
    hide Tidy, Arranged;
    ArrangedIsTidy(contents[i]);
    if d.parts != [] {
      assert forall x | x in at :: x in at + [i];
      assert (at + [i])[|at|] == i;
    }
  }

  lemma TraceBackOk(contents: seq<Content>, normalized: seq<Content>, at: seq<nat>, out: seq<Content>, from: seq<nat>)
    requires Collected(contents, |contents|, normalized, at) && Traced(normalized, |normalized|, out, from)
    ensures TracedAll(contents, out, TraceBack(contents, normalized, at, out, from))
  {
    hide Tidy, Derived, Plain, Arranged;
    var all := TraceBack(contents, normalized, at, out, from);
    forall x | 0 <= x < |contents| && x !in all
      ensures MayGo(contents, x, all)
    {
      GoneIsPlain(contents, normalized, at, out, from, all, x);
    }
  }

  lemma GoneIsPlain(contents: seq<Content>, normalized: seq<Content>, at: seq<nat>, out: seq<Content>, from: seq<nat>,
                    all: seq<nat>, x: nat)
    requires Collected(contents, |contents|, normalized, at) && Traced(normalized, |normalized|, out, from)
    requires all == TraceBack(contents, normalized, at, out, from) && x < |contents| && x !in all
    ensures Plain(Arranged(contents[x])) == []
  {
    hide Derived, Arranged, Settled, Tidy;
    if x in at {
      var y :| 0 <= y < |at| && at[y] == x;
      forall k | 0 <= k < |from|
        ensures from[k] != y
      {
        assert all[k] in all;
      }
    }
  }

  ghost function TraceBack(contents: seq<Content>, normalized: seq<Content>, at: seq<nat>, out: seq<Content>,
                           from: seq<nat>): seq<nat>
    requires Collected(contents, |contents|, normalized, at) && Traced(normalized, |normalized|, out, from)
  {
    seq(|from|, k requires 0 <= k < |from| => at[from[k]])
  }

  /** Where the messages of the result come from. */
  ghost function Origins(contents: seq<Content>, draws: Draws): seq<nat> {
    var n := Arrangement(contents);
    var r := Paired(n.kept, draws);
    seq(|r.from|, k requires 0 <= k < |r.from| => n.from[r.from[k]])
  }

  /** For every conversation: each message left is its own message, arranged, with calls and responses
      possibly gone or given ids; only messages without other parts, and model messages at the end, go. */
  lemma NothingElseLost(contents: seq<Content>, draws: Draws)
    ensures var out := Normalized(contents, draws);
            |out| <= |Origins(contents, draws)| && TracedAll(contents, out, Origins(contents, draws)[..|out|])
  {
    hide Kept, Arrange, TracedAll, Collected, Traced, OutOk, Tidy;
    var n := Arrangement(contents);
    var r := Paired(n.kept, draws);
    ArrangeFacts(contents, |contents|);
    KeptFacts(n.kept, draws, |n.kept|);
    TraceBackOk(contents, n.kept, n.from, r.kept, r.from);
    assert TraceBack(contents, n.kept, n.from, r.kept, r.from) == Origins(contents, draws);
    TrimmedTrace(contents, r.kept, Origins(contents, draws));
  }

  lemma {:induction false} TrimmedTrace(contents: seq<Content>, kept: seq<Content>, from: seq<nat>)
    requires TracedAll(contents, kept, from)
    ensures |Trimmed(kept)| <= |from| && TracedAll(contents, Trimmed(kept), from[..|Trimmed(kept)|])
    decreases |kept|
  {
    hide TracedAll;
    TracedLength(contents, kept, from);
    if kept != [] && Last(kept).role == MODEL {
      TrimTrace(contents, kept, from);
      TrimmedTrace(contents, Front(kept), Front(from));
      TrimmedFacts(Front(kept));
      assert from[..|Trimmed(kept)|] == Front(from)[..|Trimmed(kept)|];
    } else {
      assert from[..|kept|] == from;
    }
  }

  lemma TracedLength(contents: seq<Content>, kept: seq<Content>, from: seq<nat>)
    requires TracedAll(contents, kept, from)
    ensures |from| == |kept|
  {
  }

  lemma TrimTrace(contents: seq<Content>, out: seq<Content>, from: seq<nat>)
    requires TracedAll(contents, out, from) && out != [] && Last(out).role == MODEL
    ensures |from| == |out| && TracedAll(contents, Front(out), Front(from))
  {
    hide SubFill, Arranged, Plain;
    var x := Last(from);
    forall y | 0 <= y < |contents| && y !in Front(from)
      ensures MayGo(contents, y, Front(from))
    {
      assert from == Front(from) + [x];
      if y != x {
        assert MayGo(contents, y, from);
      }
    }
  }

  /** The same in the fields of the parts, for those without call and response. Of each message left
      remain, in their order, those with text or inline data and no thought key and the thoughts with text
      and signature, which a model message has first. A message with such a part is left, unless it is the
      model's and nothing after it is left. */
  lemma PlainPartsKept(contents: seq<Content>, draws: Draws)
    ensures var out, from := Normalized(contents, draws), Origins(contents, draws);
            && |out| <= |from| && (forall k, l | 0 <= k < l < |out| :: from[k] < from[l])
            && (forall k | 0 <= k < |out| ::
                  && from[k] < |contents|
                  && var c := contents[from[k]];
                     && out[k].role == c.role
                     && Plain(out[k].parts)
                        == if c.role == "model" then
                             Select(c.parts, (p: Part) => p.call.None? && p.response.None?
                                                          && p.thought && p.text != "" && p.signature != "")
                             + Select(c.parts, (p: Part) => p.call.None? && p.response.None?
                                                            && !p.thought && (p.text != "" || p.inline))
                           else
                             Select(c.parts, (p: Part) => p.call.None? && p.response.None?
                                                          && (if p.thought then p.text != "" && p.signature != ""
                                                              else p.text != "" || p.inline)))
            && (forall x, p | 0 <= x < |contents| && p in contents[x].parts && p.call.None? && p.response.None?
                              && (if p.thought then p.text != "" && p.signature != "" else p.text != "" || p.inline)
                              && x !in from[..|out|] ::
                  contents[x].role == "model" && forall k | 0 <= k < |out| :: from[k] < x)
  {
    hide Normalized, Origins, Arranged, Plain, Select, SubFill;
    NothingElseLost(contents, draws);
    var out, from := Normalized(contents, draws), Origins(contents, draws);
    assert forall k | 0 <= k < |out| :: from[..|out|][k] == from[k];
    assert forall k | 0 <= k < |out| :: from[k] < |contents| && LeftOf(contents[from[k]], out[k]);
    forall x | 0 <= x < |contents| {
      PlainByFields(contents[x]);
    }
    forall x, p | 0 <= x < |contents| && p in contents[x].parts && p.call.None? && p.response.None?
                  && (if p.thought then p.text != "" && p.signature != "" else p.text != "" || p.inline)
                  && x !in from[..|out|]
      ensures contents[x].role == "model" && forall k | 0 <= k < |out| :: from[k] < x
    {
      assert MayGo(contents, x, from[..|out|]);
      PlainIsArranged(contents[x], p);
    }
  }

  lemma PlainIsArranged(c: Content, p: Part)
    requires p in c.parts && HasPayload(p) && p.call.None? && p.response.None?
    ensures Plain(Arranged(c)) != []
  {
    assert p in AtPlace(c.role, c.parts, Place(c.role, p));
    PlainListed(Arranged(c), p);
  }

  lemma {:induction false} PlainListed(parts: seq<Part>, p: Part)
    requires p in parts && p.call.None? && p.response.None?
    ensures p in Plain(parts)
  {
    assert parts == Front(parts) + [Last(parts)];
    if p != Last(parts) {
      PlainListed(Front(parts), p);
    }
  }

  /** No part left is empty, and in the model's messages signed thoughts come first and calls last. */
  lemma PartsInOrder(contents: seq<Content>, draws: Draws)
    ensures var out := Normalized(contents, draws);
            && (forall c, p | c in out && p in c.parts ::
                  if p.thought then p.text != "" && p.signature != ""
                  else p.text != "" || p.call.Some? || p.response.Some? || p.inline)
            && (forall c, i, j | c in out && c.role == "model" && 0 <= i < j < |c.parts| ::
                  && (c.parts[i].call.Some? ==> c.parts[j].call.Some?)
                  && (c.parts[j].thought && c.parts[j].call.None? ==> c.parts[i].thought && c.parts[i].call.None?))
  {
    hide Normalized, OutOk, AllAnswered;
    NormalizedFacts(contents, draws);
    forall c, i, j | c in Normalized(contents, draws) && c.role == "model" && 0 <= i < j < |c.parts|
      ensures c.parts[i].call.Some? ==> c.parts[j].call.Some?
      ensures c.parts[j].thought && c.parts[j].call.None? ==> c.parts[i].thought && c.parts[i].call.None?
    {
      assert Tidy(c) && c.parts[i] in c.parts && c.parts[j] in c.parts;
    }
  }

  // ---------- A second run ----------

  lemma {:induction false} ArrangeStays(cs: seq<Content>, i: nat)
    requires i <= |cs| && forall c | c in cs :: Tidy(c) && c.parts != []
    ensures Arrange(cs, i).kept == cs[..i]
  {
    hide Arranged, Tidy;
    if i > 0 {
      ArrangeStays(cs, i - 1);
      TidyStays(cs[i - 1]);
      assert cs[..i] == cs[..i - 1] + [cs[i - 1]];
    }
  }

  lemma ArrangementStays(cs: seq<Content>)
    requires forall c | c in cs :: Tidy(c) && c.parts != []
    ensures Arrangement(cs).kept == cs
  {
    hide Arrange, Tidy;
    ArrangeStays(cs, |cs|);
    assert cs[..|cs|] == cs;
  }

  lemma {:induction false} PartIdListed(parts: seq<Part>, kind: Kind, p: Part)
    requires p in parts && Payload(p, kind).Some?
    ensures Payload(p, kind).value.id in Ids(parts, kind)
  {
    assert parts == Front(parts) + [Last(parts)];
    if p in Front(parts) {
      PartIdListed(Front(parts), kind, p);
    }
  }

  /** In a settled conversation nothing is filtered out and no ids are missing. */
  lemma SettledKeeps(cs: seq<Content>, y: nat)
    requires Settled(cs) && y < |cs|
    ensures Filtered(cs[y].parts, Response, AllowedAfter(cs[..y])) == cs[y].parts && cs[y].parts != []
    ensures cs[y].role == MODEL && CallIds(cs[y]) != [] ==>
              y + 1 < |cs| && Covered(cs[y], cs[y + 1]) && AllNamed(ResponseIds(cs[y + 1]))
  {
    assert AnsweredAt(cs, y) && CoveredAt(cs, y);
    assert y > 0 ==> Last(cs[..y]) == cs[y - 1];
    forall p | p in cs[y].parts && p.response.Some?
      ensures p.response.value.id in AllowedAfter(cs[..y])
    {
      PartIdListed(cs[y].parts, Response, p);
      assert p.response.value.id in ResponseIds(cs[y]);
      assert cs[..y] != [];
    }
    if y + 1 < |cs| {
      assert AnsweredAt(cs, y + 1);
    }
  }

  lemma {:induction false} KeptStays(cs: seq<Content>, draws: Draws, i: nat)
    requires Settled(cs) && i <= |cs|
    ensures Kept(cs, draws, i).kept == cs[..i] && (i < |cs| ==> Found(cs, draws, i) == cs[i])
  {
    hide Settled, Filtered, AllowedAfter, Covered, AllNamed, CallIds, Settle;
    if i > 0 {
      var y := i - 1;
      KeptStays(cs, draws, y);
      SettledKeeps(cs, y);
      SettleKeeps(cs[y], NextOf(cs, y), draws(y));
      assert cs[..i] == cs[..y] + [cs[y]];
    }
  }

  lemma SettleKeeps(c: Content, next: Option<Content>, uuids: Uuids)
    requires c.role == MODEL && CallIds(c) != [] ==>
               next.Some? && Covered(c, next.value) && AllNamed(ResponseIds(next.value))
    ensures Settle(c, next, uuids) == Settlement(c, next)
  {
    hide Covered, AllNamed, PairUp;
    SettleFacts(c, next, uuids);
    IdsByPosition(c.parts, Call);
  }

  /** What is settled is left as it is. */
  lemma SettledStays(cs: seq<Content>, draws: Draws)
    requires Settled(cs)
    ensures Normalized(cs, draws) == cs
  {
    hide Kept, Arrange, Tidy, AnsweredAt, CoveredAt;
    ArrangementStays(cs);
    KeptStays(cs, draws, |cs|);
    assert cs[..|cs|] == cs;
  }

  lemma {:induction false} FilledNamed(ps: seq<Part>, qs: seq<Part>)
    requires FilledKind(ps, qs, Response) && AllNamed(Ids(ps, Response))
    ensures Ids(qs, Response) == Ids(ps, Response)
  {
    if ps != [] {
      assert Filled(Last(ps), Last(qs));
      assert forall id | id in Ids(Front(ps), Response) :: id in Ids(ps, Response);
      assert Last(ps).response.Some? ==> Last(ps).response.value.id in Ids(ps, Response);
      FilledNamed(Front(ps), Front(qs));
    }
  }

  /** A run that keeps every message of named responses unchanged has found all calls answered. */
  lemma UnchangedAnswered(cs: seq<Content>, draws: Draws, k: nat)
    requires OutOk(cs) && Paired(cs, draws).kept == cs && k < |cs|
    ensures CoveredAt(cs, k)
  {
    hide Left, Found, Covered, CallIds, ResponseIds, Kept, Loses, LosesCalls, Rescued, OutOk;
    if cs[k].role == MODEL && CallIds(cs[k]) != [] {
      PairedWith(cs, draws, k);
      KeptAt(cs, draws, |cs|, k);
      var x := Paired(cs, draws).from[k];
      KeptGrows(cs, draws, x, |cs|);
      assert x == k;
      FoundFacts(cs, draws, k + 1);
      ResponsesNamed(cs, k + 1);
      SameResponses(cs[k + 1], Found(cs, draws, k + 1));
      CoveredSame(cs[k], cs[k + 1], Found(cs, draws, k + 1));
    }
  }

  lemma ResponsesNamed(cs: seq<Content>, k: nat)
    requires OutOk(cs) && k < |cs|
    ensures AllNamed(ResponseIds(cs[k]))
  {
    assert AnsweredAt(cs, k);
  }

  lemma SameResponses(c: Content, d: Content)
    requires FilledKind(c.parts, d.parts, Response) && AllNamed(ResponseIds(c))
    ensures ResponseIds(d) == ResponseIds(c)
  {
    FilledNamed(c.parts, d.parts);
  }

  /** Normalising twice is normalising once, if and only if the first result has every call answered. */
  lemma NormalizeTwice(contents: seq<Content>, draws: Draws, draws': Draws)
    ensures var once := Normalized(contents, draws);
            Normalized(once, draws') == once <==> AllAnswered(once)
  {
    hide Kept, Arrange, Tidy, AnsweredAt, CoveredAt, Settled;
    var once := Normalized(contents, draws);
    NormalizedFacts(contents, draws);
    if AllAnswered(once) {
      SettledStays(once, draws');
    }
    if Normalized(once, draws') == once {
      ArrangementStays(once);
      TrimmedFacts(Paired(once, draws').kept);
      forall k | 0 <= k < |once|
        ensures CoveredAt(once, k)
      {
        UnchangedAnswered(once, draws', k);
      }
    }
  }

  // ---------- What answered means for the parts ----------

  lemma {:induction false} ListedIdHasPart(parts: seq<Part>, kind: Kind, id: string) returns (p: Part)
    requires id in Ids(parts, kind)
    ensures p in parts && Payload(p, kind).Some? && Payload(p, kind).value.id == id
  {
    assert parts == Front(parts) + [Last(parts)];
    if Payload(Last(parts), kind).Some? && Payload(Last(parts), kind).value.id == id {
      p := Last(parts);
    } else {
      p := ListedIdHasPart(Front(parts), kind, id);
    }
  }

  /** Every call of the model is answered in the next message. */
  lemma EveryCallAnswered(cs: seq<Content>, k: nat, p: Part) returns (q: Part)
    requires AllAnswered(cs) && k < |cs| && cs[k].role == MODEL && p in cs[k].parts && p.call.Some?
    ensures p.call.value.id != "" && k + 1 < |cs|
    ensures q in cs[k + 1].parts && q.response.Some? && q.response.value.id == p.call.value.id
  {
    PartIdListed(cs[k].parts, Call, p);
    assert CoveredAt(cs, k) && p.call.value.id in CallIds(cs[k]);
    assert p.call.value.id in multiset(CallIds(cs[k]));
    assert p.call.value.id in multiset(ResponseIds(cs[k + 1]));
    q := ListedIdHasPart(cs[k + 1].parts, Response, p.call.value.id);
  }

  /** Every response answers a call of the message before it. */
  lemma EveryResponseAnswers(cs: seq<Content>, k: nat, q: Part) returns (p: Part)
    requires OutOk(cs) && k < |cs| && q in cs[k].parts && q.response.Some?
    ensures q.response.value.id != "" && k > 0
    ensures p in cs[k - 1].parts && p.call.Some? && p.call.value.id == q.response.value.id
  {
    PartIdListed(cs[k].parts, Response, q);
    assert AnsweredAt(cs, k) && q.response.value.id in ResponseIds(cs[k]);
    p := ListedIdHasPart(cs[k - 1].parts, Call, q.response.value.id);
  }

  // ---------- What goes wrong ----------

  function Text(role: string, text: string): Content {
    Content(role, [Part(text, false, "", false, None, None)])
  }

  function Tool(role: string, call: Option<Fn>, response: Option<Fn>): Content {
    Content(role, [Part("", false, "", false, call, response)])
  }

  lemma OnePart(c: Content, kind: Kind)
    requires |c.parts| == 1
    ensures var p := Payload(c.parts[0], kind);
            && Ids(c.parts, kind) == (if p.Some? then [p.value.id] else [])
            && Positions(c.parts, kind) == (if p.Some? then [0] else [])
  {
    assert c.parts == [] + [c.parts[0]] && Front(c.parts) == [] && Last(c.parts) == c.parts[0];
  }

  lemma OneFiltered(c: Content, kind: Kind, allowed: seq<string>)
    requires |c.parts| == 1
    ensures Filtered(c.parts, kind, allowed) == if KeepsPart(c.parts[0], kind, allowed) then c.parts else []
  {
    assert c.parts == [] + [c.parts[0]] && Front(c.parts) == [] && Last(c.parts) == c.parts[0];
  }

  /** The call of a one-part message, answered by id by a one-part message. */
  lemma Answered(c: Content, d: Content, uuids: Uuids)
    requires |c.parts| == |d.parts| == 1 && c.role == MODEL && c.parts[0].call.Some? && d.parts[0].response.Some?
    requires c.parts[0].call.value.id == d.parts[0].response.value.id != ""
    ensures Settle(c, Some(d), uuids) == Settlement(c, Some(d)) && !LosesCalls(c, Some(d)) && Covered(c, d)
  {
    hide LosesCalls, Settle, Pairs;
    OneCovers(c, d);
    SettleKeeps(c, Some(d), uuids);
    SettleFacts(c, Some(d), uuids);
  }

  lemma OneCovers(c: Content, d: Content)
    requires |c.parts| == |d.parts| == 1 && c.parts[0].call.Some? && d.parts[0].response.Some?
    requires c.parts[0].call.value.id == d.parts[0].response.value.id != ""
    ensures Covered(c, d) && AllNamed(ResponseIds(d))
  {
    OnePart(c, Call);
    OnePart(d, Response);
  }

  /** The call of a one-part message finds no response in a one-part message. */
  lemma Unanswered(c: Content, d: Content, uuids: Uuids)
    requires |c.parts| == |d.parts| == 1 && c.role == MODEL && c.parts[0].call.Some?
    requires d.parts[0].response.Some? ==> !FunctionPartsMatch(c.parts[0].call.value, d.parts[0].response.value)
    ensures Settle(c, Some(d), uuids) == Settlement(c.(parts := []), Some(d)) && LosesCalls(c, Some(d))
  {
    hide PairUp, Positions, Filtered, FunctionPartsMatch;
    OnePart(c, Call);
    OneFiltered(c, Call, []);
    PairFails(c, d, uuids);
    PairUpFacts(c, d, uuids);
  }

  lemma PairFails(c: Content, d: Content, uuids: Uuids)
    requires |c.parts| == |d.parts| == 1 && c.parts[0].call.Some?
    requires d.parts[0].response.Some? ==> !FunctionPartsMatch(c.parts[0].call.value, d.parts[0].response.value)
    ensures PairUp(c, d, uuids) == Pairing(false, c.parts, d.parts)
  {
    hide PairFrom, Positions, FunctionPartsMatch;
    OnePart(c, Call);
    OnePart(d, Response);
    PairStep(FunctionParts(c, Call), FunctionParts(d, Response), Positions(c.parts, Call), Positions(d.parts, Response),
             0,
             c.parts, d.parts, seq(|Positions(d.parts, Response)|, i => false), uuids);
  }

  /** One round, given what settling makes of its message. */
  lemma RoundOf(cs: seq<Content>, draws: Draws, y: nat, l: Content, next: Option<Content>)
    requires y < |cs| && Settle(Found(cs, draws, y), NextOf(cs, y), draws(y)) == Settlement(l, next)
    requires l.parts == [] || (|l.parts| == 1 && KeepsPart(l.parts[0], Response, AllowedAfter(Kept(cs, draws, y).kept)))
    ensures y + 1 < |cs| ==> next.Some? && Found(cs, draws, y + 1) == next.value
    ensures Kept(cs, draws, y + 1).kept == Kept(cs, draws, y).kept + if l.parts == [] then [] else [l]
  {
    hide Settle, AllowedAfter, Found;
    var allowed := AllowedAfter(Kept(cs, draws, y).kept);
    assert l == Left(cs, draws, y);
    if l.parts == [] {
      NothingFiltered(l.parts, Response, allowed);
    } else {
      OneFiltered(l, Response, allowed);
    }
    KeptNext(cs, draws, y);
    if y + 1 < |cs| {
      FoundNext(cs, draws, y);
    }
  }

  lemma FoundNext(cs: seq<Content>, draws: Draws, y: nat)
    requires y + 1 < |cs|
    ensures Found(cs, draws, y + 1) == Settle(Found(cs, draws, y), NextOf(cs, y), draws(y)).next.value
  {
  }

  lemma OneTidy(c: Content)
    requires |c.parts| == 1 && HasPayload(c.parts[0])
    ensures Tidy(c) && c.parts != []
  {
  }

  function Calling(): Content {
    Tool(MODEL, Some(Fn("f", "x")), None)
  }

  /** One part that answers the call of `Calling` and is a call itself. */
  function Both(): Content {
    Tool(MODEL, Some(Fn("g", "y")), Some(Fn("f", "x")))
  }

  /** The start of a conversation whose second message answers the first and then loses its own call. */
  lemma AnswerLost(cs: seq<Content>, draws: Draws)
    requires |cs| == 3 && cs[0] == Calling() && cs[1] == Both() && |cs[2].parts| == 1 && cs[2].role != MODEL
    requires HasPayload(cs[2].parts[0])
    requires cs[2].parts[0].response.Some? ==> cs[2].parts[0].response.value == Fn("f", "x")
    ensures Arrangement(cs).kept == cs && Loses(cs, 1) && Found(cs, draws, 1) == Both()
    ensures Kept(cs, draws, 2).kept == [cs[0]] && Found(cs, draws, 2) == cs[2]
  {
    hide Settle, Tidy, AllowedAfter, Kept, Arrange, LosesCalls, Filtered;
    OneTidy(cs[0]);
    OneTidy(cs[1]);
    OneTidy(cs[2]);
    ArrangementStays(cs);
    Answered(cs[0], cs[1], draws(0));
    NothingKeptYet(cs, draws);
    RoundOf(cs, draws, 0, cs[0], Some(cs[1]));
    Unanswered(cs[1], cs[2], draws(1));
    RoundOf(cs, draws, 1, cs[1].(parts := []), Some(cs[2]));
  }

  lemma NothingKeptYet(cs: seq<Content>, draws: Draws)
    ensures Kept(cs, draws, 0).kept == []
  {
  }

  lemma LastRound(cs: seq<Content>, draws: Draws)
    requires |cs| >= 2 && |Last(cs).parts| == 1 && Last(cs).role != MODEL && Found(cs, draws, |cs| - 1) == Last(cs)
    requires KeepsPart(Last(cs).parts[0], Response, AllowedAfter(Kept(cs, draws, |cs| - 1).kept))
    ensures Trimmed(Paired(cs, draws).kept) == Kept(cs, draws, |cs| - 1).kept + [Last(cs)]
  {
    hide AllowedAfter, Found, Kept;
    RoundOf(cs, draws, |cs| - 1, Last(cs), None);
  }

  /** A conversation in which a kept call loses its answer, because the part that answers it is a call
      without a response. The second run then removes the call. */
  lemma AnswerLostForGood(draws: Draws, draws': Draws)
    ensures var cs := [Calling(), Both(), Text("user", "go on")]; var once := [cs[0], cs[2]];
            && Normalized(cs, draws) == once && !AllAnswered(once) && Normalized(once, draws') == [cs[2]]
  {
    hide Settle, Tidy, AllowedAfter, Kept, Arrange, LosesCalls, Found, Trimmed, Covered;
    var cs := [Calling(), Both(), Text("user", "go on")];
    var once := [cs[0], cs[2]];
    AnswerLost(cs, draws);
    LastRound(cs, draws);
    OneTidy(cs[0]);
    OneTidy(cs[2]);
    ArrangementStays(once);
    assert Found(once, draws', 0) == once[0] by { FoundFirst(once, draws'); }
    NothingKeptYet(once, draws');
    Unanswered(once[0], once[1], draws'(0));
    RoundOf(once, draws', 0, once[0].(parts := []), Some(once[1]));
    LastRound(once, draws');
    NormalizeTwice(cs, draws, draws');
  }

  lemma FoundFirst(cs: seq<Content>, draws: Draws)
    requires |cs| > 0
    ensures Found(cs, draws, 0) == cs[0]
  {
  }

  /** The same start, but the next message happens to repeat the response: it takes the place of the
      lost one. So sparing the responses is enough for an answer, and not needed for it. */
  lemma AnswerReplaced(draws: Draws)
    ensures var cs := [Calling(), Both(), Tool("user", None, Some(Fn("f", "x")))]; var out := [cs[0], cs[2]];
            && Normalized(cs, draws) == out && AllAnswered(out) && !Spares(cs, draws, cs[0], 1)
  {
    hide Settle, Tidy, Kept, Arrange, LosesCalls, Found, Trimmed, AllowedAfter, Covered, CallIds, WithoutCalls;
    var cs := [Calling(), Both(), Tool("user", None, Some(Fn("f", "x")))];
    AnswerLost(cs, draws);
    Allows(cs[0]);
    LastRound(cs, draws);
    OneCovers(cs[0], cs[2]);
    NotSpared();
  }

  lemma Allows(c: Content)
    requires |c.parts| == 1 && c.parts[0].call.Some? && c.parts[0].call.value.id != ""
    ensures AllowedAfter([c]) == [c.parts[0].call.value.id]
  {
    OnePart(c, Call);
    var ids := [c.parts[0].call.value.id];
    assert Last([c]) == c && CallIds(c) == ids;
    assert Front(ids) == [] && Last(ids) == c.parts[0].call.value.id;
    assert Named(ids) == Named([]) + ids;
  }

  lemma NotSpared()
    ensures !Covered(Calling(), WithoutCalls(Both()))
  {
    OnePart(Calling(), Call);
    OneFiltered(Both(), Call, []);
    assert "x" in multiset(CallIds(Calling()));
    assert ResponseIds(WithoutCalls(Both())) == [];
  }
}
