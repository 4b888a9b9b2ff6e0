/** Pairing of tool calls with tool responses in a whole Claude conversation
    (`normalizeClaudeContents`). */
module ToolPairing {
  import opened Prelude
  import opened ToolMessages
  import opened ToolMatching

  // ---------- What the loop computes ----------

  /** The strings drawn by `uuid.NewString`, by message and call. */
  type Draws = nat -> Uuids

  function Named(ids: seq<string>): (r: seq<string>)
    ensures forall id :: id in r <==> id in ids && id != ""
  {
    if ids == [] then []
    else
      assert ids == Front(ids) + [Last(ids)];
      Named(Front(ids)) + if Last(ids) != "" then [Last(ids)] else []
  }

  /** The response ids that may follow `out`. */
  function AllowedAfter(out: seq<Content>): seq<string> {
    if out == [] then [] else Named(CallIds(Last(out)))
  }

  function NextOf(cs: seq<Content>, y: nat): Option<Content> {
    if y + 1 < |cs| then Some(cs[y + 1]) else None
  }

  /** Message `y` as its round finds it: the round before may have given its responses ids. */
  function Found(cs: seq<Content>, draws: Draws, y: nat): Content
    requires y < |cs|
  {
    if y == 0 then cs[0] else Settle(Found(cs, draws, y - 1), NextOf(cs, y - 1), draws(y - 1)).next.value
  }

  /** Message `y` with its calls paired or removed. */
  function Left(cs: seq<Content>, draws: Draws, y: nat): Content
    requires y < |cs|
  {
    Settle(Found(cs, draws, y), NextOf(cs, y), draws(y)).content
  }

  function Answering(c: Content, allowed: seq<string>): Content {
    c.(parts := Filtered(c.parts, Response, allowed))
  }

  /** What round `y` leaves of its message when `out` has been kept before. */
  function Round(cs: seq<Content>, draws: Draws, y: nat, out: seq<Content>): Content
    requires y < |cs|
  {
    Answering(Left(cs, draws, y), AllowedAfter(out))
  }

  /** The messages kept, and which of the input each comes from. */
  datatype Outcome = Outcome(kept: seq<Content>, from: seq<nat>)

  /** One message or none per round, from the first `i` rounds, in order. */
  predicate InOrder(r: Outcome, i: nat) {
    && |r.kept| == |r.from| <= i
    && (forall k | 0 <= k < |r.from| :: r.from[k] < i)
    && forall k, l | 0 <= k < l < |r.from| :: r.from[k] < r.from[l]
  }

  function With(r: Outcome, d: Content, x: nat): (s: Outcome)
    ensures InOrder(r, x) ==> InOrder(s, x + 1)
  {
    if d.parts == [] then r else Outcome(r.kept + [d], r.from + [x])
  }

  /** The first `i` rounds of the loop in `keepPairedToolParts`. */
  function Kept(cs: seq<Content>, draws: Draws, i: nat): (r: Outcome)
    requires i <= |cs|
    ensures InOrder(r, i)
  {
    if i == 0 then Outcome([], [])
    else var r := Kept(cs, draws, i - 1); With(r, Round(cs, draws, i - 1, r.kept), i - 1)
  }

  function Paired(cs: seq<Content>, draws: Draws): Outcome {
    Kept(cs, draws, |cs|)
  }

  // ---------- The algorithm ----------

  /** Drops calls without responses and responses without calls, and gives paired ones the same id. */
  method KeepPairedToolParts(contents: seq<Content>, draws: Draws) returns (out: seq<Content>)
    ensures out == Paired(contents, draws).kept
  {
    hide Settle, Filtered, AllowedAfter;
    var cs := contents;
    out := [];
    for i := 0 to |contents|
      invariant |cs| == |contents| && out == Kept(contents, draws, i).kept
      invariant i < |cs| ==> cs[i] == Found(contents, draws, i)
      invariant forall j | i < j < |cs| :: cs[j] == contents[j]
    {
      var next := if i + 1 < |cs| then Some(cs[i + 1]) else None;
      var keep, content, next' := SettleCalls(cs[i], next, draws(i));
      assert content == Left(contents, draws, i);
      if next'.Some? {
        cs := cs[i + 1 := next'.value];
      }
      if !keep {
        NothingFiltered(content.parts, Response, AllowedAfter(out));
        continue;
      }
      keep, content := FilterFunctionParts(content, Response, AllowedAfter(out));
      if !keep {
        continue;
      }
      out := out + [content];
    }
  }

  // ---------- Every response answers, and nothing else is lost ----------

  /** Every response of message `k` answers a call of the message directly before. */
  predicate AnsweredAt(cs: seq<Content>, k: nat)
    requires k < |cs|
  {
    forall id | id in ResponseIds(cs[k]) :: id != "" && k > 0 && id in CallIds(cs[k - 1])
  }

  ghost predicate OutOk(out: seq<Content>) {
    && (forall k {:trigger AnsweredAt(out, k)} | 0 <= k < |out| :: AnsweredAt(out, k))
    && (forall c | c in out :: c.parts != [])
  }

  /** `from` tells which input message each output message comes from; only messages without plain
      parts are missing. */
  ghost predicate Traced(contents: seq<Content>, i: nat, out: seq<Content>, from: seq<nat>) {
    && i <= |contents| && |from| == |out|
    && (forall k, l | 0 <= k < l < |from| :: from[k] < from[l])
    && (forall k | 0 <= k < |from| :: from[k] < i && Derived(contents[from[k]], out[k]))
    && (forall x | 0 <= x < i && x !in from :: Plain(contents[x].parts) == [])
  }

  lemma AnsweredNext(out: seq<Content>, c: Content)
    requires OutOk(out) && c.parts != []
    requires forall id | id in ResponseIds(c) :: id in AllowedAfter(out)
    ensures OutOk(out + [c])
  {
    forall k | 0 <= k < |out| + 1
      ensures AnsweredAt(out + [c], k)
    {
      if k < |out| {
        assert AnsweredAt(out, k);
      }
    }
  }

  lemma FoundFacts(cs: seq<Content>, draws: Draws, y: nat)
    requires y < |cs|
    ensures Found(cs, draws, y).role == cs[y].role && FilledKind(cs[y].parts, Found(cs, draws, y).parts, Response)
  {
    hide Settle;
    if y == 0 {
      NothingFilled(cs[y].parts, Response);
    } else {
      SettleFacts(Found(cs, draws, y - 1), NextOf(cs, y - 1), draws(y - 1));
    }
  }

  /** The calls of message `y` do not all find responses in the message after it. */
  predicate Loses(cs: seq<Content>, y: nat)
    requires y < |cs|
  {
    LosesCalls(cs[y], NextOf(cs, y))
  }

  lemma SameCalls(c: Content, d: Content)
    requires FilledKind(c.parts, d.parts, Response)
    ensures CallIds(d) == CallIds(c) && FilledIn(c.parts, d.parts)
  {
    SameIds(c.parts, d.parts, Call);
  }

  /** Pairing looks at the calls of the first message and the responses of the second. */
  lemma PairsByCalls(c: Content, d: Content, e: Content)
    requires FilledKind(c.parts, d.parts, Response)
    ensures Pairs(c, e) == Pairs(d, e)
  {
    FilledPositions(c.parts, d.parts, Call);
    assert FunctionParts(c, Call) == FunctionParts(d, Call);
  }

  lemma LosesAsFound(cs: seq<Content>, draws: Draws, y: nat)
    requires y < |cs|
    ensures LosesCalls(Found(cs, draws, y), NextOf(cs, y)) == Loses(cs, y)
    ensures CallIds(Found(cs, draws, y)) == CallIds(cs[y])
  {
    hide Settle, Pairs, CallIds;
    FoundFacts(cs, draws, y);
    SameCalls(cs[y], Found(cs, draws, y));
    if y + 1 < |cs| {
      PairsByCalls(cs[y], Found(cs, draws, y), cs[y + 1]);
    }
  }

  /** What settling leaves of message `y`. */
  lemma LeftFacts(cs: seq<Content>, draws: Draws, y: nat)
    requires y < |cs|
    ensures var c, d := Found(cs, draws, y), Left(cs, draws, y);
            && d.role == cs[y].role && Derived(cs[y], d) && (Tidy(cs[y]) ==> Tidy(d))
            && (d.role == MODEL && CallIds(d) != [] ==> y + 1 < |cs| && Covered(d, Found(cs, draws, y + 1)))
            && (!Loses(cs, y) ==> ResponseIds(d) == ResponseIds(c) && |CallIds(d)| == |CallIds(cs[y])|)
            && (Loses(cs, y) ==> CallIds(d) == [] && ResponseIds(d) == ResponseIds(WithoutCalls(c)))
  {
    hide Settle, Pairs, CallIds, ResponseIds, Derived, Tidy, Covered, FilledKind, LosesCalls, WithoutCalls;
    var c, d := Found(cs, draws, y), Left(cs, draws, y);
    FoundFacts(cs, draws, y);
    LosesAsFound(cs, draws, y);
    SettleFacts(c, NextOf(cs, y), draws(y));
    ResponsesFilled(cs[y], c);
    DerivedTwice(cs[y], c, d);
    if !Loses(cs, y) {
      CallsFilled(c, d);
    }
  }

  lemma ResponsesFilled(c: Content, d: Content)
    requires d.role == c.role && FilledKind(c.parts, d.parts, Response)
    ensures Derived(c, d) && (Tidy(c) ==> Tidy(d))
  {
    DerivedFilled(c, d);
  }

  lemma CallsFilled(c: Content, d: Content)
    requires d.role == c.role && FilledKind(c.parts, d.parts, Call)
    ensures ResponseIds(d) == ResponseIds(c) && |CallIds(d)| == |CallIds(c)|
  {
    DerivedFilled(c, d);
    SameIds(c.parts, d.parts, Response);
  }

  lemma RoundFacts(cs: seq<Content>, draws: Draws, y: nat, out: seq<Content>)
    requires y < |cs|
    ensures var d := Round(cs, draws, y, out);
            && d.role == cs[y].role && Derived(cs[y], d) && (Tidy(cs[y]) ==> Tidy(d))
            && (OutOk(out) && d.parts != [] ==> OutOk(out + [d]))
  {
    hide Settle, Derived, Tidy, Covered, AllowedAfter, OutOk, Left, Found, LosesCalls, CallIds, ResponseIds;
    var c := Left(cs, draws, y);
    LeftFacts(cs, draws, y);
    FilteredDerived(c, Response, AllowedAfter(out));
    DerivedTwice(cs[y], c, Round(cs, draws, y, out));
    if Tidy(c) {
      FilteredTidy(c, Response, AllowedAfter(out));
    }
    if OutOk(out) {
      RoundAnswers(out, c, Round(cs, draws, y, out));
    }
  }

  lemma RoundAnswers(out: seq<Content>, c: Content, d: Content)
    requires OutOk(out) && d == c.(parts := Filtered(c.parts, Response, AllowedAfter(out)))
    ensures d.parts != [] ==> OutOk(out + [d])
  {
    hide AllowedAfter, OutOk;
    FilteredIds(c.parts, Response, AllowedAfter(out));
    if d.parts != [] {
      AnsweredNext(out, d);
    }
  }

  lemma TracedNext(contents: seq<Content>, i: nat, out: seq<Content>, from: seq<nat>, d: Content)
    requires Traced(contents, i, out, from) && i < |contents| && Derived(contents[i], d)
    ensures d.parts != [] ==> Traced(contents, i + 1, out + [d], from + [i])
    ensures d.parts == [] ==> Traced(contents, i + 1, out, from)
  {
  }

  /** For every conversation: each kept response answers a call of the message kept before it, nothing
      but calls and responses is lost, and tidy messages stay tidy. */
  lemma {:induction false} KeptFacts(cs: seq<Content>, draws: Draws, i: nat)
    requires i <= |cs|
    ensures var r := Kept(cs, draws, i);
            OutOk(r.kept) && Traced(cs, i, r.kept, r.from)
              && ((forall c | c in cs :: Tidy(c)) ==> forall d | d in r.kept :: Tidy(d))
  {
    hide Round, Derived, Tidy, OutOk, Traced;
    if i == 0 {
      NothingKept(cs);
    } else {
      KeptFacts(cs, draws, i - 1);
      var r := Kept(cs, draws, i - 1);
      RoundFacts(cs, draws, i - 1, r.kept);
      TracedNext(cs, i - 1, r.kept, r.from, Round(cs, draws, i - 1, r.kept));
      assert cs[i - 1] in cs;
    }
  }

  lemma NothingKept(cs: seq<Content>)
    ensures OutOk([]) && Traced(cs, 0, [], [])
  {
  }

  // ---------- Which rounds kept what ----------

  lemma KeptNext(cs: seq<Content>, draws: Draws, i: nat)
    requires i < |cs|
    ensures var r := Kept(cs, draws, i); Kept(cs, draws, i + 1) == With(r, Round(cs, draws, i, r.kept), i)
  {
  }

  lemma {:induction false} KeptGrows(cs: seq<Content>, draws: Draws, i: nat, j: nat)
    requires i <= j <= |cs|
    ensures var a, b := Kept(cs, draws, i), Kept(cs, draws, j);
            a.kept <= b.kept && a.from <= b.from && |b.kept| <= |a.kept| + (j - i)
            && forall k | |a.from| <= k < |b.from| :: i <= b.from[k]
    decreases j - i
  {
    hide Round;
    if i < j {
      KeptGrows(cs, draws, i, j - 1);
    }
  }

  /** Message `k` of the outcome is what its own round left, given what was kept before. */
  lemma {:induction false} KeptAt(cs: seq<Content>, draws: Draws, i: nat, k: nat)
    requires i <= |cs| && k < |Kept(cs, draws, i).kept|
    ensures var r := Kept(cs, draws, i); var x := r.from[k];
            && Kept(cs, draws, x).kept == r.kept[..k] && Kept(cs, draws, x + 1).kept == r.kept[..k + 1]
            && r.kept[k] == Round(cs, draws, x, r.kept[..k]) && r.kept[k].parts != []
  {
    hide Round, Kept;
    var r, s := Kept(cs, draws, i), Kept(cs, draws, i - 1);
    KeptNext(cs, draws, i - 1);
    if k < |s.kept| {
      KeptAt(cs, draws, i - 1, k);
      assert r.kept[..k] == s.kept[..k] && r.kept[..k + 1] == s.kept[..k + 1];
    } else {
      assert r.kept[..k] == s.kept && r.kept[..k + 1] == r.kept;
    }
  }

  // ---------- Which calls stay ----------

  /** The calls of the model's message `x` all find responses in the message after it. */
  ghost predicate CallsPair(cs: seq<Content>, x: nat)
    requires x < |cs|
  {
    CallIds(cs[x]) != [] && x + 1 < |cs| && Pairs(cs[x], cs[x + 1])
  }

  /** Settling keeps all calls of a model message or none, and all of them exactly if they pair with the
      next message. */
  lemma AllCallsOrNone(cs: seq<Content>, draws: Draws, x: nat)
    requires x < |cs| && cs[x].role == MODEL
    ensures |CallIds(Left(cs, draws, x))| == if CallsPair(cs, x) then |CallIds(cs[x])| else 0
  {
    hide Left, Pairs, Covered, Derived, Tidy, ResponseIds, CallIds, Found;
    LeftFacts(cs, draws, x);
  }

  /** Of a message without parts that are call and response, all calls that settling keeps are kept. */
  lemma SettledCallsStay(cs: seq<Content>, draws: Draws, x: nat)
    requires x < |cs| && Exclusive(cs[x].parts)
    ensures var r := Paired(cs, draws);
            && (CallIds(Left(cs, draws, x)) != [] ==> x in r.from)
            && forall k | 0 <= k < |r.from| && r.from[k] == x :: CallIds(r.kept[k]) == CallIds(Left(cs, draws, x))
  {
    hide Round, Left, Kept, Exclusive, CallIds;
    var r, s := Paired(cs, draws), Kept(cs, draws, x);
    ExclusiveRound(cs, draws, x, s.kept);
    KeptNext(cs, draws, x);
    KeptGrows(cs, draws, x + 1, |cs|);
    if CallIds(Left(cs, draws, x)) != [] {
      if Round(cs, draws, x, s.kept).parts == [] {
        NoCalls(Round(cs, draws, x, s.kept));
      }
      assert Kept(cs, draws, x + 1).from[|s.from|] == x && r.from[|s.from|] == x;
    }
    forall k | 0 <= k < |r.from| && r.from[k] == x
      ensures CallIds(r.kept[k]) == CallIds(Left(cs, draws, x))
    {
      KeptAt(cs, draws, |cs|, k);
    }
  }

  lemma ExclusiveRound(cs: seq<Content>, draws: Draws, x: nat, out: seq<Content>)
    requires x < |cs| && Exclusive(cs[x].parts)
    ensures CallIds(Round(cs, draws, x, out)) == CallIds(Left(cs, draws, x))
  {
    hide Left, AllowedAfter, CallIds, Filtered;
    LeftFacts(cs, draws, x);
    DerivedExclusive(cs[x], Left(cs, draws, x));
    FilteredCalls(Left(cs, draws, x), AllowedAfter(out));
  }

  lemma FilteredCalls(c: Content, allowed: seq<string>)
    requires Exclusive(c.parts)
    ensures CallIds(Answering(c, allowed)) == CallIds(c)
  {
    FilteredOther(c.parts, Response, allowed, Call);
  }

  lemma DerivedExclusive(c: Content, d: Content)
    requires Derived(c, d) && Exclusive(c.parts)
    ensures Exclusive(d.parts)
  {
    SubExclusive(d.parts, c.parts);
  }

  lemma {:induction false} SubExclusive(d: seq<Part>, c: seq<Part>)
    requires SubFill(d, c) && Exclusive(c)
    ensures Exclusive(d)
    decreases |c|
  {
    if d != [] {
      assert forall p | p in Front(c) :: p in c;
      if SubFill(d, Front(c)) {
        SubExclusive(d, Front(c));
      } else {
        SubExclusive(Front(d), Front(c));
        assert d == Front(d) + [Last(d)] && Last(c) in c;
      }
    }
  }

  lemma NoCalls(c: Content)
    requires c.parts == []
    ensures CallIds(c) == []
  {
  }
}
