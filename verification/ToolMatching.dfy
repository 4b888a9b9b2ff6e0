/** Matching the tool calls of one message with the responses of the next
    (`ensurePairedFunctionIDs`). */
module ToolMatching {
  import opened Prelude
  import opened ToolMessages

  predicate FunctionPartsMatch(call: Fn, response: Fn) {
    if call.id != "" then
      response.id == call.id || (response.id == "" && call.name != "" && call.name == response.name)
    else response.id == "" && call.name != "" && call.name == response.name
  }

  /** The ids of the responses that have been taken. */
  function Taken(ids: seq<string>, used: seq<bool>): (m: multiset<string>)
    requires |ids| == |used|
    ensures m <= multiset(ids)
  {
    if ids == [] then multiset{}
    else
      assert ids == Front(ids) + [Last(ids)];
      Taken(Front(ids), Front(used)) + if Last(used) then multiset{Last(ids)} else multiset{}
  }

  lemma {:induction false} TakeOne(ids: seq<string>, ids': seq<string>, used: seq<bool>, m: nat)
    requires |ids| == |ids'| == |used| && m < |ids| && !used[m]
    requires forall i | 0 <= i < |ids| && i != m :: ids'[i] == ids[i]
    ensures Taken(ids', used[m := true]) == Taken(ids, used) + multiset{ids'[m]}
  {
    hide Taken;
    var used' := used[m := true];
    TakenLast(ids, used);
    TakenLast(ids', used');
    if m == |ids| - 1 {
      assert Front(ids') == Front(ids) && Front(used') == Front(used);
    } else {
      TakeOne(Front(ids), Front(ids'), Front(used), m);
      assert Front(used') == Front(used)[m := true] && Last(used') == Last(used) && Last(ids') == Last(ids);
      MoveOne(Taken(Front(ids), Front(used)), if Last(used) then multiset{Last(ids)} else multiset{},
              multiset{ids'[m]});
    }
  }

  lemma MoveOne(a: multiset<string>, b: multiset<string>, c: multiset<string>)
    ensures (a + c) + b == (a + b) + c
  {
  }

  lemma TakenLast(ids: seq<string>, used: seq<bool>)
    requires |ids| == |used| && ids != []
    ensures Taken(ids, used) == Taken(Front(ids), Front(used)) + if Last(used) then multiset{Last(ids)} else multiset{}
  {
  }

  lemma {:induction false} OneLeft(ids: seq<string>, used: seq<bool>, x: string) returns (i: nat)
    requires |ids| == |used| && Taken(ids, used)[x] < multiset(ids)[x]
    ensures i < |ids| && !used[i] && ids[i] == x
  {
    assert ids == Front(ids) + [Last(ids)];
    if !Last(used) && Last(ids) == x {
      i := |ids| - 1;
    } else {
      i := OneLeft(Front(ids), Front(used), x);
    }
  }

  // ---------- Pairing two messages ----------

  function Fns(parts: seq<Part>, at: seq<nat>, kind: Kind): (fs: seq<Fn>)
    requires PositionsIn(parts, at, kind)
    ensures |fs| == |at| && forall i | 0 <= i < |at| :: fs[i] == Payload(parts[at[i]], kind).value
  {
    seq(|at|, i requires 0 <= i < |at| => Payload(parts[at[i]], kind).value)
  }

  function FunctionParts(c: Content, kind: Kind): seq<Fn> {
    Fns(c.parts, Positions(c.parts, kind), kind)
  }

  /** The first response from `i` on that is free and fits the call; `|responses|` when there is none. */
  function FirstFree(call: Fn, responses: seq<Fn>, used: seq<bool>, i: nat): (m: nat)
    requires i <= |responses| == |used|
    ensures i <= m <= |responses|
    ensures m < |responses| ==> !used[m] && FunctionPartsMatch(call, responses[m])
    ensures forall k | i <= k < m :: used[k] || !FunctionPartsMatch(call, responses[k])
    decreases |responses| - i
  {
    if i == |responses| || (!used[i] && FunctionPartsMatch(call, responses[i])) then i
    else FirstFree(call, responses, used, i + 1)
  }

  /** Calls `j` and later each find a response, taking the first free one that fits. */
  predicate AllFind(calls: seq<Fn>, j: nat, responses: seq<Fn>, used: seq<bool>)
    requires j <= |calls| && |responses| == |used|
    decreases |calls| - j
  {
    j == |calls|
    || (var m := FirstFree(calls[j], responses, used, 0);
        m < |responses| && AllFind(calls, j + 1, responses, used[m := true]))
  }

  predicate Pairs(c: Content, d: Content) {
    AllFind(FunctionParts(c, Call), 0, FunctionParts(d, Response), seq(|FunctionParts(d, Response)|, i => false))
  }

  predicate AllNamed(ids: seq<string>) {
    forall id | id in ids :: id != ""
  }

  /** Every call of `c` has its own response in `d`, by id. */
  ghost predicate Covered(c: Content, d: Content) {
    AllNamed(CallIds(c)) && multiset(CallIds(c)) <= multiset(ResponseIds(d))
  }

  /** When a call fits a response exactly by a key of its own, taking the first free response loses nothing:
      the calls from `j` on all find one if and only if they have keys and enough responses with them are
      free. */
  lemma {:induction false} GreedyByKey(calls: seq<Fn>, j: nat, responses: seq<Fn>, used: seq<bool>, a: seq<string>,
                                       b: seq<string>)
    requires j <= |calls| == |a| && |responses| == |used| == |b|
    requires forall i, k | 0 <= i < |a| && 0 <= k < |b| ::
               FunctionPartsMatch(calls[i], responses[k]) <==> a[i] != "" && a[i] == b[k]
    ensures AllFind(calls, j, responses, used)
            <==> AllNamed(a[j..]) && multiset(a[j..]) <= multiset(b) - Taken(b, used)
    decreases |calls| - j
  {
    hide FunctionPartsMatch, Taken;
    if j < |calls| {
      assert a[j..] == [a[j]] + a[j + 1..];
      var m := FirstFree(calls[j], responses, used, 0);
      if m < |responses| {
        GreedyByKey(calls, j + 1, responses, used[m := true], a, b);
        TakeOne(b, b, used, m);
        assert b[m] == a[j] != "";
        OneMoreTaken(multiset(a[j + 1..]), multiset(b), Taken(b, used), a[j]);
        FirstNamed(a[j], a[j + 1..]);
      } else {
        FirstNamed(a[j], a[j + 1..]);
        if AllNamed(a[j..]) && multiset(a[j..]) <= multiset(b) - Taken(b, used) {
          LeftOver(multiset(a[j..]), multiset(b), Taken(b, used), a[j]);
          var i := OneLeft(b, used, a[j]);
          assert false;
        }
      }
    }
  }

  lemma FirstNamed(id: string, ids: seq<string>)
    ensures AllNamed([id] + ids) <==> id != "" && AllNamed(ids)
    ensures multiset([id] + ids) == multiset{id} + multiset(ids)
  {
    assert id in [id] + ids && forall x | x in ids :: x in [id] + ids;
  }

  lemma LeftOver(a: multiset<string>, b: multiset<string>, taken: multiset<string>, x: string)
    requires a <= b - taken && x in a && taken <= b
    ensures taken[x] < b[x]
  {
    assert 0 < a[x] <= (b - taken)[x];
  }

  lemma OneMoreTaken(a: multiset<string>, b: multiset<string>, taken: multiset<string>, x: string)
    requires taken + multiset{x} <= b
    ensures a <= b - (taken + multiset{x}) <==> multiset{x} + a <= b - taken
  {
    var rest := b - (taken + multiset{x});
    assert b - taken == multiset{x} + rest;
    if multiset{x} + a <= multiset{x} + rest {
      forall y
        ensures a[y] <= rest[y]
      {
        assert (multiset{x} + a)[y] <= (multiset{x} + rest)[y];
      }
    }
  }

  function Names(fs: seq<Fn>): (names: seq<string>)
    ensures |names| == |fs| && forall i | 0 <= i < |fs| :: names[i] == fs[i].name
  {
    seq(|fs|, i requires 0 <= i < |fs| => fs[i].name)
  }

  /** When every response has an id, calls find their responses exactly by id. */
  lemma PairsById(c: Content, d: Content)
    requires AllNamed(ResponseIds(d))
    ensures Pairs(c, d) <==> Covered(c, d)
  {
    hide AllFind, Positions;
    var calls, responses := FunctionParts(c, Call), FunctionParts(d, Response);
    var used := seq(|responses|, i => false);
    IdsByPosition(c.parts, Call);
    IdsByPosition(d.parts, Response);
    var ids := ResponseIds(d);
    assert forall k | 0 <= k < |responses| :: responses[k].id == ids[k] && ids[k] in ids;
    GreedyByKey(calls, 0, responses, used, CallIds(c), ResponseIds(d));
    NoneTaken(ResponseIds(d), used);
    assert CallIds(c)[0..] == CallIds(c);
  }

  /** When no response has an id, calls find their responses exactly by name. */
  lemma PairsByName(c: Content, d: Content)
    requires forall id | id in ResponseIds(d) :: id == ""
    ensures var asked, given := Names(FunctionParts(c, Call)), Names(FunctionParts(d, Response));
            Pairs(c, d) <==> AllNamed(asked) && multiset(asked) <= multiset(given)
  {
    hide AllFind, Positions;
    var calls, responses := FunctionParts(c, Call), FunctionParts(d, Response);
    var used := seq(|responses|, i => false);
    IdsByPosition(d.parts, Response);
    var ids := ResponseIds(d);
    assert forall k | 0 <= k < |responses| :: responses[k].id == ids[k] && ids[k] in ids;
    GreedyByKey(calls, 0, responses, used, Names(calls), Names(responses));
    NoneTaken(Names(responses), used);
    assert Names(calls)[0..] == Names(calls);
  }

  /** With both kinds of responses the first fit can take a response that a later call needs. */
  lemma GreedyCanMiss()
    ensures var calls, responses := [Fn("f", "x"), Fn("f", "")], [Fn("f", ""), Fn("f", "x")];
            && FunctionPartsMatch(calls[0], responses[1]) && FunctionPartsMatch(calls[1], responses[0])
            && !AllFind(calls, 0, responses, [false, false])
  {
    var calls, responses := [Fn("f", "x"), Fn("f", "")], [Fn("f", ""), Fn("f", "x")];
    assert FirstFree(calls[0], responses, [false, false], 0) == 0;
    assert [false, false][0 := true] == [true, false];
    assert FirstFree(calls[1], responses, [true, false], 2) == 2;
    assert FirstFree(calls[1], responses, [true, false], 1) == 2;
    assert FirstFree(calls[1], responses, [true, false], 0) == 2;
  }

  /** The id a call without one gets; the string drawn by `uuid.NewString` is a parameter. */
  function NewToolId(uuid: string): (id: string)
    ensures id != ""
  {
    "toolu_" + uuid
  }

  function WithId(p: Part, kind: Kind, id: string): Part
    requires Payload(p, kind).Some?
  {
    if kind.Call? then p.(call := Some(p.call.value.(id := id))) else p.(response := Some(p.response.value.(id := id)))
  }

  method FindFree(call: Fn, responses: seq<Fn>, used: seq<bool>) returns (matched: nat)
    requires |responses| == |used|
    ensures matched == FirstFree(call, responses, used, 0)
  {
    matched := 0;
    while matched < |responses| && (used[matched] || !FunctionPartsMatch(call, responses[matched]))
      invariant matched <= |responses|
      invariant FirstFree(call, responses, used, 0) == FirstFree(call, responses, used, matched)
    {
      matched := matched + 1;
    }
  }

  /** What the loop over the calls keeps: calls before `j` and taken responses carry the same ids. */
  ghost predicate Matching(cp: seq<Part>, C: seq<nat>, j: nat, np: seq<Part>, R: seq<nat>, used: seq<bool>) {
    && PositionsIn(cp, C, Call) && PositionsIn(np, R, Response) && |used| == |R| && j <= |C|
    && AllNamed(IdsAt(cp, C, Call)[..j])
    && multiset(IdsAt(cp, C, Call)[..j]) == Taken(IdsAt(np, R, Response), used)
  }

  lemma MatchOne(cp: seq<Part>, cp': seq<Part>, C: seq<nat>, j: nat,
                 np: seq<Part>, np': seq<Part>, R: seq<nat>, used: seq<bool>, m: nat, id: string)
    requires Matching(cp, C, j, np, R, used) && j < |C| && m < |R| && !used[m] && id != ""
    requires PositionsIn(cp', C, Call) && PositionsIn(np', R, Response)
    requires forall i | 0 <= i < |C| && i != j :: cp'[C[i]] == cp[C[i]]
    requires forall i | 0 <= i < |R| && i != m :: np'[R[i]] == np[R[i]]
    requires cp'[C[j]].call.value.id == id && np'[R[m]].response.value.id == id
    ensures Matching(cp', C, j + 1, np', R, used[m := true])
  {
    var a, b := IdsAt(cp, C, Call), IdsAt(cp', C, Call);
    assert b[..j + 1] == a[..j] + [id];
    TakeOne(IdsAt(np, R, Response), IdsAt(np', R, Response), used, m);
  }

  /** With every call covered and every response named, the next call finds a response of its own id. */
  lemma CoveredFinds(c: seq<Part>, C: seq<nat>, j: nat, d: seq<Part>, R: seq<nat>, used: seq<bool>)
    requires Matching(c, C, j, d, R, used) && j < |C|
    requires AllNamed(IdsAt(c, C, Call)) && AllNamed(IdsAt(d, R, Response))
    requires multiset(IdsAt(c, C, Call)) <= multiset(IdsAt(d, R, Response))
    ensures var m := FirstFree(Fns(c, C, Call)[j], Fns(d, R, Response), used, 0);
            m < |R| && d[R[m]].response.value.id == c[C[j]].call.value.id
  {
    var a, b := IdsAt(c, C, Call), IdsAt(d, R, Response);
    assert a == a[..j] + [a[j]] + a[j + 1..];
    assert multiset(a)[a[j]] > multiset(a[..j])[a[j]];
    var i := OneLeft(b, used, a[j]);
    assert b[i] in b && a[j] in a;
    assert FunctionPartsMatch(Fns(c, C, Call)[j], Fns(d, R, Response)[i]);
    var m := FirstFree(Fns(c, C, Call)[j], Fns(d, R, Response), used, 0);
    assert b[m] in b;
  }

  /** The calls with call `at` given an id if it has none. */
  function NamedCall(cp: seq<Part>, at: nat, uuid: string): (r: seq<Part>)
    requires at < |cp| && cp[at].call.Some?
    ensures |r| == |cp| && (forall i | 0 <= i < |cp| :: r[i].call.Some? == cp[i].call.Some?)
            && r[at].call.value.id != ""
  {
    if cp[at].call.value.id != "" then cp else cp[at := WithId(cp[at], Call, NewToolId(uuid))]
  }

  /** The responses with response `at` given the id of its call if it has none. */
  function NamedResponse(np: seq<Part>, at: nat, id: string): (r: seq<Part>)
    requires at < |np| && np[at].response.Some?
    ensures |r| == |np| && (forall i | 0 <= i < |np| :: r[i].response.Some? == np[i].response.Some?)
  {
    if np[at].response.value.id != "" then np else np[at := WithId(np[at], Response, id)]
  }

  /** A call and the response it takes have the same id afterwards. */
  lemma Matched(cp: seq<Part>, C: seq<nat>, j: nat, np: seq<Part>, R: seq<nat>, used: seq<bool>, m: nat, uuid: string)
    requires Matching(cp, C, j, np, R, used) && j < |C| && m < |R| && !used[m]
    requires FunctionPartsMatch(cp[C[j]].call.value, np[R[m]].response.value)
    ensures var cp' := NamedCall(cp, C[j], uuid); var np' := NamedResponse(np, R[m], cp'[C[j]].call.value.id);
            && Matching(cp', C, j + 1, np', R, used[m := true])
            && OneFilled(cp, cp', C[j], Call) && OneFilled(np, np', R[m], Response)
            && (cp[C[j]].call.value.id != "" && np[R[m]].response.value.id != "" ==> cp' == cp && np' == np)
  {
    hide Matching;
    MatchingParts(cp, C, j, np, R, used);
    var cp' := NamedCall(cp, C[j], uuid);
    var id := cp'[C[j]].call.value.id;
    MatchOne(cp, cp', C, j, np, NamedResponse(np, R[m], id), R, used, m, id);
  }

  lemma MatchingParts(cp: seq<Part>, C: seq<nat>, j: nat, np: seq<Part>, R: seq<nat>, used: seq<bool>)
    requires Matching(cp, C, j, np, R, used)
    ensures PositionsIn(cp, C, Call) && PositionsIn(np, R, Response) && |used| == |R| && j <= |C|
  {
  }

  /** Only ids of that kind were filled in. */
  predicate FilledKind(ps: seq<Part>, qs: seq<Part>, kind: Kind) {
    FilledIn(ps, qs) && forall i | 0 <= i < |ps| :: Payload(qs[i], Other(kind)) == Payload(ps[i], Other(kind))
  }

  function Other(kind: Kind): Kind {
    if kind.Call? then Response else Call
  }

  /** At most the part at `at` changed, by filling in its id of that kind. */
  predicate OneFilled(ps: seq<Part>, qs: seq<Part>, at: nat, kind: Kind) {
    && at < |ps| == |qs| && Filled(ps[at], qs[at]) && qs == ps[at := qs[at]]
    && Payload(qs[at], Other(kind)) == Payload(ps[at], Other(kind))
  }

  lemma FillOne(ps: seq<Part>, qs: seq<Part>, rs: seq<Part>, at: nat, kind: Kind)
    requires FilledKind(ps, qs, kind) && OneFilled(qs, rs, at, kind) && qs[at] == ps[at]
    ensures FilledKind(ps, rs, kind)
  {
  }

  /** Strings drawn by `uuid.NewString`, by the number of the call that needs one. */
  type Uuids = nat -> string

  datatype Pairing = Pairing(paired: bool, calls: seq<Part>, responses: seq<Part>)

  /** Matching the calls from `j` on: each takes the first free response that fits, and the two get the
      same id. `C` and `R` are the positions of calls and responses. */
  function PairFrom(calls: seq<Fn>, responses: seq<Fn>, C: seq<nat>, R: seq<nat>, j: nat, cp: seq<Part>, np: seq<Part>,
                    used: seq<bool>, uuids: Uuids): (p: Pairing)
    requires j <= |C| == |calls| && |R| == |responses| == |used| && PositionsIn(cp, C, Call)
             && PositionsIn(np, R, Response)
    decreases |C| - j
  {
    if j == |C| then Pairing(true, cp, np)
    else
      var m := FirstFree(calls[j], responses, used, 0);
      if m == |R| then Pairing(false, cp, np)
      else
        var cp' := NamedCall(cp, C[j], uuids(j));
        var np' := NamedResponse(np, R[m], cp'[C[j]].call.value.id);
        PairFrom(calls, responses, C, R, j + 1, cp', np', used[m := true], uuids)
  }

  /** Pairing the calls of `c` with the responses of `d`. */
  function PairUp(c: Content, d: Content, uuids: Uuids): Pairing {
    var C, R := Positions(c.parts, Call), Positions(d.parts, Response);
    PairFrom(Fns(c.parts, C, Call), Fns(d.parts, R, Response), C, R, 0, c.parts, d.parts, seq(|R|, i => false), uuids)
  }

  lemma PairStep(calls: seq<Fn>, responses: seq<Fn>, C: seq<nat>, R: seq<nat>, j: nat, cp: seq<Part>, np: seq<Part>,
                 used: seq<bool>, uuids: Uuids)
    requires j <= |C| == |calls| && |R| == |responses| == |used| && PositionsIn(cp, C, Call)
             && PositionsIn(np, R, Response)
    ensures var p := PairFrom(calls, responses, C, R, j, cp, np, used, uuids);
            if j == |C| then p == Pairing(true, cp, np)
            else
              var m := FirstFree(calls[j], responses, used, 0);
              if m == |R| then p == Pairing(false, cp, np)
              else
                var cp' := NamedCall(cp, C[j], uuids(j));
                var np' := NamedResponse(np, R[m], cp'[C[j]].call.value.id);
                PositionsIn(cp', C, Call) && PositionsIn(np', R, Response)
                && p == PairFrom(calls, responses, C, R, j + 1, cp', np', used[m := true], uuids)
  {
  }

  method EnsurePairedFunctionIds(content: Content, next: Content, uuids: Uuids)
    returns (paired: bool, content': Content, next': Content)
    ensures var p := PairUp(content, next, uuids);
            paired == p.paired && content' == content.(parts := p.calls) && next' == next.(parts := p.responses)
  {
    hide FunctionPartsMatch, Positions, PairFrom, FirstFree, NewToolId;
    var C, R := Positions(content.parts, Call), Positions(next.parts, Response);
    var calls, responses := Fns(content.parts, C, Call), Fns(next.parts, R, Response);
    var cp, np := content.parts, next.parts;
    var used := seq(|R|, i => false);
    for j := 0 to |C|
      invariant |used| == |R| && PositionsIn(cp, C, Call) && PositionsIn(np, R, Response)
      invariant PairUp(content, next, uuids) == PairFrom(calls, responses, C, R, j, cp, np, used, uuids)
    {
      PairStep(calls, responses, C, R, j, cp, np, used, uuids);
      var matched := FindFree(calls[j], responses, used);
      if matched == |responses| {
        return false, content.(parts := cp), next.(parts := np);
      }
      used := used[matched := true];
      var id := cp[C[j]].call.value.id;
      if id == "" {
        id := NewToolId(uuids(j));
        cp := cp[C[j] := WithId(cp[C[j]], Call, id)];
      }
      if np[R[matched]].response.value.id == "" {
        np := np[R[matched] := WithId(np[R[matched]], Response, id)];
      }
    }
    PairStep(calls, responses, C, R, |C|, cp, np, used, uuids);
    return true, content.(parts := cp), next.(parts := np);
  }

  /** The matching from call `j` on, of messages that were `c` and `d` at the start. */
  ghost predicate PairingUnderWay(c: Content, d: Content, C: seq<nat>, R: seq<nat>, j: nat, cp: seq<Part>,
                                  np: seq<Part>,
                                  used: seq<bool>)
  {
    && C == Positions(c.parts, Call) && R == Positions(d.parts, Response)
    && FilledKind(c.parts, cp, Call) && FilledKind(d.parts, np, Response) && Matching(cp, C, j, np, R, used)
    && (forall k | j <= k < |C| :: cp[C[k]] == c.parts[C[k]])
    && (forall k | 0 <= k < |R| && !used[k] :: np[R[k]] == d.parts[R[k]])
  }

  lemma {:induction false} PairFromFacts(c: Content, d: Content, C: seq<nat>, R: seq<nat>, j: nat, cp: seq<Part>,
                                         np: seq<Part>, used: seq<bool>, uuids: Uuids)
    requires PairingUnderWay(c, d, C, R, j, cp, np, used)
    ensures j <= |C| && |used| == |R| && PositionsIn(cp, C, Call) && PositionsIn(np, R, Response)
    ensures PositionsIn(c.parts, C, Call) && PositionsIn(d.parts, R, Response)
    ensures var calls, responses := Fns(c.parts, C, Call), Fns(d.parts, R, Response);
            var p := PairFrom(calls, responses, C, R, j, cp, np, used, uuids);
            && (p.paired <==> AllFind(calls, j, responses, used))
            && FilledKind(c.parts, p.calls, Call) && FilledKind(d.parts, p.responses, Response)
            && (p.paired ==> Covered(c.(parts := p.calls), d.(parts := p.responses)))
            && (Covered(c, d) && AllNamed(ResponseIds(d)) && cp == c.parts && np == d.parts ==>
                  p == Pairing(true, c.parts, d.parts))
    decreases |C| - j
  {
    hide Covered, AllNamed, AllFind, Taken, FunctionPartsMatch, FilledKind, Filled, Positions, Matching, NamedCall;
    hide NamedResponse;
    MatchingParts(cp, C, j, np, R, used);
    var calls, responses := Fns(c.parts, C, Call), Fns(d.parts, R, Response);
    if j == |C| {
      FindDone(calls, responses, used);
      EndMatching(c, d, c.(parts := cp), d.(parts := np), C, R, used);
      return;
    }
    FindStep(calls, j, responses, used);
    var m := FirstFree(calls[j], responses, used, 0);
    if Covered(c, d) && AllNamed(ResponseIds(d)) && cp == c.parts && np == d.parts {
      SettledFinds(c, d, C, j, R, used);
    }
    if m < |R| {
      Matched(cp, C, j, np, R, used, m, uuids(j));
      var cp' := NamedCall(cp, C[j], uuids(j));
      var np' := NamedResponse(np, R[m], cp'[C[j]].call.value.id);
      FillOne(c.parts, cp, cp', C[j], Call);
      FillOne(d.parts, np, np', R[m], Response);
      OnlyOneFilled(cp, cp', C, j, Call);
      OnlyOneFilled(np, np', R, m, Response);
      PairFromFacts(c, d, C, R, j + 1, cp', np', used[m := true], uuids);
    }
  }

  lemma OnlyOneFilled(ps: seq<Part>, qs: seq<Part>, at: seq<nat>, m: nat, kind: Kind)
    requires PositionsIn(ps, at, kind) && m < |at| && OneFilled(ps, qs, at[m], kind)
    ensures forall k | 0 <= k < |at| && k != m :: qs[at[k]] == ps[at[k]]
  {
  }

  /** Pairing succeeds exactly when every call finds a free response in turn. Then every call has an id
      and its own response with that id; and what is paired by id already is left as it is. */
  lemma PairUpFacts(c: Content, d: Content, uuids: Uuids)
    ensures var p := PairUp(c, d, uuids);
            && (p.paired <==> Pairs(c, d))
            && FilledKind(c.parts, p.calls, Call) && FilledKind(d.parts, p.responses, Response)
            && (p.paired ==> Covered(c.(parts := p.calls), d.(parts := p.responses)))
            && (Covered(c, d) && AllNamed(ResponseIds(d)) ==> p == Pairing(true, c.parts, d.parts))
  {
    hide Covered, AllNamed, AllFind, PairFrom, Positions, FilledKind;
    var C, R := Positions(c.parts, Call), Positions(d.parts, Response);
    var used := seq(|R|, i => false);
    StartMatching(c, d, C, R, used);
    NothingFilled(c.parts, Call);
    NothingFilled(d.parts, Response);
    PairFromFacts(c, d, C, R, 0, c.parts, d.parts, used, uuids);
  }

  lemma NothingFilled(ps: seq<Part>, kind: Kind)
    ensures FilledKind(ps, ps, kind)
  {
  }

  lemma FindStep(calls: seq<Fn>, j: nat, responses: seq<Fn>, used: seq<bool>)
    requires j < |calls| && |responses| == |used|
    ensures var m := FirstFree(calls[j], responses, used, 0);
            AllFind(calls, j, responses, used) <==> m < |responses| && AllFind(calls, j + 1, responses, used[m := true])
  {
  }

  lemma FindDone(calls: seq<Fn>, responses: seq<Fn>, used: seq<bool>)
    requires |responses| == |used|
    ensures AllFind(calls, |calls|, responses, used)
  {
  }

  lemma StartMatching(content: Content, next: Content, C: seq<nat>, R: seq<nat>, used: seq<bool>)
    requires C == Positions(content.parts, Call) && R == Positions(next.parts, Response)
    requires used == seq(|R|, i => false)
    ensures Matching(content.parts, C, 0, next.parts, R, used)
    ensures Pairs(content, next) == AllFind(Fns(content.parts, C, Call), 0, Fns(next.parts, R, Response), used)
  {
    NoneTaken(IdsAt(next.parts, R, Response), used);
    assert used == seq(|FunctionParts(next, Response)|, i => false);
  }

  lemma SettledFinds(content: Content, next: Content, C: seq<nat>, j: nat, R: seq<nat>, used: seq<bool>)
    requires Covered(content, next) && AllNamed(ResponseIds(next))
    requires C == Positions(content.parts, Call) && R == Positions(next.parts, Response)
    requires Matching(content.parts, C, j, next.parts, R, used) && j < |C|
    ensures var m := FirstFree(Fns(content.parts, C, Call)[j], Fns(next.parts, R, Response), used, 0);
            m < |R| && content.parts[C[j]].call.value.id != "" && next.parts[R[m]].response.value.id != ""
  {
    IdsByPosition(content.parts, Call);
    IdsByPosition(next.parts, Response);
    CoveredFinds(content.parts, C, j, next.parts, R, used);
    var a := IdsAt(content.parts, C, Call);
    assert a[j] in a;
  }

  lemma EndMatching(content: Content, next: Content, content': Content, next': Content, C: seq<nat>, R: seq<nat>,
                    used: seq<bool>)
    requires C == Positions(content.parts, Call) && R == Positions(next.parts, Response)
    requires FilledKind(content.parts, content'.parts, Call) && FilledKind(next.parts, next'.parts, Response)
    requires Matching(content'.parts, C, |C|, next'.parts, R, used)
    ensures Covered(content', next')
  {
    FilledPositions(content.parts, content'.parts, Call);
    FilledPositions(next.parts, next'.parts, Response);
    IdsByPosition(content'.parts, Call);
    IdsByPosition(next'.parts, Response);
    var ids := IdsAt(content'.parts, C, Call);
    assert ids[..|C|] == ids;
  }

  lemma {:induction false} NoneTaken(ids: seq<string>, used: seq<bool>)
    requires |ids| == |used| && forall i | 0 <= i < |used| :: !used[i]
    ensures Taken(ids, used) == multiset{}
  {
    if ids != [] {
      NoneTaken(Front(ids), Front(used));
    }
  }

  /** The calls of a model message go when they do not all find responses in the next message. */
  predicate LosesCalls(c: Content, next: Option<Content>) {
    c.role == MODEL && CallIds(c) != [] && !(next.Some? && Pairs(c, next.value))
  }

  function WithoutCalls(c: Content): Content {
    c.(parts := Filtered(c.parts, Call, []))
  }

  datatype Settlement = Settlement(content: Content, next: Option<Content>)

  /** What becomes of a message, and of the one after it, when its calls are paired or removed. */
  function Settle(c: Content, next: Option<Content>, uuids: Uuids): (r: Settlement)
    ensures r.next.Some? == next.Some?
  {
    if c.role != MODEL || Positions(c.parts, Call) == [] then Settlement(c, next)
    else if next.None? then Settlement(WithoutCalls(c), None)
    else
      var p := PairUp(c, next.value, uuids);
      var c' := c.(parts := p.calls);
      Settlement(if p.paired then c' else WithoutCalls(c'), Some(next.value.(parts := p.responses)))
  }

  /** Pairs the calls of one message with the next message, or removes them. */
  method SettleCalls(content: Content, next: Option<Content>, uuids: Uuids)
    returns (keep: bool, content': Content, next': Option<Content>)
    ensures Settlement(content', next') == Settle(content, next, uuids) && (!keep ==> content'.parts == [])
  {
    hide PairUp, Filtered;
    keep, content', next' := true, content, next;
    if content.role == MODEL && |Positions(content.parts, Call)| > 0 {
      var paired := false;
      if next.Some? {
        var n;
        paired, content', n := EnsurePairedFunctionIds(content, next.value, uuids);
        next' := Some(n);
      }
      if !paired {
        keep, content' := FilterFunctionParts(content', Call, []);
      }
    }
  }

  /** Without loss of its calls a message keeps everything, its calls now answered in the next message;
      otherwise it keeps the parts that are not calls. The next message may get ids for its responses. */
  lemma SettleFacts(c: Content, next: Option<Content>, uuids: Uuids)
    ensures var r := Settle(c, next, uuids);
            && (next.Some? ==>
                  r.next.value.role == next.value.role && FilledKind(next.value.parts, r.next.value.parts, Response))
            && r.content.role == c.role && Derived(c, r.content) && (Tidy(c) ==> Tidy(r.content))
            && (c.role == MODEL && CallIds(r.content) != [] ==> r.next.Some? && Covered(r.content, r.next.value))
            && (!LosesCalls(c, next) ==> FilledKind(c.parts, r.content.parts, Call))
            && (LosesCalls(c, next) ==>
                  CallIds(r.content) == [] && ResponseIds(r.content) == ResponseIds(WithoutCalls(c)))
            && (next.Some? && Covered(c, next.value) && AllNamed(ResponseIds(next.value)) ==>
                  r == Settlement(c, next) && !LosesCalls(c, next))
  {
    hide PairUp, Covered, AllNamed, Pairs, Filtered, Derived, Tidy, FilledKind;
    IdsByPosition(c.parts, Call);
    assert CallIds(c) == [] <==> Positions(c.parts, Call) == [];
    NothingFilled(c.parts, Call);
    FilledKeeps(c, c);
    if next.Some? {
      NothingFilled(next.value.parts, Response);
    }
    if c.role == MODEL && CallIds(c) != [] {
      var c' := c;
      if next.Some? {
        PairUpFacts(c, next.value, uuids);
        c' := c.(parts := PairUp(c, next.value, uuids).calls);
      }
      FilledKeeps(c, c');
      RemovalFacts(c, c');
    }
  }

  lemma FilledKeeps(c: Content, d: Content)
    requires d.role == c.role && FilledKind(c.parts, d.parts, Call)
    ensures Derived(c, d) && (Tidy(c) ==> Tidy(d))
  {
    DerivedFilled(c, d);
  }

  /** Removing the calls, after some of them may have got ids. */
  lemma RemovalFacts(c: Content, d: Content)
    requires d.role == c.role && FilledKind(c.parts, d.parts, Call)
    ensures var e := WithoutCalls(d);
            && e.role == c.role && CallIds(e) == [] && Derived(c, e) && (Tidy(c) ==> Tidy(e))
            && ResponseIds(e) == ResponseIds(WithoutCalls(c))
  {
    hide Derived, Tidy;
    FilledKeeps(c, d);
    FilteredNone(d.parts, Call);
    FilteredDerived(d, Call, []);
    DerivedTwice(c, d, WithoutCalls(d));
    if Tidy(d) {
      FilteredTidy(d, Call, []);
    }
    SameLeft(c.parts, d.parts);
  }

  /** Which responses go with the calls does not depend on the ids the calls got. */
  lemma {:induction false} SameLeft(ps: seq<Part>, qs: seq<Part>)
    requires FilledKind(ps, qs, Call)
    ensures Ids(Filtered(ps, Call, []), Response) == Ids(Filtered(qs, Call, []), Response)
  {
    if ps != [] {
      var p, q := Last(ps), Last(qs);
      assert Filled(p, q) && p.response == q.response;
      SameLeft(Front(ps), Front(qs));
      FilteredLast(ps, Call, []);
      FilteredLast(qs, Call, []);
      var f, g := Filtered(Front(ps), Call, []), Filtered(Front(qs), Call, []);
      assert Front(f + [p]) == f && Front(g + [q]) == g;
    }
  }

  lemma DerivedFilled(c: Content, d: Content)
    requires d.role == c.role && FilledIn(c.parts, d.parts)
    ensures Derived(c, d) && (Tidy(c) ==> Tidy(d)) && (Exclusive(c.parts) ==> Exclusive(d.parts))
    ensures |CallIds(d)| == |CallIds(c)|
  {
    FilledIsSub(c.parts, d.parts);
    FilledTidy(c, d);
    FilledPositions(c.parts, d.parts, Call);
    IdsByPosition(c.parts, Call);
    IdsByPosition(d.parts, Call);
  }

  lemma {:induction false} FilteredNone(parts: seq<Part>, kind: Kind)
    ensures Ids(Filtered(parts, kind, []), kind) == []
  {
    hide Filtered, Ids;
    if parts == [] {
      NothingFiltered(parts, kind, []);
      NoIds(kind);
    } else {
      FilteredNone(Front(parts), kind);
      FilteredLast(parts, kind, []);
      IdsLast(Filtered(Front(parts), kind, []), Last(parts), kind);
    }
  }
}
