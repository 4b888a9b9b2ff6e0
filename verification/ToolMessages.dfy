/** One message of a conversation: its parts, their order, the ids of its tool calls and responses, and
    what filtering and filling in ids leave of it. */
module ToolMessages {
  import opened Prelude

  /** Name and id of a call or response, after trimming white space. */
  datatype Fn = Fn(name: string, id: string)

  /** One part of a message. `text` and `signature` are trimmed; `thought` says whether the part has
      that key, `inline` whether it carries inline data. */
  datatype Part = Part(
    text: string,
    thought: bool,
    signature: string,
    inline: bool,
    call: Option<Fn>,
    response: Option<Fn>)

  datatype Kind = Call | Response

  datatype Content = Content(role: string, parts: seq<Part>)

  const MODEL := "model"

  predicate Signed(p: Part) {
    p.thought && p.text != "" && p.signature != ""
  }

  predicate HasPayload(p: Part) {
    if p.thought then Signed(p) else p.text != "" || p.call.Some? || p.response.Some? || p.inline
  }

  function Payload(p: Part, kind: Kind): Option<Fn> {
    if kind.Call? then p.call else p.response
  }

  /** No part is call and response at once; some guarantees depend on it. */
  predicate Exclusive(parts: seq<Part>) {
    forall p | p in parts :: p.call.None? || p.response.None?
  }

  function Last<T>(s: seq<T>): T
    requires s != []
  {
    s[|s| - 1]
  }

  function Front<T>(s: seq<T>): seq<T>
    requires s != []
  {
    s[..|s| - 1]
  }

  // ---------- One message: order and payload ----------

  /** Where a part belongs in a message: signed thoughts, then everything else, then calls. */
  function Place(role: string, p: Part): nat {
    if role == MODEL && p.call.Some? then 2
    else if role == MODEL && Signed(p) then 0
    else 1
  }

  function AtPlace(role: string, parts: seq<Part>, k: nat): (r: seq<Part>)
    ensures forall p | p in r :: p in parts && HasPayload(p) && Place(role, p) == k
    ensures forall p | p in parts && HasPayload(p) && Place(role, p) == k :: p in r
  {
    if parts == [] then []
    else AtPlace(role, Front(parts), k)
         + if HasPayload(Last(parts)) && Place(role, Last(parts)) == k then [Last(parts)] else []
  }

  function Arranged(c: Content): seq<Part> {
    AtPlace(c.role, c.parts, 0) + AtPlace(c.role, c.parts, 1) + AtPlace(c.role, c.parts, 2)
  }

  /** Nothing empty, and in order. */
  ghost predicate Tidy(c: Content) {
    && (forall p | p in c.parts :: HasPayload(p))
    && (forall i, j | 0 <= i < j < |c.parts| :: Place(c.role, c.parts[i]) <= Place(c.role, c.parts[j]))
  }

  lemma ArrangedIsTidy(c: Content)
    ensures Tidy(c.(parts := Arranged(c)))
  {
    var a, b, d := AtPlace(c.role, c.parts, 0), AtPlace(c.role, c.parts, 1), AtPlace(c.role, c.parts, 2);
    forall i | 0 <= i < |Arranged(c)|
      ensures Arranged(c)[i] in if i < |a| then a else if i < |a| + |b| then b else d
    {
    }
  }

  /** A tidy message is left as it is. */
  lemma {:induction false} TidyStays(c: Content)
    requires Tidy(c)
    ensures Arranged(c) == c.parts
    decreases |c.parts|
  {
    hide AtPlace, Tidy, Arranged;
    if c.parts == [] {
      NothingArranged(c);
    } else {
      var d := c.(parts := Front(c.parts));
      TidyFront(c, d);
      TidyStays(d);
      NoneAbove(c.role, d.parts, Place(c.role, Last(c.parts)));
      PlacedLast(d, Last(c.parts));
      assert c.parts == d.parts + [Last(c.parts)];
    }
  }

  lemma NothingArranged(c: Content)
    requires c.parts == []
    ensures Arranged(c) == []
  {
  }

  lemma TidyFront(c: Content, d: Content)
    requires Tidy(c) && c.parts != [] && d == c.(parts := Front(c.parts))
    ensures Tidy(d) && HasPayload(Last(c.parts))
    ensures forall p | p in d.parts :: Place(c.role, p) <= Place(c.role, Last(c.parts))
  {
  }

  lemma NoneAbove(role: string, parts: seq<Part>, bound: nat)
    requires forall p | p in parts :: Place(role, p) <= bound
    ensures forall k: nat | bound < k :: AtPlace(role, parts, k) == []
  {
    forall k: nat | bound < k
      ensures AtPlace(role, parts, k) == []
    {
      NoneAt(role, parts, k);
    }
  }

  lemma PlacedLast(d: Content, p: Part)
    requires HasPayload(p) && forall k: nat | Place(d.role, p) < k :: AtPlace(d.role, d.parts, k) == []
    ensures Arranged(d.(parts := d.parts + [p])) == Arranged(d) + [p]
  {
  }

  lemma NoneAt(role: string, parts: seq<Part>, k: nat)
    ensures (forall p | p in parts :: Place(role, p) != k) ==> AtPlace(role, parts, k) == []
  {
  }

  /** The parts with `keep`, in their order. */
  function Select(parts: seq<Part>, keep: Part -> bool): seq<Part> {
    if parts == [] then []
    else Select(Front(parts), keep) + if keep(Last(parts)) then [Last(parts)] else []
  }

  /** Selecting is done part by part. */
  lemma {:induction false} SelectSplit(a: seq<Part>, b: seq<Part>, keep: Part -> bool)
    ensures Select(a + b, keep) == Select(a, keep) + Select(b, keep)
  {
    if b == [] {
      assert a + b == a;
    } else {
      SelectSplit(a, Front(b), keep);
      assert Front(a + b) == a + Front(b) && Last(a + b) == Last(b);
    }
  }

  lemma SelectOne(p: Part, keep: Part -> bool)
    ensures Select([p], keep) == if keep(p) then [p] else []
  {
    assert Front([p]) == [];
  }

  lemma {:induction false} AtPlaceSelects(role: string, parts: seq<Part>, k: nat, keep: Part -> bool)
    requires forall p :: keep(p) <==> HasPayload(p) && Place(role, p) == k
    ensures AtPlace(role, parts, k) == Select(parts, keep)
  {
    if parts != [] {
      AtPlaceSelects(role, Front(parts), k, keep);
    }
  }

  /** What is kept of a message, and where: in the model's messages signed thoughts, then the rest, then
      calls; in others all in the old order. */
  lemma ArrangedByFields(c: Content)
    ensures c.role == "model" ==>
              Arranged(c)
              == Select(c.parts, (p: Part) => p.thought && p.text != "" && p.signature != "" && p.call.None?)
                 + Select(c.parts, (p: Part) => !p.thought && (p.text != "" || p.response.Some? || p.inline)
                                                && p.call.None?)
                 + Select(c.parts, (p: Part) => (p.thought ==> p.text != "" && p.signature != "") && p.call.Some?)
    ensures c.role != "model" ==>
              Arranged(c)
              == Select(c.parts, (p: Part) => if p.thought then p.text != "" && p.signature != ""
                                              else p.text != "" || p.call.Some? || p.response.Some? || p.inline)
  {
    hide AtPlace, Select;
    if c.role == "model" {
      AtPlaceSelects(c.role, c.parts, 0, (p: Part) => p.thought && p.text != "" && p.signature != "" && p.call.None?);
      AtPlaceSelects(c.role, c.parts, 1, (p: Part) => !p.thought && (p.text != "" || p.response.Some? || p.inline)
                                                      && p.call.None?);
      AtPlaceSelects(c.role, c.parts, 2,
                     (p: Part) => (p.thought ==> p.text != "" && p.signature != "") && p.call.Some?);
    } else {
      NoneAt(c.role, c.parts, 0);
      AtPlaceSelects(c.role, c.parts, 1,
                     (p: Part) => if p.thought then p.text != "" && p.signature != ""
                                  else p.text != "" || p.call.Some? || p.response.Some? || p.inline);
      NoneAt(c.role, c.parts, 2);
    }
  }

  method NormalizeClaudeContent(content: Content) returns (keep: bool, result: Content)
    ensures result == content.(parts := Arranged(content))
    ensures keep <==> Arranged(content) != []
  {
    var thoughts, regular, calls := [], [], [];
    var n := |content.parts|;
    for i := 0 to n
      invariant thoughts == AtPlace(content.role, content.parts[..i], 0)
      invariant regular == AtPlace(content.role, content.parts[..i], 1)
      invariant calls == AtPlace(content.role, content.parts[..i], 2)
    {
      var part := content.parts[i];
      assert Front(content.parts[..i + 1]) == content.parts[..i];
      if !HasPayload(part) {
        continue;
      }
      if content.role == MODEL && part.call.Some? {
        calls := calls + [part];
      } else if content.role == MODEL && Signed(part) {
        thoughts := thoughts + [part];
      } else {
        regular := regular + [part];
      }
    }
    assert content.parts[..n] == content.parts;
    var kept := thoughts + regular;
    kept := kept + calls;
    keep, result := kept != [], content.(parts := kept);
  }

  // ---------- Calls and responses of a message ----------

  /** The ids of the calls or responses, in order. */
  function Ids(parts: seq<Part>, kind: Kind): seq<string> {
    if parts == [] then []
    else
      Ids(Front(parts), kind)
      + if Payload(Last(parts), kind).Some? then [Payload(Last(parts), kind).value.id] else []
  }

  function CallIds(c: Content): seq<string> {
    Ids(c.parts, Call)
  }

  function ResponseIds(c: Content): seq<string> {
    Ids(c.parts, Response)
  }

  /** Where the calls or responses are. */
  function Positions(parts: seq<Part>, kind: Kind): (at: seq<nat>)
    ensures forall i | 0 <= i < |at| :: at[i] < |parts| && Payload(parts[at[i]], kind).Some?
    ensures forall i, j | 0 <= i < j < |at| :: at[i] < at[j]
  {
    if parts == [] then []
    else Positions(Front(parts), kind) + if Payload(Last(parts), kind).Some? then [|parts| - 1] else []
  }

  /** `at` are the positions of parts of that kind. */
  predicate PositionsIn(parts: seq<Part>, at: seq<nat>, kind: Kind) {
    && (forall i | 0 <= i < |at| :: at[i] < |parts| && Payload(parts[at[i]], kind).Some?)
    && (forall i, j | 0 <= i < j < |at| :: at[i] < at[j])
  }

  function IdsAt(parts: seq<Part>, at: seq<nat>, kind: Kind): (ids: seq<string>)
    requires PositionsIn(parts, at, kind)
    ensures |ids| == |at| && forall i | 0 <= i < |at| :: ids[i] == Payload(parts[at[i]], kind).value.id
  {
    seq(|at|, i requires 0 <= i < |at| => Payload(parts[at[i]], kind).value.id)
  }

  lemma {:induction false} IdsByPosition(parts: seq<Part>, kind: Kind)
    ensures Ids(parts, kind) == IdsAt(parts, Positions(parts, kind), kind)
  {
    if parts != [] {
      IdsByPosition(Front(parts), kind);
      var at := Positions(Front(parts), kind);
      assert IdsAt(parts, Positions(parts, kind), kind)[..|at|] == IdsAt(Front(parts), at, kind);
    }
  }

  // ---------- Filled-in ids ----------

  predicate FilledFn(f: Option<Fn>, g: Option<Fn>) {
    f == g || (f.Some? && g.Some? && f.value.id == "" && g.value.id != "" && g.value.name == f.value.name)
  }

  /** `q` is `p`, except that missing ids may have been filled in. */
  predicate Filled(p: Part, q: Part) {
    q == p.(call := q.call, response := q.response) && FilledFn(p.call, q.call) && FilledFn(p.response, q.response)
  }

  predicate FilledIn(ps: seq<Part>, qs: seq<Part>) {
    |ps| == |qs| && forall i | 0 <= i < |ps| :: Filled(ps[i], qs[i])
  }

  lemma {:induction false} FilledPositions(ps: seq<Part>, qs: seq<Part>, kind: Kind)
    requires FilledIn(ps, qs)
    ensures Positions(qs, kind) == Positions(ps, kind)
  {
    if ps != [] {
      FilledPositions(Front(ps), Front(qs), kind);
      assert Filled(Last(ps), Last(qs));
    }
  }

  // ---------- Filtering calls or responses ----------

  predicate KeepsPart(p: Part, kind: Kind, allowed: seq<string>) {
    Payload(p, kind).None? || Payload(p, kind).value.id in allowed
  }

  function Filtered(parts: seq<Part>, kind: Kind, allowed: seq<string>): (r: seq<Part>)
    ensures forall p | p in r :: p in parts && KeepsPart(p, kind, allowed)
    ensures (forall p | p in parts :: KeepsPart(p, kind, allowed)) ==> r == parts
  {
    if parts == [] then []
    else
      assert parts == Front(parts) + [Last(parts)];
      Filtered(Front(parts), kind, allowed) + if KeepsPart(Last(parts), kind, allowed) then [Last(parts)] else []
  }

  method FilterFunctionParts(content: Content, kind: Kind, allowed: seq<string>) returns (keep: bool, content': Content)
    ensures content' == content.(parts := Filtered(content.parts, kind, allowed))
    ensures keep <==> content'.parts != []
  {
    var kept := [];
    for i := 0 to |content.parts|
      invariant kept == Filtered(content.parts[..i], kind, allowed)
    {
      assert Front(content.parts[..i + 1]) == content.parts[..i];
      if KeepsPart(content.parts[i], kind, allowed) {
        kept := kept + [content.parts[i]];
      }
    }
    assert content.parts[..|content.parts|] == content.parts;
    keep, content' := kept != [], content.(parts := kept);
  }

  function IdOf(p: Part, kind: Kind): seq<string> {
    if Payload(p, kind).Some? then [Payload(p, kind).value.id] else []
  }

  lemma NoIds(kind: Kind)
    ensures Ids([], kind) == []
  {
  }

  lemma IdsLast(parts: seq<Part>, p: Part, kind: Kind)
    ensures Ids(parts + [p], kind) == Ids(parts, kind) + IdOf(p, kind)
  {
    assert Front(parts + [p]) == parts;
  }

  lemma KeepsOwn(p: Part, kind: Kind, allowed: seq<string>)
    ensures KeepsPart(p, kind, allowed) <==> forall id | id in IdOf(p, kind) :: id in allowed
  {
  }

  lemma {:induction false} FilteredIds(parts: seq<Part>, kind: Kind, allowed: seq<string>)
    ensures forall id | id in Ids(Filtered(parts, kind, allowed), kind) :: id in allowed
    ensures forall id | id in allowed ::
              multiset(Ids(Filtered(parts, kind, allowed), kind))[id] == multiset(Ids(parts, kind))[id]
  {
    hide Filtered, KeepsPart, Ids, Payload;
    if parts == [] {
      NothingFiltered(parts, kind, allowed);
      NoIds(kind);
    } else {
      FilteredIds(Front(parts), kind, allowed);
      FilteredLast(parts, kind, allowed);
      IdsLast(Filtered(Front(parts), kind, allowed), Last(parts), kind);
      IdsLast(Front(parts), Last(parts), kind);
      KeepsOwn(Last(parts), kind, allowed);
      assert parts == Front(parts) + [Last(parts)];
    }
  }

  lemma {:induction false} FilteredOther(parts: seq<Part>, kind: Kind, allowed: seq<string>, other: Kind)
    requires Exclusive(parts) && other != kind
    ensures Ids(Filtered(parts, kind, allowed), other) == Ids(parts, other)
  {
    if parts != [] {
      FilteredOther(Front(parts), kind, allowed, other);
      var r := Filtered(Front(parts), kind, allowed);
      if KeepsPart(Last(parts), kind, allowed) {
        assert Front(r + [Last(parts)]) == r;
      } else {
        assert Last(parts) in parts;
        assert Filtered(parts, kind, allowed) == r;
      }
    }
  }

  lemma {:induction false} FilteredTidy(c: Content, kind: Kind, allowed: seq<string>)
    requires Tidy(c)
    ensures Tidy(c.(parts := Filtered(c.parts, kind, allowed)))
    decreases |c.parts|
  {
    hide Filtered, Tidy;
    if c.parts == [] {
      NothingFiltered(c.parts, kind, allowed);
    } else {
      var d := c.(parts := Front(c.parts));
      TidyFront(c, d);
      FilteredTidy(d, kind, allowed);
      FilteredLast(c.parts, kind, allowed);
      TidyAppend(d.(parts := Filtered(d.parts, kind, allowed)), Last(c.parts));
    }
  }

  lemma NothingFiltered(parts: seq<Part>, kind: Kind, allowed: seq<string>)
    requires parts == []
    ensures Filtered(parts, kind, allowed) == []
  {
  }

  lemma TidyAppend(c: Content, p: Part)
    requires Tidy(c) && HasPayload(p) && forall q | q in c.parts :: Place(c.role, q) <= Place(c.role, p)
    ensures Tidy(c.(parts := c.parts + [p]))
  {
  }

  lemma FilteredLast(parts: seq<Part>, kind: Kind, allowed: seq<string>)
    requires parts != []
    ensures KeepsPart(Last(parts), kind, allowed) ==>
              Filtered(parts, kind, allowed) == Filtered(Front(parts), kind, allowed) + [Last(parts)]
    ensures !KeepsPart(Last(parts), kind, allowed) ==>
              Filtered(parts, kind, allowed) == Filtered(Front(parts), kind, allowed)
  {
  }

  // ---------- What a message keeps ----------

  /** The parts that are neither calls nor responses. */
  function Plain(parts: seq<Part>): seq<Part> {
    if parts == [] then []
    else Plain(Front(parts)) + if Last(parts).call.None? && Last(parts).response.None? then [Last(parts)] else []
  }

  lemma {:induction false} PlainSplit(a: seq<Part>, b: seq<Part>)
    ensures Plain(a + b) == Plain(a) + Plain(b)
  {
    if b == [] {
      assert a + b == a;
    } else {
      PlainSplit(a, Front(b));
      assert Front(a + b) == a + Front(b) && Last(a + b) == Last(b);
    }
  }

  lemma PlainOne(p: Part)
    ensures Plain([p]) == if p.call.None? && p.response.None? then [p] else []
  {
    assert Front([p]) == [];
  }

  lemma {:induction false} PlainSelect(parts: seq<Part>, keep: Part -> bool, plain: Part -> bool)
    requires forall p :: plain(p) <==> keep(p) && p.call.None? && p.response.None?
    ensures Plain(Select(parts, keep)) == Select(parts, plain)
  {
    if parts != [] {
      PlainSelect(Front(parts), keep, plain);
      PlainSplit(Select(Front(parts), keep), [Last(parts)]);
      PlainOne(Last(parts));
      var r := Select(Front(parts), keep);
      assert r + [] == r;
    }
  }

  lemma {:induction false} NoneSelected(parts: seq<Part>, keep: Part -> bool)
    requires forall p | p in parts :: !keep(p)
    ensures Select(parts, keep) == []
  {
    if parts != [] {
      assert parts == Front(parts) + [Last(parts)];
      NoneSelected(Front(parts), keep);
    }
  }

  /** Which parts without call and response are kept: text or inline data without a thought key, and
      thoughts with text and signature. */
  lemma PlainByFields(c: Content)
    ensures c.role == "model" ==>
              Plain(Arranged(c))
              == Select(c.parts, (p: Part) => p.call.None? && p.response.None?
                                              && p.thought && p.text != "" && p.signature != "")
                 + Select(c.parts, (p: Part) => p.call.None? && p.response.None?
                                                && !p.thought && (p.text != "" || p.inline))
    ensures c.role != "model" ==>
              Plain(Arranged(c))
              == Select(c.parts, (p: Part) => p.call.None? && p.response.None?
                                              && (if p.thought then p.text != "" && p.signature != ""
                                                  else p.text != "" || p.inline))
  {
    hide AtPlace, Select, Plain, Arranged;
    ArrangedByFields(c);
    var parts := c.parts;
    if c.role == "model" {
      var thoughts := (p: Part) => p.thought && p.text != "" && p.signature != "" && p.call.None?;
      var rest := (p: Part) => !p.thought && (p.text != "" || p.response.Some? || p.inline) && p.call.None?;
      var calls := (p: Part) => (p.thought ==> p.text != "" && p.signature != "") && p.call.Some?;
      var none := (p: Part) => false;
      PlainSplit(Select(parts, thoughts) + Select(parts, rest), Select(parts, calls));
      PlainSplit(Select(parts, thoughts), Select(parts, rest));
      PlainSelect(parts, thoughts,
                  (p: Part) => p.call.None? && p.response.None? && p.thought && p.text != "" && p.signature != "");
      PlainSelect(parts, rest,
                  (p: Part) => p.call.None? && p.response.None? && !p.thought && (p.text != "" || p.inline));
      PlainSelect(parts, calls, none);
      NoneSelected(parts, none);
    } else {
      PlainSelect(parts, (p: Part) => if p.thought then p.text != "" && p.signature != ""
                                      else p.text != "" || p.call.Some? || p.response.Some? || p.inline,
                  (p: Part) => p.call.None? && p.response.None?
                               && (if p.thought then p.text != "" && p.signature != "" else p.text != "" || p.inline));
    }
  }

  /** `d` is left of `c` after dropping parts and filling in missing ids. */
  ghost predicate SubFill(d: seq<Part>, c: seq<Part>)
    decreases |c|
  {
    || d == []
    || (c != [] && SubFill(d, Front(c)))
    || (c != [] && Filled(Last(c), Last(d)) && SubFill(Front(d), Front(c)))
  }

  lemma {:induction false} FilledIsSub(ps: seq<Part>, qs: seq<Part>)
    requires FilledIn(ps, qs)
    ensures SubFill(qs, ps) && Plain(qs) == Plain(ps)
  {
    if ps != [] {
      FilledIsSub(Front(ps), Front(qs));
      assert Filled(Last(ps), Last(qs));
    }
  }

  lemma {:induction false} FilteredIsSub(parts: seq<Part>, kind: Kind, allowed: seq<string>)
    ensures SubFill(Filtered(parts, kind, allowed), parts)
    ensures Plain(Filtered(parts, kind, allowed)) == Plain(parts)
  {
    if parts != [] {
      FilteredIsSub(Front(parts), kind, allowed);
      FilteredLast(parts, kind, allowed);
      var r := Filtered(Front(parts), kind, allowed);
      assert Front(r + [Last(parts)]) == r && Last(r + [Last(parts)]) == Last(parts);
    }
  }

  lemma {:induction false} SubTransitive(e: seq<Part>, d: seq<Part>, c: seq<Part>)
    requires SubFill(e, d) && SubFill(d, c)
    ensures SubFill(e, c)
    decreases |c|
  {
    if e != [] && d != [] {
      if SubFill(d, Front(c)) {
        SubTransitive(e, d, Front(c));
      } else if SubFill(e, Front(d)) {
        SubTransitive(e, Front(d), Front(c));
      } else {
        SubTransitive(Front(e), Front(d), Front(c));
      }
    }
  }

  /** `d` comes from `c`: calls and responses may be gone or have got an id, nothing else changed. */
  ghost predicate Derived(c: Content, d: Content) {
    d.role == c.role && SubFill(d.parts, c.parts) && Plain(d.parts) == Plain(c.parts)
  }

  lemma DerivedTwice(c: Content, d: Content, e: Content)
    requires Derived(c, d) && Derived(d, e)
    ensures Derived(c, e)
  {
    SubTransitive(e.parts, d.parts, c.parts);
  }

  lemma FilteredDerived(c: Content, kind: Kind, allowed: seq<string>)
    ensures Derived(c, c.(parts := Filtered(c.parts, kind, allowed)))
  {
    FilteredIsSub(c.parts, kind, allowed);
  }

  lemma {:induction false} SameIds(ps: seq<Part>, qs: seq<Part>, kind: Kind)
    requires |ps| == |qs| && forall i | 0 <= i < |ps| :: Payload(ps[i], kind) == Payload(qs[i], kind)
    ensures Ids(ps, kind) == Ids(qs, kind)
  {
    if ps != [] {
      SameIds(Front(ps), Front(qs), kind);
    }
  }

  lemma FilledTidy(c: Content, d: Content)
    requires c.role == d.role && FilledIn(c.parts, d.parts)
    ensures Tidy(c) ==> Tidy(d)
    ensures Exclusive(c.parts) ==> Exclusive(d.parts)
  {
    assert forall i | 0 <= i < |c.parts| :: Filled(c.parts[i], d.parts[i]);
    assert forall i | 0 <= i < |c.parts| :: c.parts[i] in c.parts;
  }
}
