/** Choosing among credentials: the bounded candidate buffer and the weighted pick
    (`PickWeightedFromBest`). Scores are reals. */
module Selection {
  import opened Prelude

  datatype Candidate<T> = Candidate(item: T, score: real)

  /** A negative score means unavailable and is not weighted. */
  function AdjustedScore(score: real, weight: real): real {
    if score < 0.0 then score else score * weight
  }

  /** No plans given means every plan. */
  predicate PlanTypeAllowed(plan: int, allowed: set<int>) {
    allowed == {} || plan in allowed
  }

  // ---------- Reference: stable descending sort ----------

  ghost predicate Descending<T>(s: seq<Candidate<T>>) {
    forall i, j | 0 <= i < j < |s| :: s[i].score >= s[j].score
  }

  /** Puts `c` behind everything that scores at least as much. */
  function Inserted<T>(s: seq<Candidate<T>>, c: Candidate<T>): (r: seq<Candidate<T>>)
    ensures |r| == |s| + 1
  {
    if s == [] || s[|s| - 1].score >= c.score then s + [c]
    else Inserted(s[..|s| - 1], c) + [s[|s| - 1]]
  }

  function Sorted<T>(cs: seq<Candidate<T>>): (r: seq<Candidate<T>>)
    ensures |r| == |cs|
  {
    if cs == [] then [] else Inserted(Sorted(cs[..|cs| - 1]), cs[|cs| - 1])
  }

  /** The candidates of one score, in order. */
  function OfScore<T>(cs: seq<Candidate<T>>, v: real): seq<Candidate<T>> {
    if cs == [] then []
    else OfScore(cs[..|cs| - 1], v) + if cs[|cs| - 1].score == v then [cs[|cs| - 1]] else []
  }

  lemma {:induction false} InsertedAll<T>(s: seq<Candidate<T>>, c: Candidate<T>)
    ensures multiset(Inserted(s, c)) == multiset(s) + multiset{c}
  {
    if s != [] && s[|s| - 1].score < c.score {
      InsertedAll(s[..|s| - 1], c);
      assert s == s[..|s| - 1] + [s[|s| - 1]];
    }
  }

  lemma {:induction false} InsertedDescending<T>(s: seq<Candidate<T>>, c: Candidate<T>)
    requires Descending(s)
    ensures Descending(Inserted(s, c))
  {
    if s != [] && s[|s| - 1].score < c.score {
      var front := s[..|s| - 1];
      InsertedDescending(front, c);
      InsertedAll(front, c);
      var r := Inserted(front, c);
      forall i | 0 <= i < |r|
        ensures r[i].score >= s[|s| - 1].score
      {
        assert r[i] in multiset(r);
        assert r[i] in front || r[i] == c;
      }
    }
  }

  lemma {:induction false} InsertedStable<T>(s: seq<Candidate<T>>, c: Candidate<T>, v: real)
    ensures Descending(s) ==> OfScore(Inserted(s, c), v) == OfScore(s, v) + if c.score == v then [c] else []
  {
    if Descending(s) {
      if s == [] || s[|s| - 1].score >= c.score {
        assert (s + [c])[..|s|] == s;
      } else {
        var front, last := s[..|s| - 1], s[|s| - 1];
        InsertedStable(front, c, v);
        assert (Inserted(front, c) + [last])[..|s|] == Inserted(front, c);
      }
    }
  }

  /** `Sorted` is the stable descending sort: descending, the same candidates, ties in their old order. */
  lemma {:induction false} SortedIsStableSort<T>(cs: seq<Candidate<T>>, v: real)
    ensures Descending(Sorted(cs)) && multiset(Sorted(cs)) == multiset(cs)
    ensures OfScore(Sorted(cs), v) == OfScore(cs, v)
  {
    if cs != [] {
      var front, c := cs[..|cs| - 1], cs[|cs| - 1];
      SortedIsStableSort(front, v);
      InsertedAll(Sorted(front), c);
      InsertedDescending(Sorted(front), c);
      InsertedStable(Sorted(front), c, v);
      assert cs == front + [c];
    }
  }

  function Take<T>(s: seq<T>, k: nat): seq<T> {
    if |s| <= k then s else s[..k]
  }

  // ---------- The bounded buffer ----------

  /** Sifts the last candidate up past everything that scores less. */
  method SiftUp<T>(candidates: seq<Candidate<T>>) returns (r: seq<Candidate<T>>)
    requires candidates != []
    ensures r == Inserted(candidates[..|candidates| - 1], candidates[|candidates| - 1])
  {
    r := candidates;
    var index := |candidates| - 1;
    ghost var front, c := candidates[..index], candidates[index];
    while index > 0 && r[index].score > r[index - 1].score
      invariant 0 <= index < |r| == |candidates| && r[index] == c
      invariant r[..index] == front[..index]
      invariant Inserted(front, c) == Inserted(front[..index], c) + r[index + 1..]
    {
      assert front[..index][..index - 1] == front[..index - 1];
      assert front[..index][index - 1] == r[..index][index - 1] == r[index - 1];
      r := r[index := r[index - 1]][index - 1 := r[index]];
      index := index - 1;
    }
    assert index > 0 ==> front[..index][index - 1] == r[..index][index - 1];
    assert r == r[..index] + [c] + r[index + 1..];
  }

  method InsertBestCandidate<T>(candidates: seq<Candidate<T>>, bestCount: nat, candidate: Candidate<T>)
    returns (r: seq<Candidate<T>>)
    requires bestCount > 0 && |candidates| <= bestCount && Descending(candidates)
    ensures r == Take(Inserted(candidates, candidate), bestCount)
  {
    if |candidates| < bestCount {
      r := candidates + [candidate];
    } else if candidate.score <= candidates[|candidates| - 1].score {
      return candidates;
    } else {
      r := candidates[|candidates| - 1 := candidate];
    }
    r := SiftUp(r);
  }

  /** What falls out of a full buffer can never come back. */
  lemma {:induction false} TakeInserted<T>(s: seq<Candidate<T>>, c: Candidate<T>, k: nat)
    requires Descending(s) && k > 0
    ensures Take(Inserted(s, c), k) == Take(Inserted(Take(s, k), c), k)
  {
    if |s| > k {
      var front, last := s[..|s| - 1], s[|s| - 1];
      if last.score >= c.score {
        assert s[..k][k - 1].score >= last.score;
      } else {
        TakeInserted(front, c, k);
        assert Take(s, k) == Take(front, k);
        assert Take(Inserted(front, c) + [last], k) == Take(Inserted(front, c), k);
      }
    }
  }

  // ---------- The weighted pick ----------

  /** The items with a positive score. */
  function Positive<T>(items: seq<T>, score: T -> real): seq<Candidate<T>> {
    if items == [] then []
    else Positive(items[..|items| - 1], score)
         + if score(items[|items| - 1]) > 0.0 then [Candidate(items[|items| - 1], score(items[|items| - 1]))] else []
  }

  function Total<T>(cs: seq<Candidate<T>>): real {
    if cs == [] then 0.0 else Total(cs[..|cs| - 1]) + cs[|cs| - 1].score
  }

  lemma {:induction false} PositiveScores<T>(items: seq<T>, score: T -> real)
    ensures forall c | c in Positive(items, score) :: c.item in items && c.score == score(c.item) && c.score > 0.0
    ensures Positive(items, score) == [] <==> forall x | x in items :: score(x) <= 0.0
  {
    if items != [] {
      PositiveScores(items[..|items| - 1], score);
      assert items == items[..|items| - 1] + [items[|items| - 1]];
    }
  }

  /** The pool of the pick: the best `k` of the items with a positive score. */
  function Pool<T>(items: seq<T>, k: nat, score: T -> real): seq<Candidate<T>> {
    Take(Sorted(Positive(items, score)), k)
  }

  lemma PoolScores<T>(items: seq<T>, k: nat, score: T -> real)
    requires k > 0
    ensures forall c | c in Pool(items, k, score) :: c.item in items && c.score == score(c.item) && c.score > 0.0
    ensures Pool(items, k, score) == [] ==> forall x | x in items :: score(x) <= 0.0
  {
    hide Positive, Sorted;
    var positive := Positive(items, score);
    PositiveScores(items, score);
    SortedIsStableSort(positive, 0.0);
    forall c | c in Pool(items, k, score)
      ensures c in positive
    {
      assert c in Sorted(positive);
      assert c in multiset(Sorted(positive));
    }
    assert |Sorted(positive)| == |positive|;
    assert Pool(items, k, score) == [] ==> positive == [];
    assert positive == [] ==> forall x | x in items :: score(x) <= 0.0;
  }

  lemma {:induction false} TotalPositive<T>(cs: seq<Candidate<T>>)
    requires forall c | c in cs :: c.score > 0.0
    ensures cs != [] ==> Total(cs) > 0.0
  {
    if cs != [] {
      TotalPositive(cs[..|cs| - 1]);
    }
  }

  /** The weight of the candidates up to and including `j`. */
  function Cumulative<T>(cs: seq<Candidate<T>>, j: nat): real
    requires j < |cs|
  {
    Total(cs[..j + 1])
  }

  /** `j` is the first candidate whose cumulative weight reaches `pick`. */
  ghost predicate FirstReached<T>(cs: seq<Candidate<T>>, pick: real, j: nat) {
    j < |cs| && Cumulative(cs, j) >= pick && forall i | 0 <= i < j :: Cumulative(cs, i) < pick
  }

  lemma CumulativeStep<T>(cs: seq<Candidate<T>>, j: nat)
    requires j < |cs|
    ensures Cumulative(cs, j) == (if j == 0 then 0.0 else Cumulative(cs, j - 1)) + cs[j].score
    ensures j == |cs| - 1 ==> Cumulative(cs, j) == Total(cs)
  {
    var front := cs[..j + 1];
    assert front[..j] == cs[..j] && front[j] == cs[j];
    assert Total(front) == Total(cs[..j]) + cs[j].score;
    assert j == 0 ==> cs[..j] == [];
    assert j == |cs| - 1 ==> front == cs;
  }

  /** Where `random` points when the pool is laid out by weight. */
  function Target<T>(pool: seq<Candidate<T>>, random: real): real {
    random * Total(pool)
  }

  lemma TargetWithin<T>(cs: seq<Candidate<T>>, random: real, total: real)
    requires 0.0 <= random < 1.0 && total == Total(cs) && total > 0.0
    ensures random * total == Target(cs, random) && Target(cs, random) < total
  {
    Shrinks(random, total);
  }

  lemma Shrinks(random: real, total: real)
    requires 0.0 <= random < 1.0 && total > 0.0
    ensures random * total < total
  {
    assert (1.0 - random) * total > 0.0;
  }

  lemma PositiveNext<T>(items: seq<T>, i: nat, score: T -> real)
    requires i < |items|
    ensures Positive(items[..i + 1], score)
         == if score(items[i]) > 0.0 then Positive(items[..i], score) + [Candidate(items[i], score(items[i]))]
            else Positive(items[..i], score)
  {
    assert items[..i + 1][..i] == items[..i];
  }

  /** Feeding one more positive candidate into the buffer. */
  lemma PoolNext<T>(positive: seq<Candidate<T>>, c: Candidate<T>, k: nat)
    requires k > 0
    ensures Descending(Take(Sorted(positive), k))
    ensures Take(Sorted(positive + [c]), k) == Take(Inserted(Take(Sorted(positive), k), c), k)
  {
    SortedIsStableSort(positive, c.score);
    TakeInserted(Sorted(positive), c, k);
    assert (positive + [c])[..|positive|] == positive;
  }

  method Collect<T>(items: seq<T>, bestCount: nat, score: T -> real) returns (candidates: seq<Candidate<T>>)
    requires bestCount > 0
    ensures candidates == Pool(items, bestCount, score)
  {
    hide Positive, Sorted;
    candidates := [];
    assert Pool(items[..0], bestCount, score) == [] by { PoolOfNone(items[..0], bestCount, score); }
    for i := 0 to |items|
      invariant candidates == Pool(items[..i], bestCount, score)
    {
      PositiveNext(items, i, score);
      var s := score(items[i]);
      if s <= 0.0 {
        continue;
      }
      PoolNext(Positive(items[..i], score), Candidate(items[i], s), bestCount);
      candidates := InsertBestCandidate(candidates, bestCount, Candidate(items[i], s));
    }
    assert items[..|items|] == items;
  }

  lemma PoolOfNone<T>(items: seq<T>, k: nat, score: T -> real)
    requires items == []
    ensures Pool(items, k, score) == []
  {
  }

  /** `x` is the item `random` points at. */
  ghost predicate PointedAt<T>(pool: seq<Candidate<T>>, random: real, x: T) {
    exists j: nat :: FirstReached(pool, Target(pool, random), j) && pool[j].item == x
  }

  /** Picks among the best `bestCount` items with a positive score; `random` is in [0, 1). */
  method PickWeightedFromBest<T>(items: seq<T>, bestCount: int, score: T -> real, random: real)
    returns (item: Option<T>)
    requires 0.0 <= random < 1.0
    ensures item.Some? <==> bestCount > 0 && exists x :: x in items && score(x) > 0.0
    ensures item.Some? ==> item.value in items && score(item.value) > 0.0
    ensures item.Some? ==> PointedAt(Pool(items, bestCount, score), random, item.value)
  {
    hide Pool;
    if |items| == 0 || bestCount <= 0 {
      return None;
    }
    var candidates := Collect(items, bestCount, score);
    PoolScores(items, bestCount, score);
    if |candidates| == 0 {
      return None;
    }
    var j := WeightedPick(candidates, random);
    assert candidates[j] in candidates && candidates[j].item in items;
    assert PointedAt(candidates, random, candidates[j].item);
    return Some(candidates[j].item);
  }

  /** The two loops over the candidates; the last one is taken whether or not its weight is reached. */
  method WeightedPick<T>(candidates: seq<Candidate<T>>, random: real) returns (j: nat)
    requires 0.0 <= random < 1.0 && candidates != [] && forall c | c in candidates :: c.score > 0.0
    ensures FirstReached(candidates, Target(candidates, random), j)
  {
    hide Cumulative, Target;
    var total := 0.0;
    for i := 0 to |candidates|
      invariant total == if i == 0 then 0.0 else Cumulative(candidates, i - 1)
    {
      CumulativeStep(candidates, i);
      total := total + candidates[i].score;
    }
    CumulativeStep(candidates, |candidates| - 1);
    TotalPositive(candidates);
    TargetWithin(candidates, random, total);
    var pick := random * total;
    ghost var goal := Target(candidates, random);
    assert pick == goal < total;
    j := 0;
    while j < |candidates| - 1
      invariant j < |candidates| && pick == goal - if j == 0 then 0.0 else Cumulative(candidates, j - 1)
      invariant forall i | 0 <= i < j :: Cumulative(candidates, i) < goal
    {
      CumulativeStep(candidates, j);
      pick := pick - candidates[j].score;
      if pick <= 0.0 {
        return;
      }
      j := j + 1;
    }
    assert j == |candidates| - 1;
  }
}
