/** The published snapshots of the codex scheduler: rows with scores, and the best row of every plan.

    Every operation copies the rows, changes the copy and publishes it. Most of them sort it again by
    adjusted score; eviction, suspension and throttling do not. */
module CodexSnapshots {
  import opened Prelude
  import Selection

  type Time = int

  datatype Tier = DefaultTier | SparkTier | OtherTier

  /** What upstream reported about one credential; only its scores matter here. */
  datatype Quota = Quota(windows: seq<(real, Option<Time>)>, sparkWindows: seq<(real, Option<Time>)>)

  datatype Row = Row(
    id: string,
    plan: int,
    quota: Quota,
    throttled: Option<Time>,
    throttledSpark: Option<Time>,
    score: real,
    scoreSpark: real,
    weight: real,
    weightSpark: real)

  datatype Snapshot = Snapshot(rows: seq<Row>, bestByPlanType: map<int, nat>)

  function Adjusted(row: Row): real {
    Selection.AdjustedScore(row.score, row.weight)
  }

  predicate Before(now: Time, until: Option<Time>) {
    until.Some? && now < until.value
  }

  // ---------- The index ----------

  /** Rows that are available are in descending order; unavailable ones may be anywhere. */
  ghost predicate AvailableDescending(rows: seq<Row>) {
    forall i, j | 0 <= i < j < |rows| && Adjusted(rows[i]) >= 0.0 && Adjusted(rows[j]) >= 0.0 ::
      Adjusted(rows[i]) >= Adjusted(rows[j])
  }

  /** Each plan points at its first available row. */
  ghost predicate FirstByPlan(rows: seq<Row>, best: map<int, nat>) {
    && (forall p | p in best ::
          && best[p] < |rows| && rows[best[p]].plan == p && Adjusted(rows[best[p]]) >= 0.0
          && forall j | 0 <= j < best[p] :: rows[j].plan != p || Adjusted(rows[j]) < 0.0)
    && (forall j | 0 <= j < |rows| && Adjusted(rows[j]) >= 0.0 :: rows[j].plan in best)
  }

  /** Exactly the plans with an available row are indexed, each at a row that no other beats. */
  ghost predicate BestByPlan(rows: seq<Row>, best: map<int, nat>) {
    && (forall p :: p in best <==> exists j :: 0 <= j < |rows| && rows[j].plan == p && Adjusted(rows[j]) >= 0.0)
    && (forall p | p in best ::
          && best[p] < |rows| && rows[best[p]].plan == p && Adjusted(rows[best[p]]) >= 0.0
          && forall j | 0 <= j < |rows| && rows[j].plan == p :: Adjusted(rows[j]) <= Adjusted(rows[best[p]]))
  }

  ghost predicate Sound(s: Snapshot) {
    AvailableDescending(s.rows) && BestByPlan(s.rows, s.bestByPlanType)
  }

  lemma FirstIsBest(rows: seq<Row>, best: map<int, nat>)
    requires AvailableDescending(rows) && FirstByPlan(rows, best)
    ensures BestByPlan(rows, best)
  {
    forall p, j | p in best && 0 <= j < |rows| && rows[j].plan == p
      ensures Adjusted(rows[j]) <= Adjusted(rows[best[p]])
    {
      assert j < best[p] ==> Adjusted(rows[j]) < 0.0;
    }
    forall p | p in best
      ensures exists j :: 0 <= j < |rows| && rows[j].plan == p && Adjusted(rows[j]) >= 0.0
    {
      assert rows[best[p]].plan == p;
    }
  }

  method BuildAvailableSnapshot(rows: seq<Row>) returns (s: Snapshot)
    ensures s.rows == rows && FirstByPlan(rows, s.bestByPlanType)
    ensures AvailableDescending(rows) ==> Sound(s)
  {
    hide AvailableDescending, BestByPlan;
    var best: map<int, nat> := map[];
    for i := 0 to |rows|
      invariant FirstByPlan(rows[..i], best)
    {
      if Adjusted(rows[i]) < 0.0 || rows[i].plan in best {
        continue;
      }
      best := best[rows[i].plan := i];
    }
    assert rows[..|rows|] == rows;
    s := Snapshot(rows, best);
    if AvailableDescending(rows) {
      FirstIsBest(rows, best);
    }
  }

  // ---------- Sorting ----------

  ghost predicate Descending(rows: seq<Row>) {
    forall i, j | 0 <= i < j < |rows| :: Adjusted(rows[i]) >= Adjusted(rows[j])
  }

  function Insert(row: Row, rows: seq<Row>): seq<Row> {
    if rows == [] || Adjusted(row) > Adjusted(rows[0]) then [row] + rows else [rows[0]] + Insert(row, rows[1..])
  }

  lemma {:induction false} InsertKeeps(row: Row, rows: seq<Row>)
    ensures multiset(Insert(row, rows)) == multiset(rows) + multiset{row}
  {
    hide Adjusted;
    if !(rows == [] || Adjusted(row) > Adjusted(rows[0])) {
      InsertKeeps(row, rows[1..]);
      assert rows == [rows[0]] + rows[1..];
    }
  }

  lemma {:induction false} InsertSorts(row: Row, rows: seq<Row>)
    requires Descending(rows)
    ensures Descending(Insert(row, rows))
  {
    hide Adjusted;
    if !(rows == [] || Adjusted(row) > Adjusted(rows[0])) {
      InsertSorts(row, rows[1..]);
      InsertKeeps(row, rows[1..]);
      var r := Insert(row, rows[1..]);
      forall j | 0 <= j < |r|
        ensures Adjusted(r[j]) <= Adjusted(rows[0])
      {
        assert r[j] in multiset(r);
        assert r[j] == row || r[j] in rows[1..];
      }
    }
  }

  /** `sort.Slice` by adjusted score. Callers know only that the result is descending and has the same
      rows: the library sort is not stable. */
  method SortByAdjustedScore(rows: seq<Row>) returns (sorted: seq<Row>)
    ensures Descending(sorted) && multiset(sorted) == multiset(rows)
  {
    sorted := [];
    for i := 0 to |rows|
      invariant Descending(sorted) && multiset(sorted) == multiset(rows[..i])
    {
      InsertSorts(rows[i], sorted);
      InsertKeeps(rows[i], sorted);
      assert rows[..i + 1] == rows[..i] + [rows[i]];
      sorted := Insert(rows[i], sorted);
    }
    assert rows[..|rows|] == rows;
  }

  // ---------- Changing rows ----------

  /** The first row of a credential; `|rows|` when it has none. */
  function Find(rows: seq<Row>, id: string): (k: nat)
    ensures k <= |rows| && (k < |rows| ==> rows[k].id == id) && forall i | 0 <= i < k :: rows[i].id != id
  {
    if rows == [] || rows[0].id == id then 0
    else
      var k := Find(rows[1..], id);
      assert forall i | 0 < i < k + 1 :: rows[i] == rows[1..][i - 1];
      k + 1
  }

  function Others(rows: seq<Row>, id: string): (r: seq<Row>)
    ensures forall x | x in r :: x in rows && x.id != id
    ensures forall x | x in rows && x.id != id :: x in r
  {
    if rows == [] then []
    else Others(rows[..|rows| - 1], id) + if rows[|rows| - 1].id != id then [rows[|rows| - 1]] else []
  }

  lemma NoOthers(rows: seq<Row>, id: string)
    requires rows == []
    ensures Others(rows, id) == []
  {
  }

  lemma OthersLast(rows: seq<Row>, id: string)
    requires rows != []
    ensures var front, last := rows[..|rows| - 1], rows[|rows| - 1];
            Others(rows, id) == if last.id != id then Others(front, id) + [last] else Others(front, id)
  {
  }

  lemma AvailableAppend(rows: seq<Row>, last: Row)
    requires AvailableDescending(rows)
    requires forall x | x in rows && Adjusted(x) >= 0.0 && Adjusted(last) >= 0.0 :: Adjusted(x) >= Adjusted(last)
    ensures AvailableDescending(rows + [last])
  {
  }

  lemma AvailableFront(rows: seq<Row>)
    requires AvailableDescending(rows) && rows != []
    ensures var front, last := rows[..|rows| - 1], rows[|rows| - 1];
            && AvailableDescending(front)
            && forall x | x in front && Adjusted(x) >= 0.0 && Adjusted(last) >= 0.0 :: Adjusted(x) >= Adjusted(last)
  {
  }

  /** Exactly the rows of the credential go, and nothing is reordered. */
  lemma {:induction false} OthersExactly(rows: seq<Row>, id: string)
    ensures forall x :: multiset(Others(rows, id))[x] == if x.id != id then multiset(rows)[x] else 0
    ensures forall n: nat | n <= |rows| :: Others(rows[..n], id) <= Others(rows, id)
  {
    hide Others;
    if rows == [] {
      NoOthers(rows, id);
    } else {
      var front, last := rows[..|rows| - 1], rows[|rows| - 1];
      OthersExactly(front, id);
      OthersLast(rows, id);
      assert rows == front + [last];
      forall n: nat | n <= |rows|
        ensures Others(rows[..n], id) <= Others(rows, id)
      {
        assert if n == |rows| then rows[..n] == rows else rows[..n] == front[..n];
      }
    }
  }

  /** Removing rows keeps the available ones in order. */
  lemma {:induction false} OthersDescending(rows: seq<Row>, id: string)
    requires AvailableDescending(rows)
    ensures AvailableDescending(Others(rows, id))
  {
    hide Others, Adjusted;
    if rows == [] {
      NoOthers(rows, id);
    } else {
      hide AvailableDescending;
      var front, last := rows[..|rows| - 1], rows[|rows| - 1];
      AvailableFront(rows);
      OthersDescending(front, id);
      OthersLast(rows, id);
      AvailableAppend(Others(front, id), last);
    }
  }

  /** Making one row unavailable keeps the others in order. */
  lemma SuspendedDescending(rows: seq<Row>, k: nat, row: Row)
    requires AvailableDescending(rows) && k < |rows|
    requires Adjusted(row) < 0.0 || Adjusted(row) == Adjusted(rows[k])
    ensures AvailableDescending(rows[k := row])
  {
  }

  lemma DescendingAvailable(rows: seq<Row>)
    requires Descending(rows)
    ensures AvailableDescending(rows)
  {
  }

  method IndexOf(rows: seq<Row>, id: string) returns (k: nat)
    ensures k == Find(rows, id)
  {
    k := 0;
    while k < |rows| && rows[k].id != id
      invariant k <= |rows| && Find(rows, id) == k + Find(rows[k..], id)
    {
      assert rows[k..][1..] == rows[k + 1..];
      k := k + 1;
    }
  }

  method WithoutCredential(rows: seq<Row>, id: string) returns (filtered: seq<Row>)
    ensures filtered == Others(rows, id)
  {
    filtered := [];
    for i := 0 to |rows|
      invariant filtered == Others(rows[..i], id)
    {
      assert rows[..i + 1][..i] == rows[..i];
      if rows[i].id != id {
        filtered := filtered + [rows[i]];
      }
    }
    assert rows[..|rows|] == rows;
  }

  /** `r` is `row` after a quota update: throttled tiers stay unavailable, others get their score, and a
      tier that becomes available again starts with full weight. */
  ghost predicate QuotaApplied(row: Row, r: Row, quota: Quota, base: real, baseSpark: real, now: Time) {
    && r.id == row.id && r.plan == row.plan && r.quota == quota
    && r.throttled == row.throttled && r.throttledSpark == row.throttledSpark
    && r.score == (if Before(now, row.throttled) then -1.0 else base)
    && r.scoreSpark == (if Before(now, row.throttledSpark) then -1.0 else baseSpark)
    && r.weight == (if row.score < 0.0 <= r.score then 1.0 else row.weight)
    && r.weightSpark == (if row.scoreSpark < 0.0 <= r.scoreSpark then 1.0 else row.weightSpark)
  }

  /** `r` is `row` with the scores of its own quota where it is available, and nothing else changed. */
  ghost predicate RescoredTo(row: Row, r: Row, mainScore: Quota -> real, sparkScore: Quota -> real) {
    && r == row.(score := r.score, scoreSpark := r.scoreSpark)
    && r.score == (if row.score >= 0.0 then mainScore(row.quota) else row.score)
    && r.scoreSpark == (if row.scoreSpark >= 0.0 then sparkScore(row.quota) else row.scoreSpark)
  }

  ghost predicate AllRescored(rows: seq<Row>, rs: seq<Row>, mainScore: Quota -> real, sparkScore: Quota -> real) {
    |rs| == |rows| && forall i | 0 <= i < |rows| :: RescoredTo(rows[i], rs[i], mainScore, sparkScore)
  }

  // ---------- Throttles ----------

  /** A tier whose throttle deadline lies ahead has a negative score. */
  predicate ThrottledUnavailable(row: Row, now: Time) {
    (Before(now, row.throttled) ==> row.score < 0.0) && (Before(now, row.throttledSpark) ==> row.scoreSpark < 0.0)
  }

  ghost predicate AllUnavailable(rows: seq<Row>, now: Time) {
    forall row | row in rows :: ThrottledUnavailable(row, now)
  }

  /** Sorting keeps it. */
  lemma SameRowsUnavailable(rows: seq<Row>, sorted: seq<Row>, now: Time)
    requires multiset(sorted) == multiset(rows) && AllUnavailable(rows, now)
    ensures AllUnavailable(sorted, now)
  {
    forall row | row in sorted
      ensures ThrottledUnavailable(row, now)
    {
      assert row in multiset(sorted);
      assert row in multiset(rows);
      assert row in rows;
    }
  }

  lemma OneRowUnavailable(rows: seq<Row>, k: nat, row: Row, now: Time)
    requires AllUnavailable(rows, now) && k < |rows|
    requires ThrottledUnavailable(rows[k], now) ==> ThrottledUnavailable(row, now)
    ensures AllUnavailable(rows[k := row], now)
  {
    hide ThrottledUnavailable;
    assert rows[k] in rows;
  }

  /** Rescoring keeps it, because it leaves unavailable tiers alone. */
  lemma RescoredUnavailable(rows: seq<Row>, rs: seq<Row>, mainScore: Quota -> real, sparkScore: Quota -> real,
                            now: Time)
    requires AllUnavailable(rows, now) && AllRescored(rows, rs, mainScore, sparkScore)
    ensures AllUnavailable(rs, now)
  {
    forall i | 0 <= i < |rows|
      ensures ThrottledUnavailable(rs[i], now)
    {
      assert ThrottledUnavailable(rows[i], now) && RescoredTo(rows[i], rs[i], mainScore, sparkScore);
    }
  }

  // ---------- The scheduler ----------

  datatype DbRow = DbRow(id: string, plan: int, synced: bool, quota: Quota, throttled: Option<Time>,
                         throttledSpark: Option<Time>)

  /** The error rates of the last window, by credential; missing when there are too few samples. */
  datatype Rates = Rates(default: map<string, real>, spark: map<string, real>)

  type Throttles = map<(string, Tier), Time>

  function ActiveUntil(throttle: Throttles, id: string, tier: Tier, now: Time): Option<Time> {
    if (id, tier) in throttle && now < throttle[(id, tier)] then Some(throttle[(id, tier)]) else None
  }

  predicate After(a: Time, b: Option<Time>) {
    b.None? || a > b.value
  }

  /** A database row at time `now`. */
  function FreshRow(r: DbRow, mainScore: Quota -> real, sparkScore: Quota -> real, now: Time): Row {
    Row(r.id, r.plan, r.quota, r.throttled, r.throttledSpark,
        if Before(now, r.throttled) then -1.0 else mainScore(r.quota),
        if Before(now, r.throttledSpark) then -1.0 else sparkScore(r.quota),
        1.0, 1.0)
  }

  function WithMemory(row: Row, throttle: Throttles, now: Time): Row {
    var until, untilSpark := ActiveUntil(throttle, row.id, DefaultTier, now),
      ActiveUntil(throttle, row.id, SparkTier, now);
    var a := if until.None? then row
             else row.(throttled := if After(until.value, row.throttled) then until else row.throttled, score := -1.0);
    if untilSpark.None? then a
    else a.(throttledSpark := if After(untilSpark.value, a.throttledSpark) then untilSpark else a.throttledSpark,
            scoreSpark := -1.0)
  }

  function WithRates(row: Row, rates: Rates): Row {
    var a := if row.id in rates.default && rates.default[row.id] > 0.0
             then row.(weight := 1.0 - rates.default[row.id]) else row;
    if row.id in rates.spark && rates.spark[row.id] > 0.0 then a.(weightSpark := 1.0 - rates.spark[row.id]) else a
  }

  /** The database rows that a full rebuild takes. */
  function Taken(dbRows: seq<DbRow>, checking: set<string>): (taken: seq<DbRow>)
    ensures forall r :: r in taken <==> r in dbRows && r.synced && r.id !in checking
  {
    if dbRows == [] then []
    else
      var front, r := dbRows[..|dbRows| - 1], dbRows[|dbRows| - 1];
      assert dbRows == front + [r];
      Taken(front, checking) + if r.synced && r.id !in checking then [r] else []
  }

  /** One tier of a rebuilt row. Throttled means until a deadline in the database or in memory: then the
      score is negative and the row has the later of the two deadlines. Otherwise it has the score given. */
  ghost predicate TierOf(score: real, until: Option<Time>, base: real, stored: Option<Time>, throttle: Throttles,
                         key: (string, Tier), now: Time)
  {
    var remembered := key in throttle && throttle[key] > now;
    && score == (if remembered || (stored.Some? && stored.value > now) then -1.0 else base)
    && (!remembered ==> until == stored)
    && (remembered ==>
          && until.Some? && until.value >= throttle[key] && (stored.Some? ==> until.value >= stored.value)
          && until in {Some(throttle[key]), stored})
  }

  /** `row` is what a full rebuild makes of `r`: each tier with the score of the row's own quota, and with
      the weight that its own error rate leaves. */
  ghost predicate RowOf(r: DbRow, row: Row, throttle: Throttles, rates: Rates, mainScore: Quota -> real,
                        sparkScore: Quota -> real, now: Time)
  {
    && row.id == r.id && row.plan == r.plan && row.quota == r.quota
    && TierOf(row.score, row.throttled, mainScore(r.quota), r.throttled, throttle, (r.id, DefaultTier), now)
    && TierOf(row.scoreSpark, row.throttledSpark, sparkScore(r.quota), r.throttledSpark, throttle, (r.id, SparkTier),
              now)
    && row.weight == (if r.id in rates.default && rates.default[r.id] > 0.0 then 1.0 - rates.default[r.id] else 1.0)
    && row.weightSpark == (if r.id in rates.spark && rates.spark[r.id] > 0.0 then 1.0 - rates.spark[r.id] else 1.0)
  }

  ghost predicate RowsOf(rs: seq<DbRow>, rows: seq<Row>, throttle: Throttles, rates: Rates, mainScore: Quota -> real,
                         sparkScore: Quota -> real, now: Time)
  {
    |rows| == |rs| && forall i | 0 <= i < |rs| :: RowOf(rs[i], rows[i], throttle, rates, mainScore, sparkScore, now)
  }

  lemma RebuiltRow(r: DbRow, throttle: Throttles, rates: Rates, mainScore: Quota -> real, sparkScore: Quota -> real,
                   now: Time)
    ensures RowOf(r, WithRates(WithMemory(FreshRow(r, mainScore, sparkScore, now), throttle, now), rates), throttle,
                  rates, mainScore, sparkScore, now)
  {
    hide TierOf, ActiveUntil, Before, After;
    RebuiltTier(mainScore(r.quota), r.throttled, throttle, r.id, DefaultTier, now);
    RebuiltTier(sparkScore(r.quota), r.throttledSpark, throttle, r.id, SparkTier, now);
  }

  lemma RebuiltTier(base: real, stored: Option<Time>, throttle: Throttles, id: string, tier: Tier, now: Time)
    ensures var until := ActiveUntil(throttle, id, tier, now);
            TierOf(if until.Some? || Before(now, stored) then -1.0 else base,
                   if until.Some? && After(until.value, stored) then until else stored,
                   base, stored, throttle, (id, tier), now)
  {
  }

  /** No row of a rebuild is available while throttled, by the database or by the scheduler's memory. */
  lemma RebuiltUnavailable(rs: seq<DbRow>, rows: seq<Row>, throttle: Throttles, rates: Rates, mainScore: Quota -> real,
                           sparkScore: Quota -> real, now: Time, clock: Time)
    requires now <= clock && RowsOf(rs, rows, throttle, rates, mainScore, sparkScore, now)
    ensures AllUnavailable(rows, clock)
  {
    forall i | 0 <= i < |rows|
      ensures ThrottledUnavailable(rows[i], clock)
    {
      assert RowOf(rs[i], rows[i], throttle, rates, mainScore, sparkScore, now);
    }
  }

  /** `clock` is the present; operations may have read the time a little earlier. */
  class Scheduler {
    var available: Option<Snapshot>
    var throttle: Throttles
    var checking: set<string>
    ghost var clock: Time

    /** The index by plan is right, and no throttled tier is available. */
    ghost predicate Valid()
      reads this
    {
      available.Some? ==> Sound(available.value) && AllUnavailable(available.value.rows, clock)
    }

    constructor (ghost now: Time)
      ensures Valid() && available == None && throttle == map[] && checking == {} && clock == now
    {
      available, throttle, checking := None, map[], {};
      clock := now;
    }

    /** Time passes. */
    ghost method Tick(now: Time)
      requires Valid() && clock <= now
      modifies this`clock
      ensures Valid() && clock == now
    {
      clock := now;
    }

    method RefreshAvailableFromRows(dbRows: seq<DbRow>, rates: Rates, mainScore: Quota -> real,
                                    sparkScore: Quota -> real, now: Time)
      requires now <= clock
      modifies this`available
      ensures Valid() && available.Some?
      ensures exists rows :: multiset(available.value.rows) == multiset(rows)
                             && RowsOf(Taken(dbRows, checking), rows, throttle, rates, mainScore, sparkScore, now)
      ensures Descending(available.value.rows)
    {
      var rows := [];
      for i := 0 to |dbRows|
        invariant RowsOf(Taken(dbRows[..i], checking), rows, throttle, rates, mainScore, sparkScore, now)
      {
        assert dbRows[..i + 1][..i] == dbRows[..i];
        if !dbRows[i].synced || dbRows[i].id in checking {
          continue;
        }
        var row := FreshRow(dbRows[i], mainScore, sparkScore, now);
        row := WithMemory(row, throttle, now);
        row := WithRates(row, rates);
        RebuiltRow(dbRows[i], throttle, rates, mainScore, sparkScore, now);
        rows := rows + [row];
      }
      assert dbRows[..|dbRows|] == dbRows;
      RebuiltUnavailable(Taken(dbRows, checking), rows, throttle, rates, mainScore, sparkScore, now, clock);
      Publish(rows);
      assert RowsOf(Taken(dbRows, checking), rows, throttle, rates, mainScore, sparkScore, now);
    }

    /** Sorts and publishes. */
    method Publish(rows: seq<Row>)
      requires AllUnavailable(rows, clock)
      modifies this`available
      ensures Valid() && available.Some? && multiset(available.value.rows) == multiset(rows)
              && Descending(available.value.rows)
    {
      var sorted := SortByAdjustedScore(rows);
      SameRowsUnavailable(rows, sorted, clock);
      DescendingAvailable(sorted);
      var snapshot := BuildAvailableSnapshot(sorted);
      available := Some(snapshot);
    }

    method ApplyQuotaToAvailable(id: string, quota: Quota, base: real, baseSpark: real, now: Time) returns (found: bool)
      requires Valid() && now <= clock
      modifies this`available
      ensures Valid()
      ensures found <==> old(available).Some? && Find(old(available).value.rows, id) < |old(available).value.rows|
      ensures !found ==> available == old(available)
      ensures found ==>
                var rows := old(available).value.rows; var k := Find(rows, id);
                && available.Some?
                && exists r :: QuotaApplied(rows[k], r, quota, base, baseSpark, now)
                               && multiset(available.value.rows) == multiset(rows[k := r])
    {
      if available.None? {
        return false;
      }
      var updated := available.value.rows;
      var k := IndexOf(updated, id);
      if k == |updated| {
        return false;
      }
      var row := updated[k];
      var newScore, newScoreSpark := base, baseSpark;
      if Before(now, row.throttled) {
        newScore := -1.0;
      }
      if Before(now, row.throttledSpark) {
        newScoreSpark := -1.0;
      }
      if row.score < 0.0 && newScore >= 0.0 {
        row := row.(weight := 1.0);
      }
      if row.scoreSpark < 0.0 && newScoreSpark >= 0.0 {
        row := row.(weightSpark := 1.0);
      }
      row := row.(quota := quota, score := newScore, scoreSpark := newScoreSpark);
      assert QuotaApplied(updated[k], row, quota, base, baseSpark, now);
      OneRowUnavailable(updated, k, row, clock);
      updated := updated[k := row];
      Publish(updated);
      found := true;
    }

    method RefreshAvailableScores(mainScore: Quota -> real, sparkScore: Quota -> real)
      requires Valid()
      modifies this`available
      ensures Valid() && (old(available).None? ==> available == None)
      ensures old(available).Some? ==>
                && available.Some?
                && exists rows :: AllRescored(old(available).value.rows, rows, mainScore, sparkScore)
                                  && multiset(available.value.rows) == multiset(rows)
    {
      if available.None? {
        return;
      }
      var rows := available.value.rows;
      ghost var before := rows;
      for i := 0 to |rows|
        invariant |rows| == |before|
        invariant forall j | 0 <= j < i :: RescoredTo(before[j], rows[j], mainScore, sparkScore)
        invariant forall j | i <= j < |rows| :: rows[j] == before[j]
      {
        var row := rows[i];
        if row.score >= 0.0 {
          row := row.(score := mainScore(row.quota));
        }
        if row.scoreSpark >= 0.0 {
          row := row.(scoreSpark := sparkScore(row.quota));
        }
        rows := rows[i := row];
      }
      RescoredUnavailable(before, rows, mainScore, sparkScore, clock);
      Publish(rows);
    }

    /** Publishes without sorting. */
    method PublishUnsorted(rows: seq<Row>)
      requires AvailableDescending(rows) && AllUnavailable(rows, clock)
      modifies this`available
      ensures Valid() && available.Some? && available.value.rows == rows
    {
      var snapshot := BuildAvailableSnapshot(rows);
      available := Some(snapshot);
    }

    method EvictCredential(id: string)
      requires Valid()
      modifies this`available
      ensures Valid() && (old(available).None? ==> available == None)
      ensures old(available).Some? ==> available.Some? && available.value.rows == Others(old(available).value.rows, id)
    {
      if available.None? {
        return;
      }
      var filtered := WithoutCredential(available.value.rows, id);
      OthersDescending(available.value.rows, id);
      PublishUnsorted(filtered);
    }

    method SuspendCredentialTier(id: string, tier: Tier)
      requires Valid()
      modifies this`available
      ensures Valid() && (old(available).None? ==> available == None)
      ensures old(available).Some? ==>
                var rows := old(available).value.rows; var k := Find(rows, id);
                && available.Some?
                && (k == |rows| || tier.OtherTier? ==> available.value.rows == rows)
                && (k < |rows| && tier.DefaultTier? ==> available.value.rows == rows[k := rows[k].(score := -1.0)])
                && (k < |rows| && tier.SparkTier? ==> available.value.rows == rows[k := rows[k].(scoreSpark := -1.0)])
    {
      if available.None? {
        return;
      }
      var updated := available.value.rows;
      var k := IndexOf(updated, id);
      if k < |updated| {
        var row := updated[k];
        match tier {
          case SparkTier => row := row.(scoreSpark := -1.0);
          case DefaultTier => row := row.(score := -1.0);
          case OtherTier => return;
        }
        SuspendedDescending(updated, k, row);
        OneRowUnavailable(updated, k, row, clock);
        updated := updated[k := row];
      }
      PublishUnsorted(updated);
    }

    method ThrottleCredentialTier(id: string, tier: Tier, until: Time)
      requires Valid()
      modifies this`available
      ensures Valid() && (old(available).None? ==> available == None)
      ensures old(available).Some? ==>
                var rows := old(available).value.rows; var k := Find(rows, id);
                && available.Some?
                && (k == |rows| || tier.OtherTier? ==> available.value.rows == rows)
                && (k < |rows| && tier.DefaultTier? ==>
                      available.value.rows == rows[k := rows[k].(score := -1.0, throttled := Some(until))])
                && (k < |rows| && tier.SparkTier? ==>
                      available.value.rows == rows[k := rows[k].(scoreSpark := -1.0, throttledSpark := Some(until))])
    {
      if available.None? {
        return;
      }
      var updated := available.value.rows;
      var k := IndexOf(updated, id);
      if k < |updated| {
        var row := updated[k];
        match tier {
          case SparkTier => row := row.(scoreSpark := -1.0, throttledSpark := Some(until));
          case DefaultTier => row := row.(score := -1.0, throttled := Some(until));
          case OtherTier => return;
        }
        SuspendedDescending(updated, k, row);
        OneRowUnavailable(updated, k, row, clock);
        updated := updated[k := row];
      }
      PublishUnsorted(updated);
    }

    method ApplyCredentialWeight(id: string, tier: Tier, weight: real)
      requires Valid()
      modifies this`available
      ensures Valid() && (old(available).None? ==> available == None)
      ensures old(available).Some? ==>
                var rows := old(available).value.rows; var k := Find(rows, id);
                && available.Some?
                && (k == |rows| || tier.OtherTier? ==> available == old(available))
                && (k < |rows| && tier.DefaultTier? ==>
                      multiset(available.value.rows) == multiset(rows[k := rows[k].(weight := weight)]))
                && (k < |rows| && tier.SparkTier? ==>
                      multiset(available.value.rows) == multiset(rows[k := rows[k].(weightSpark := weight)]))
    {
      if available.None? {
        return;
      }
      var updated := available.value.rows;
      var k := IndexOf(updated, id);
      if k == |updated| {
        return;
      }
      var row := updated[k];
      match tier {
        case SparkTier => row := row.(weightSpark := weight);
        case DefaultTier => row := row.(weight := weight);
        case OtherTier => return;
      }
      OneRowUnavailable(updated, k, row, clock);
      updated := updated[k := row];
      Publish(updated);
    }
  }
}
