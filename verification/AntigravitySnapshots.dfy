/** The published rows of the antigravity scheduler: a tier that is throttled is never selectable. */
module AntigravitySnapshots {
  import opened Prelude
  import opened Selection

  type Time = int

  datatype Tier = Claude | Pro | Flash | FlashLite | Tab | Image

  const TIERS: seq<Tier> := [Claude, Pro, Flash, FlashLite, Tab, Image]

  datatype TierState = TierState(quota: real, reset: Option<Time>, throttled: Option<Time>, score: real, weight: real)

  datatype Row = Row(
    id: string,
    plan: int,
    claude: TierState,
    pro: TierState,
    flash: TierState,
    flashLite: TierState,
    tab: TierState,
    image: TierState,
    credits: real,
    creditTypes: seq<string>)

  function Get(row: Row, tier: Tier): TierState {
    match tier
    case Claude => row.claude
    case Pro => row.pro
    case Flash => row.flash
    case FlashLite => row.flashLite
    case Tab => row.tab
    case Image => row.image
  }

  function Set(row: Row, tier: Tier, s: TierState): (r: Row)
    ensures Get(r, tier) == s && forall t | t != tier :: Get(r, t) == Get(row, t)
    ensures r.id == row.id && r.plan == row.plan && r.credits == row.credits && r.creditTypes == row.creditTypes
  {
    match tier
    case Claude => row.(claude := s)
    case Pro => row.(pro := s)
    case Flash => row.(flash := s)
    case FlashLite => row.(flashLite := s)
    case Tab => row.(tab := s)
    case Image => row.(image := s)
  }

  predicate Before(now: Time, until: Option<Time>) {
    until.Some? && now < until.value
  }

  predicate Throttled(row: Row, tier: Tier, now: Time) {
    Before(now, Get(row, tier).throttled)
  }

  /** A tier whose throttle deadline lies ahead has a negative score. */
  ghost predicate ThrottledUnavailable(row: Row, now: Time) {
    forall tier | Throttled(row, tier, now) :: Get(row, tier).score < 0.0
  }

  ghost predicate AllUnavailable(rows: seq<Row>, now: Time) {
    forall row | row in rows :: ThrottledUnavailable(row, now)
  }

  /** As time passes deadlines only lapse. */
  lemma TimePasses(rows: seq<Row>, now: Time, later: Time)
    requires AllUnavailable(rows, now) && now <= later
    ensures AllUnavailable(rows, later)
  {
  }

  // ---------- Row updates ----------

  /** `throttleAwareScore`. */
  function ThrottleAware(score: real, throttled: Option<Time>, now: Time): real {
    if Before(now, throttled) then -1.0 else score
  }

  /** Applies `f` to every tier. */
  function EachTier(row: Row, f: (Tier, TierState) -> TierState): (r: Row)
    ensures forall t :: Get(r, t) == f(t, Get(row, t))
    ensures r.id == row.id && r.plan == row.plan && r.credits == row.credits && r.creditTypes == row.creditTypes
  {
    row.(claude := f(Claude, row.claude), pro := f(Pro, row.pro), flash := f(Flash, row.flash),
         flashLite := f(FlashLite, row.flashLite), tab := f(Tab, row.tab), image := f(Image, row.image))
  }

  /** How a quota and its reset time are scored at the moment. */
  type Scoring = (real, Option<Time>) -> real

  datatype DbRow = DbRow(row: Row, synced: bool)

  /** A database row at time `now`; its scores and weights are set here. */
  function FreshRow(d: DbRow, scoring: Scoring, now: Time): Row {
    EachTier(d.row, (t, s) => FreshTier(s, scoring, now))
  }

  function FreshTier(s: TierState, scoring: Scoring, now: Time): TierState {
    s.(score := ThrottleAware(scoring(s.quota, s.reset), s.throttled, now), weight := 1.0)
  }

  datatype Quota = Quota(quota: Tier -> real, reset: Tier -> Option<Time>, creditsSynced: bool, credits: real,
                         creditTypes: seq<string>)

  /** A tier that is throttled until `until` is unavailable; another one has the score given. */
  predicate ScoredUnless(score: real, base: real, until: Option<Time>, now: Time) {
    score == if until.Some? && until.value > now then -1.0 else base
  }

  /** `r` is `row` after a quota update: each tier with its own new quota, scored unless it is throttled. */
  ghost predicate QuotaApplied(row: Row, r: Row, q: Quota, scoring: Scoring, now: Time) {
    && r.id == row.id && r.plan == row.plan
    && r.credits == (if q.creditsSynced then q.credits else row.credits)
    && r.creditTypes == (if q.creditsSynced then q.creditTypes else row.creditTypes)
    && forall t ::
         var was, after := Get(row, t), Get(r, t);
         && after.quota == q.quota(t) && after.reset == q.reset(t)
         && after.throttled == was.throttled && after.weight == was.weight
         && ScoredUnless(after.score, scoring(q.quota(t), q.reset(t)), was.throttled, now)
  }

  /** `r` is `row` with the available tiers scored by their own quota, and nothing else changed. */
  ghost predicate RescoredTo(row: Row, r: Row, scoring: Scoring) {
    && r.id == row.id && r.plan == row.plan && r.credits == row.credits && r.creditTypes == row.creditTypes
    && forall t ::
         var was, after := Get(row, t), Get(r, t);
         after == was.(score := if was.score >= 0.0 then scoring(was.quota, was.reset) else was.score)
  }

  ghost predicate AllRescored(rows: seq<Row>, rs: seq<Row>, scoring: Scoring) {
    |rs| == |rows| && forall i | 0 <= i < |rows| :: RescoredTo(rows[i], rs[i], scoring)
  }

  type Throttles = map<(string, Tier), Time>

  function ActiveUntil(throttle: Throttles, id: string, tier: Tier, now: Time): Option<Time> {
    if (id, tier) in throttle && now < throttle[(id, tier)] then Some(throttle[(id, tier)]) else None
  }

  /** A remembered throttle that is still active extends the row's own deadline. */
  function WithMemory(throttle: Throttles, id: string, now: Time): (Tier, TierState) -> TierState {
    (t, s: TierState) =>
      var until := ActiveUntil(throttle, id, t, now);
      if until.None? then s
      else s.(score := -1.0,
              throttled := if s.throttled.None? || until.value > s.throttled.value then until else s.throttled)
  }

  function Others(rows: seq<Row>, id: string): (r: seq<Row>)
    ensures forall x | x in r :: x in rows && x.id != id
    ensures forall x | x in rows && x.id != id :: x in r
  {
    if rows == [] then []
    else Others(rows[..|rows| - 1], id) + if rows[|rows| - 1].id != id then [rows[|rows| - 1]] else []
  }

  /** The first row of a credential; `|rows|` when it has none. */
  function Find(rows: seq<Row>, id: string): (k: nat)
    ensures k <= |rows| && (k < |rows| ==> rows[k].id == id) && forall i | 0 <= i < k :: rows[i].id != id
  {
    if rows == [] || rows[0].id == id then 0
    else
      var k := Find(rows[1..], id);
      assert forall i | 0 < i < k + 1 :: rows[i] == rows[1..][i - 1];
      k + 1
  }

  method IndexOf(rows: seq<Row>, id: string) returns (k: nat)
    ensures k == Find(rows, id)
  {
    k := 0;
    while k < |rows| && rows[k].id != id
      invariant k <= |rows| && Find(rows, id) == k + Find(rows[k..], id)
    {
      assert rows[k..][1..] == rows[k + 1..];
      k := k + 1;
    }
  }

  lemma ReplacedKeeps(rows: seq<Row>, k: nat, row: Row, clock: Time)
    requires AllUnavailable(rows, clock) && k < |rows|
    requires ThrottledUnavailable(rows[k], clock) ==> ThrottledUnavailable(row, clock)
    ensures AllUnavailable(rows[k := row], clock)
  {
  }

  // ---------- The scheduler ----------

  /** The database rows that a full rebuild takes. */
  function Taken(dbRows: seq<DbRow>, checking: set<string>): (taken: seq<DbRow>)
    ensures forall d :: d in taken <==> d in dbRows && d.synced && d.row.id !in checking
  {
    if dbRows == [] then []
    else
      var front, d := dbRows[..|dbRows| - 1], dbRows[|dbRows| - 1];
      assert dbRows == front + [d];
      Taken(front, checking) + if d.synced && d.row.id !in checking then [d] else []
  }

  /** One tier of a rebuilt row. Throttled means until a deadline in the database or in memory: then the
      score is negative and the row has the later of the two deadlines. Otherwise its quota is scored. */
  ghost predicate TierOf(was: TierState, after: TierState, scoring: Scoring, throttle: Throttles, key: (string, Tier),
                         now: Time)
  {
    var remembered := key in throttle && throttle[key] > now;
    && after.quota == was.quota && after.reset == was.reset && after.weight == 1.0
    && after.score == (if remembered || (was.throttled.Some? && was.throttled.value > now) then -1.0
                    else scoring(was.quota, was.reset))
    && (!remembered ==> after.throttled == was.throttled)
    && (remembered ==>
          && after.throttled.Some? && after.throttled.value >= throttle[key]
          && (was.throttled.Some? ==> after.throttled.value >= was.throttled.value)
          && after.throttled in {Some(throttle[key]), was.throttled})
  }

  /** `row` is what a full rebuild makes of `d`. */
  ghost predicate RowOf(d: DbRow, row: Row, throttle: Throttles, scoring: Scoring, now: Time) {
    && row.id == d.row.id && row.plan == d.row.plan && row.credits == d.row.credits
    && row.creditTypes == d.row.creditTypes
    && forall t :: TierOf(Get(d.row, t), Get(row, t), scoring, throttle, (d.row.id, t), now)
  }

  ghost predicate RowsOf(ds: seq<DbRow>, rows: seq<Row>, throttle: Throttles, scoring: Scoring, now: Time) {
    |rows| == |ds| && forall i | 0 <= i < |ds| :: RowOf(ds[i], rows[i], throttle, scoring, now)
  }

  lemma RebuiltRow(d: DbRow, throttle: Throttles, scoring: Scoring, now: Time)
    ensures RowOf(d, EachTier(FreshRow(d, scoring, now), WithMemory(throttle, d.row.id, now)), throttle, scoring, now)
  {
    hide EachTier, TierOf, Get;
    forall t
      ensures TierOf(Get(d.row, t), Get(EachTier(FreshRow(d, scoring, now), WithMemory(throttle, d.row.id, now)), t),
                     scoring, throttle, (d.row.id, t), now)
    {
      RebuiltTier(Get(d.row, t), throttle, d.row.id, t, scoring, now);
    }
  }

  lemma RebuiltTier(s: TierState, throttle: Throttles, id: string, t: Tier, scoring: Scoring, now: Time)
    ensures TierOf(s, WithMemory(throttle, id, now)(t, FreshTier(s, scoring, now)), scoring, throttle, (id, t), now)
  {
  }

  lemma RebuiltUnavailable(ds: seq<DbRow>, rows: seq<Row>, throttle: Throttles, scoring: Scoring, now: Time,
                           clock: Time)
    requires now <= clock && RowsOf(ds, rows, throttle, scoring, now)
    ensures AllUnavailable(rows, clock)
  {
    hide Get;
    forall i | 0 <= i < |rows|
      ensures ThrottledUnavailable(rows[i], clock)
    {
      assert RowOf(ds[i], rows[i], throttle, scoring, now);
    }
  }

  lemma RescoredUnavailable(rows: seq<Row>, rs: seq<Row>, scoring: Scoring, clock: Time)
    requires AllUnavailable(rows, clock) && AllRescored(rows, rs, scoring)
    ensures AllUnavailable(rs, clock)
  {
    hide Get;
    forall i | 0 <= i < |rs|
      ensures ThrottledUnavailable(rs[i], clock)
    {
      assert ThrottledUnavailable(rows[i], clock) && RescoredTo(rows[i], rs[i], scoring);
    }
  }

  /** The rows as `updateAvailableRows` publishes them. `clock` is the present; operations may have read
      the time a little earlier. */
  class Scheduler {
    var available: Option<seq<Row>>
    var throttle: Throttles
    var checking: set<string>
    ghost var clock: Time

    ghost predicate Valid()
      reads this
    {
      available.Some? ==> AllUnavailable(available.value, clock)
    }

    constructor (ghost now: Time)
      ensures Valid() && available == None && clock == now
    {
      available, throttle, checking := None, map[], {};
      clock := now;
    }

    /** Time passes. */
    ghost method Tick(now: Time)
      requires Valid() && clock <= now
      modifies this`clock
      ensures Valid() && clock == now
    {
      if available.Some? {
        TimePasses(available.value, clock, now);
      }
      clock := now;
    }

    /** `applyMemoryThrottles` on one row. */
    method ApplyMemory(row: Row, now: Time) returns (r: Row)
      ensures r == EachTier(row, WithMemory(throttle, row.id, now))
    {
      r := row;
      for k := 0 to |TIERS|
        invariant r.id == row.id && r.plan == row.plan && r.credits == row.credits && r.creditTypes == row.creditTypes
        invariant forall j | 0 <= j < k ::
                    Get(r, TIERS[j]) == WithMemory(throttle, row.id, now)(TIERS[j], Get(row, TIERS[j]))
        invariant forall j | k <= j < |TIERS| :: Get(r, TIERS[j]) == Get(row, TIERS[j])
      {
        var tier := TIERS[k];
        var until := ActiveUntil(throttle, row.id, tier, now);
        if until.Some? {
          var s := Get(r, tier);
          if s.throttled.None? || until.value > s.throttled.value {
            r := Set(r, tier, Get(r, tier).(throttled := until));
          }
          r := Set(r, tier, Get(r, tier).(score := -1.0));
        }
      }
      SameTiers(r, EachTier(row, WithMemory(throttle, row.id, now)));
    }

    method RefreshAvailableFromRows(dbRows: seq<DbRow>, scoring: Scoring, now: Time)
      requires now <= clock
      modifies this`available
      ensures Valid() && available.Some?
      ensures RowsOf(Taken(dbRows, checking), available.value, throttle, scoring, now)
    {
      var rows := [];
      for i := 0 to |dbRows|
        invariant RowsOf(Taken(dbRows[..i], checking), rows, throttle, scoring, now)
      {
        assert dbRows[..i + 1][..i] == dbRows[..i];
        if dbRows[i].row.id in checking || !dbRows[i].synced {
          continue;
        }
        RebuiltRow(dbRows[i], throttle, scoring, now);
        var row := ApplyMemory(FreshRow(dbRows[i], scoring, now), now);
        rows := rows + [row];
      }
      assert dbRows[..|dbRows|] == dbRows;
      RebuiltUnavailable(Taken(dbRows, checking), rows, throttle, scoring, now, clock);
      available := Some(rows);
    }

    method ApplyQuotaToAvailable(id: string, q: Quota, scoring: Scoring, now: Time) returns (found: bool)
      requires Valid() && now <= clock
      modifies this`available
      ensures Valid()
      ensures found <==> old(available).Some? && Find(old(available).value, id) < |old(available).value|
      ensures !found ==> available == old(available)
      ensures found ==>
                var rows := old(available).value; var k := Find(rows, id);
                exists r :: QuotaApplied(rows[k], r, q, scoring, now) && available == Some(rows[k := r])
    {
      if available.None? {
        return false;
      }
      var rows := available.value;
      var k := IndexOf(rows, id);
      if k == |rows| {
        return false;
      }
      var row := EachTier(rows[k], (t, s: TierState) =>
        s.(quota := q.quota(t), reset := q.reset(t),
           score := ThrottleAware(scoring(q.quota(t), q.reset(t)), s.throttled, now)));
      if q.creditsSynced {
        row := row.(credits := q.credits, creditTypes := q.creditTypes);
      }
      assert forall t :: Get(row, t).throttled == Get(rows[k], t).throttled;
      assert QuotaApplied(rows[k], row, q, scoring, now);
      ReplacedKeeps(rows, k, row, clock);
      available := Some(rows[k := row]);
      found := true;
    }

    method RefreshAvailableScores(scoring: Scoring)
      requires Valid()
      modifies this`available
      ensures Valid() && (available.None? <==> old(available).None?)
      ensures old(available).Some? ==> AllRescored(old(available).value, available.value, scoring)
    {
      if available.None? {
        return;
      }
      var rows := available.value;
      ghost var before := rows;
      for i := 0 to |rows|
        invariant |rows| == |before|
        invariant forall j | 0 <= j < i :: RescoredTo(before[j], rows[j], scoring)
        invariant forall j | i <= j < |rows| :: rows[j] == before[j]
      {
        var row := EachTier(rows[i], (t, s: TierState) =>
          if s.score >= 0.0 then s.(score := scoring(s.quota, s.reset)) else s);
        assert RescoredTo(rows[i], row, scoring);
        rows := rows[i := row];
      }
      RescoredUnavailable(before, rows, scoring, clock);
      available := Some(rows);
    }

    method EvictCredential(id: string)
      requires Valid()
      modifies this`available
      ensures Valid()
      ensures available == if old(available).None? then None else Some(Others(old(available).value, id))
    {
      if available.None? {
        return;
      }
      var rows, filtered := available.value, [];
      for i := 0 to |rows|
        invariant filtered == Others(rows[..i], id)
      {
        assert rows[..i + 1][..i] == rows[..i];
        if rows[i].id != id {
          filtered := filtered + [rows[i]];
        }
      }
      assert rows[..|rows|] == rows;
      available := Some(filtered);
    }

    method SuspendCredentialTier(id: string, tier: Tier)
      requires Valid()
      modifies this`available
      ensures Valid()
      ensures available ==
                if old(available).None? || Find(old(available).value, id) == |old(available).value| then old(available)
                else var rows := old(available).value; var k := Find(rows, id);
                     Some(rows[k := Set(rows[k], tier, Get(rows[k], tier).(score := -1.0))])
    {
      if available.None? {
        return;
      }
      var rows := available.value;
      var k := IndexOf(rows, id);
      if k < |rows| {
        var row := Set(rows[k], tier, Get(rows[k], tier).(score := -1.0));
        ReplacedKeeps(rows, k, row, clock);
        available := Some(rows[k := row]);
      }
    }

    /** Changes one tier of one row and nothing else. */
    method ThrottleCredentialTier(id: string, tier: Tier, until: Time)
      requires Valid()
      modifies this`available
      ensures Valid()
      ensures available ==
                if old(available).None? || Find(old(available).value, id) == |old(available).value| then old(available)
                else var rows := old(available).value; var k := Find(rows, id);
                     Some(rows[k := Set(rows[k], tier, Get(rows[k], tier).(score := -1.0, throttled := Some(until)))])
    {
      if available.None? {
        return;
      }
      var rows := available.value;
      var k := IndexOf(rows, id);
      if k < |rows| {
        var row := Set(rows[k], tier, Get(rows[k], tier).(score := -1.0, throttled := Some(until)));
        ReplacedKeeps(rows, k, row, clock);
        available := Some(rows[k := row]);
      }
    }

    /** `rememberThrottleUntil`: remembers the deadline, then throttles the published row. */
    method RememberThrottleUntil(id: string, tier: Tier, until: Time)
      requires Valid()
      modifies this`available, this`throttle
      ensures Valid() && throttle == old(throttle)[(id, tier) := until]
      ensures available.Some? ==>
                forall now | now < until && Find(available.value, id) < |available.value| ::
                  Throttled(available.value[Find(available.value, id)], tier, now)
    {
      throttle := throttle[(id, tier) := until];
      ThrottleCredentialTier(id, tier, until);
      if available.Some? && old(available).Some? {
        FindAgain(old(available).value, id, tier, until);
      }
    }
  }

  // ---------- Selecting ----------

  const CREDITS_BASE_SCORE: real := 0.001

  function WeightedTierScore(row: Row, tier: Tier): real {
    AdjustedScore(Get(row, tier).score, Get(row, tier).weight)
  }

  predicate CredentialUsable(row: Row, tier: Tier, allowed: set<int>) {
    row.id != "" && PlanTypeAllowed(row.plan, allowed) && WeightedTierScore(row, tier) >= 0.0
  }

  predicate CreditsFallbackUsable(row: Row, tier: Tier, allowed: set<int>, now: Time) {
    && row.id != "" && PlanTypeAllowed(row.plan, allowed) && Get(row, tier).quota <= 0.0
    && row.credits > 0.0 && row.creditTypes != [] && !Throttled(row, tier, now)
  }

  predicate Usable(row: Row, tier: Tier, allowed: set<int>, now: Time, creditsFallback: bool) {
    CredentialUsable(row, tier, allowed) || (creditsFallback && CreditsFallbackUsable(row, tier, allowed, now))
  }

  function NormalScore(row: Row, tier: Tier, allowed: set<int>): real {
    if CredentialUsable(row, tier, allowed) then WeightedTierScore(row, tier) else -1.0
  }

  function CreditsScore(row: Row, tier: Tier, allowed: set<int>, now: Time): real {
    if !CreditsFallbackUsable(row, tier, allowed, now) then -1.0
    else
      var weight := if Get(row, tier).weight < CREDITS_BASE_SCORE then CREDITS_BASE_SCORE else Get(row, tier).weight;
      row.credits * weight
  }

  /** Which rows can be used, and which can be picked by score or by credits with what weight. */
  lemma ScoresByFields(row: Row, tier: Tier, allowed: set<int>, now: Time)
    ensures var s := Get(row, tier);
            CredentialUsable(row, tier, allowed) <==>
              row.id != "" && (allowed == {} || row.plan in allowed) && s.score >= 0.0 && s.score * s.weight >= 0.0
    ensures var s := Get(row, tier); var score := NormalScore(row, tier, allowed);
            && (score > 0.0 <==> row.id != "" && (allowed == {} || row.plan in allowed) && s.score > 0.0
                                 && s.weight > 0.0)
            && (score > 0.0 ==> score == s.score * s.weight)
    ensures var s := Get(row, tier); var score := CreditsScore(row, tier, allowed, now);
            && (score > 0.0 <==> row.id != "" && (allowed == {} || row.plan in allowed) && s.quota <= 0.0
                                 && row.credits > 0.0 && row.creditTypes != []
                                 && !(s.throttled.Some? && s.throttled.value > now))
            && (score > 0.0 ==> score == row.credits * if s.weight > 0.001 then s.weight else 0.001)
  {
    hide Get;
    var s := Get(row, tier);
    Products(s.score, s.weight);
    Products(row.credits, if s.weight > 0.001 then s.weight else 0.001);
  }

  lemma Products(a: real, b: real)
    ensures a > 0.0 && b > 0.0 ==> a * b > 0.0
    ensures a >= 0.0 && a * b > 0.0 ==> a > 0.0 && b > 0.0
  {
    if a > 0.0 && b <= 0.0 {
      assert a * -b >= 0.0;
    }
  }

  /** A row of `plan` could be picked. */
  ghost predicate Serves(rows: seq<Row>, plan: int, allowed: set<int>, score: Row -> real) {
    PlanTypeAllowed(plan, allowed) && exists x :: x in rows && x.plan == plan && score(x) > 0.0
  }

  /** `row` is of the first preferred plan that could be served, when there is one. */
  ghost predicate HonoursPreference(rows: seq<Row>, plans: seq<int>, allowed: set<int>, score: Row -> real, row: Row) {
    forall i | 0 <= i < |plans| && Serves(rows, plans[i], allowed, score)
               && (forall j | 0 <= j < i :: !Serves(rows, plans[j], allowed, score)) ::
      row.plan == plans[i]
  }

  function Normal(tier: Tier, allowed: set<int>): Row -> real {
    (r: Row) => NormalScore(r, tier, allowed)
  }

  function Credits(tier: Tier, allowed: set<int>, now: Time): Row -> real {
    (r: Row) => CreditsScore(r, tier, allowed, now)
  }

  function OfPlan(plan: int, score: Row -> real): Row -> real {
    (r: Row) => if r.plan != plan then -1.0 else score(r)
  }

  /** `row` is the weighted pick among the best rows of the first preferred plan that has any, or of all
      plans when none has. */
  ghost predicate PickedInOrder(rows: seq<Row>, plans: seq<int>, allowed: set<int>, bestCount: int, score: Row -> real,
                                random: nat -> real, row: Row)
  {
    exists i: nat ::
      && i <= |plans| && (forall j | 0 <= j < i :: !Serves(rows, plans[j], allowed, score))
      && PickedAt(rows, plans, allowed, bestCount, score, random, row, i)
  }

  ghost predicate PickedAt(rows: seq<Row>, plans: seq<int>, allowed: set<int>, bestCount: int, score: Row -> real,
                           random: nat -> real, row: Row, i: nat)
    requires i <= |plans|
  {
    && (i < |plans| ==> PlanTypeAllowed(plans[i], allowed) && row.plan == plans[i])
    && bestCount > 0
    && PointedAt(Pool(rows, bestCount, if i < |plans| then OfPlan(plans[i], score) else score), random(i), row)
  }

  /** Tries the preferred plans in order, then all rows. */
  method PickByPlan(rows: seq<Row>, plans: seq<int>, allowed: set<int>, bestCount: int, score: Row -> real,
                    random: nat -> real)
    returns (row: Option<Row>)
    requires forall i :: 0.0 <= random(i) < 1.0
    ensures row.Some? <==> bestCount > 0 && exists x :: x in rows && score(x) > 0.0
    ensures row.Some? ==>
              && row.value in rows && score(row.value) > 0.0
              && HonoursPreference(rows, plans, allowed, score, row.value)
              && PickedInOrder(rows, plans, allowed, bestCount, score, random, row.value)
  {
    hide PointedAt, Pool;
    for i := 0 to |plans|
      invariant bestCount > 0 ==> forall j | 0 <= j < i :: !Serves(rows, plans[j], allowed, score)
    {
      if !PlanTypeAllowed(plans[i], allowed) {
        continue;
      }
      var planScore := OfPlan(plans[i], score);
      row := PickWeightedFromBest(rows, bestCount, planScore, random(i));
      if row.Some? {
        assert planScore(row.value) > 0.0;
        assert Serves(rows, plans[i], allowed, score);
        assert PickedAt(rows, plans, allowed, bestCount, score, random, row.value, i);
        return;
      }
      forall x | bestCount > 0 && x in rows && x.plan == plans[i]
        ensures score(x) <= 0.0
      {
        assert planScore(x) <= 0.0;
      }
    }
    row := PickWeightedFromBest(rows, bestCount, score, random(|plans|));
    if row.Some? {
      assert PickedAt(rows, plans, allowed, bestCount, score, random, row.value, |plans|);
    }
  }

  ghost predicate AnyNormal(rows: seq<Row>, tier: Tier, allowed: set<int>) {
    exists x :: x in rows && NormalScore(x, tier, allowed) > 0.0
  }

  ghost predicate AnyCredits(rows: seq<Row>, tier: Tier, allowed: set<int>, now: Time) {
    exists x :: x in rows && CreditsScore(x, tier, allowed, now) > 0.0
  }

  /** `row` was picked by its score when any row has one, and by its credits otherwise; within that the
      order of the preferred plans decides, and the weights. */
  ghost predicate Chosen(rows: seq<Row>, plans: seq<int>, allowed: set<int>, tier: Tier, now: Time, bestCount: int,
                         random: nat -> real, row: Row)
  {
    var score := if AnyNormal(rows, tier, allowed) then Normal(tier, allowed) else Credits(tier, allowed, now);
    && score(row) > 0.0 && HonoursPreference(rows, plans, allowed, score, row)
    && PickedInOrder(rows, plans, allowed, bestCount, score, random, row)
  }

  /** `SelectCredential` on the published rows, `now` being the time after they were read: a throttled
      tier is never chosen, by score or by credits. */
  method SelectCredential(rows: seq<Row>, clock: Time, now: Time, preferred: string, plans: seq<int>, allowed: set<int>,
                          tier: Tier,
                          bestCount: int, creditsFallback: bool, random: nat -> real) returns (id: Option<string>)
    requires AllUnavailable(rows, clock) && clock <= now && forall i :: 0.0 <= random(i) < 1.0
    ensures id.Some? ==>
              exists row :: row in rows && row.id == id.value && row.id != "" && PlanTypeAllowed(row.plan, allowed)
                            && !Throttled(row, tier, now)
    ensures preferred != "" ==>
              && (id.Some? ==> id.value == preferred)
              && (id.Some? <==>
                    exists row ::
                      row in rows && row.id == preferred && Usable(row, tier, allowed, now, creditsFallback))
    ensures preferred == "" && bestCount > 0 ==>
              (id.Some? <==>
                 AnyNormal(rows, tier, allowed) || (creditsFallback && AnyCredits(rows, tier, allowed, now)))
    ensures preferred == "" && id.Some? ==>
              exists row :: row in rows && row.id == id.value
                            && Chosen(rows, plans, allowed, tier, now, bestCount, random, row)
  {
    hide PickedInOrder;
    TimePasses(rows, clock, now);
    if preferred != "" {
      id := SelectPreferred(rows, now, preferred, allowed, tier, creditsFallback);
      return;
    }
    var normal := Normal(tier, allowed);
    var row := PickByPlan(rows, plans, allowed, bestCount, normal, random);
    if row.Some? {
      assert normal(row.value) > 0.0;
      return Some(row.value.id);
    }
    if creditsFallback {
      var credits := Credits(tier, allowed, now);
      row := PickByPlan(rows, plans, allowed, bestCount, credits, random);
      if row.Some? {
        assert credits(row.value) > 0.0;
        return Some(row.value.id);
      }
    }
    id := None;
  }

  method SelectPreferred(rows: seq<Row>, now: Time, preferred: string, allowed: set<int>, tier: Tier,
                         creditsFallback: bool)
    returns (id: Option<string>)
    ensures id.Some? ==> id.value == preferred
    ensures id.Some? <==>
              exists row :: row in rows && row.id == preferred && Usable(row, tier, allowed, now, creditsFallback)
  {
    for i := 0 to |rows|
      invariant forall j | 0 <= j < i :: !(rows[j].id == preferred && CredentialUsable(rows[j], tier, allowed))
    {
      if rows[i].id == preferred && CredentialUsable(rows[i], tier, allowed) {
        assert rows[i] in rows;
        return Some(preferred);
      }
    }
    if creditsFallback {
      for i := 0 to |rows|
        invariant forall j | 0 <= j < i :: !(rows[j].id == preferred
                                             && CreditsFallbackUsable(rows[j], tier, allowed, now))
      {
        if rows[i].id == preferred && CreditsFallbackUsable(rows[i], tier, allowed, now) {
          assert rows[i] in rows;
          return Some(preferred);
        }
      }
    }
    id := None;
  }

  lemma SameTiers(a: Row, b: Row)
    requires a.id == b.id && a.plan == b.plan && a.credits == b.credits && a.creditTypes == b.creditTypes
    requires forall j | 0 <= j < |TIERS| :: Get(a, TIERS[j]) == Get(b, TIERS[j])
    ensures a == b
  {
    assert TIERS[0] == Claude && TIERS[1] == Pro && TIERS[2] == Flash && TIERS[3] == FlashLite && TIERS[4] == Tab
           && TIERS[5] == Image;
    assert Get(a, TIERS[0]) == Get(b, TIERS[0]) && Get(a, TIERS[1]) == Get(b, TIERS[1])
           && Get(a, TIERS[2]) == Get(b, TIERS[2]);
    assert Get(a, TIERS[3]) == Get(b, TIERS[3]) && Get(a, TIERS[4]) == Get(b, TIERS[4])
           && Get(a, TIERS[5]) == Get(b, TIERS[5]);
  }

  lemma {:induction false} FindReplaced(rows: seq<Row>, id: string, row: Row)
    requires Find(rows, id) < |rows| && row.id == id
    ensures Find(rows[Find(rows, id) := row], id) == Find(rows, id)
  {
    if rows[0].id != id {
      FindReplaced(rows[1..], id, row);
      assert rows[Find(rows, id) := row][1..] == rows[1..][Find(rows[1..], id) := row];
    }
  }

  lemma FindAgain(rows: seq<Row>, id: string, tier: Tier, until: Time)
    ensures var k := Find(rows, id);
            k < |rows| ==>
              var rows' := rows[k := Set(rows[k], tier, Get(rows[k], tier).(score := -1.0, throttled := Some(until)))];
              Find(rows', id) == k && forall now | now < until :: Throttled(rows'[k], tier, now)
  {
    var k := Find(rows, id);
    if k < |rows| {
      FindReplaced(rows, id, Set(rows[k], tier, Get(rows[k], tier).(score := -1.0, throttled := Some(until))));
    }
  }
}
