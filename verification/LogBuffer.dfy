/** The in-memory request log: a slice with a dead prefix that stands for a plain sequence of rows. */
module LogBuffer {
  import opened Prelude

  type Time = int

  datatype LogRow = LogRow(handler: string, credential: string, status: int, tier: string, createdAt: Time)

  const COMPACT_THRESHOLD: nat := 1024

  /** Rows were logged in this order, at these times, up to `now`. */
  ghost predicate InTimeOrder(rows: seq<LogRow>, now: Time) {
    && (forall i, j | 0 <= i < j < |rows| :: rows[i].createdAt <= rows[j].createdAt)
    && (forall i | 0 <= i < |rows| :: rows[i].createdAt <= now)
  }

  /** The rows made after `cutoff`. */
  function After(rows: seq<LogRow>, cutoff: Time): (r: seq<LogRow>)
    ensures forall x :: x in r <==> x in rows && x.createdAt > cutoff
  {
    if rows == [] then []
    else
      assert rows == rows[..|rows| - 1] + [rows[|rows| - 1]];
      After(rows[..|rows| - 1], cutoff) + if rows[|rows| - 1].createdAt > cutoff then [rows[|rows| - 1]] else []
  }

  /** What retention leaves at `now`. */
  function Retained(rows: seq<LogRow>, now: Time, retention: int): seq<LogRow> {
    if retention <= 0 then [] else After(rows, now - retention)
  }

  /** The newest `n` rows. */
  function Newest(rows: seq<LogRow>, n: nat): seq<LogRow> {
    if |rows| <= n then rows else rows[|rows| - n..]
  }

  lemma {:induction false} AfterSplit(rows: seq<LogRow>, cutoff: Time, k: nat)
    requires k <= |rows|
    requires forall i | 0 <= i < k :: rows[i].createdAt <= cutoff
    requires forall i | k <= i < |rows| :: rows[i].createdAt > cutoff
    ensures After(rows, cutoff) == rows[k..]
  {
    hide After;
    AfterLast(rows, cutoff);
    if rows != [] {
      var front := rows[..|rows| - 1];
      if k == |rows| {
        AfterSplit(front, cutoff, k - 1);
      } else {
        AfterSplit(front, cutoff, k);
        assert rows[k..] == front[k..] + [rows[|rows| - 1]];
      }
    }
  }

  lemma AfterLast(rows: seq<LogRow>, cutoff: Time)
    ensures rows == [] ==> After(rows, cutoff) == []
    ensures rows != [] ==>
              After(rows, cutoff)
              == After(rows[..|rows| - 1], cutoff)
                 + if rows[|rows| - 1].createdAt > cutoff then [rows[|rows| - 1]] else []
  {
  }

  /** In time order the retained rows are a suffix. */
  lemma AfterIsSuffix(rows: seq<LogRow>, now: Time, cutoff: Time, k: nat)
    requires InTimeOrder(rows, now) && k <= |rows|
    requires forall i | 0 <= i < k :: rows[i].createdAt <= cutoff
    requires k < |rows| ==> rows[k].createdAt > cutoff
    ensures After(rows, cutoff) == rows[k..]
  {
    hide After;
    forall i | k <= i < |rows|
      ensures rows[i].createdAt > cutoff
    {
      assert rows[k].createdAt <= rows[i].createdAt;
    }
    AfterSplit(rows, cutoff, k);
  }

  /** The rows that `keep` selects, in order. */
  function Selected(rows: seq<LogRow>, keep: LogRow -> bool): (r: seq<LogRow>)
    ensures forall x :: x in r <==> x in rows && keep(x)
    ensures |r| <= |rows|
  {
    if rows == [] then []
    else
      assert rows == rows[..|rows| - 1] + [rows[|rows| - 1]];
      Selected(rows[..|rows| - 1], keep) + if keep(rows[|rows| - 1]) then [rows[|rows| - 1]] else []
  }

  lemma {:induction false} SelectedInOrder(rows: seq<LogRow>, keep: LogRow -> bool, now: Time)
    requires InTimeOrder(rows, now)
    ensures InTimeOrder(Selected(rows, keep), now)
  {
    if rows != [] {
      var front := rows[..|rows| - 1];
      SelectedInOrder(front, keep, now);
      var r := Selected(front, keep);
      forall i | 0 <= i < |r|
        ensures r[i].createdAt <= rows[|rows| - 1].createdAt
      {
        assert r[i] in front;
      }
    }
  }

  /** The rows that clearing `handler` leaves; "all" leaves none. */
  function Survives(handler: string): LogRow -> bool {
    (row: LogRow) => !(handler == "all" || row.handler == handler)
  }

  class Store {
    var rows: seq<LogRow>
    var head: nat
    /** The time of the last operation. */
    ghost var clock: Time

    ghost predicate Valid()
      reads this
    {
      head <= |rows| && InTimeOrder(rows[head..], clock)
    }

    /** What the store holds. */
    ghost function View(): seq<LogRow>
      reads this
      requires head <= |rows|
    {
      rows[head..]
    }

    constructor (ghost now: Time)
      ensures Valid() && View() == [] && clock == now
    {
      rows, head, clock := [], 0, now;
    }

    /** `pruneLocked`. */
    method Prune(now: Time, retention: int)
      requires Valid() && clock <= now
      modifies this
      ensures Valid() && clock == now && View() == Retained(old(View()), now, retention)
      ensures forall x :: x in View() <==> x in old(View()) && retention > 0 && x.createdAt > now - retention
    {
      hide After, InTimeOrder;
      ghost var before := View();
      InOrderLater(before, clock, now);
      clock := now;
      if head >= |rows| || retention <= 0 {
        NothingAfter(before, now - retention);
        rows, head := [], 0;
        InOrderSuffix(before, now, |before|);
        assert rows[head..] == before[|before|..];
        return;
      }
      var cutoff := now - retention;
      ghost var start := head;
      while head < |rows| && rows[head].createdAt <= cutoff
        invariant start <= head <= |rows| && rows == old(rows) && clock == now
        invariant forall i | start <= i < head :: rows[i].createdAt <= cutoff
      {
        head := head + 1;
      }
      PrunedSuffix(rows, start, head, now, cutoff);
    }

    /** `trimLocked`. */
    method Trim(maxRows: nat)
      requires Valid()
      modifies this`head
      ensures Valid() && View() == Newest(old(View()), maxRows)
    {
      var visible := |rows| - head;
      if visible <= maxRows {
        return;
      }
      ghost var before := View();
      head := head + (visible - maxRows);
      assert rows[head..] == before[visible - maxRows..];
    }

    /** `compactLocked`: drops the dead prefix when it is long, absolutely or relatively. */
    method Compact()
      requires Valid()
      modifies this`rows, this`head
      ensures Valid() && View() == old(View())
      ensures head == 0 || (head < COMPACT_THRESHOLD && 2 * head < |rows|)
    {
      if head == 0 {
        return;
      }
      if head >= |rows| {
        rows, head := [], 0;
        return;
      }
      if head < COMPACT_THRESHOLD && head * 2 < |rows| {
        return;
      }
      rows, head := rows[head..], 0;
      assert rows[0..] == rows;
    }

    method InsertLog(row: LogRow, now: Time, retention: int, maxRows: nat)
      requires Valid() && clock <= now && maxRows > 0
      modifies this
      ensures Valid() && clock == now
      ensures View() == Newest(Retained(old(View()), now, retention) + [row.(createdAt := now)], maxRows)
      ensures head == 0 || (head < COMPACT_THRESHOLD && 2 * head < |rows|)
    {
      hide After, InTimeOrder, Newest;
      Prune(now, retention);
      ghost var kept := View();
      rows := rows + [row.(createdAt := now)];
      assert rows[head..] == kept + [row.(createdAt := now)];
      AppendedInOrder(kept, row.(createdAt := now), now);
      Trim(maxRows);
      Compact();
    }

    /** `snapshotRows`: prunes first when the oldest row has expired. */
    method SnapshotRows(now: Time, retention: int, maxRows: nat) returns (snapshot: seq<LogRow>)
      requires Valid() && clock <= now
      modifies this
      ensures Valid() && clock == now && snapshot == View()
      ensures var kept := Retained(old(View()), now, retention);
              snapshot == if kept == old(View()) then kept else Newest(kept, maxRows)
    {
      hide After, Newest;
      ghost var before := View();
      if head < |rows| && (retention <= 0 || rows[head].createdAt <= now - retention) {
        Prune(now, retention);
        OldestGone(before, now, retention);
        Trim(maxRows);
        Compact();
      } else {
        clock := now;
        if head < |rows| {
          assert before[0] == rows[head];
          AfterIsSuffix(before, now, now - retention, 0);
        } else {
          NothingAfter(before, now - retention);
        }
      }
      snapshot := rows[head..];
    }

    /** `ClearLogs`: every row is deleted or remains. */
    method ClearLogs(handler: string) returns (deleted: nat)
      requires Valid()
      modifies this`rows, this`head
      ensures Valid() && View() == Selected(old(View()), Survives(handler))
      ensures forall x :: x in View() <==> x in old(View()) && handler != "all" && x.handler != handler
      ensures deleted + |View()| == |old(View())|
    {
      ghost var keep := Survives(handler);
      var live, remaining := rows[head..], [];
      deleted := 0;
      for i := 0 to |live|
        invariant remaining == Selected(live[..i], keep) && deleted + |remaining| == i
      {
        assert live[..i + 1][..i] == live[..i];
        if handler == "all" || live[i].handler == handler {
          deleted := deleted + 1;
        } else {
          remaining := remaining + [live[i]];
        }
      }
      assert live[..|live|] == live;
      SelectedInOrder(live, keep, clock);
      rows, head := remaining, 0;
      assert rows[0..] == rows;
    }
  }

  lemma PrunedSuffix(rows: seq<LogRow>, start: nat, head: nat, now: Time, cutoff: Time)
    requires start <= head <= |rows| && InTimeOrder(rows[start..], now)
    requires forall i | start <= i < head :: rows[i].createdAt <= cutoff
    requires head < |rows| ==> rows[head].createdAt > cutoff
    ensures After(rows[start..], cutoff) == rows[head..] && InTimeOrder(rows[head..], now)
  {
    hide After, InTimeOrder;
    var before, k := rows[start..], head - start;
    assert before[k..] == rows[head..];
    AfterIsSuffix(before, now, cutoff, k);
    InOrderSuffix(before, now, k);
  }

  lemma InOrderLater(rows: seq<LogRow>, now: Time, later: Time)
    requires InTimeOrder(rows, now) && now <= later
    ensures InTimeOrder(rows, later)
  {
  }

  lemma AppendedInOrder(rows: seq<LogRow>, row: LogRow, now: Time)
    requires InTimeOrder(rows, now) && row.createdAt == now
    ensures InTimeOrder(rows + [row], now)
  {
  }

  lemma InOrderSuffix(rows: seq<LogRow>, now: Time, k: nat)
    requires InTimeOrder(rows, now) && k <= |rows|
    ensures InTimeOrder(rows[k..], now)
  {
  }

  lemma NothingAfter(rows: seq<LogRow>, cutoff: Time)
    ensures rows == [] ==> After(rows, cutoff) == []
  {
  }

  lemma OldestGone(rows: seq<LogRow>, now: Time, retention: int)
    requires rows != [] && (retention <= 0 || rows[0].createdAt <= now - retention)
    ensures Retained(rows, now, retention) != rows
  {
  }

  // ---------- Error rates ----------

  /** Which rows count: the handler, the tier ("" counts every tier, and "default" also rows without
      tier), and for each credential the time after which rows count, if any. */
  datatype RateQuery = RateQuery(handler: string, tier: string, since: map<string, Option<Time>>)

  predicate IsLogError(status: int) {
    status >= 400 || status == 0
  }

  predicate Counts(row: LogRow, q: RateQuery) {
    && row.handler == q.handler
    && (q.tier == "" || row.tier == q.tier || (q.tier == "default" && row.tier == ""))
    && row.credential in q.since
    && (q.since[row.credential].None? || row.createdAt > q.since[row.credential].value)
  }

  datatype Counters = Counters(total: nat, errors: nat)

  function Counted(c: Counters, row: LogRow): Counters {
    Counters(c.total + 1, c.errors + if IsLogError(row.status) then 1 else 0)
  }

  /** A full filter-and-count for one credential. */
  function FullCount(rows: seq<LogRow>, q: RateQuery, id: string): Counters {
    if rows == [] then Counters(0, 0)
    else
      var rest := FullCount(rows[1..], q, id);
      if Counts(rows[0], q) && rows[0].credential == id then Counted(rest, rows[0]) else rest
  }

  /** A row counts for a credential if handler and tier fit, the credential is named and the row is its own
      and newer than its cutoff; it is an error from status 400 on and without status. */
  lemma {:induction false} CountOneMore(rows: seq<LogRow>, row: LogRow, q: RateQuery, id: string)
    ensures var counts := row.handler == q.handler && (q.tier == "" || row.tier == q.tier
                                                       || (q.tier == "default" && row.tier == ""))
                          && row.credential == id && id in q.since
                          && (q.since[id].Some? ==> row.createdAt > q.since[id].value);
            var was, now := FullCount(rows, q, id), FullCount(rows + [row], q, id);
            && now.total == was.total + (if counts then 1 else 0)
            && now.errors == was.errors + if counts && (row.status >= 400 || row.status == 0) then 1 else 0
    ensures FullCount([], q, id) == Counters(0, 0)
  {
    if rows == [] {
      assert rows + [row] == [row] && [row][1..] == [];
    } else {
      CountOneMore(rows[1..], row, q, id);
      assert (rows + [row])[0] == rows[0] && (rows + [row])[1..] == rows[1..] + [row];
    }
  }

  ghost predicate RatesOf(rates: map<string, real>, rows: seq<LogRow>, q: RateQuery, minSamples: nat) {
    forall id ::
      var c := FullCount(rows, q, id);
      && (id in rates <==> id in q.since && c.total >= minSamples)
      && (id in rates ==> c.total > 0 && rates[id] == c.errors as real / c.total as real)
  }

  datatype Since = Since(credential: string, since: Option<Time>)

  /** The cutoff of each named credential; the last entry of a credential wins. */
  function CutoffOf(since: seq<Since>): map<string, Option<Time>> {
    if since == [] then map[]
    else
      var front, item := CutoffOf(since[..|since| - 1]), since[|since| - 1];
      if item.credential == "" then front else front[item.credential := item.since]
  }

  /** How the scan's early exit is computed: an entry without cutoff forgets the earlier ones. */
  function OldestSince(since: seq<Since>): Option<Time> {
    if since == [] then None
    else
      var oldest, item := OldestSince(since[..|since| - 1]), since[|since| - 1];
      if item.credential == "" then oldest
      else if item.since.None? then None
      else if oldest.None? || item.since.value < oldest.value then item.since
      else oldest
  }

  /** Each named credential has the cutoff of its last entry. */
  lemma {:induction false} LastCutoffWins(since: seq<Since>, k: nat)
    requires k < |since| && since[k].credential != ""
    requires forall j | k < j < |since| :: since[j].credential != since[k].credential
    ensures since[k].credential in CutoffOf(since) && CutoffOf(since)[since[k].credential] == since[k].since
  {
    if k < |since| - 1 {
      LastCutoffWins(since[..|since| - 1], k);
    }
  }

  lemma {:induction false} CutoffsAreNamed(since: seq<Since>, id: string)
    ensures id in CutoffOf(since) <==> id != "" && exists k :: 0 <= k < |since| && since[k].credential == id
  {
    if since != [] {
      var front, item := since[..|since| - 1], since[|since| - 1];
      CutoffsAreNamed(front, id);
      assert forall k | 0 <= k < |front| :: front[k] == since[k];
    }
  }

  predicate Given(item: Since) {
    item.credential != "" && item.since.Some?
  }

  /** The exit is the earliest cutoff after the last named entry without one. */
  lemma {:induction false} OldestIsEarliest(since: seq<Since>, k: nat)
    requires k <= |since| && (k > 0 ==> since[k - 1].credential != "" && since[k - 1].since.None?)
    requires forall j | k <= j < |since| :: since[j].credential == "" || since[j].since.Some?
    ensures var oldest := OldestSince(since);
            && (oldest.Some? <==> exists j :: k <= j < |since| && Given(since[j]))
            && (oldest.Some? ==>
                  && (exists j :: k <= j < |since| && Given(since[j]) && since[j].since == oldest)
                  && (forall j | k <= j < |since| && Given(since[j]) :: since[j].since.value >= oldest.value))
  {
    if k < |since| {
      var front, item := since[..|since| - 1], since[|since| - 1];
      OldestIsEarliest(front, k);
      assert forall j | 0 <= j < |front| :: front[j] == since[j];
      assert item == since[|since| - 1];
    }
  }

  /** The exit never cuts off a row that counts. */
  ghost predicate ExitIsSafe(oldest: Option<Time>, cutoffs: map<string, Option<Time>>) {
    oldest.Some? ==> forall id | id in cutoffs :: cutoffs[id].Some? && oldest.value <= cutoffs[id].value
  }

  /** With every cutoff given, the exit is safe. */
  lemma {:induction false} CutoffsGivenIsSafe(since: seq<Since>)
    requires forall item | item in since :: item.since.Some?
    ensures ExitIsSafe(OldestSince(since), CutoffOf(since))
    ensures CutoffOf(since) != map[] ==> OldestSince(since).Some?
  {
    if since != [] {
      CutoffsGivenIsSafe(since[..|since| - 1]);
      assert since[|since| - 1] in since;
    }
  }

  /** Rows at or before the exit do not count when the exit is safe. */
  lemma {:induction false} OldRowsDoNotCount(rows: seq<LogRow>, q: RateQuery, oldest: Option<Time>, id: string)
    requires oldest.Some? && ExitIsSafe(oldest, q.since) && forall row | row in rows :: row.createdAt <= oldest.value
    ensures FullCount(rows, q, id) == Counters(0, 0)
  {
    if rows != [] {
      assert rows[0] in rows;
      assert !Counts(rows[0], q);
      OldRowsDoNotCount(rows[1..], q, oldest, id);
    }
  }

  /** Counting only what the exit leaves. */
  function Scanned(rows: seq<LogRow>, oldest: Option<Time>): seq<LogRow> {
    if oldest.None? then rows else After(rows, oldest.value)
  }

  lemma {:induction false} CountAppended(stale: seq<LogRow>, recent: seq<LogRow>, q: RateQuery, id: string)
    requires FullCount(stale, q, id) == Counters(0, 0)
    ensures FullCount(stale + recent, q, id) == FullCount(recent, q, id)
  {
    if stale == [] {
      assert stale + recent == recent;
    } else {
      assert (stale + recent)[0] == stale[0] && (stale + recent)[1..] == stale[1..] + recent;
      CountAppended(stale[1..], recent, q, id);
    }
  }

  /** The scan stopped in front of row `k`; with a safe exit nothing is missing. */
  lemma ExitLosesNothing(rows: seq<LogRow>, k: nat, q: RateQuery, oldest: Option<Time>, id: string)
    requires k <= |rows| && ExitIsSafe(oldest, q.since)
    requires k > 0 ==> oldest.Some? && forall i | 0 <= i < k :: rows[i].createdAt <= oldest.value
    ensures FullCount(rows, q, id) == FullCount(rows[k..], q, id)
  {
    if k > 0 {
      OldRowsDoNotCount(rows[..k], q, oldest, id);
      CountAppended(rows[..k], rows[k..], q, id);
      assert rows == rows[..k] + rows[k..];
    } else {
      assert rows[0..] == rows;
    }
  }

  function Copies(row: LogRow, n: nat): seq<LogRow> {
    seq(n, i => row)
  }

  lemma {:induction false} CopiesCount(row: LogRow, n: nat, q: RateQuery)
    requires Counts(row, q)
    ensures FullCount(Copies(row, n), q, row.credential).total == n
  {
    if n > 0 {
      assert Copies(row, n)[1..] == Copies(row, n - 1);
      CopiesCount(row, n - 1, q);
    }
  }

  /** An unsafe exit gives wrong rates for some log: the exit and safety agree exactly. */
  lemma UnsafeExitLoses(q: RateQuery, oldest: Option<Time>, minSamples: nat) returns (rows: seq<LogRow>, now: Time)
    requires !ExitIsSafe(oldest, q.since) && minSamples > 0
    ensures InTimeOrder(rows, now)
    ensures forall rates :: !(RatesOf(rates, rows, q, minSamples)
                              && RatesOf(rates, Scanned(rows, oldest), q, minSamples))
  {
    var id :| id in q.since && !(q.since[id].Some? && oldest.value <= q.since[id].value);
    var row := LogRow(q.handler, id, 200, q.tier, oldest.value);
    rows, now := Copies(row, minSamples), oldest.value;
    CopiesCount(row, minSamples, q);
    AfterSplit(rows, oldest.value, |rows|);
    assert Scanned(rows, oldest) == [];
    forall rates
      ensures !(RatesOf(rates, rows, q, minSamples) && RatesOf(rates, Scanned(rows, oldest), q, minSamples))
    {
      assert FullCount(rows, q, id).total >= minSamples && FullCount([], q, id).total < minSamples;
    }
  }

  /** Such cutoffs exist: a credential without cutoff named before one with a cutoff. */
  lemma ExitCanBeUnsafe() returns (since: seq<Since>)
    ensures !ExitIsSafe(OldestSince(since), CutoffOf(since))
  {
    since := [Since("a", None), Since("b", Some(5))];
    assert since[..1] == [Since("a", None)] && since[..1][..0] == [];
    assert OldestSince(since[..1]) == None && CutoffOf(since[..1]) == map["a" := None];
    assert "a" in CutoffOf(since) && CutoffOf(since)["a"] == None;
  }

  method Cutoffs(since: seq<Since>) returns (sinceById: map<string, Option<Time>>, oldest: Option<Time>)
    ensures sinceById == CutoffOf(since) && oldest == OldestSince(since)
  {
    sinceById, oldest := map[], None;
    for i := 0 to |since|
      invariant sinceById == CutoffOf(since[..i]) && oldest == OldestSince(since[..i])
    {
      assert since[..i + 1][..i] == since[..i];
      var item := since[i];
      if item.credential == "" {
        continue;
      }
      sinceById := sinceById[item.credential := item.since];
      if item.since.None? {
        oldest := None;
        continue;
      }
      if oldest.None? || item.since.value < oldest.value {
        oldest := item.since;
      }
    }
    assert since[..|since|] == since;
  }

  function CounterOf(counts: map<string, Counters>, id: string): Counters {
    if id in counts then counts[id] else Counters(0, 0)
  }

  /** Counts backwards from the newest row until the exit. */
  method Scan(rows: seq<LogRow>, q: RateQuery, oldest: Option<Time>, ghost now: Time)
    returns (counts: map<string, Counters>, ghost k: nat)
    requires InTimeOrder(rows, now)
    ensures k <= |rows| && rows[k..] == Scanned(rows, oldest)
    ensures k > 0 ==> oldest.Some? && forall i | 0 <= i < k :: rows[i].createdAt <= oldest.value
    ensures forall id :: CounterOf(counts, id) == FullCount(rows[k..], q, id)
    ensures forall id | id in counts :: id in q.since && counts[id].total > 0
  {
    hide After;
    counts := map[];
    var i := |rows|;
    assert rows[i..] == [];
    while i > 0
      invariant 0 <= i <= |rows|
      invariant oldest.Some? ==> forall j | i <= j < |rows| :: rows[j].createdAt > oldest.value
      invariant forall id :: CounterOf(counts, id) == FullCount(rows[i..], q, id)
      invariant forall id | id in counts :: id in q.since && counts[id].total > 0
    {
      var row := rows[i - 1];
      if oldest.Some? && row.createdAt <= oldest.value {
        break;
      }
      ghost var rest := rows[i..];
      i := i - 1;
      assert rows[i..] == [row] + rest;
      if !Counts(row, q) {
        continue;
      }
      counts := counts[row.credential := Counted(CounterOf(counts, row.credential), row)];
    }
    k := i;
    if oldest.Some? {
      if k > 0 {
        assert forall j | 0 <= j < k :: rows[j].createdAt <= rows[k - 1].createdAt;
      }
      AfterSplit(rows, oldest.value, k);
    }
  }

  method RatesFrom(counts: map<string, Counters>, minSamples: nat) returns (rates: map<string, real>)
    requires forall id | id in counts :: counts[id].total > 0
    ensures rates.Keys == set id | id in counts && counts[id].total >= minSamples
    ensures forall id | id in rates :: rates[id] == counts[id].errors as real / counts[id].total as real
  {
    rates := map[];
    var left := counts.Keys;
    while left != {}
      invariant left <= counts.Keys
      invariant rates.Keys == set id | id in counts && id !in left && counts[id].total >= minSamples
      invariant forall id | id in rates :: rates[id] == counts[id].errors as real / counts[id].total as real
    {
      var id :| id in left;
      if counts[id].total >= minSamples {
        rates := rates[id := counts[id].errors as real / counts[id].total as real];
      }
      left := left - {id};
    }
  }

  /** `ErrorRatesForCredentials` on a snapshot of the rows: exactly the rates of a full filter-and-count,
      whenever the exit is safe; and always those of the rows newer than the exit. */
  method ErrorRatesForCredentials(rows: seq<LogRow>, handler: string, tier: string, since: seq<Since>, minSamples: int,
                                  ghost now: Time)
    returns (rates: map<string, real>)
    requires InTimeOrder(rows, now)
    ensures var q := RateQuery(handler, tier, CutoffOf(since)); var oldest := OldestSince(since);
            var least := if minSamples <= 0 then 1 else minSamples;
            && RatesOf(rates, Scanned(rows, oldest), q, least)
            && (ExitIsSafe(oldest, q.since) ==> RatesOf(rates, rows, q, least))
  {
    var least := if minSamples <= 0 then 1 else minSamples;
    var sinceById, oldest := Cutoffs(since);
    var q := RateQuery(handler, tier, sinceById);
    if |sinceById| == 0 {
      assert sinceById == map[];
      NoCutoffsNoCounts(rows, q);
      NoCutoffsNoCounts(Scanned(rows, oldest), q);
      return map[];
    }
    var counts;
    ghost var k;
    counts, k := Scan(rows, q, oldest, now);
    rates := RatesFrom(counts, least);
    if ExitIsSafe(oldest, q.since) {
      forall id
        ensures FullCount(rows, q, id) == FullCount(rows[k..], q, id)
      {
        ExitLosesNothing(rows, k, q, oldest, id);
      }
    }
  }

  lemma {:induction false} NoCutoffsNoCounts(rows: seq<LogRow>, q: RateQuery)
    requires q.since == map[]
    ensures forall id :: FullCount(rows, q, id) == Counters(0, 0)
  {
    if rows != [] {
      NoCutoffsNoCounts(rows[1..], q);
    }
  }

  // ---------- Queries ----------

  /** The rows that match, newest first. */
  function NewestFirst(rows: seq<LogRow>, keep: LogRow -> bool): (r: seq<LogRow>)
    ensures forall x :: x in r <==> x in rows && keep(x)
  {
    if rows == [] then [] else NewestFirst(rows[1..], keep) + if keep(rows[0]) then [rows[0]] else []
  }

  /** `limit` rows after the first `offset`. */
  function Page(rows: seq<LogRow>, offset: int, limit: nat): seq<LogRow> {
    var start := if offset < 0 then 0 else if offset > |rows| then |rows| else offset;
    var end := if start + limit > |rows| then |rows| else start + limit;
    rows[start..end]
  }

  function Statuses(rows: seq<LogRow>): (m: multiset<int>)
    ensures |m| == |rows|
  {
    if rows == [] then multiset{} else Statuses(rows[..|rows| - 1]) + multiset{rows[|rows| - 1].status}
  }

  datatype Stats = Stats(total: nat, statuses: multiset<int>)

  datatype QueryResult = QueryResult(page: seq<LogRow>, filtered: Stats, all: Stats, byStatus: Stats)

  function StatsOf(rows: seq<LogRow>): Stats {
    Stats(|rows|, Statuses(rows))
  }

  function Counting(s: Stats, row: LogRow): Stats {
    Stats(s.total + 1, s.statuses + multiset{row.status})
  }

  /** The paging variables after going through `rows`. */
  predicate Paging(rows: seq<LogRow>, page: seq<LogRow>, skipped: int, offset: int, limit: nat) {
    && page == Page(rows, offset, limit)
    && skipped == if offset <= 0 then 0 else if |rows| < offset then |rows| else offset
  }

  lemma PagingNext(rows: seq<LogRow>, row: LogRow, page: seq<LogRow>, skipped: int, offset: int, limit: nat)
    requires Paging(rows, page, skipped, offset, limit)
    ensures skipped < offset ==> Paging(rows + [row], page, skipped + 1, offset, limit)
    ensures skipped >= offset && |page| < limit ==> Paging(rows + [row], page + [row], skipped, offset, limit)
    ensures skipped >= offset && |page| >= limit ==> Paging(rows + [row], page, skipped, offset, limit)
  {
  }

  lemma StatsNext(rows: seq<LogRow>, row: LogRow)
    ensures StatsOf(rows + [row]) == Counting(StatsOf(rows), row)
  {
  }

  function Everything(): LogRow -> bool {
    (_: LogRow) => true
  }

  lemma NewestNext(rows: seq<LogRow>, i: nat, keep: LogRow -> bool)
    requires i < |rows|
    ensures NewestFirst(rows[i..], keep)
         == if keep(rows[i]) then NewestFirst(rows[i + 1..], keep) + [rows[i]] else NewestFirst(rows[i + 1..], keep)
  {
  }

  /** Counting the rows that match, one row further down. */
  lemma CountNext(rows: seq<LogRow>, i: nat, keep: LogRow -> bool, s: Stats)
    requires i < |rows| && s == StatsOf(NewestFirst(rows[i + 1..], keep))
    ensures StatsOf(NewestFirst(rows[i..], keep)) == if keep(rows[i]) then Counting(s, rows[i]) else s
  {
    hide StatsOf, Counting, NewestFirst;
    NewestNext(rows, i, keep);
    if keep(rows[i]) {
      StatsNext(NewestFirst(rows[i + 1..], keep), rows[i]);
    }
  }

  /** The variables of the query loop. */
  datatype Query = Query(page: seq<LogRow>, skipped: int, filtered: Stats, all: Stats, byStatus: Stats)

  /** The loop has gone through `rows`. */
  ghost predicate Queried(rows: seq<LogRow>, matches: LogRow -> bool, matchesButStatus: LogRow -> bool, offset: int,
                          limit: nat,
                          q: Query) {
    && Paging(NewestFirst(rows, matches), q.page, q.skipped, offset, limit)
    && q.filtered == StatsOf(NewestFirst(rows, matches))
    && q.all == StatsOf(NewestFirst(rows, Everything()))
    && q.byStatus == StatsOf(NewestFirst(rows, matchesButStatus))
  }

  /** One round of the loop. */
  method QueryRow(q: Query, matches: LogRow -> bool, matchesButStatus: LogRow -> bool, offset: int, limit: nat,
                  rows: seq<LogRow>, i: nat) returns (r: Query)
    requires i < |rows| && Queried(rows[i + 1..], matches, matchesButStatus, offset, limit, q)
    ensures Queried(rows[i..], matches, matchesButStatus, offset, limit, r)
  {
    hide StatsOf, Paging, NewestFirst, Page, Counting;
    var row := rows[i];
    CountNext(rows, i, Everything(), q.all);
    CountNext(rows, i, matches, q.filtered);
    CountNext(rows, i, matchesButStatus, q.byStatus);
    NewestNext(rows, i, matches);
    PagingNext(NewestFirst(rows[i + 1..], matches), row, q.page, q.skipped, offset, limit);
    r := q.(all := Counting(q.all, row));
    if matchesButStatus(row) {
      r := r.(byStatus := Counting(r.byStatus, row));
    }
    if !matches(row) {
      return;
    }
    r := r.(filtered := Counting(r.filtered, row));
    if r.skipped < offset {
      r := r.(skipped := r.skipped + 1);
    } else if |r.page| < limit {
      r := r.(page := r.page + [row]);
    }
  }

  /** `QueryLogs` on a snapshot: one page of the matching rows, newest first, and the status counts of
      the matching rows, of all rows, and of those that match but for their status. */
  method QueryLogs(rows: seq<LogRow>, matches: LogRow -> bool, matchesButStatus: LogRow -> bool, offset: int,
                   limit: int)
    returns (r: QueryResult)
    ensures limit <= 0 ==> r == QueryResult([], StatsOf([]), StatsOf([]), StatsOf([]))
    ensures limit > 0 ==>
              r == QueryResult(Page(NewestFirst(rows, matches), offset, limit), StatsOf(NewestFirst(rows, matches)),
                               StatsOf(NewestFirst(rows, Everything())), StatsOf(NewestFirst(rows, matchesButStatus)))
  {
    if limit <= 0 {
      return QueryResult([], StatsOf([]), StatsOf([]), StatsOf([]));
    }
    hide Queried;
    var q := Query([], 0, Stats(0, multiset{}), Stats(0, multiset{}), Stats(0, multiset{}));
    var i := |rows|;
    NothingQueried(rows[i..], matches, matchesButStatus, offset, limit, q);
    while i > 0
      invariant 0 <= i <= |rows| && Queried(rows[i..], matches, matchesButStatus, offset, limit, q)
    {
      i := i - 1;
      q := QueryRow(q, matches, matchesButStatus, offset, limit, rows, i);
    }
    assert rows[0..] == rows;
    QueryDone(rows, matches, matchesButStatus, offset, limit, q);
    r := QueryResult(q.page, q.filtered, q.all, q.byStatus);
  }

  lemma NothingQueried(rows: seq<LogRow>, matches: LogRow -> bool, matchesButStatus: LogRow -> bool, offset: int,
                       limit: nat, q: Query)
    requires rows == [] && q == Query([], 0, Stats(0, multiset{}), Stats(0, multiset{}), Stats(0, multiset{}))
    ensures Queried(rows, matches, matchesButStatus, offset, limit, q)
  {
  }

  lemma QueryDone(rows: seq<LogRow>, matches: LogRow -> bool, matchesButStatus: LogRow -> bool, offset: int, limit: nat,
                  q: Query)
    requires Queried(rows, matches, matchesButStatus, offset, limit, q)
    ensures q.page == Page(NewestFirst(rows, matches), offset, limit)
            && q.filtered == StatsOf(NewestFirst(rows, matches))
    ensures q.all == StatsOf(NewestFirst(rows, Everything()))
            && q.byStatus == StatsOf(NewestFirst(rows, matchesButStatus))
  {
  }
}
