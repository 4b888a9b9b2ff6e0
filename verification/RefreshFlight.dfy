/** The single-flight refresh of one credential entry: any number of goroutines, step by step.

    A goroutine that wins the compare-and-swap on `refreshing` owns the refresh: it makes a new `done`
    channel, works, closes the channel and clears `refreshing`. The others wait on the channel they find. */
module RefreshFlight {
  import opened Prelude

  type Tid = nat
  type Chan = nat

  /** The fields of `CodexEntry`. Channels are numbered in the order they are made. */
  datatype Entry = Entry(refreshing: bool, done: Option<Chan>, lastErr: Option<string>)

  datatype Pc =
    | Outside
    | Won                 // the compare-and-swap succeeded
    | Working(mine: Chan) // beginRefresh has made the channel
    | Closed              // finishRefresh has closed it; refreshing is still true
    | Polling             // waiting, about to read the done channel
    | Blocked(wanted: Chan)   // waiting for that channel
    | Woken(seen: Chan)

  datatype State = State(
    entry: Entry,
    made: nat,
    closed: set<Chan>,
    panicked: bool,
    threads: map<Tid, Pc>)

  datatype Step =
    | Cas(t: Tid)            // CompareAndSwap(false, true)
    | SeeRefreshing(t: Tid)  // cachedAccessToken reads refreshing == true
    | GiveUp(t: Tid)         // proactiveRefresh returns after a lost compare-and-swap
    | Begin(t: Tid)
    | Finish(t: Tid, err: Option<string>)
    | Release(t: Tid)
    | Poll(t: Tid)
    | Wake(t: Tid)
    | Leave(t: Tid)          // a waiter returns, or its context ends

  function At(s: State, t: Tid): Pc {
    if t in s.threads then s.threads[t] else Outside
  }

  function Goto(s: State, t: Tid, pc: Pc): State {
    s.(threads := s.threads[t := pc])
  }

  /** Closing a closed channel panics. */
  function CloseDone(s: State, err: Option<string>): State {
    if s.entry.done.None? then s
    else if s.entry.done.value in s.closed then s.(panicked := true)
    else s.(entry := s.entry.(lastErr := err), closed := s.closed + {s.entry.done.value})
  }

  predicate Enabled(s: State, step: Step) {
    match step
    case Cas(t) => At(s, t).Outside?
    case SeeRefreshing(t) => At(s, t).Outside? && s.entry.refreshing
    case GiveUp(t) => At(s, t).Outside? && s.entry.refreshing
    case Begin(t) => At(s, t).Won?
    case Finish(t, _) => At(s, t).Working?
    case Release(t) => At(s, t).Closed?
    case Poll(t) => At(s, t).Polling?
    case Wake(t) => At(s, t).Blocked? && At(s, t).wanted in s.closed
    case Leave(t) => At(s, t).Woken? || At(s, t).Blocked? || At(s, t).Polling?
  }

  function After(s: State, step: Step): State
    requires Enabled(s, step)
  {
    match step
    case Cas(t) =>
      if s.entry.refreshing then Goto(s, t, Polling)
      else Goto(s.(entry := s.entry.(refreshing := true)), t, Won)
    case SeeRefreshing(t) => Goto(s, t, Polling)
    case GiveUp(t) => s
    case Begin(t) =>
      Goto(s.(entry := s.entry.(done := Some(s.made), lastErr := None), made := s.made + 1), t, Working(s.made))
    case Finish(t, err) => Goto(CloseDone(s, err), t, Closed)
    case Release(t) => Goto(s.(entry := s.entry.(refreshing := false)), t, Outside)
    case Poll(t) => if s.entry.done.None? then s else Goto(s, t, Blocked(s.entry.done.value))
    case Wake(t) => Goto(s, t, Woken(At(s, t).wanted))
    case Leave(t) => Goto(s, t, Outside)
  }

  const START := State(Entry(false, None, None), 0, {}, false, map[])

  // ---------- Invariant ----------

  predicate Owns(s: State, t: Tid) {
    At(s, t).Won? || At(s, t).Working? || At(s, t).Closed?
  }

  predicate Waits(s: State, t: Tid) {
    At(s, t).Polling? || At(s, t).Blocked? || At(s, t).Woken?
  }

  /** The channel `c` is being worked towards by `t`. */
  predicate WorksOn(s: State, t: Tid, c: Chan) {
    At(s, t) == Working(c)
  }

  ghost predicate OwnersOk(s: State) {
    && (forall t: Tid, u: Tid | Owns(s, t) && Owns(s, u) :: t == u)
    && (s.entry.refreshing <==> exists t: Tid :: Owns(s, t))
  }

  ghost predicate ChannelsOk(s: State) {
    && (forall c | c in s.closed :: c < s.made)
    && (forall c {:trigger c in s.closed} | 0 <= c < s.made && c !in s.closed :: exists t: Tid :: WorksOn(s, t, c))
    && (forall t: Tid, c: Chan | WorksOn(s, t, c) :: c < s.made && c !in s.closed && s.entry.done == Some(c))
    && (s.entry.done == if s.made == 0 then None else Some(s.made - 1))
  }

  ghost predicate WaitersOk(s: State) {
    && (forall t: Tid | At(s, t).Blocked? :: At(s, t).wanted < s.made)
    && (forall t: Tid | At(s, t).Woken? :: At(s, t).seen in s.closed)
    && (s.made == 0 ==> forall t: Tid | Waits(s, t) :: s.entry.refreshing)
    && (s.made == 0 ==> forall t: Tid | Owns(s, t) :: At(s, t).Won?)
  }

  /** One owner at most; every open channel has an owner at work on it; nothing is closed twice. */
  ghost predicate Inv(s: State) {
    OwnersOk(s) && ChannelsOk(s) && WaitersOk(s) && !s.panicked
  }

  /** A step moves its own goroutine only. */
  lemma OthersStay(s: State, step: Step, u: Tid)
    requires Enabled(s, step) && u != step.t
    ensures At(After(s, step), u) == At(s, u)
  {
  }

  lemma StepKeepsOwners(s: State, step: Step)
    requires Inv(s) && Enabled(s, step)
    ensures OwnersOk(After(s, step))
  {
    hide ChannelsOk, WaitersOk;
    var n := After(s, step);
    forall u: Tid | u != step.t
      ensures Owns(n, u) <==> Owns(s, u)
    {
      OthersStay(s, step, u);
    }
    assert Owns(s, step.t) ==> s.entry.refreshing;
    if step.Cas? && !s.entry.refreshing {
      assert Owns(n, step.t);
    }
    assert Owns(n, step.t) ==> Owns(s, step.t) || (step.Cas? && !s.entry.refreshing);
    if s.entry.refreshing && !step.Release? {
      var o: Tid :| Owns(s, o);
      assert Owns(n, o);
    }
  }

  lemma StepKeepsChannels(s: State, step: Step)
    requires Inv(s) && Enabled(s, step)
    ensures ChannelsOk(After(s, step)) && !After(s, step).panicked
  {
    hide WaitersOk;
    var n := After(s, step);
    assert step.Finish? ==> WorksOn(s, step.t, At(s, step.t).mine);
    assert step.Begin? ==> WorksOn(n, step.t, s.made);
    forall c: Chan | c < n.made && c !in n.closed
      ensures exists t: Tid :: WorksOn(n, t, c)
    {
      if !(step.Begin? && c == s.made) {
        var t: Tid :| WorksOn(s, t, c);
        StillWorks(s, step, t, c);
      }
    }
    forall t: Tid, c: Chan | WorksOn(n, t, c)
      ensures c < n.made && c !in n.closed && n.entry.done == Some(c)
    {
      WorkedBefore(s, step, t, c);
    }
  }

  lemma StillWorks(s: State, step: Step, t: Tid, c: Chan)
    requires Inv(s) && Enabled(s, step) && WorksOn(s, t, c) && c !in After(s, step).closed
    ensures WorksOn(After(s, step), t, c)
  {
    if step.t != t {
      OthersStay(s, step, t);
    }
  }

  lemma WorkedBefore(s: State, step: Step, t: Tid, c: Chan)
    requires Inv(s) && Enabled(s, step) && WorksOn(After(s, step), t, c)
    ensures (step.Begin? && step.t == t && c == s.made) || (WorksOn(s, t, c) && !step.Begin? && !step.Finish?)
  {
    if step.t != t {
      OthersStay(s, step, t);
      assert Owns(s, t);
      assert step.Begin? || step.Finish? ==> Owns(s, step.t);
    }
  }

  lemma StepKeepsWaiters(s: State, step: Step)
    requires Inv(s) && Enabled(s, step)
    ensures WaitersOk(After(s, step))
  {
    var n := After(s, step);
    forall t: Tid | t != step.t
      ensures At(n, t) == At(s, t)
    {
      OthersStay(s, step, t);
    }
    assert step.Release? ==> Owns(s, step.t);
    assert s.made == 0 ==> !step.Release? && !step.Finish?;
    forall t: Tid | n.made == 0 && Owns(n, t)
      ensures At(n, t).Won?
    {
      assert t != step.t ==> Owns(s, t);
    }
    forall t: Tid | n.made == 0 && Waits(n, t)
      ensures n.entry.refreshing
    {
      assert t != step.t ==> Waits(s, t);
      assert t == step.t && step.Poll? ==> Waits(s, t);
    }
  }

  lemma StepKeeps(s: State, step: Step)
    requires Inv(s) && Enabled(s, step)
    ensures Inv(After(s, step))
  {
    hide *;
    StepKeepsOwners(s, step);
    StepKeepsChannels(s, step);
    StepKeepsWaiters(s, step);
    Whole(After(s, step));
  }

  lemma Whole(s: State)
    requires OwnersOk(s) && ChannelsOk(s) && WaitersOk(s) && !s.panicked
    ensures Inv(s)
  {
  }

  // ---------- Runs ----------

  /** The states a run goes through. */
  predicate Runs(steps: seq<Step>, s: State)
    decreases |steps|
  {
    steps == [] || (Enabled(s, steps[0]) && Runs(steps[1..], After(s, steps[0])))
  }

  function Final(steps: seq<Step>, s: State): State
    requires Runs(steps, s)
    decreases |steps|
  {
    if steps == [] then s else Final(steps[1..], After(s, steps[0]))
  }

  lemma StartOk()
    ensures Inv(START)
  {
  }

  lemma {:induction false} RunKeeps(steps: seq<Step>, s: State)
    requires Inv(s) && Runs(steps, s)
    ensures Inv(Final(steps, s))
    decreases |steps|
  {
    if steps != [] {
      StepKeeps(s, steps[0]);
      RunKeeps(steps[1..], After(s, steps[0]));
    }
  }

  /** In every run: one owner at most, no channel closed twice, and every channel not closed yet has an
      owner whose next step closes it. */
  lemma Safety(steps: seq<Step>, t: Tid, u: Tid, c: Chan)
    requires Runs(steps, START)
    ensures var s := Final(steps, START);
            && !s.panicked
            && (Owns(s, t) && Owns(s, u) ==> t == u)
            && (c < s.made && c !in s.closed ==>
                  exists o: Tid :: WorksOn(s, o, c) && Enabled(s, Finish(o, None))
                    && c in After(s, Finish(o, None)).closed)
  {
    StartOk();
    RunKeeps(steps, START);
    var s := Final(steps, START);
    if c < s.made && c !in s.closed {
      var o: Tid :| WorksOn(s, o, c);
      assert Enabled(s, Finish(o, None)) && c in After(s, Finish(o, None)).closed;
    }
  }

  lemma Prepend(step: Step, rest: seq<Step>, s: State)
    requires Enabled(s, step) && Runs(rest, After(s, step))
    ensures Runs([step] + rest, s) && Final([step] + rest, s) == Final(rest, After(s, step))
  {
    assert ([step] + rest)[1..] == rest;
  }

  /** How many steps a waiter still needs, its own and the owner's. */
  function Distance(s: State, t: Tid): nat {
    if At(s, t).Polling? then if s.made == 0 then 4 else 3
    else if At(s, t).Blocked? then if At(s, t).wanted in s.closed then 1 else 2
    else 0
  }

  lemma NextForWaiter(s: State, t: Tid) returns (step: Step)
    requires Inv(s) && Waits(s, t) && !At(s, t).Woken?
    ensures Enabled(s, step) && Waits(After(s, step), t) && Distance(After(s, step), t) < Distance(s, t)
    ensures (step.t == t && (step.Poll? || step.Wake?))
            || (step.t != t && Owns(s, step.t) && (step.Begin? || step.Finish?))
  {
    if At(s, t).Blocked? {
      if At(s, t).wanted in s.closed {
        step := Wake(t);
      } else {
        var o: Tid :| WorksOn(s, o, At(s, t).wanted);
        step := Finish(o, None);
        OthersStay(s, step, t);
      }
    } else if s.made == 0 {
      var o: Tid :| Owns(s, o);
      step := Begin(o);
      OthersStay(s, step, t);
    } else {
      step := Poll(t);
    }
  }

  /** Waking a waiter makes nobody an owner. */
  lemma NoNewOwner(s: State, step: Step, u: Tid)
    requires Enabled(s, step) && (step.Poll? || step.Wake? || step.Begin? || step.Finish?)
    ensures Owns(After(s, step), u) ==> Owns(s, u)
  {
    if u != step.t {
      OthersStay(s, step, u);
    }
  }

  /** No waiter is stranded: the next one or two steps of the owner and its own steps wake it. */
  lemma {:induction false} NotStranded(s: State, t: Tid) returns (steps: seq<Step>)
    requires Inv(s) && Waits(s, t)
    ensures |steps| <= Distance(s, t) && Runs(steps, s) && At(Final(steps, s), t).Woken?
    ensures forall step | step in steps ::
              (step.t == t && (step.Poll? || step.Wake?)) || (Owns(s, step.t) && (step.Begin? || step.Finish?))
    decreases Distance(s, t)
  {
    hide Inv, Enabled, After, Owns, Waits, Distance;
    if At(s, t).Woken? {
      steps := [];
    } else {
      var step := NextForWaiter(s, t);
      StepKeeps(s, step);
      var rest := NotStranded(After(s, step), t);
      Prepend(step, rest, s);
      steps := [step] + rest;
      forall u | Owns(After(s, step), u)
        ensures Owns(s, u)
      {
        NoNewOwner(s, step, u);
      }
    }
  }

  /** A waiter that polls waits for the running refresh exactly when the owner has made its channel;
      otherwise the channel it finds is closed already, or there is none. */
  lemma PollFindsOwner(s: State, t: Tid)
    requires Inv(s) && At(s, t).Polling? && s.made > 0
    ensures After(s, Poll(t)).threads[t].Blocked?
    ensures (exists o: Tid :: At(s, o).Working?) <==> After(s, Poll(t)).threads[t].wanted !in s.closed
  {
    var c := s.entry.done.value;
    if c !in s.closed {
      var o: Tid :| WorksOn(s, o, c);
      assert At(s, o).Working?;
    }
    if o: Tid :| At(s, o).Working? {
      assert WorksOn(s, o, At(s, o).mine);
    }
  }

  /** So a waiter can return before the refresh it lost to has even begun: it wakes on the channel of the
      round before. */
  lemma WaiterMayWakeEarly() returns (steps: seq<Step>)
    ensures Runs(steps, START)
    ensures var s := Final(steps, START); At(s, 1).Won? && At(s, 2).Woken?
  {
    steps := [Cas(1), Begin(1), Finish(1, None), Release(1), Cas(1), Cas(2), Poll(2), Wake(2)];
    var s1 := After(START, Cas(1));
    var s2 := After(s1, Begin(1));
    var s3 := After(s2, Finish(1, None));
    var s4 := After(s3, Release(1));
    var s5 := After(s4, Cas(1));
    var s6 := After(s5, Cas(2));
    var s7 := After(s6, Poll(2));
    var s8 := After(s7, Wake(2));
    Prepend(Wake(2), [], s7);
    Prepend(Poll(2), [Wake(2)], s6);
    Prepend(Cas(2), [Poll(2), Wake(2)], s5);
    Prepend(Cas(1), [Cas(2), Poll(2), Wake(2)], s4);
    Prepend(Release(1), [Cas(1), Cas(2), Poll(2), Wake(2)], s3);
    Prepend(Finish(1, None), [Release(1), Cas(1), Cas(2), Poll(2), Wake(2)], s2);
    Prepend(Begin(1), [Finish(1, None), Release(1), Cas(1), Cas(2), Poll(2), Wake(2)], s1);
    Prepend(Cas(1), steps[1..], START);
  }

  // ---------- The entry object ----------

  class Channel {
    var closed: bool

    constructor ()
      ensures !closed
    {
      closed := false;
    }

    /** Closing twice would panic. */
    method Close()
      requires !closed
      modifies this
      ensures closed
    {
      closed := true;
    }
  }

  /** One coordination entry. Its methods are the steps of the machine above, on real fields. */
  class CodexEntry {
    var refreshing: bool
    var done: Channel?
    var lastErr: Option<string>
    ghost var made: seq<Channel>

    /** The object is in the state `s`; `made` lists the channels in the order they were made. */
    ghost predicate Shows(s: State)
      reads this, made
    {
      && s.entry.refreshing == refreshing && s.entry.lastErr == lastErr && s.made == |made|
      && (forall i, j | 0 <= i < j < |made| :: made[i] != made[j])
      && (forall i | 0 <= i < |made| :: made[i].closed <==> i in s.closed)
      && (match s.entry.done
          case None => done == null
          case Some(c) => c < |made| && done == made[c])
    }

    constructor ()
      ensures Shows(START)
    {
      refreshing, done, lastErr, made := false, null, None, [];
    }

    method CompareAndSwap(ghost s: State, ghost t: Tid) returns (won: bool)
      requires Shows(s) && Enabled(s, Cas(t))
      modifies this`refreshing
      ensures won == !old(refreshing) && Shows(After(s, Cas(t)))
      ensures won <==> At(After(s, Cas(t)), t).Won?
    {
      won := !refreshing;
      if won {
        refreshing := true;
      }
    }

    method BeginRefresh(ghost s: State, ghost t: Tid)
      requires Inv(s) && Shows(s) && Enabled(s, Begin(t))
      modifies this
      ensures Shows(After(s, Begin(t)))
    {
      var channel := new Channel();
      done := channel;
      made := made + [channel];
      lastErr := None;
    }

    /** The channel is open whenever its owner gets here, so closing it cannot panic. */
    method FinishRefresh(err: Option<string>, ghost s: State, ghost t: Tid)
      requires Inv(s) && Shows(s) && Enabled(s, Finish(t, err))
      modifies this, made
      ensures Shows(After(s, Finish(t, err)))
    {
      assert WorksOn(s, t, At(s, t).mine);
      if done != null {
        lastErr := err;
        done.Close();
      }
    }

    method Release(ghost s: State, ghost t: Tid)
      requires Shows(s) && Enabled(s, Step.Release(t))
      modifies this`refreshing
      ensures Shows(After(s, Step.Release(t)))
    {
      refreshing := false;
    }

    /** What a waiter reads: nothing yet, or the channel it will wait for. */
    method RefreshState(ghost s: State, ghost t: Tid) returns (channel: Channel?, err: Option<string>)
      requires Inv(s) && Shows(s) && Enabled(s, Poll(t))
      ensures Shows(s) && channel == done && err == lastErr
      ensures channel == null <==> At(After(s, Poll(t)), t).Polling?
      ensures channel != null ==>
                && At(After(s, Poll(t)), t) == Blocked(s.made - 1)
                && s.made == |made| && channel == made[s.made - 1]
    {
      channel, err := done, lastErr;
    }
  }
}
