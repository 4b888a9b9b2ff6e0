/** The upstream retry loop: which credentials are tried, how each try is accounted for, and when the
    same credential gets a second chance. Everything outside the loop (scheduler, upstream, client) is an
    arbitrary `World` that answers by attempt number, starting with 0. */
module RelayRetry {
  import opened Prelude

  const TOO_MANY_REQUESTS := 429

  datatype RelayError = NoAvailableCredential | AuthFailed | RequestFailed | ForStatus(status: int) | ResponseFailed

  /** What a retry hint says: how long to wait, and whether to stay with the credential. */
  datatype RetryDecision = RetryDecision(delay: int, sameCredential: bool)

  datatype Reply =
    | SendFailed
    | Status(
        status: int,
        successful: bool,    // isSuccessfulUpstreamStatus
        written: bool,       // the response reached the client
        unauthorized: bool,  // HandleUnauthorized accepted the attempt
        retryable: bool,     // retryableUpstreamStatus
        decision: RetryDecision)

  datatype World = World(
    session: nat -> string,
    fillFirst: nat -> string,
    content: nat -> string,
    select: (nat, string) -> Option<string>,
    auth: nat -> bool,
    reply: nat -> Reply,
    cancelled: nat -> bool)

  /** Asked for one credential, the scheduler gives that one or none; it never names the empty one. */
  ghost predicate HonoursPreference(w: World) {
    forall a: nat, p: string {:trigger w.select(a, p)} | w.select(a, p).Some? ::
      w.select(a, p).value != "" && (p != "" ==> w.select(a, p).value == p)
  }

  datatype Account = Succeeded | Failed(status: int, delay: int) | Unauthorized

  /** One tried credential: how it was accounted for, whether it ended in a grace wait, whether the loop
      ended with it, whether its fill-first entry was dropped, and whether its quota is read again. */
  datatype Attempt = Attempt(
    credential: string,
    accounts: seq<Account>,
    graceWait: bool,
    stop: bool,
    dropsFillFirst: bool,
    refreshesQuota: bool)

  datatype Result = Responded | Wrote(error: RelayError) | Gone

  datatype Options = Options(fillFirst: bool, contentAffinity: bool)

  /** The upstream was not reached. */
  predicate NoReply(w: World, a: nat) {
    !w.auth(a) || w.reply(a).SendFailed?
  }

  /** The upstream asks for a pause: too many requests, or a delay of its own. */
  predicate Hinted(reply: Reply)
    requires reply.Status?
  {
    !reply.unauthorized && reply.retryable && (reply.status == TOO_MANY_REQUESTS || reply.decision.delay > 0)
  }

  function Offer(c: string, wanted: bool, others: seq<string>): seq<string> {
    if c != "" && wanted then [c] + others else others
  }

  /** Whom attempt `a` asks for, in this order; the empty string leaves the choice to the scheduler. */
  function Candidates(w: World, a: nat, options: Options, grace: string, retrying: bool): seq<string> {
    var preferred := if grace != "" then grace else w.session(a);
    var fillFirst, content := w.fillFirst(a), w.content(a);
    Offer(preferred, true,
          Offer(fillFirst, options.fillFirst && !retrying && fillFirst != preferred,
                Offer(content, options.contentAffinity && !retrying && content != preferred, [""])))
  }

  /** The scheduler's answer to the first of the candidates it has a credential for. */
  function FirstGiven(w: World, a: nat, cs: seq<string>): Option<string> {
    if cs == [] then None
    else if w.select(a, cs[0]).Some? then w.select(a, cs[0])
    else FirstGiven(w, a, cs[1..])
  }

  lemma GivenOr(w: World, a: nat, c: string, wanted: bool, others: seq<string>)
    ensures FirstGiven(w, a, Offer(c, wanted, others))
            == if c != "" && wanted && w.select(a, c).Some? then w.select(a, c) else FirstGiven(w, a, others)
  {
    assert ([c] + others)[1..] == others;
  }

  /** The same without a list. */
  lemma InOrder(w: World, a: nat, options: Options, grace: string, retrying: bool)
    ensures var preferred := if grace != "" then grace else w.session(a);
            var fillFirst, content := w.fillFirst(a), w.content(a);
            FirstGiven(w, a, Candidates(w, a, options, grace, retrying))
            == if preferred != "" && w.select(a, preferred).Some? then w.select(a, preferred)
               else if retrying then w.select(a, "")
               else if options.fillFirst && fillFirst != "" && fillFirst != preferred && w.select(a, fillFirst).Some?
               then w.select(a, fillFirst)
               else if options.contentAffinity && content != "" && content != preferred && w.select(a, content).Some?
               then w.select(a, content)
               else w.select(a, "")
  {
    hide FirstGiven, Offer;
    var preferred := if grace != "" then grace else w.session(a);
    var fillFirst, content := w.fillFirst(a), w.content(a);
    var last := [""];
    var more := Offer(content, options.contentAffinity && !retrying && content != preferred, last);
    var most := Offer(fillFirst, options.fillFirst && !retrying && fillFirst != preferred, more);
    GivenOr(w, a, preferred, true, most);
    GivenOr(w, a, fillFirst, options.fillFirst && !retrying && fillFirst != preferred, more);
    GivenOr(w, a, content, options.contentAffinity && !retrying && content != preferred, last);
    SchedulerGives(w, a);
  }

  lemma SchedulerGives(w: World, a: nat)
    ensures FirstGiven(w, a, [""]) == w.select(a, "")
  {
  }

  class RetryTracker {
    var lastErr: RelayError
    var hasLastErr: bool
    var graceCredentialId: string
    var graceRetriedCredentialId: string

    constructor ()
      ensures !hasLastErr && graceCredentialId == "" && graceRetriedCredentialId == ""
    {
      lastErr, hasLastErr := NoAvailableCredential, false;
      graceCredentialId, graceRetriedCredentialId := "", "";
    }

    method Remember(err: RelayError)
      modifies this`lastErr, this`hasLastErr
      ensures hasLastErr && lastErr == err
    {
      lastErr, hasLastErr := err, true;
    }

    method ClearGrace()
      modifies this`graceCredentialId, this`graceRetriedCredentialId
      ensures graceCredentialId == "" && graceRetriedCredentialId == ""
    {
      graceCredentialId, graceRetriedCredentialId := "", "";
    }

    /** `selectRelayCredential`: the grace credential or that of the session; on the first selection then
        the fill-first one and that of the content; at last the scheduler's own choice. A fill-first
        credential that the scheduler refuses is dropped. */
    method Select(w: World, a: nat, options: Options) returns (credential: Option<string>, dropped: Option<string>)
      ensures credential == FirstGiven(w, a, Candidates(w, a, options, graceCredentialId, hasLastErr))
      ensures var preferred := if graceCredentialId != "" then graceCredentialId else w.session(a);
              var fillFirst := w.fillFirst(a);
              dropped == if (preferred == "" || w.select(a, preferred).None?) && options.fillFirst && !hasLastErr
                            && fillFirst != "" && fillFirst != preferred && w.select(a, fillFirst).None?
                         then Some(fillFirst) else None
    {
      hide FirstGiven, Candidates;
      InOrder(w, a, options, graceCredentialId, hasLastErr);
      dropped := None;
      var preferred := if graceCredentialId != "" then graceCredentialId else w.session(a);
      if preferred != "" {
        credential := w.select(a, preferred);
        if credential.Some? {
          return;
        }
      }
      if options.fillFirst && !hasLastErr {
        var fillFirst := w.fillFirst(a);
        if fillFirst != "" && fillFirst != preferred {
          credential := w.select(a, fillFirst);
          if credential.Some? {
            return;
          }
          dropped := Some(fillFirst);
        }
      }
      if options.contentAffinity && !hasLastErr {
        var content := w.content(a);
        if content != "" && content != preferred {
          credential := w.select(a, content);
          if credential.Some? {
            return;
          }
        }
      }
      credential := w.select(a, "");
    }

    /** `handleRetryHintDecision`: a grace wait on the same credential once, otherwise the next one. */
    method HandleRetryHintDecision(credential: string, status: int, decision: RetryDecision, cancelled: bool,
                                   refreshQuota: bool) returns (r: Attempt)
      modifies this`graceCredentialId, this`graceRetriedCredentialId
      ensures var wait := decision.sameCredential && old(graceRetriedCredentialId) != credential;
              && r == Attempt(credential, [Failed(status, if wait then 0 else decision.delay)], wait,
                              wait && decision.delay > 0 && cancelled, false, !wait && refreshQuota)
              && graceCredentialId == graceRetriedCredentialId == if wait then credential else ""
    {
      if !decision.sameCredential {
        ClearGrace();
        return Attempt(credential, [Failed(status, decision.delay)], false, false, false, refreshQuota);
      }
      if graceRetriedCredentialId == credential {
        ClearGrace();
        return Attempt(credential, [Failed(status, decision.delay)], false, false, false, refreshQuota);
      }
      graceCredentialId := credential;
      graceRetriedCredentialId := credential;
      if decision.delay > 0 && cancelled {
        return Attempt(credential, [Failed(status, 0)], true, true, false, false);
      }
      r := Attempt(credential, [Failed(status, 0)], true, false, false, false);
    }

    /** `handleUpstreamError`: every reply that is not a success. */
    method HandleUpstreamError(credential: string, reply: Reply, cancelled: bool)
      returns (r: Attempt, result: Option<Result>)
      requires reply.Status? && !reply.successful
      modifies this
      ensures hasLastErr && lastErr == ForStatus(reply.status) && r.credential == credential && !r.dropsFillFirst
      ensures r.graceWait <==>
                Hinted(reply) && reply.decision.sameCredential && old(graceRetriedCredentialId) != credential
      ensures r.accounts == [if reply.unauthorized then Unauthorized
                             else Failed(reply.status,
                                         if Hinted(reply) && !r.graceWait then reply.decision.delay else 0)]
      ensures r.refreshesQuota <==> Hinted(reply) && reply.status == TOO_MANY_REQUESTS && !r.graceWait
      ensures result == if !reply.unauthorized && !reply.retryable then Some(Wrote(ForStatus(reply.status)))
              else if r.graceWait && reply.decision.delay > 0 && cancelled then Some(Gone) else None
      ensures r.stop <==> result.Some?
      ensures r.graceWait ==> graceCredentialId == graceRetriedCredentialId == credential
      ensures !r.graceWait && (reply.unauthorized || reply.retryable) ==>
                graceCredentialId == graceRetriedCredentialId == ""
      ensures !reply.unauthorized && !reply.retryable ==>
                graceCredentialId == old(graceCredentialId) && graceRetriedCredentialId == old(graceRetriedCredentialId)
    {
      Remember(ForStatus(reply.status));
      result := None;
      if reply.unauthorized {
        ClearGrace();
        r := Attempt(credential, [Unauthorized], false, false, false, false);
      } else if !reply.retryable {
        r := Attempt(credential, [Failed(reply.status, 0)], false, true, false, false);
        result := Some(Wrote(lastErr));
      } else if reply.status == TOO_MANY_REQUESTS {
        r := HandleRetryHintDecision(credential, reply.status, reply.decision, cancelled, true);
        result := if r.stop then Some(Gone) else None;
      } else if reply.decision.delay > 0 {
        r := HandleRetryHintDecision(credential, reply.status, reply.decision, cancelled, false);
        result := if r.stop then Some(Gone) else None;
      } else {
        ClearGrace();
        r := Attempt(credential, [Failed(reply.status, 0)], false, false, false, false);
      }
    }

    /** One attempt on `credential`, and the result if the loop ends with it. */
    method Try(w: World, a: nat, credential: string) returns (r: Attempt, ended: Option<Result>)
      modifies this
      ensures r.credential == credential && (r.stop <==> ended.Some?)
      ensures ended == (if !w.auth(a) || w.reply(a).SendFailed? then if w.cancelled(a) then Some(Gone) else None
                        else if w.reply(a).successful then
                          Some(if w.reply(a).written then Responded
                               else if w.cancelled(a) then Gone else Wrote(ResponseFailed))
                        else if !w.reply(a).unauthorized && !w.reply(a).retryable then
                          Some(Wrote(ForStatus(w.reply(a).status)))
                        else if r.graceWait && w.reply(a).decision.delay > 0 && w.cancelled(a) then Some(Gone)
                        else None)
      ensures AccountedFor(w, a, r)
      ensures r.graceWait <==>
                && !NoReply(w, a) && !w.reply(a).successful && Hinted(w.reply(a))
                && w.reply(a).decision.sameCredential && old(graceRetriedCredentialId) != credential
      ensures !r.stop ==>
                && hasLastErr
                && lastErr == (if !w.auth(a) then AuthFailed
                               else if w.reply(a).SendFailed? then RequestFailed else ForStatus(w.reply(a).status))
      ensures r.graceWait ==> graceCredentialId == graceRetriedCredentialId == credential
      ensures !r.graceWait && !r.stop && !NoReply(w, a) ==> graceCredentialId == graceRetriedCredentialId == ""
      ensures NoReply(w, a) ==>
                graceCredentialId == old(graceCredentialId) && graceRetriedCredentialId == old(graceRetriedCredentialId)
    {
      var cancelled := w.cancelled(a);
      if !w.auth(a) || w.reply(a).SendFailed? {
        if cancelled {
          return Attempt(credential, [], false, true, false, false), Some(Gone);
        }
        Remember(if !w.auth(a) then AuthFailed else RequestFailed);
        r, ended := Attempt(credential, [Failed(0, 0)], false, false, true, false), None;
      } else if w.reply(a).successful {
        if w.reply(a).written {
          return Attempt(credential, [Succeeded], false, true, false, false), Some(Responded);
        }
        if cancelled {
          return Attempt(credential, [Succeeded], false, true, false, false), Some(Gone);
        }
        r, ended := Attempt(credential, [Failed(0, 0)], false, true, true, false), Some(Wrote(ResponseFailed));
      } else {
        r, ended := HandleUpstreamError(credential, w.reply(a), cancelled);
        if ended.None? && graceCredentialId == "" {
          r := r.(dropsFillFirst := true);
        }
      }
    }
  }

  // ---------- Runs ----------

  /** What attempt `a` leaves behind, by its outcome. A pause is recorded as the delay of the credential,
      unless the credential is given its grace wait; the fill-first entry of a credential that failed goes,
      unless the loop ends or the credential is waited for. */
  predicate AccountedFor(w: World, a: nat, r: Attempt) {
    if !w.auth(a) || w.reply(a).SendFailed? then
      && r.accounts == (if w.cancelled(a) then [] else [Failed(0, 0)])
      && (r.dropsFillFirst <==> !w.cancelled(a)) && !r.refreshesQuota
    else if w.reply(a).successful then
      && r.accounts == [if w.reply(a).written || w.cancelled(a) then Succeeded else Failed(0, 0)]
      && (r.dropsFillFirst <==> !w.reply(a).written && !w.cancelled(a)) && !r.refreshesQuota
    else
      var reply := w.reply(a);
      var paused := Hinted(reply) && !r.graceWait;
      && r.accounts == [if reply.unauthorized then Unauthorized
                        else Failed(reply.status, if paused then reply.decision.delay else 0)]
      && (r.dropsFillFirst <==> !r.stop && (r.credential == "" || !r.graceWait))
      && (r.refreshesQuota <==> paused && reply.status == TOO_MANY_REQUESTS)
  }

  /** Attempt `a` is the last one whatever comes, so the loop ends with it. */
  predicate Ends(w: World, a: nat, graceWait: bool) {
    if NoReply(w, a) then w.cancelled(a)
    else
      var reply := w.reply(a);
      || reply.successful || (!reply.unauthorized && !reply.retryable)
      || (graceWait && reply.decision.delay > 0 && w.cancelled(a))
  }

  /** The credential that was waited for and is still to be given its second chance: only attempts that
      did not reach the upstream came after the wait. */
  function GraceOf(trace: seq<Attempt>, w: World): string {
    if trace == [] then ""
    else
      var last := trace[|trace| - 1];
      if last.graceWait then last.credential
      else if NoReply(w, |trace| - 1) then GraceOf(trace[..|trace| - 1], w)
      else ""
  }

  /** Attempt `r` is the one that the world calls for after `trace`. */
  predicate CalledFor(trace: seq<Attempt>, w: World, options: Options, r: Attempt) {
    var a, grace := |trace|, GraceOf(trace, w);
    && FirstGiven(w, a, Candidates(w, a, options, grace, trace != [])) == Some(r.credential)
    && (r.graceWait <==> !NoReply(w, a) && !w.reply(a).successful && Hinted(w.reply(a))
                         && w.reply(a).decision.sameCredential && grace != r.credential)
    && (r.stop <==> Ends(w, a, r.graceWait))
    && AccountedFor(w, a, r)
  }

  ghost predicate RunOk(trace: seq<Attempt>, w: World, options: Options) {
    && (forall i {:trigger trace[i]} | 0 <= i < |trace| :: CalledFor(trace[..i], w, options, trace[i]))
    && (forall i | 0 <= i < |trace| - 1 :: !trace[i].stop)
  }

  lemma RunNext(trace: seq<Attempt>, w: World, options: Options, r: Attempt)
    requires RunOk(trace, w, options) && CalledFor(trace, w, options, r)
    requires forall i | 0 <= i < |trace| :: !trace[i].stop
    ensures RunOk(trace + [r], w, options)
  {
    hide CalledFor;
    var next := trace + [r];
    forall i | 0 <= i < |next|
      ensures CalledFor(next[..i], w, options, next[i])
    {
      assert next[..i] == trace[..i] && trace[..|trace|] == trace;
    }
  }

  /** The world decides the run: two runs agree as long as both last. */
  lemma {:induction false} RunDetermined(s: seq<Attempt>, t: seq<Attempt>, w: World, options: Options)
    requires RunOk(s, w, options) && RunOk(t, w, options) && |s| <= |t|
    ensures s == t[..|s|]
  {
    hide CalledFor;
    if s != [] {
      var n := |s| - 1;
      RunPrefix(s, w, options, n);
      RunDetermined(s[..n], t, w, options);
      SameAttempt(s[..n], w, options, s[n], t[n]);
      assert s == s[..n] + [s[n]] && t[..n + 1] == t[..n] + [t[n]];
    }
  }

  lemma SameAttempt(trace: seq<Attempt>, w: World, options: Options, r: Attempt, r': Attempt)
    requires CalledFor(trace, w, options, r) && CalledFor(trace, w, options, r')
    ensures r == r'
  {
    hide Candidates, FirstGiven, GraceOf;
  }

  lemma RunPrefix(s: seq<Attempt>, w: World, options: Options, n: nat)
    requires RunOk(s, w, options) && n <= |s|
    ensures RunOk(s[..n], w, options)
  {
    hide CalledFor;
    forall i | 0 <= i < n
      ensures CalledFor(s[..n][..i], w, options, s[..n][i])
    {
      assert s[..n][..i] == s[..i];
    }
  }

  /** Accounted for exactly once, unless the client had gone. */
  ghost predicate AccountedOnce(trace: seq<Attempt>, w: World) {
    forall i | 0 <= i < |trace| ::
      |trace[i].accounts| == 1 || (trace[i].accounts == [] && w.cancelled(i) && i == |trace| - 1)
  }

  /** No credential is waited for twice in a row. */
  ghost predicate NoDoubleGrace(trace: seq<Attempt>) {
    forall i | 0 <= i < |trace| - 1 && trace[i].credential == trace[i + 1].credential ::
      !(trace[i].graceWait && trace[i + 1].graceWait)
  }

  /** After a grace wait the same credential is tried next, if the scheduler still offers it. */
  ghost predicate GraceReturns(trace: seq<Attempt>, w: World) {
    forall i | 0 <= i < |trace| - 1 && trace[i].graceWait ::
      w.select(i + 1, trace[i].credential).Some? ==> trace[i + 1].credential == trace[i].credential
  }

  /** Attempt `i` went to the scheduler's own choice, to the credential of the session, or to one that
      was waited for. */
  ghost predicate Ordinary(trace: seq<Attempt>, w: World, i: nat)
    requires i < |trace|
  {
    || w.select(i, "") == Some(trace[i].credential)
    || (w.session(i) != "" && w.select(i, w.session(i)) == Some(trace[i].credential))
    || exists k :: 0 <= k < i && trace[k].graceWait && w.select(i, trace[k].credential) == Some(trace[i].credential)
  }

  /** From the second attempt on, neither fill-first nor content decides. */
  ghost predicate RetriesAreOrdinary(trace: seq<Attempt>, w: World) {
    forall i {:trigger Ordinary(trace, w, i)} | 1 <= i < |trace| :: Ordinary(trace, w, i)
  }

  predicate Named(trace: seq<Attempt>) {
    forall i | 0 <= i < |trace| :: trace[i].credential != ""
  }

  lemma GraceOfNext(trace: seq<Attempt>, w: World, r: Attempt)
    ensures GraceOf(trace + [r], w) == if r.graceWait then r.credential
                                       else if NoReply(w, |trace|) then GraceOf(trace, w) else ""
  {
    assert (trace + [r])[..|trace|] == trace;
  }

  lemma {:induction false} GraceWaited(trace: seq<Attempt>, w: World)
    ensures var grace := GraceOf(trace, w);
            grace != "" ==> exists k :: 0 <= k < |trace| && trace[k].graceWait && trace[k].credential == grace
  {
    if trace != [] {
      var n := |trace| - 1;
      GraceWaited(trace[..n], w);
      assert forall k | 0 <= k < n :: trace[..n][k] == trace[k];
    }
  }

  /** After a wait the credential is the grace credential of the next attempt. */
  lemma GraceAfterWait(trace: seq<Attempt>, w: World, i: nat)
    requires i < |trace| && trace[i].graceWait
    ensures GraceOf(trace[..i + 1], w) == trace[i].credential
  {
    assert trace[..i + 1] == trace[..i] + [trace[i]];
    GraceOfNext(trace[..i], w, trace[i]);
  }

  /** Every attempt is accounted for, and no credential is waited for twice in a row. A success is recorded
      for what was delivered or would have been, a refusal as such, and a pause only when the upstream asked
      for one and the credential does not get its grace wait. */
  lemma RunAccounts(trace: seq<Attempt>, w: World, options: Options)
    requires RunOk(trace, w, options)
    ensures AccountedOnce(trace, w) && NoDoubleGrace(trace)
    ensures forall i, x | 0 <= i < |trace| && x in trace[i].accounts ::
              && (x.Succeeded? <==> w.auth(i) && w.reply(i).Status? && w.reply(i).successful
                                    && (w.reply(i).written || w.cancelled(i)))
              && (x.Unauthorized? <==> w.auth(i) && w.reply(i).Status? && !w.reply(i).successful
                                       && w.reply(i).unauthorized)
              && (x.Failed? && w.auth(i) && w.reply(i).Status? && !w.reply(i).successful ==>
                    && x.status == w.reply(i).status
                    && x.delay == if w.reply(i).retryable && (x.status == 429 || w.reply(i).decision.delay > 0)
                                     && !trace[i].graceWait then w.reply(i).decision.delay else 0)
              && (x.Failed? && (!w.auth(i) || w.reply(i).SendFailed? || w.reply(i).successful) ==> x == Failed(0, 0))
  {
    hide GraceOf, Candidates, FirstGiven;
    forall i | 0 <= i < |trace| - 1 && trace[i].graceWait && trace[i].credential == trace[i + 1].credential
      ensures !trace[i + 1].graceWait
    {
      GraceAfterWait(trace, w, i);
      assert CalledFor(trace[..i + 1], w, options, trace[i + 1]);
    }
    forall i | 0 <= i < |trace|
      ensures AccountedFor(w, i, trace[i])
      ensures |trace[i].accounts| == 1 || (trace[i].accounts == [] && w.cancelled(i) && i == |trace| - 1)
    {
      assert CalledFor(trace[..i], w, options, trace[i]);
    }
  }

  /** With a scheduler that honours a preference. */
  lemma RunPreferences(trace: seq<Attempt>, w: World, options: Options)
    requires RunOk(trace, w, options) && HonoursPreference(w)
    ensures Named(trace) && GraceReturns(trace, w) && RetriesAreOrdinary(trace, w)
  {
    hide GraceOf, AccountedFor, Ends, Candidates, FirstGiven;
    forall i | 0 <= i < |trace|
      ensures trace[i].credential != ""
    {
      assert CalledFor(trace[..i], w, options, trace[i]);
      InOrder(w, i, options, GraceOf(trace[..i], w), i > 0);
    }
    forall i | 0 <= i < |trace| - 1 && trace[i].graceWait && w.select(i + 1, trace[i].credential).Some?
      ensures trace[i + 1].credential == trace[i].credential
    {
      GraceAfterWait(trace, w, i);
      assert CalledFor(trace[..i + 1], w, options, trace[i + 1]);
      InOrder(w, i + 1, options, trace[i].credential, true);
    }
    forall i | 1 <= i < |trace|
      ensures Ordinary(trace, w, i)
    {
      assert CalledFor(trace[..i], w, options, trace[i]);
      InOrder(w, i, options, GraceOf(trace[..i], w), true);
      GraceWaited(trace[..i], w);
    }
  }

  /** Whatever the world does: every attempt is the one called for, the loop ends only for the stated
      reasons, and what the client gets is decided by the outcome of the last attempt. */
  method RelayUpstream(w: World, options: Options, retries: int) returns (trace: seq<Attempt>, result: Result)
    ensures |trace| <= (if retries < 0 then 1 else retries + 1) && RunOk(trace, w, options)
    ensures AccountedOnce(trace, w) && NoDoubleGrace(trace)
    ensures HonoursPreference(w) ==> Named(trace) && GraceReturns(trace, w) && RetriesAreOrdinary(trace, w)
    ensures trace == [] || !trace[|trace| - 1].stop ==>
              || |trace| == (if retries < 0 then 1 else retries + 1)
              || FirstGiven(w, |trace|, Candidates(w, |trace|, options, GraceOf(trace, w), trace != [])).None?
    ensures result == Wrote(NoAvailableCredential) <==> trace == []
    ensures trace != [] ==>
              var a := |trace| - 1;
              && (result.Responded? <==> w.auth(a) && w.reply(a).Status? && w.reply(a).successful && w.reply(a).written)
              && result == if !w.auth(a) then if w.cancelled(a) then Gone else Wrote(AuthFailed)
                           else if w.reply(a).SendFailed? then if w.cancelled(a) then Gone else Wrote(RequestFailed)
                           else if w.reply(a).successful then
                             if w.reply(a).written then Responded
                             else if w.cancelled(a) then Gone else Wrote(ResponseFailed)
                           else if trace[a].graceWait && w.reply(a).decision.delay > 0 && w.cancelled(a) then Gone
                           else Wrote(ForStatus(w.reply(a).status))
  {
    hide RunOk, GraceOf, AccountedOnce, AccountedFor, NoDoubleGrace, GraceReturns, RetriesAreOrdinary,
         HonoursPreference, Candidates, FirstGiven;
    var t := new RetryTracker();
    trace := [];
    EmptyRun(w, options);
    var attempt, maxAttempts := 0, if retries < 0 then 1 else retries + 1;
    while attempt < maxAttempts
      invariant attempt == |trace| <= maxAttempts
      invariant RunOk(trace, w, options) && forall i | 0 <= i < |trace| :: !trace[i].stop
      invariant t.graceCredentialId == t.graceRetriedCredentialId == GraceOf(trace, w)
      invariant t.hasLastErr <==> trace != []
      invariant trace != [] ==> ToldAfter(w, |trace| - 1, trace[|trace| - 1], t.lastErr)
      invariant fresh(t)
    {
      var selected, dropped := t.Select(w, attempt, options);
      if selected.None? {
        if t.hasLastErr {
          break;
        }
        RunLaws(trace, w, options);
        return trace, Wrote(NoAvailableCredential);
      }
      var r, ended := t.Try(w, attempt, selected.value);
      RunNext(trace, w, options, r);
      GraceOfNext(trace, w, r);
      trace := trace + [r];
      if ended.Some? {
        RunLaws(trace, w, options);
        return trace, ended.value;
      }
      attempt := attempt + 1;
    }
    RunLaws(trace, w, options);
    result := Wrote(if t.hasLastErr then t.lastErr else RequestFailed);
  }

  /** The error that is written when the loop gives up after attempt `a`. */
  predicate ToldAfter(w: World, a: nat, r: Attempt, error: RelayError) {
    if NoReply(w, a) then !w.cancelled(a) && error == if w.auth(a) then RequestFailed else AuthFailed
    else
      && !w.reply(a).successful && error == ForStatus(w.reply(a).status)
      && !(r.graceWait && w.reply(a).decision.delay > 0 && w.cancelled(a))
  }

  lemma RunLaws(trace: seq<Attempt>, w: World, options: Options)
    requires RunOk(trace, w, options)
    ensures AccountedOnce(trace, w) && NoDoubleGrace(trace)
    ensures HonoursPreference(w) ==> Named(trace) && GraceReturns(trace, w) && RetriesAreOrdinary(trace, w)
  {
    hide *;
    RunAccounts(trace, w, options);
    if HonoursPreference(w) {
      RunPreferences(trace, w, options);
    }
  }

  lemma EmptyRun(w: World, options: Options)
    ensures RunOk([], w, options) && GraceOf([], w) == ""
  {
  }
}
