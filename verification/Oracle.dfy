/**
  The oracle loop body of peggo/orchestrator/oracle.go, run against networks that may fail
  at every call.  Each pass is proved to be a step of the state machine in OracleProtocol.
 */
module Oracle {
  import opened MachineWords
  import opened Sorting
  import opened EthLog
  import opened OracleProtocol
  import opened OracleRuns
  import opened OracleProgress

  const MAX_ATTEMPTS: nat := 10

  /**
    Ethereum and Injective as the oracle reaches them.  Every call may fail.  A query answers
    in any order.  Claims sent earlier may be recorded whenever the chain is asked or sent
    something.  `faults` counts failed calls, including the answer that this validator is not
    in the active set; `sent` records the claims submitted, `heads` the Ethereum heads reported.
   */
  class Networks {
    const log: seq<Event>
    var claim: Claim
    var sent: seq<Submission>
    ghost var heads: seq<nat>
    ghost var faults: nat

    constructor (log: seq<Event>, claim: Claim)
      ensures this.log == log && this.claim == claim && sent == [] && heads == [] && faults == 0
    {
      this.log, this.claim, sent, heads, faults := log, claim, [], [], 0;
    }

    ghost predicate Valid()
      reads this
    {
      ValidLog(log) && ClaimSound(log, claim)
    }

    /** CurrentValset, and whether the validator is one of its members. */
    method InActiveSet() returns (bonded: bool)
      modifies this`faults
      ensures faults == old(faults) + if bonded then 0 else 1
    {
      bonded := *;
      if !bonded { faults := faults + 1; }
    }

    method Head() returns (ok: bool, height: nat)
      modifies this`heads, this`faults
      ensures ok ==> height < U64
      ensures heads == old(heads) + if ok then [height] else []
      ensures faults == old(faults) + if ok then 0 else 1
    {
      ok := *;
      height := *;
      height := height % U64;
      if ok { heads := heads + [height]; } else { faults := faults + 1; }
    }

    method Query(kind: Kind, a: nat, b: nat) returns (ok: bool, events: seq<Event>)
      modifies this`faults
      ensures ok ==> multiset(events) == multiset(Select(log, kind, a, b))
      ensures faults == old(faults) + if ok then 0 else 1
    {
      ok := *;
      events := Select(log, kind, a, b);
      if !ok { faults := faults + 1; }
    }

    /** Claims sent earlier reach the chain. */
    method Land()
      requires Valid()
      modifies this`claim
      ensures Valid() && Advances(log, old(claim), claim)
    {
      var k: nat := *;
      if claim.nonce < k <= |log| { claim := Claim(k, log[k - 1].height); }
    }

    /** The last claim on the chain. */
    method LastClaim() returns (ok: bool, c: Claim)
      requires Valid()
      modifies this`claim, this`faults
      ensures Valid() && Advances(log, old(claim), claim)
      ensures ok ==> c == claim
      ensures faults == old(faults) + if ok then 0 else 1
    {
      Land();
      ok := *;
      c := claim;
      if !ok { faults := faults + 1; }
    }

    /**
      Broadcasts a claim.  Injective accepts only the event right after the last claim.  What
      the broadcast reports says nothing about that: an accepted claim may be reported as
      failed, and a broadcast that passed its checks may never be included.
     */
    method Send(e: Event) returns (x: Submission)
      requires Valid()
      modifies this`claim, this`sent, this`faults
      ensures Valid()
      ensures sent == old(sent) + [x] && x.event == e
      ensures Accepts(x) && old(claim).nonce <= x.before && x.after == claim.nonce
      ensures faults == old(faults) + if x.ok then 0 else 1
    {
      Land();
      var before := claim.nonce;
      var included: bool := *;
      if included && e.nonce == claim.nonce + 1 && e.nonce <= |log| && log[e.nonce - 1] == e {
        claim := Claim(e.nonce, e.height);
      }
      var ok: bool := *;
      x := Submission(e, before, claim.nonce, ok);
      sent := sent + [x];
      if !ok { faults := faults + 1; }
    }
  }

  /** Keeps the events newer than `nonce`. */
  method KeepNewer(events: seq<Event>, nonce: nat) returns (kept: seq<Event>)
    ensures kept == FilterEvents(events, nonce)
  {
    kept := [];
    for i := 0 to |events|
      invariant kept == FilterEvents(events[..i], nonce)
    {
      assert events[..i + 1][..i] == events[..i];
      if events[i].nonce > nonce { kept := kept + [events[i]]; }
    }
    assert events[..|events|] == events;
  }

  /** filterEvents, sort.Slice by nonce, cut to twenty: the next unclaimed events in log order. */
  method NextBatch(log: seq<Event>, events: seq<Event>, start: nat, end: nat, nonce: nat) returns (r: seq<Event>)
    requires ValidLog(log)
    requires multiset(events) == multiset(Window(log, start, end))
    ensures r == Batch(log, start, end, nonce)
  {
    var kept := KeepNewer(events, nonce);
    r := Sort(kept, NonceLess);
    FilterThenSort(log, events, start, end, nonce);
    if |r| > MAX_EVENTS_AT_ONCE { r := r[..MAX_EVENTS_AT_ONCE]; }
  }

  ghost predicate IsSlice(log: seq<Event>, batch: seq<Event>, lo: nat) {
    batch != [] && lo + |batch| <= |log| && batch == log[lo..lo + |batch|]
  }

  lemma NewerPart(log: seq<Event>, batch: seq<Event>, lo: nat, nonce: nat)
    requires ValidLog(log) && IsSlice(log, batch, lo) && lo <= nonce <= |log|
    ensures var todo := FilterEvents(batch, nonce);
            && nonce + |todo| <= |log|
            && lo + |batch| <= nonce + |todo|
            && (forall i :: 0 <= i < |todo| ==> todo[i] == log[nonce + i] && todo[i].nonce == nonce + i + 1)
  {
    hide FilterEvents;
    FilterSlice(log, lo, lo + |batch|, nonce);
  }

  lemma BatchSlice(log: seq<Event>, a: nat, b: nat, nonce: nat)
    requires ValidLog(log)
    requires var f := Batch(log, a, b, nonce); f != [] && f[0].nonce == nonce + 1
    ensures var f := Batch(log, a, b, nonce);
            IsSlice(log, f, nonce) && f[|f| - 1].nonce == nonce + |f|
  {
    BatchIsSlice(log, a, b, nonce);
  }

  /** All claims of the attempts, in order. */
  function Submitted(attempts: seq<Attempt>): seq<Submission> {
    if attempts == [] then [] else Submitted(attempts[..|attempts| - 1]) + attempts[|attempts| - 1].sent
  }

  /** `sent` grew by `more`. */
  ghost predicate Logged(before: seq<Submission>, sent: seq<Submission>, more: seq<Submission>) {
    sent == before + more
  }

  lemma LoggedNothing(sent: seq<Submission>)
    ensures Logged(sent, sent, []) && Logged(sent, sent, Submitted([]))
  {
    assert sent + [] == sent;
  }

  lemma LoggedAppend(before: seq<Submission>, sent: seq<Submission>, more: seq<Submission>, last: seq<Submission>)
    requires Logged(before, sent, more)
    ensures Logged(before, sent + last, more + last)
  {
    assert before + (more + last) == (before + more) + last;
  }

  lemma LoggedNone(before: seq<Submission>, sent: seq<Submission>)
    requires Logged(before, sent, [])
    ensures sent == before
  {}

  lemma LoggedThen(before: seq<Submission>, sent: seq<Submission>, sent': seq<Submission>, more: seq<Submission>,
                   last: seq<Submission>)
    requires Logged(before, sent, more) && Logged(sent, sent', last)
    ensures Logged(before, sent', more + last)
  {
    LoggedAppend(before, sent, more, last);
  }

  lemma SubmittedAppend(attempts: seq<Attempt>, a: Attempt)
    ensures Submitted(attempts + [a]) == Submitted(attempts) + a.sent
  {
    assert (attempts + [a])[..|attempts|] == attempts;
  }

  lemma GotThroughAppend(attempts: seq<Attempt>, a: Attempt, last: nat)
    requires GotThrough([a], last)
    ensures GotThrough(attempts + [a], last)
  {}

  /** Sending one more event keeps an attempt well formed, if the sends before it succeeded. */
  lemma SendsAppend(log: seq<Event>, a: Attempt, x: Submission)
    requires Sends(log, a) && a.reload + |a.sent| < |log|
    requires forall i :: 0 <= i < |a.sent| ==> a.sent[i].ok
    requires x.event == log[a.reload + |a.sent|] && Accepts(x) && EndOf(a) <= x.before && a.reload <= EndOf(a)
    ensures Sends(log, a.(sent := a.sent + [x])) && EndOf(a.(sent := a.sent + [x])) == x.after
  {
    if a.sent != [] {
      forall i | 0 <= i < |a.sent|
        ensures a.sent[i].after <= x.before
      {
        assert a.sent[i].after <= EndOf(a) by {
          if i < |a.sent| - 1 { assert a.sent[i].after <= a.sent[|a.sent| - 1].before; }
        }
      }
    }
  }

  lemma SequenceAppend(log: seq<Event>, attempts: seq<Attempt>, a: Attempt, lo: nat, mid: nat, hi: nat)
    requires InSequence(log, attempts, lo, mid)
    requires Sends(log, a) && mid <= a.reload <= EndOf(a) <= hi
    ensures InSequence(log, attempts + [a], lo, hi)
  {
    hide Sends;
  }

  /** A call tried up to ten times: it failed exactly if all ten attempts did. */
  ghost predicate Retried(ok: bool, before: nat, faults: nat) {
    if ok then before <= faults < before + 10 else faults == before + 10
  }

  /** One head was read, and `confirmed` is twelve blocks below it, or zero if it has no such block. */
  ghost predicate ReadHead(before: seq<nat>, heads: seq<nat>, confirmed: nat) {
    && |heads| == |before| + 1 && before == heads[..|before|]
    && confirmed == (if heads[|before|] <= 12 then 0 else heads[|before|] - 12)
  }

  /** A scan of the first window, or of one block after a failed query, is one the protocol allows. */
  lemma ScanAllowed(s: State, confirmed: nat, end: nat, reached: nat, o: Outcome, scanned: nat, queryRange: nat)
    requires s.recorded < confirmed && end == WindowEnd(s.recorded, s.queryRange, confirmed)
    requires (scanned == s.queryRange && reached == end) || (scanned == 1 && reached == s.recorded + 1)
    requires queryRange == if o.NothingNew? || o.Sent? then Widened(scanned) else scanned
    ensures Scanned(s, confirmed, reached, o.NothingNew? || o.Sent?, queryRange)
  {
    hide WindowEnd;
  }

  class EthOracle {
    var lastRecordedEthEventHeight: nat
    var queryRange: nat

    /** startValidatorMode picks the height, runOracle the range. */
    constructor (claim: Claim, reported: bool, bridgeStart: nat)
      ensures lastRecordedEthEventHeight == StartHeight(claim, reported, bridgeStart)
      ensures reported && claim.height > 0 ==> lastRecordedEthEventHeight == claim.height
      ensures !reported || claim.height == 0 ==> lastRecordedEthEventHeight == bridgeStart
      ensures queryRange == DEFAULT_BLOCKS_TO_SEARCH
    {
      var height := if reported then claim.height else 0;
      if height == 0 { height := bridgeStart; }
      lastRecordedEthEventHeight := height;
      queryRange := DEFAULT_BLOCKS_TO_SEARCH;
    }

    ghost function StateWith(net: Networks): State
      reads this, net
    {
      State(net.claim, lastRecordedEthEventHeight, queryRange)
    }

    ghost predicate RangeOk()
      reads this
    {
      1 <= queryRange <= DEFAULT_BLOCKS_TO_SEARCH
    }

    method ResetQueryRange()
      requires RangeOk()
      modifies this`queryRange
      ensures queryRange == Widened(old(queryRange)) && RangeOk()
      ensures queryRange == (if old(queryRange) < 50 then 2 * old(queryRange) else 100)
    {
      if queryRange < DEFAULT_BLOCKS_TO_SEARCH { queryRange := queryRange * 2; }
      if queryRange > DEFAULT_BLOCKS_TO_SEARCH { queryRange := DEFAULT_BLOCKS_TO_SEARCH; }
    }

    /** One attempt at reading all four kinds of event. */
    method ScanOnce(net: Networks, start: nat, end: nat) returns (ok: bool, events: seq<Event>, nextEnd: nat)
      requires RangeOk() && start + 1 < U64
      modifies this`queryRange, net`faults
      ensures (queryRange == old(queryRange) && nextEnd == end) || (queryRange == 1 && nextEnd == start + 1)
      ensures ok ==> nextEnd == end && multiset(events) == multiset(Window(net.log, start, end))
      ensures net.faults == old(net.faults) + if ok then 0 else 1
    {
      events, nextEnd, ok := [], end, false;
      var okD, deposits := net.Query(Deposit, start, end);
      if !okD {
        queryRange := 1;
        nextEnd := (start + queryRange) % U64;
        return;
      }
      var okW, withdrawals := net.Query(Withdrawal, start, end);
      if !okW { return; }
      var okE, deployments := net.Query(Erc20Deployment, start, end);
      if !okE { return; }
      var okV, updates := net.Query(ValsetUpdate, start, end);
      if !okV { return; }
      ok, events := true, deposits + withdrawals + updates + deployments;
      KindsPartitionWindow(net.log, start, end);
    }

    /**
      Whatever failures precede success, the events returned are exactly those of the blocks
      start..scannedEnd, and the scan never goes past the block it was asked for.
     */
    method GetEthEvents(net: Networks, start: nat, end: nat) returns (ok: bool, events: seq<Event>, scannedEnd: nat)
      requires RangeOk() && start + 1 < U64
      modifies this`queryRange, net`faults
      ensures ok ==> multiset(events) == multiset(Window(net.log, start, scannedEnd))
      ensures (queryRange == old(queryRange) && scannedEnd == end) || (queryRange == 1 && scannedEnd == start + 1)
      ensures start < end ==> start < scannedEnd <= end
      ensures Retried(ok, old(net.faults), net.faults)
    {
      ok, events, scannedEnd := false, [], end;
      var attempt := 0;
      while attempt < MAX_ATTEMPTS && !ok
        invariant attempt <= MAX_ATTEMPTS
        invariant (queryRange == old(queryRange) && scannedEnd == end) || (queryRange == 1 && scannedEnd == start + 1)
        invariant ok ==> multiset(events) == multiset(Window(net.log, start, scannedEnd))
        invariant ok ==> attempt > 0
        invariant net.faults == old(net.faults) + attempt - if ok then 1 else 0
      {
        ok, events, scannedEnd := ScanOnce(net, start, scannedEnd);
        attempt := attempt + 1;
      }
    }

    method GetLatestEthHeight(net: Networks) returns (ok: bool, height: nat)
      modifies net`heads, net`faults
      ensures ok ==> height < U64
      ensures net.heads == old(net.heads) + if ok then [height] else []
      ensures Retried(ok, old(net.faults), net.faults)
    {
      ok, height := false, 0;
      var attempt := 0;
      while attempt < MAX_ATTEMPTS && !ok
        invariant attempt <= MAX_ATTEMPTS
        invariant ok ==> height < U64
        invariant net.heads == old(net.heads) + if ok then [height] else []
        invariant ok ==> attempt > 0
        invariant net.faults == old(net.faults) + attempt - if ok then 1 else 0
      {
        ok, height := net.Head();
        attempt := attempt + 1;
      }
    }

    method GetLastClaimEvent(net: Networks) returns (ok: bool, c: Claim)
      requires net.Valid()
      modifies net`claim, net`faults
      ensures net.Valid() && Advances(net.log, old(net.claim), net.claim)
      ensures ok ==> c == net.claim
      ensures Retried(ok, old(net.faults), net.faults)
    {
      ok, c := false, Claim(0, 0);
      var attempt := 0;
      while attempt < MAX_ATTEMPTS && !ok
        invariant attempt <= MAX_ATTEMPTS
        invariant net.Valid() && old(net.claim).nonce <= net.claim.nonce
        invariant ok ==> c == net.claim
        invariant ok ==> attempt > 0
        invariant net.faults == old(net.faults) + attempt - if ok then 1 else 0
      {
        ok, c := net.LastClaim();
        attempt := attempt + 1;
      }
    }

    /** One attempt: reload the last claim, drop what it covers, send the rest in order. */
    method SendOnce(net: Networks, batch: seq<Event>, ghost lo: nat) returns (ok: bool, tried: bool, a: Attempt)
      requires net.Valid() && lo <= net.claim.nonce
      requires IsSlice(net.log, batch, lo)
      modifies net`claim, net`sent, net`faults
      ensures net.Valid() && old(net.claim).nonce <= net.claim.nonce
      ensures tried ==> Sends(net.log, a) && old(net.claim).nonce <= a.reload <= EndOf(a) <= net.claim.nonce
      ensures Logged(old(net.sent), net.sent, if tried then a.sent else [])
      ensures ok ==> tried && GotThrough([a], lo + |batch|)
      ensures net.faults == old(net.faults) + if ok then 0 else 1
    {
      ok, tried, a := false, false, Attempt(0, []);
      var okC, c := net.LastClaim();
      if !okC { return; }
      tried, a := true, Attempt(c.nonce, []);
      var todo := KeepNewer(batch, c.nonce);
      NewerPart(net.log, batch, lo, c.nonce);
      assert Sends(net.log, a);
      LoggedNothing(net.sent);
      hide Sends, Accepts, Logged, ValidLog, ClaimSound, FilterEvents;
      for i := 0 to |todo|
        invariant net.Valid() && a.reload == c.nonce && |a.sent| == i
        invariant Sends(net.log, a) && c.nonce <= EndOf(a) <= net.claim.nonce
        invariant forall k :: 0 <= k < i ==> a.sent[k].ok
        invariant Logged(old(net.sent), net.sent, a.sent)
        invariant net.faults == old(net.faults)
      {
        ghost var earlier := net.sent;
        var x := net.Send(todo[i]);
        SendsAppend(net.log, a, x);
        LoggedAppend(old(net.sent), earlier, a.sent, [x]);
        a := a.(sent := a.sent + [x]);
        if !x.ok { return; }
      }
      ok := true;
    }

    method SendNewEventClaims(net: Networks, batch: seq<Event>, ghost lo: nat)
      returns (ok: bool, attempts: seq<Attempt>)
      requires net.Valid() && lo <= net.claim.nonce
      requires IsSlice(net.log, batch, lo)
      modifies net`claim, net`sent, net`faults
      ensures net.Valid() && old(net.claim).nonce <= net.claim.nonce
      ensures InSequence(net.log, attempts, old(net.claim).nonce, net.claim.nonce)
      ensures ok ==> GotThrough(attempts, lo + |batch|)
      ensures Logged(old(net.sent), net.sent, Submitted(attempts))
      ensures Retried(ok, old(net.faults), net.faults)
    {
      ok, attempts := false, [];
      var attempt := 0;
      NothingSent(net.log, net.claim.nonce);
      LoggedNothing(net.sent);
      hide InSequence, Sends, GotThrough, Logged, Submitted, ValidLog, ClaimSound, IsSlice;
      while attempt < MAX_ATTEMPTS && !ok
        invariant attempt <= MAX_ATTEMPTS
        invariant net.Valid() && old(net.claim).nonce <= net.claim.nonce
        invariant InSequence(net.log, attempts, old(net.claim).nonce, net.claim.nonce)
        invariant ok ==> GotThrough(attempts, lo + |batch|)
        invariant Logged(old(net.sent), net.sent, Submitted(attempts))
        invariant ok ==> attempt > 0
        invariant net.faults == old(net.faults) + attempt - if ok then 1 else 0
      {
        ghost var nonce, earlier := net.claim.nonce, net.sent;
        var tried, a;
        ok, tried, a := SendOnce(net, batch, lo);
        if tried {
          SequenceAppend(net.log, attempts, a, old(net.claim).nonce, nonce, net.claim.nonce);
          SubmittedAppend(attempts, a);
          LoggedThen(old(net.sent), earlier, net.sent, Submitted(attempts), a.sent);
          if ok { GotThroughAppend(attempts, a, lo + |batch|); }
          attempts := attempts + [a];
        } else {
          LoggedNone(earlier, net.sent);
        }
        attempt := attempt + 1;
      }
    }

    /** The second half of a pass: decide from the scanned events what to record or send. */
    method RelayEvents(net: Networks, events: seq<Event>, scannedEnd: nat, seen: Claim) returns (o: Outcome)
      requires net.Valid() && RangeOk() && net.claim == seen
      requires multiset(events) == multiset(Window(net.log, lastRecordedEthEventHeight, scannedEnd))
      modifies this, net`claim, net`sent, net`faults
      ensures net.Valid() && Advances(net.log, seen, net.claim)
      ensures RangeOk()
      ensures queryRange == if o.NothingNew? || o.Sent? then Widened(old(queryRange)) else old(queryRange)
      ensures Relayed(net.log, old(lastRecordedEthEventHeight), scannedEnd, seen, o, net.claim.nonce,
                      lastRecordedEthEventHeight)
      ensures !o.Idle? && o.seen == seen && o.end == scannedEnd
      ensures o.NothingNew? ==> lastRecordedEthEventHeight == scannedEnd
      ensures o.Missed? ==> lastRecordedEthEventHeight == seen.height
      ensures o.SendFailed? ==> lastRecordedEthEventHeight == old(lastRecordedEthEventHeight)
      ensures net.sent == old(net.sent) + Submitted(AttemptsOf(o))
      ensures Retried(!o.SendFailed?, old(net.faults), net.faults)
    {
      var newEvents := NextBatch(net.log, events, lastRecordedEthEventHeight, scannedEnd, seen.nonce);
      if |newEvents| == 0 {
        lastRecordedEthEventHeight := scannedEnd;
        ResetQueryRange();
        o := NothingNew(seen, scannedEnd);
        return;
      }
      if seen.nonce + 1 != newEvents[0].nonce {
        lastRecordedEthEventHeight := seen.height;
        o := Missed(seen, scannedEnd);
        return;
      }
      BatchSlice(net.log, lastRecordedEthEventHeight, scannedEnd, seen.nonce);
      var ok, attempts := SendNewEventClaims(net, newEvents, seen.nonce);
      if !ok {
        o := SendFailed(seen, scannedEnd, attempts);
        return;
      }
      lastRecordedEthEventHeight := newEvents[|newEvents| - 1].height;
      ResetQueryRange();
      o := Sent(seen, scannedEnd, attempts);
    }

    /**
      One pass of the loop is one step of the protocol, up to twelve blocks below the head it
      read.  It stays idle only if it is not in the active set, ten attempts in a row failed, or
      there is no confirmed block above the recorded one.
     */
    method ObserveEthEvents(net: Networks) returns (o: Outcome, confirmed: nat)
      requires net.Valid() && RangeOk()
      modifies this, net
      ensures net.Valid() && RangeOk()
      ensures Step(net.log, old(StateWith(net)), confirmed, o, StateWith(net))
      ensures net.sent == old(net.sent) + Submitted(AttemptsOf(o))
      ensures net.faults == old(net.faults) ==> Working(old(StateWith(net)), confirmed, o)
      ensures !o.Idle? || net.faults == old(net.faults) ==> ReadHead(old(net.heads), net.heads, confirmed)
      ensures o.Idle? ==>
                || (net.faults == old(net.faults) + 1 && net.heads == old(net.heads))
                || net.faults >= old(net.faults) + 10
                || (ReadHead(old(net.heads), net.heads, confirmed) && confirmed <= old(lastRecordedEthEventHeight))
      ensures o.SendFailed? ==> net.faults >= old(net.faults) + 10
      ensures o.NothingNew? ==> lastRecordedEthEventHeight == o.end
      ensures o.Missed? ==> lastRecordedEthEventHeight == o.seen.height
      ensures o.Idle? || o.SendFailed? ==> lastRecordedEthEventHeight == old(lastRecordedEthEventHeight)
    {
      hide Scanned, Relayed, WindowEnd, Widened, ClaimSound, ValidLog;
      ghost var s := StateWith(net);
      o, confirmed := Idle, 0;
      var bonded := net.InActiveSet();
      if !bonded { return; }
      var okH, head := GetLatestEthHeight(net);
      if !okH || head <= CONFIRMATION_DELAY { return; }
      confirmed := head - CONFIRMATION_DELAY;
      if confirmed <= lastRecordedEthEventHeight { return; }

      var end := WindowEnd(lastRecordedEthEventHeight, queryRange, confirmed);
      var okE, events, scannedEnd := GetEthEvents(net, lastRecordedEthEventHeight, end);
      if !okE { return; }
      var okC, seen := GetLastClaimEvent(net);
      if !okC { return; }
      ghost var scanned := queryRange;
      o := RelayEvents(net, events, scannedEnd, seen);
      ScanAllowed(s, confirmed, end, scannedEnd, o, scanned, queryRange);
    }
  }

  lemma Reassociate(a: seq<Submission>, b: seq<Submission>, c: seq<Submission>)
    ensures (a + b) + c == a + (b + c)
  {}

  lemma {:induction false} SubmittedConcat(a: seq<Attempt>, b: seq<Attempt>)
    ensures Submitted(a + b) == Submitted(a) + Submitted(b)
    decreases |b|
  {
    if b == [] {
      assert a + b == a;
      assert Submitted(a) + [] == Submitted(a);
    } else {
      var n := |b| - 1;
      SubmittedConcat(a, b[..n]);
      assert a + b == (a + b[..n]) + [b[n]] && b == b[..n] + [b[n]];
      hide Submitted;
      SubmittedAppend(a + b[..n], b[n]);
      SubmittedAppend(b[..n], b[n]);
      Reassociate(Submitted(a), Submitted(b[..n]), b[n].sent);
    }
  }

  /** The run collected so far: it is one, and the network received what its labels say. */
  ghost predicate Follows(
    log: seq<Event>, bridgeStart: nat, states: seq<State>, labels: seq<Label>, s: State,
    before: seq<Submission>, sent: seq<Submission>) {
    && IsRun(log, bridgeStart, states, labels) && states[|labels|] == s
    && Logged(before, sent, Submitted(AllAttempts(labels)))
  }

  lemma FollowsStart(log: seq<Event>, bridgeStart: nat, s: State, sent: seq<Submission>)
    requires ClaimSound(log, s.claim)
    ensures Follows(log, bridgeStart, [s], [], s, sent, sent)
  {
    LoggedNothing(sent);
  }

  lemma FollowsNext(
    log: seq<Event>, bridgeStart: nat, states: seq<State>, labels: seq<Label>, s: State,
    before: seq<Submission>, sent: seq<Submission>, l: Label, s': State, sent': seq<Submission>)
    requires Follows(log, bridgeStart, states, labels, s, before, sent) && Next(log, bridgeStart, s, l, s')
    requires sent' == sent + if l.Pass? then Submitted(AttemptsOf(l.outcome)) else []
    ensures Follows(log, bridgeStart, states + [s'], labels + [l], s', before, sent')
  {
    hide Next, Submitted, AttemptsOf;
    var attempts := if l.Pass? then AttemptsOf(l.outcome) else [];
    RunAppend(log, bridgeStart, states, labels, l, s');
    AllAttemptsSnoc(labels, l);
    SubmittedConcat(AllAttempts(labels), attempts);
    assert l.Pass? || Submitted([]) == [] by { LoggedNothing([]); }
    LoggedAppend(before, sent, Submitted(AllAttempts(labels)), Submitted(attempts));
  }

  /**
    The orchestrator's life: any number of passes, with restarts and landing claims in between,
    is a run of the state machine, and the claims that reached the network are those of the
    run.  So if the successes it reported are recorded, nothing has been skipped.
   */
  method Drive(net: Networks, bridgeStart: nat, turns: nat)
    returns (oracle: EthOracle, ghost states: seq<State>, ghost labels: seq<Label>)
    requires net.Valid() && BridgeStart(net.log, bridgeStart)
    modifies net
    ensures fresh(oracle) && net.Valid() && oracle.RangeOk()
    ensures IsRun(net.log, bridgeStart, states, labels) && states[|labels|] == oracle.StateWith(net)
    ensures states[0].claim == old(net.claim) && NothingSkipped(net.log, states[0])
    ensures Logged(old(net.sent), net.sent, Submitted(AllAttempts(labels)))
    ensures RecordedRun(states, labels) ==> NothingSkipped(net.log, oracle.StateWith(net))
  {
    hide Step, ValidLog, ClaimSound, BridgeStart, NothingSkipped, Submitted, AllAttempts, Logged, IsRun;
    var reported: bool := *;
    oracle := new EthOracle(net.claim, reported, bridgeStart);
    ghost var s := oracle.StateWith(net);
    StartEstablishes(net.log, bridgeStart, s, reported);
    states, labels := [s], [];
    FollowsStart(net.log, bridgeStart, s, net.sent);
    for turn := 0 to turns
      invariant fresh(oracle) && net.Valid() && oracle.RangeOk() && s == oracle.StateWith(net)
      invariant Follows(net.log, bridgeStart, states, labels, s, old(net.sent), net.sent)
      invariant |states| == |labels| + 1 && states[0].claim == old(net.claim) && NothingSkipped(net.log, states[0])
    {
      ghost var l, sent := ClaimRecorded, net.sent;
      var choice: int := *;
      if choice == 0 {
        net.Land();
      } else if choice == 1 {
        reported := *;
        oracle := new EthOracle(net.claim, reported, bridgeStart);
        l := Restart(reported);
      } else {
        var o, confirmed := oracle.ObserveEthEvents(net);
        l := Pass(confirmed, o);
      }
      ghost var s' := oracle.StateWith(net);
      assert net.sent == sent + if l.Pass? then Submitted(AttemptsOf(l.outcome)) else [];
      FollowsNext(net.log, bridgeStart, states, labels, s, old(net.sent), sent, l, s', net.sent);
      states, labels, s := states + [s'], labels + [l], s';
    }
    if RecordedRun(states, labels) {
      RunNeverSkips(net.log, bridgeStart, states, labels, |labels|);
    }
  }
}
