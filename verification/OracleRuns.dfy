/**
  What holds over every run of the oracle: passes in any order, restarts, claims recorded late
  and claims that were reported as sent but never recorded.
 */
module OracleRuns {
  import opened EthLog
  import opened OracleProtocol

  // ---------- nothing is skipped ----------

  /** Every success reported in the run was recorded by the end of its pass. */
  ghost predicate RecordedRun(states: seq<State>, labels: seq<Label>)
    requires |states| == |labels| + 1
  {
    forall i :: 0 <= i < |labels| && labels[i].Pass? ==> Recorded(labels[i].outcome, states[i + 1].claim.nonce)
  }

  /** The pass reported a success that is not recorded. */
  ghost predicate Loses(l: Label, s': State) {
    l.Pass? && !Recorded(l.outcome, s'.claim.nonce)
  }

  /** A transition keeps all unclaimed events ahead, unless it is a pass that lost a claim. */
  lemma NextKeeps(log: seq<Event>, bridgeStart: nat, s: State, l: Label, s': State)
    requires ValidLog(log) && BridgeStart(log, bridgeStart)
    requires ClaimSound(log, s.claim) && NothingSkipped(log, s) && Next(log, bridgeStart, s, l, s')
    ensures NothingSkipped(log, s') || Loses(l, s')
    ensures l.Pass? ==> !l.outcome.Missed?
  {
    match l
    case ClaimRecorded =>
    case Restart(reported) => StartEstablishes(log, bridgeStart, s, reported);
    case Pass(c, o) => PassKeeps(log, s, c, o, s');
  }

  /** The transition puts the recorded height back at or below every unclaimed event. */
  predicate Repairs(l: Label) {
    l.Restart? || (l.Pass? && l.outcome.Missed?)
  }

  lemma RepairRestores(log: seq<Event>, bridgeStart: nat, s: State, l: Label, s': State)
    requires ValidLog(log) && BridgeStart(log, bridgeStart)
    requires ClaimSound(log, s.claim) && Next(log, bridgeStart, s, l, s') && Repairs(l)
    ensures NothingSkipped(log, s')
  {
    if l.Restart? {
      StartEstablishes(log, bridgeStart, s, l.reported);
    } else {
      MissedRestores(log, s, l.confirmed, l.outcome, s');
    }
  }

  lemma {:induction false} RunClaimSound(
    log: seq<Event>, bridgeStart: nat, states: seq<State>, labels: seq<Label>, i: nat)
    requires IsRun(log, bridgeStart, states, labels) && i <= |labels|
    ensures ClaimSound(log, states[i].claim) && states[0].claim.nonce <= states[i].claim.nonce
  {
    if i > 0 {
      RunClaimSound(log, bridgeStart, states, labels, i - 1);
      assert Next(log, bridgeStart, states[i - 1], labels[i - 1], states[i]);
    }
  }

  /** A loss at `j` has not been repaired before `i`. */
  ghost predicate LostAt(states: seq<State>, labels: seq<Label>, j: nat, i: nat)
    requires |states| == |labels| + 1 && i <= |labels|
  {
    j < i && Loses(labels[j], states[j + 1]) && forall k :: j < k < i ==> !Repairs(labels[k])
  }

  /**
    In every run, an event is skipped only after a pass whose reported success was not recorded,
    and only until the next restart or missed-event pass.
   */
  lemma {:induction false} RunSkipsOnlyAfterLoss(
    log: seq<Event>, bridgeStart: nat, states: seq<State>, labels: seq<Label>, i: nat)
    requires ValidLog(log) && BridgeStart(log, bridgeStart)
    requires IsRun(log, bridgeStart, states, labels) && NothingSkipped(log, states[0])
    requires i <= |labels|
    ensures NothingSkipped(log, states[i]) || exists j :: LostAt(states, labels, j, i)
  {
    hide Next, ValidLog, BridgeStart, ClaimSound, NothingSkipped, Loses, Repairs;
    if i > 0 {
      var l, s, s' := labels[i - 1], states[i - 1], states[i];
      RunSkipsOnlyAfterLoss(log, bridgeStart, states, labels, i - 1);
      RunClaimSound(log, bridgeStart, states, labels, i - 1);
      if Repairs(l) {
        RepairRestores(log, bridgeStart, s, l, s');
      } else if NothingSkipped(log, s) {
        NextKeeps(log, bridgeStart, s, l, s');
        assert Loses(l, s') ==> LostAt(states, labels, i - 1, i);
      } else {
        var j :| LostAt(states, labels, j, i - 1);
        assert LostAt(states, labels, j, i);
      }
    }
  }

  /**
    In every run whose reported successes are recorded no event is ever skipped, and the
    missed-event branch is never taken.
   */
  lemma RunNeverSkips(log: seq<Event>, bridgeStart: nat, states: seq<State>, labels: seq<Label>, i: nat)
    requires ValidLog(log) && BridgeStart(log, bridgeStart)
    requires IsRun(log, bridgeStart, states, labels) && NothingSkipped(log, states[0])
    requires RecordedRun(states, labels) && i <= |labels|
    ensures ClaimSound(log, states[i].claim) && NothingSkipped(log, states[i])
    ensures i < |labels| && labels[i].Pass? ==> !labels[i].outcome.Missed?
  {
    RunSkipsOnlyAfterLoss(log, bridgeStart, states, labels, i);
    RunClaimSound(log, bridgeStart, states, labels, i);
    if i < |labels| {
      NextKeeps(log, bridgeStart, states[i], labels[i], states[i + 1]);
    }
  }

  /** The events of a successful send's batch that lie below the block of its last one are claimed. */
  ghost predicate KeptUp(log: seq<Event>, s: State, l: Label, s': State) {
    l.Pass? && l.outcome.Sent? ==>
      forall e :: e in Batch(log, s.recorded, l.outcome.end, l.outcome.seen.nonce) && e.height < s'.recorded ==>
        e.nonce <= s'.claim.nonce
  }

  lemma NextKeepsIff(log: seq<Event>, bridgeStart: nat, s: State, l: Label, s': State)
    requires ValidLog(log) && BridgeStart(log, bridgeStart)
    requires ClaimSound(log, s.claim) && NothingSkipped(log, s) && Next(log, bridgeStart, s, l, s')
    ensures NothingSkipped(log, s') <==> KeptUp(log, s, l, s')
  {
    if l.Pass? {
      PassKeepsIff(log, s, l.confirmed, l.outcome, s');
    } else {
      NextKeeps(log, bridgeStart, s, l, s');
    }
  }

  /**
    The exact condition: no event is skipped at any point of a run if and only if at the end of
    every successful send the events of its batch are claimed, but for those in the block of
    the last one.
   */
  lemma RunNeverSkipsIff(log: seq<Event>, bridgeStart: nat, states: seq<State>, labels: seq<Label>)
    requires ValidLog(log) && BridgeStart(log, bridgeStart)
    requires IsRun(log, bridgeStart, states, labels) && NothingSkipped(log, states[0])
    ensures (forall i :: 0 <= i < |states| ==> NothingSkipped(log, states[i]))
            <==> (forall i :: 0 <= i < |labels| ==> KeptUp(log, states[i], labels[i], states[i + 1]))
  {
    hide Next, ValidLog, BridgeStart, ClaimSound, NothingSkipped, KeptUp;
    if forall i :: 0 <= i < |states| ==> NothingSkipped(log, states[i]) {
      forall i | 0 <= i < |labels|
        ensures KeptUp(log, states[i], labels[i], states[i + 1])
      {
        RunClaimSound(log, bridgeStart, states, labels, i);
        NextKeepsIff(log, bridgeStart, states[i], labels[i], states[i + 1]);
      }
    }
    if forall i :: 0 <= i < |labels| ==> KeptUp(log, states[i], labels[i], states[i + 1]) {
      forall i: nat | i < |states|
        ensures NothingSkipped(log, states[i])
      {
        KeptUpNeverSkips(log, bridgeStart, states, labels, i);
      }
    }
  }

  lemma {:induction false} KeptUpNeverSkips(
    log: seq<Event>, bridgeStart: nat, states: seq<State>, labels: seq<Label>, i: nat)
    requires ValidLog(log) && BridgeStart(log, bridgeStart)
    requires IsRun(log, bridgeStart, states, labels) && NothingSkipped(log, states[0]) && i < |states|
    requires forall i :: 0 <= i < |labels| ==> KeptUp(log, states[i], labels[i], states[i + 1])
    ensures NothingSkipped(log, states[i])
  {
    hide Next, ValidLog, BridgeStart, ClaimSound, NothingSkipped, KeptUp;
    if i > 0 {
      KeptUpNeverSkips(log, bridgeStart, states, labels, i - 1);
      RunClaimSound(log, bridgeStart, states, labels, i - 1);
      NextKeepsIff(log, bridgeStart, states[i - 1], labels[i - 1], states[i]);
    }
  }

  /** So at any point of such a run, every event in a block below the recorded height has been claimed. */
  lemma RunClaimsWhatItPasses(
    log: seq<Event>, bridgeStart: nat, states: seq<State>, labels: seq<Label>, i: nat, e: Event)
    requires ValidLog(log) && BridgeStart(log, bridgeStart)
    requires IsRun(log, bridgeStart, states, labels) && NothingSkipped(log, states[0])
    requires RecordedRun(states, labels)
    requires i <= |labels| && e in log && e.height < states[i].recorded
    ensures e.nonce <= states[i].claim.nonce
  {
    RunNeverSkips(log, bridgeStart, states, labels, i);
    var k :| 0 <= k < |log| && log[k] == e;
  }

  // ---------- order of submissions ----------

  function AttemptsOf(o: Outcome): seq<Attempt> {
    match o
    case Sent(_, _, attempts) => attempts
    case SendFailed(_, _, attempts) => attempts
    case _ => []
  }

  function AllAttempts(labels: seq<Label>): seq<Attempt> {
    if labels == [] then []
    else
      var l := labels[|labels| - 1];
      AllAttempts(labels[..|labels| - 1]) + if l.Pass? then AttemptsOf(l.outcome) else []
  }

  lemma AllAttemptsSnoc(labels: seq<Label>, l: Label)
    ensures AllAttempts(labels + [l]) == AllAttempts(labels) + if l.Pass? then AttemptsOf(l.outcome) else []
  {
    assert (labels + [l])[..|labels|] == labels;
  }

  /** A run goes on with any transition from its last state. */
  lemma RunAppend(
    log: seq<Event>, bridgeStart: nat, states: seq<State>, labels: seq<Label>, l: Label, s': State)
    requires IsRun(log, bridgeStart, states, labels) && Next(log, bridgeStart, states[|labels|], l, s')
    ensures IsRun(log, bridgeStart, states + [s'], labels + [l])
  {
    hide Next;
    var states', labels' := states + [s'], labels + [l];
    forall i | 0 <= i < |labels'|
      ensures Next(log, bridgeStart, states'[i], labels'[i], states'[i + 1])
    {
      if i < |labels| { assert Next(log, bridgeStart, states[i], labels[i], states[i + 1]); }
    }
  }

  lemma InSequenceConcat(
    log: seq<Event>, a: seq<Attempt>, b: seq<Attempt>, lo: nat, mid: nat, mid': nat, hi: nat)
    requires InSequence(log, a, lo, mid) && InSequence(log, b, mid', hi) && mid <= mid'
    ensures InSequence(log, a + b, lo, hi)
  {
    hide Sends;
  }

  lemma PassInSequence(log: seq<Event>, bridgeStart: nat, s: State, l: Label, s': State)
    requires Next(log, bridgeStart, s, l, s')
    ensures InSequence(log, if l.Pass? then AttemptsOf(l.outcome) else [], s.claim.nonce, s'.claim.nonce)
  {
    hide Sends;
  }

  /**
    Over a whole run, whatever height the oracle had recorded and whatever was lost, the
    attempts follow one another on the chain and each sends the events right after the nonce
    it reloaded.
   */
  lemma {:induction false} RunSendsInSequence(
    log: seq<Event>, bridgeStart: nat, states: seq<State>, labels: seq<Label>)
    requires IsRun(log, bridgeStart, states, labels)
    ensures InSequence(log, AllAttempts(labels), states[0].claim.nonce, states[|labels|].claim.nonce)
    decreases |labels|
  {
    hide Next, InSequence;
    var n := |labels|;
    if n == 0 {
      NothingSent(log, states[0].claim.nonce);
    } else {
      RunSendsInSequence(log, bridgeStart, states[..n], labels[..n - 1]);
      PassInSequence(log, bridgeStart, states[n - 1], labels[n - 1], states[n]);
      var l := labels[n - 1];
      InSequenceConcat(log, AllAttempts(labels[..n - 1]), if l.Pass? then AttemptsOf(l.outcome) else [],
                       states[0].claim.nonce, states[n - 1].claim.nonce, states[n - 1].claim.nonce,
                       states[n].claim.nonce);
    }
  }

  lemma NothingSent(log: seq<Event>, nonce: nat)
    ensures InSequence(log, [], nonce, nonce)
  {}

  /** Every success the attempt reported was recorded at once. */
  predicate RecordedAtOnce(a: Attempt) {
    forall i :: 0 <= i < |a.sent| && a.sent[i].ok ==> a.sent[i].event.nonce <= a.sent[i].after
  }

  /** How many of the first `i` claims sent the chain did not take when they were sent. */
  function Untaken(a: Attempt, i: nat): nat
    requires i <= |a.sent|
  {
    if i == 0 then 0 else Untaken(a, i - 1) + if a.sent[i - 1].after == a.sent[i - 1].before then 1 else 0
  }

  /** How many claims landed between the sends, from the reload up to the i-th send. */
  function Landed(a: Attempt, i: nat): int
    requires i < |a.sent|
  {
    if i == 0 then a.sent[0].before - a.reload else Landed(a, i - 1) + a.sent[i].before - a.sent[i - 1].after
  }

  lemma {:induction false} RecordedSinceReload(log: seq<Event>, a: Attempt, i: nat)
    requires ValidLog(log) && Sends(log, a) && i < |a.sent|
    ensures a.sent[i].before == a.reload + i - Untaken(a, i) + Landed(a, i)
  {
    if i > 0 {
      RecordedSinceReload(log, a, i - 1);
      assert Accepts(a.sent[i - 1]);
    }
  }

  /**
    A claim is ahead of the chain by as many events as the attempt's earlier claims that were
    not taken outnumber those that landed from elsewhere.  So it is for the event right after
    the chain's last one exactly if the two numbers agree; and if every reported success is
    recorded at once, it is never ahead.
   */
  lemma {:induction false} SubmittedNextIff(log: seq<Event>, a: Attempt, i: nat)
    requires ValidLog(log) && Sends(log, a) && i < |a.sent|
    ensures var x := a.sent[i];
            && a.reload < x.event.nonce
            && x.event.nonce - (x.before + 1) == Untaken(a, i) - Landed(a, i)
            && (x.event.nonce == x.before + 1 <==> Untaken(a, i) == Landed(a, i))
            && (RecordedAtOnce(a) ==> x.event.nonce <= x.before + 1)
  {
    RecordedSinceReload(log, a, i);
    assert a.sent[i].event == log[a.reload + i];
    if RecordedAtOnce(a) && i > 0 {
      assert a.sent[i - 1].ok && a.sent[i - 1].event == log[a.reload + i - 1];
    }
  }

  /** Every claim of the attempt is for the event right after the chain's last one. */
  ghost predicate NextOnly(a: Attempt) {
    forall i :: 0 <= i < |a.sent| ==> a.sent[i].event.nonce == a.sent[i].before + 1
  }

  ghost predicate AllNext(attempts: seq<Attempt>) {
    forall a :: a in attempts ==> NextOnly(a)
  }

  /** From the reload to the first send nothing is recorded, and from each send to the next one claim. */
  ghost predicate OnePerSend(a: Attempt) {
    && (a.sent != [] ==> a.sent[0].before == a.reload)
    && forall i, j :: 0 <= i && j == i + 1 < |a.sent| ==> a.sent[j].before == a.sent[i].before + 1
  }

  /** Nothing but its own successes was recorded while the attempt went on. */
  ghost predicate Undisturbed(a: Attempt) {
    && RecordedAtOnce(a)
    && forall i :: 0 <= i < |a.sent| ==> a.sent[i].before == if i == 0 then a.reload else a.sent[i - 1].after
  }

  lemma {:induction false} OnePerSendCounts(a: Attempt, i: nat)
    requires OnePerSend(a) && i < |a.sent|
    ensures a.sent[i].before == a.reload + i
  {
    if i > 0 {
      OnePerSendCounts(a, i - 1);
      assert a.sent[i].before == a.sent[i - 1].before + 1;
    }
  }

  lemma {:induction false} UndisturbedCounts(log: seq<Event>, a: Attempt, i: nat)
    requires ValidLog(log) && Sends(log, a) && Undisturbed(a) && i < |a.sent|
    ensures a.sent[i].before == a.reload + i
  {
    assert a.sent[i].before == if i == 0 then a.reload else a.sent[i - 1].after;
    if i > 0 {
      UndisturbedCounts(log, a, i - 1);
      assert a.sent[i - 1].event == log[a.reload + i - 1] && Accepts(a.sent[i - 1]);
    }
  }

  lemma AttemptNextIff(log: seq<Event>, a: Attempt)
    requires ValidLog(log) && Sends(log, a)
    ensures NextOnly(a) <==> OnePerSend(a)
  {
    forall i | 0 <= i < |a.sent|
      ensures a.sent[i].event.nonce == a.reload + i + 1
    {
      assert a.sent[i].event == log[a.reload + i];
    }
    if OnePerSend(a) {
      forall i | 0 <= i < |a.sent|
        ensures a.sent[i].event.nonce == a.sent[i].before + 1
      {
        OnePerSendCounts(a, i);
      }
    }
  }

  /** If every reported success is recorded at once, that means that nothing else is recorded. */
  lemma OnePerSendIff(log: seq<Event>, a: Attempt)
    requires ValidLog(log) && Sends(log, a) && RecordedAtOnce(a)
    ensures OnePerSend(a) <==> Undisturbed(a)
  {
    if OnePerSend(a) {
      forall i | 0 < i < |a.sent|
        ensures a.sent[i].before == a.sent[i - 1].after
      {
        var x := a.sent[i - 1];
        OnePerSendCounts(a, i - 1);
        assert a.sent[i].before == x.before + 1;
        assert x.ok && x.event == log[a.reload + i - 1] && Accepts(x);
      }
    }
    if Undisturbed(a) {
      if a.sent != [] { UndisturbedCounts(log, a, 0); }
      forall i, j | 0 <= i && j == i + 1 < |a.sent|
        ensures a.sent[j].before == a.sent[i].before + 1
      {
        UndisturbedCounts(log, a, i);
        UndisturbedCounts(log, a, j);
      }
    }
  }

  /**
    Over a whole run, retries and failed but accepted sends included, each claim submitted
    carries the chain's last claimed nonce plus one if and only if the chain records exactly
    one claim from each send to the next.  If every reported success is recorded at once, that
    is if and only if nothing else is recorded during an attempt.
   */
  lemma RunSubmitsNextIff(log: seq<Event>, bridgeStart: nat, states: seq<State>, labels: seq<Label>)
    requires ValidLog(log) && IsRun(log, bridgeStart, states, labels)
    ensures var attempts := AllAttempts(labels);
            && (AllNext(attempts) <==> forall a :: a in attempts ==> OnePerSend(a))
            && ((forall a :: a in attempts ==> RecordedAtOnce(a)) ==>
                  (AllNext(attempts) <==> forall a :: a in attempts ==> Undisturbed(a)))
  {
    hide Sends, NextOnly, OnePerSend, Undisturbed, RecordedAtOnce, AllAttempts;
    var attempts := AllAttempts(labels);
    RunSendsInSequence(log, bridgeStart, states, labels);
    forall a | a in attempts
      ensures NextOnly(a) <==> OnePerSend(a)
      ensures RecordedAtOnce(a) ==> (OnePerSend(a) <==> Undisturbed(a))
    {
      var k :| 0 <= k < |attempts| && attempts[k] == a;
      assert Sends(log, a);
      AttemptNextIff(log, a);
      if RecordedAtOnce(a) { OnePerSendIff(log, a); }
    }
  }

  /**
    A broadcast returns before its claim is included, so the next claim of the batch can be
    sent ahead of the chain, although everything is recorded in the end and nothing is skipped.
   */
  lemma NextClaimSentEarly() returns (log: seq<Event>, s: State, o: Outcome, s': State)
    ensures ValidLog(log) && Step(log, s, 50, o, s') && o.Sent? && Recorded(o, s'.claim.nonce)
    ensures NothingSkipped(log, s) && NothingSkipped(log, s')
    ensures !AllNext(AttemptsOf(o))
  {
    hide Batch, Below;
    log := TwoDeposits();
    s, s' := State(Claim(0, 0), 0, 100), State(Claim(2, 10), 10, 100);
    var a := Attempt(0, [Submission(log[0], 0, 0, true), Submission(log[1], 0, 0, true)]);
    o := Sent(Claim(0, 0), 50, [a]);
    assert Sends(log, a) && o.attempts[0] == a;
    assert a.sent[1].event.nonce == 2 && a.sent[1].before == 0;
    assert !NextOnly(a) && a in AttemptsOf(o);
  }
}
