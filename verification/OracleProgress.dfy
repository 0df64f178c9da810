/**
  Progress of the oracle at a confirmed height: how many passes it takes until the events are
  claimed, which events may be left, and when a skipped event is found again.
 */
module OracleProgress {
  import opened MachineWords
  import opened EthLog
  import opened OracleProtocol

  /** Events in blocks up to `c` that are still unclaimed. */
  function Unclaimed(log: seq<Event>, s: State, c: nat): nat {
    var n := Below(log, c + 1);
    if s.claim.nonce < n then n - s.claim.nonce else 0
  }

  function Measure(log: seq<Event>, s: State, c: nat): nat {
    Unclaimed(log, s, c) + if s.recorded < c then c - s.recorded else 0
  }

  /** No call failed: the pass only idles when there is nothing confirmed to scan. */
  predicate Working(s: State, confirmed: nat, o: Outcome) {
    !o.SendFailed? && (o.Idle? ==> confirmed <= s.recorded)
  }

  predicate RangeOk(s: State) {
    1 <= s.queryRange <= DEFAULT_BLOCKS_TO_SEARCH
  }

  /**
    The scan window never passes the confirmed height, and it moves past the recorded block
    exactly when the addition does not wrap around; then it takes `queryRange` blocks, or all there are.
   */
  lemma WindowEndBounds(recorded: nat, queryRange: nat, confirmed: nat)
    requires recorded < confirmed < U64 && 1 <= queryRange <= DEFAULT_BLOCKS_TO_SEARCH
    ensures WindowEnd(recorded, queryRange, confirmed) <= confirmed
    ensures recorded < WindowEnd(recorded, queryRange, confirmed) <==> recorded + queryRange < U64
    ensures recorded + queryRange < U64 ==>
              WindowEnd(recorded, queryRange, confirmed) - recorded
              == if queryRange < confirmed - recorded then queryRange else confirmed - recorded
  {
    if recorded + queryRange >= U64 {
      assert (recorded + queryRange) % U64 == recorded + queryRange - U64;
    }
  }

  /** Whatever happened before, a pass leaves the range between one block and the default. */
  lemma PassKeepsRange(log: seq<Event>, s: State, confirmed: nat, o: Outcome, s': State)
    requires Step(log, s, confirmed, o, s') && RangeOk(s)
    ensures RangeOk(s')
    ensures !o.Idle? && confirmed < U64 ==> o.end <= confirmed
    ensures !o.Idle? && confirmed < U64 && s.recorded + s.queryRange < U64 ==> s.recorded < o.end
  {
    hide Relayed;
    if !o.Idle? && confirmed < U64 {
      WindowEndBounds(s.recorded, s.queryRange, confirmed);
    }
  }

  lemma SendProgresses(log: seq<Event>, s: State, c: nat, o: Outcome, s': State)
    requires ValidLog(log) && Step(log, s, c, o, s') && o.Sent? && Recorded(o, s'.claim.nonce)
    requires s.recorded < o.end <= c
    ensures Measure(log, s', c) < Measure(log, s, c)
    ensures s.recorded <= s'.recorded <= c
  {
    hide Batch, Below, InSequence, GotThrough;
    var b := Batch(log, s.recorded, o.end, o.seen.nonce);
    RecordedBatch(log, o.attempts, o.seen.nonce, s'.claim.nonce, b[|b| - 1].nonce);
    BatchLast(log, s.recorded, o.end, o.seen.nonce);
    BelowSplits(log, c + 1);
  }

  /** While blocks up to `c` remain to be scanned, each working pass brings the measure down. */
  lemma PassProgresses(log: seq<Event>, s: State, c: nat, o: Outcome, s': State)
    requires ValidLog(log) && NothingSkipped(log, s) && Step(log, s, c, o, s')
    requires Working(s, c, o) && Recorded(o, s'.claim.nonce)
    requires s.recorded < c < U64 && RangeOk(s) && s.recorded + s.queryRange < U64
    ensures Measure(log, s', c) < Measure(log, s, c)
    ensures s.recorded <= s'.recorded <= c
  {
    PassKeeps(log, s, c, o, s');
    PassKeepsRange(log, s, c, o, s');
    if o.Sent? { SendProgresses(log, s, c, o, s'); }
  }

  // ---------- steady runs ----------

  /**
    A run of working passes at one confirmed height, whose reported successes are recorded;
    other claims may be recorded during each pass too.
   */
  ghost predicate SteadyRun(log: seq<Event>, states: seq<State>, outcomes: seq<Outcome>, c: nat) {
    && |states| == |outcomes| + 1 && RangeOk(states[0]) && c + DEFAULT_BLOCKS_TO_SEARCH < U64
    && forall i :: 0 <= i < |outcomes| ==> SteadyPass(log, states[i], c, outcomes[i], states[i + 1])
  }

  ghost predicate SteadyPass(log: seq<Event>, s: State, c: nat, o: Outcome, s': State) {
    Working(s, c, o) && Step(log, s, c, o, s') && Recorded(o, s'.claim.nonce)
  }

  lemma {:induction false} SteadyRange(log: seq<Event>, states: seq<State>, outcomes: seq<Outcome>, c: nat, n: nat)
    requires SteadyRun(log, states, outcomes, c) && n <= |outcomes|
    ensures RangeOk(states[n])
  {
    hide Step, RangeOk;
    if n > 0 {
      SteadyRange(log, states, outcomes, c, n - 1);
      assert SteadyPass(log, states[n - 1], c, outcomes[n - 1], states[n]);
      PassKeepsRange(log, states[n - 1], c, outcomes[n - 1], states[n]);
    }
  }

  lemma {:induction false} SteadyRunDescends(
    log: seq<Event>, states: seq<State>, outcomes: seq<Outcome>, c: nat, n: nat)
    requires ValidLog(log) && SteadyRun(log, states, outcomes, c) && NothingSkipped(log, states[0])
    requires n <= |outcomes|
    ensures NothingSkipped(log, states[n])
    ensures states[n].recorded >= c || Measure(log, states[n], c) + n <= Measure(log, states[0], c)
  {
    hide Step, Measure, ValidLog, NothingSkipped, Recorded;
    if n > 0 {
      var p := n - 1;
      SteadyRunDescends(log, states, outcomes, c, p);
      SteadyRange(log, states, outcomes, c, p);
      assert SteadyPass(log, states[p], c, outcomes[p], states[n]);
      PassKeeps(log, states[p], c, outcomes[p], states[n]);
      if states[p].recorded < c {
        PassProgresses(log, states[p], c, outcomes[p], states[n]);
      } else {
        IdleAtConfirmed(log, states[p], c, outcomes[p], states[n]);
      }
    }
  }

  lemma IdleAtConfirmed(log: seq<Event>, s: State, c: nat, o: Outcome, s': State)
    requires Step(log, s, c, o, s') && c <= s.recorded
    ensures o.Idle? && s'.recorded == s.recorded
  {
    hide Relayed;
  }

  /**
    With working networks and confirmed height `c`, after as many passes as the measure of
    the first state every event in a block below `c` has been claimed.
   */
  lemma SteadyRunClaims(log: seq<Event>, states: seq<State>, outcomes: seq<Outcome>, c: nat, e: Event)
    requires ValidLog(log) && SteadyRun(log, states, outcomes, c) && NothingSkipped(log, states[0])
    requires |outcomes| >= Measure(log, states[0], c)
    requires e in log && e.height < c
    ensures e.nonce <= states[|outcomes|].claim.nonce
  {
    var n := |outcomes|;
    SteadyRunDescends(log, states, outcomes, c, n);
    var k :| 0 <= k < |log| && log[k] == e;
  }

  // ---------- events in the confirmed block itself ----------

  /**
    A pass that sends up to the confirmed block leaves nothing unclaimed exactly if the batch
    was not cut to twenty.
   */
  lemma CutLeavesUnclaimedIff(log: seq<Event>, s: State, c: nat, o: Outcome, s': State)
    requires ValidLog(log) && Step(log, s, c, o, s') && o.Sent? && o.end == c
    requires var b := Batch(log, s.recorded, c, o.seen.nonce);
             b != [] && s'.claim.nonce == b[|b| - 1].nonce
    ensures Unclaimed(log, s', c) == 0 <==> |Fresh(log, s.recorded, c, o.seen.nonce)| <= MAX_EVENTS_AT_ONCE
  {
    hide Below, InSequence, GotThrough, Scanned, Advances;
    BatchPlace(log, s.recorded, c, o.seen.nonce);
  }

  lemma ManyDeposits() returns (log: seq<Event>)
    ensures |log| == 21 && ValidLog(log) && forall i :: 0 <= i < 21 ==> log[i] == Event(Deposit, i + 1, 50)
    ensures Below(log, 0) == 0 && Below(log, 51) == 21
    ensures Batch(log, 0, 50, 0) == log[..20]
  {
    log := seq(21, i requires 0 <= i < 21 => Event(Deposit, i + 1, 50));
    BelowSplits(log, 0);
    BelowSplits(log, 51);
    assert log[0].height == 50 && log[20].height == 50;
    assert Below(log, 0) == 0 && Below(log, 51) == 21;
    assert log[0..21] == log;
  }

  /** With 21 events in the confirmed block one of them waits, and every further pass idles. */
  lemma BlockAtConfirmedHeightMayWait() returns (log: seq<Event>, s: State, o: Outcome, s': State)
    ensures ValidLog(log) && NothingSkipped(log, s) && SteadyPass(log, s, 50, o, s') && o.Sent?
    ensures s'.recorded == 50 && s'.claim.nonce == 20 && Unclaimed(log, s', 50) == 1
    ensures forall o', s'' :: SteadyPass(log, s', 50, o', s'') ==> o'.Idle?
  {
    hide Below, Batch;
    log := ManyDeposits();
    s, s' := State(Claim(0, 0), 0, 100), State(Claim(20, 50), 50, 100);
    var sent := seq(20, i requires 0 <= i < 20 => Submission(log[i], i, i + 1, true));
    o := Sent(Claim(0, 0), 50, [Attempt(0, sent)]);
    assert o.attempts[0].sent == sent;
    assert Sends(log, Attempt(0, sent));
    assert sent[19].after == 20;
    assert log[..20][19] == log[19] && log[..20][0] == log[0];
  }

  /** The pass that brings the recorded height to `c` scanned all blocks up to `c`. */
  lemma LastPass(log: seq<Event>, s: State, c: nat, o: Outcome, s': State)
    requires ValidLog(log) && NothingSkipped(log, s) && SteadyPass(log, s, c, o, s')
    requires s.recorded < c <= s'.recorded && c < U64 && RangeOk(s)
    ensures (o.NothingNew? || o.Sent?) && o.end == c
    ensures o.NothingNew? ==>
              Fresh(log, s.recorded, c, o.seen.nonce) == [] && Below(log, c + 1) <= s'.claim.nonce
  {
    hide Below, InSequence, GotThrough;
    PassKeeps(log, s, c, o, s');
    PassKeepsRange(log, s, c, o, s');
    NothingSkippedIff(log, s);
    if o.Sent? {
      BatchLast(log, s.recorded, o.end, o.seen.nonce);
    } else {
      BatchPlace(log, s.recorded, o.end, o.seen.nonce);
    }
  }

  /** Nothing but the pass's own batch was recorded in pass `j`, and nothing after it. */
  ghost predicate QuietFrom(log: seq<Event>, states: seq<State>, outcomes: seq<Outcome>, c: nat, j: nat)
    requires |states| == |outcomes| + 1 && j < |outcomes|
  {
    && (outcomes[j].Sent? ==>
          var b := Batch(log, states[j].recorded, c, outcomes[j].seen.nonce);
          b != [] && states[j + 1].claim.nonce == b[|b| - 1].nonce)
    && forall n :: j < n < |states| ==> states[n].claim.nonce == states[j + 1].claim.nonce
  }

  /**
    From the pass that reaches the confirmed height on, every event up to and including the
    confirmed block is claimed exactly if that pass did not cut its batch.
   */
  lemma SteadyRunClaimsAllIff(
    log: seq<Event>, states: seq<State>, outcomes: seq<Outcome>, c: nat, j: nat, n: nat)
    requires ValidLog(log) && SteadyRun(log, states, outcomes, c) && NothingSkipped(log, states[0])
    requires j < n <= |outcomes| && states[j].recorded < c <= states[j + 1].recorded
    requires QuietFrom(log, states, outcomes, c, j)
    ensures Unclaimed(log, states[n], c) == 0 <==>
            |Fresh(log, states[j].recorded, c, outcomes[j].seen.nonce)| <= MAX_EVENTS_AT_ONCE
  {
    hide Below, Fresh, Batch, Step, NothingSkipped;
    SteadyRunDescends(log, states, outcomes, c, j);
    SteadyRange(log, states, outcomes, c, j);
    assert SteadyPass(log, states[j], c, outcomes[j], states[j + 1]);
    LastPass(log, states[j], c, outcomes[j], states[j + 1]);
    if outcomes[j].Sent? {
      CutLeavesUnclaimedIff(log, states[j], c, outcomes[j], states[j + 1]);
    }
  }

  /** Within as many passes as the measure says there is such a pass. */
  lemma SteadyRunReaches(log: seq<Event>, states: seq<State>, outcomes: seq<Outcome>, c: nat) returns (j: nat)
    requires ValidLog(log) && SteadyRun(log, states, outcomes, c) && NothingSkipped(log, states[0])
    requires states[0].recorded < c && |outcomes| >= Measure(log, states[0], c)
    ensures j < |outcomes| && states[j].recorded < c <= states[j + 1].recorded
  {
    SteadyRunDescends(log, states, outcomes, c, |outcomes|);
    j := 0;
    while states[j + 1].recorded < c
      invariant j < |outcomes| && states[j].recorded < c
      decreases |outcomes| - j
    {
      j := j + 1;
    }
  }

  // ---------- recovery ----------

  /**
    From a state that has skipped events, a working pass either finds them, or sees that they
    were recorded meanwhile, or moves on over blocks without events.
   */
  lemma SkippingPass(log: seq<Event>, s: State, c: nat, o: Outcome, s': State)
    requires ValidLog(log) && SteadyPass(log, s, c, o, s')
    requires s.recorded < c < U64 && RangeOk(s) && s.recorded + s.queryRange < U64
    ensures NothingSkipped(log, s')
            || (&& o.NothingNew? && s.recorded < s'.recorded <= c
                && Below(log, s'.recorded) == Below(log, s.recorded) == Below(log, s'.recorded + 1))
  {
    hide Batch, Below, InSequence, GotThrough;
    PassKeepsRange(log, s, c, o, s');
    if Below(log, s.recorded) <= o.seen.nonce {
      SeenKeeps(log, s, c, o, s');
    } else if o.Missed? {
      MissedRestores(log, s, c, o, s');
    } else {
      MissedIff(log, s, c, o, s');
      BatchPlace(log, s.recorded, o.end, o.seen.nonce);
      BelowMonotone(log, s.recorded, o.end);
      BelowMonotone(log, o.end, o.end + 1);
    }
  }

  /** While nothing has been found, the scan moves on over blocks without events. */
  lemma {:induction false} SkippingRun(
    log: seq<Event>, states: seq<State>, outcomes: seq<Outcome>, c: nat, n: nat)
    requires ValidLog(log) && SteadyRun(log, states, outcomes, c) && states[0].recorded < c
    requires Below(log, states[0].recorded) < Below(log, c + 1) && n <= |outcomes|
    requires forall i :: 0 <= i <= n ==> !NothingSkipped(log, states[i])
    ensures states[0].recorded + n <= states[n].recorded < c
    ensures Below(log, states[n].recorded) == Below(log, states[0].recorded)
  {
    hide Below, Step, NothingSkipped, ValidLog;
    if n > 0 {
      var p := n - 1;
      SkippingRun(log, states, outcomes, c, p);
      SteadyRange(log, states, outcomes, c, p);
      assert SteadyPass(log, states[p], c, outcomes[p], states[n]);
      SkippingPass(log, states[p], c, outcomes[p], states[n]);
    }
  }

  /** If some event that is not below the recorded height is confirmed, what was skipped is found. */
  lemma RecoversWithin(log: seq<Event>, states: seq<State>, outcomes: seq<Outcome>, c: nat) returns (n: nat)
    requires ValidLog(log) && SteadyRun(log, states, outcomes, c) && states[0].recorded < c
    requires Below(log, states[0].recorded) < Below(log, c + 1)
    requires |outcomes| >= c - states[0].recorded
    ensures n <= c - states[0].recorded && NothingSkipped(log, states[n])
  {
    hide Below, NothingSkipped;
    var d := c - states[0].recorded;
    if forall i :: 0 <= i <= d ==> !NothingSkipped(log, states[i]) {
      SkippingRun(log, states, outcomes, c, d);
      assert false;
    }
    n :| 0 <= n <= d && NothingSkipped(log, states[n]);
  }

  /** If there is none, the oracle only moves on, and never finds a skipped event by itself. */
  lemma {:induction false} NothingToFind(
    log: seq<Event>, states: seq<State>, outcomes: seq<Outcome>, c: nat, n: nat)
    requires ValidLog(log) && SteadyRun(log, states, outcomes, c) && n <= |outcomes|
    requires Below(log, c + 1) <= Below(log, states[0].recorded)
    ensures Below(log, states[n].recorded) == Below(log, states[0].recorded)
    ensures states[0].recorded <= states[n].recorded
    ensures n < |outcomes| ==> outcomes[n].Idle? || outcomes[n].NothingNew?
  {
    hide Below, Step, Working, Recorded;
    if n > 0 {
      var p := n - 1;
      NothingToFind(log, states, outcomes, c, p);
      assert SteadyPass(log, states[p], c, outcomes[p], states[n]);
      SteadyRange(log, states, outcomes, c, p);
      EmptyPass(log, states[p], c, outcomes[p], states[n]);
    }
    if n < |outcomes| {
      assert SteadyPass(log, states[n], c, outcomes[n], states[n + 1]);
      SteadyRange(log, states, outcomes, c, n);
      EmptyPass(log, states[n], c, outcomes[n], states[n + 1]);
    }
  }

  lemma EmptyPass(log: seq<Event>, s: State, c: nat, o: Outcome, s': State)
    requires ValidLog(log) && Step(log, s, c, o, s') && RangeOk(s) && c + DEFAULT_BLOCKS_TO_SEARCH < U64
    requires Below(log, c + 1) <= Below(log, s.recorded)
    ensures o.Idle? || o.NothingNew?
    ensures s.recorded <= s'.recorded && Below(log, s'.recorded) == Below(log, s.recorded)
  {
    hide Batch, Below, InSequence, GotThrough;
    if !o.Idle? {
      PassKeepsRange(log, s, c, o, s');
      BatchPlace(log, s.recorded, o.end, o.seen.nonce);
      BelowMonotone(log, o.end + 1, c + 1);
      BelowMonotone(log, s.recorded, o.end);
      BelowMonotone(log, o.end, o.end + 1);
    }
  }

  /**
    From any state, a steady run of at least c - recorded passes finds what was skipped if and
    only if some event not below the recorded height lies in a confirmed block, or the skipped
    claims were recorded late.
   */
  lemma RecoversIff(log: seq<Event>, states: seq<State>, outcomes: seq<Outcome>, c: nat)
    requires ValidLog(log) && SteadyRun(log, states, outcomes, c) && states[0].recorded < c
    requires |outcomes| >= c - states[0].recorded
    ensures (exists n :: 0 <= n < |states| && NothingSkipped(log, states[n]))
            <==> || Below(log, states[0].recorded) < Below(log, c + 1)
                 || (exists n :: 0 <= n < |states| && Below(log, states[0].recorded) <= states[n].claim.nonce)
  {
    hide Below, NothingSkipped, SteadyPass;
    if Below(log, states[0].recorded) < Below(log, c + 1) {
      var n := RecoversWithin(log, states, outcomes, c);
    } else {
      forall n | 0 <= n < |states|
        ensures NothingSkipped(log, states[n]) <==> Below(log, states[0].recorded) <= states[n].claim.nonce
      {
        NothingToFind(log, states, outcomes, c, n);
        NothingSkippedIff(log, states[n]);
      }
    }
  }

  /** And once found, the events are claimed: from any state, in a bounded number of passes. */
  lemma SteadyRunClaimsFromAnywhere(
    log: seq<Event>, states: seq<State>, outcomes: seq<Outcome>, c: nat, e: Event)
    requires ValidLog(log) && SteadyRun(log, states, outcomes, c) && states[0].recorded < c
    requires Below(log, states[0].recorded) < Below(log, c + 1)
    requires |outcomes| >= c - states[0].recorded + |log| + c
    requires e in log && e.height < c
    ensures e.nonce <= states[|outcomes|].claim.nonce
  {
    hide Below, NothingSkipped, ValidLog, RangeOk;
    var n := RecoversWithin(log, states, outcomes, c);
    SteadyRange(log, states, outcomes, c, n);
    var states', outcomes' := states[n..], outcomes[n..];
    assert SteadyRun(log, states', outcomes', c) by {
      forall i | 0 <= i < |outcomes'|
        ensures SteadyPass(log, states'[i], c, outcomes'[i], states'[i + 1])
      {
        assert SteadyPass(log, states[n + i], c, outcomes[n + i], states[n + i + 1]);
      }
    }
    SteadyRunClaims(log, states', outcomes', c, e);
  }
}
