/**
  The oracle loop as a state machine, and what holds over every run of it.

  A state joins the oracle's two fields with the validator's last claim on Injective.  One
  pass of observeEthEvents is a `Pass` step labelled with how it ended; between passes the
  chain may record further claims of this validator (a claim whose broadcast reported an
  error can still be included), and the process may be restarted.
 */
module OracleProtocol {
  import opened MachineWords
  import opened EthLog

  const CONFIRMATION_DELAY: nat := 12
  const DEFAULT_BLOCKS_TO_SEARCH: nat := 100
  const MAX_EVENTS_AT_ONCE: nat := 20

  /** The validator's last claimed event, as Injective stores it. */
  datatype Claim = Claim(nonce: nat, height: nat)

  datatype State = State(claim: Claim, recorded: nat, queryRange: nat)

  /**
    A claim message sent to Injective: the chain's last claimed nonce when it was sent and
    after it, and whether the broadcast was reported as successful.
   */
  datatype Submission = Submission(event: Event, before: nat, after: nat, ok: bool)

  /** One try at sending a batch: the last claimed nonce it reloaded, and what it then sent. */
  datatype Attempt = Attempt(reload: nat, sent: seq<Submission>)

  /** How a pass ended; `seen` is the last claim it read and `end` the last block it scanned. */
  datatype Outcome =
    | Idle
    | NothingNew(seen: Claim, end: nat)
    | Missed(seen: Claim, end: nat)
    | SendFailed(seen: Claim, end: nat, attempts: seq<Attempt>)
    | Sent(seen: Claim, end: nat, attempts: seq<Attempt>)

  datatype Label = ClaimRecorded | Restart(reported: bool) | Pass(confirmed: nat, outcome: Outcome)

  /** The claimed events exist, and no later event lies below the claim's height. */
  ghost predicate ClaimSound(log: seq<Event>, c: Claim) {
    && c.nonce <= |log|
    && forall k :: c.nonce <= k < |log| ==> c.height <= log[k].height
  }

  ghost predicate Advances(log: seq<Event>, c: Claim, c': Claim) {
    c.nonce <= c'.nonce && ClaimSound(log, c')
  }

  /** Every event that is still unclaimed lies at or above the recorded height. */
  ghost predicate NothingSkipped(log: seq<Event>, s: State) {
    forall k :: s.claim.nonce <= k < |log| ==> s.recorded <= log[k].height
  }

  /** Last block of the first scan attempt; the addition wraps like Go's uint64. */
  function WindowEnd(recorded: nat, queryRange: nat, confirmed: nat): nat {
    var cap := (recorded + queryRange) % U64;
    if confirmed > cap then cap else confirmed
  }

  /** The unclaimed events of the scanned window, cut to twenty. */
  function Batch(log: seq<Event>, a: nat, b: nat, nonce: nat): seq<Event> {
    var f := Fresh(log, a, b, nonce);
    if |f| > MAX_EVENTS_AT_ONCE then f[..MAX_EVENTS_AT_ONCE] else f
  }

  /** The chain takes a claim only for the event right after the last one, and may not take it at all. */
  predicate Accepts(x: Submission) {
    x.after == x.before || x.before + 1 == x.event.nonce == x.after
  }

  /**
    An attempt sends the events after the reloaded nonce one by one, up to the first failure.
    Claims sent earlier may be recorded at any moment.
   */
  ghost predicate Sends(log: seq<Event>, a: Attempt) {
    && a.reload + |a.sent| <= |log|
    && (forall i :: 0 <= i < |a.sent| ==>
          && a.sent[i].event == log[a.reload + i]
          && a.reload <= a.sent[i].before && Accepts(a.sent[i])
          && (i < |a.sent| - 1 ==> a.sent[i].ok))
    && (forall i, j :: 0 <= i < j < |a.sent| ==> a.sent[i].after <= a.sent[j].before)
  }

  /** The last claimed nonce once the attempt is over. */
  function EndOf(a: Attempt): nat {
    if a.sent == [] then a.reload else a.sent[|a.sent| - 1].after
  }

  /** The attempts follow one another while the last claimed nonce goes from `lo` to `hi`. */
  ghost predicate InSequence(log: seq<Event>, attempts: seq<Attempt>, lo: nat, hi: nat) {
    && lo <= hi
    && (forall k :: 0 <= k < |attempts| ==>
          Sends(log, attempts[k]) && lo <= attempts[k].reload <= EndOf(attempts[k]) <= hi)
    && (forall k, l :: 0 <= k < l < |attempts| ==> EndOf(attempts[k]) <= attempts[l].reload)
  }

  /** The last attempt got through to the event numbered `last` without a reported failure. */
  predicate GotThrough(attempts: seq<Attempt>, last: nat) {
    && attempts != []
    && var a := attempts[|attempts| - 1];
    && last <= a.reload + |a.sent|
    && (a.sent != [] ==> a.sent[|a.sent| - 1].ok)
  }

  /** resetQueryRange doubles the range, up to the default. */
  function Widened(queryRange: nat): nat {
    if queryRange * 2 < DEFAULT_BLOCKS_TO_SEARCH then queryRange * 2 else DEFAULT_BLOCKS_TO_SEARCH
  }

  /**
    The scan covered the first window, or after a failed deposit query the window of one
    block; `queryRange` is then one, and a finished pass widens it again.
   */
  ghost predicate Scanned(s: State, confirmed: nat, end: nat, finished: bool, queryRange: nat) {
    && s.recorded < confirmed
    && (|| (end == WindowEnd(s.recorded, s.queryRange, confirmed)
            && queryRange == if finished then Widened(s.queryRange) else s.queryRange)
        || (end == s.recorded + 1 && queryRange == if finished then Widened(1) else 1))
  }

  /** What a pass does with the scanned window: the recorded height goes from `start` to `recorded`. */
  ghost predicate Relayed(
    log: seq<Event>, start: nat, scannedEnd: nat, lastClaim: Claim, o: Outcome, nonce: nat, recorded: nat) {
    !o.Idle? && o.seen == lastClaim && o.end == scannedEnd
    && var b := Batch(log, start, scannedEnd, lastClaim.nonce);
    match o
    case NothingNew(_, end) =>
      b == [] && recorded == end
    case Missed(seen, _) =>
      b != [] && b[0].nonce != seen.nonce + 1 && recorded == seen.height
    case SendFailed(seen, _, attempts) =>
      && b != [] && b[0].nonce == seen.nonce + 1
      && InSequence(log, attempts, seen.nonce, nonce)
      && recorded == start
    case Sent(seen, _, attempts) =>
      && b != [] && b[0].nonce == seen.nonce + 1
      && InSequence(log, attempts, seen.nonce, nonce) && GotThrough(attempts, b[|b| - 1].nonce)
      && recorded == b[|b| - 1].height
  }

  /** One pass of observeEthEvents over blocks up to `confirmed`. */
  ghost predicate Step(log: seq<Event>, s: State, confirmed: nat, o: Outcome, s': State) {
    && Advances(log, s.claim, s'.claim)
    && if o.Idle? then s'.recorded == s.recorded && s'.queryRange in {s.queryRange, 1}
       else
         && Scanned(s, confirmed, o.end, o.NothingNew? || o.Sent?, s'.queryRange)
         && Advances(log, s.claim, o.seen) && Advances(log, o.seen, s'.claim)
         && Relayed(log, s.recorded, o.end, o.seen, o, s'.claim.nonce, s'.recorded)
  }

  /** Start-up height: the reported last claim's block, or the bridge's first block without one. */
  function StartHeight(claim: Claim, reported: bool, bridgeStart: nat): nat {
    if reported && claim.height != 0 then claim.height else bridgeStart
  }

  /** The bridge contract was deployed at `bridgeStart`, so no event is older. */
  ghost predicate BridgeStart(log: seq<Event>, bridgeStart: nat) {
    forall k :: 0 <= k < |log| ==> bridgeStart <= log[k].height
  }

  ghost predicate Next(log: seq<Event>, bridgeStart: nat, s: State, l: Label, s': State) {
    match l
    case ClaimRecorded =>
      && Advances(log, s.claim, s'.claim)
      && s'.recorded == s.recorded && s'.queryRange == s.queryRange
    case Restart(reported) =>
      s' == State(s.claim, StartHeight(s.claim, reported, bridgeStart), DEFAULT_BLOCKS_TO_SEARCH)
    case Pass(confirmed, o) =>
      Step(log, s, confirmed, o, s')
  }

  ghost predicate IsRun(log: seq<Event>, bridgeStart: nat, states: seq<State>, labels: seq<Label>) {
    && |states| == |labels| + 1
    && ClaimSound(log, states[0].claim)
    && forall i :: 0 <= i < |labels| ==> Next(log, bridgeStart, states[i], labels[i], states[i + 1])
  }

  // ---------- the batch of a pass ----------

  lemma BelowMonotone(log: seq<Event>, h: nat, h': nat)
    requires ValidLog(log) && h <= h'
    ensures Below(log, h) <= Below(log, h')
  {
    hide Below;
    BelowSplits(log, h);
    BelowSplits(log, h');
    if Below(log, h) > 0 { assert log[Below(log, h) - 1].height < h; }
  }

  /** The batch starts after the claimed events and after those below the window. */
  lemma BatchPlace(log: seq<Event>, a: nat, b: nat, nonce: nat)
    requires ValidLog(log)
    ensures var f, lo := Batch(log, a, b, nonce), Max(Below(log, a), nonce);
            && (f == [] <==> Below(log, b + 1) <= lo)
            && (f != [] ==>
                  && lo + |f| <= Below(log, b + 1) && f == log[lo..lo + |f|]
                  && f[0].nonce == lo + 1 && f[|f| - 1].nonce == lo + |f| && |f| <= MAX_EVENTS_AT_ONCE)
  {
    hide Below;
  }

  lemma BatchIsSlice(log: seq<Event>, a: nat, b: nat, nonce: nat)
    requires ValidLog(log)
    requires Batch(log, a, b, nonce) != []
    ensures var f := Batch(log, a, b, nonce);
            var lo := f[0].nonce - 1;
            && lo >= nonce && lo + |f| <= |log| && f == log[lo..lo + |f|]
            && |f| <= MAX_EVENTS_AT_ONCE
            && (forall e :: e in f ==> a <= e.height <= b)
  {
    hide Batch, Below;
    BelowSplits(log, a);
    BelowSplits(log, b + 1);
    BatchPlace(log, a, b, nonce);
  }

  /** The last event of the batch, and how many events lie in blocks below its own. */
  lemma BatchLast(log: seq<Event>, a: nat, b: nat, nonce: nat)
    requires ValidLog(log) && Batch(log, a, b, nonce) != []
    ensures var f := Batch(log, a, b, nonce);
            var last := f[|f| - 1];
            && nonce < last.nonce <= |log| && last == log[last.nonce - 1] && a <= last.height <= b
            && Below(log, last.height) < last.nonce
  {
    hide Batch, Below;
    BatchIsSlice(log, a, b, nonce);
    var f := Batch(log, a, b, nonce);
    var last := f[|f| - 1];
    assert last in f;
    BelowSplits(log, last.height);
  }

  // ---------- what one pass keeps ----------

  /** Nothing is skipped exactly when the events below the recorded height are claimed. */
  lemma NothingSkippedIff(log: seq<Event>, s: State)
    requires ValidLog(log)
    ensures NothingSkipped(log, s) <==> Below(log, s.recorded) <= s.claim.nonce
  {
    hide Below;
    BelowSplits(log, s.recorded);
    if s.claim.nonce < Below(log, s.recorded) {
      assert log[s.claim.nonce].height < s.recorded;
    }
  }

  /** Start-up puts the recorded height at or below every unclaimed event. */
  lemma StartEstablishes(log: seq<Event>, bridgeStart: nat, s: State, reported: bool)
    requires ClaimSound(log, s.claim) && BridgeStart(log, bridgeStart)
    ensures NothingSkipped(log, State(s.claim, StartHeight(s.claim, reported, bridgeStart), DEFAULT_BLOCKS_TO_SEARCH))
  {
  }

  /** From any state, a pass that finds events finds them missed exactly if it starts too high. */
  lemma MissedIff(log: seq<Event>, s: State, confirmed: nat, o: Outcome, s': State)
    requires ValidLog(log) && Step(log, s, confirmed, o, s') && !o.Idle?
    ensures o.Missed? <==> o.seen.nonce < Below(log, s.recorded) < Below(log, o.end + 1)
  {
    hide Batch, Below;
    BatchPlace(log, s.recorded, o.end, o.seen.nonce);
  }

  /** Every success a pass reported was recorded on Injective by the end of it. */
  predicate Recorded(o: Outcome, nonce: nat) {
    o.Sent? ==>
      forall k :: 0 <= k < |o.attempts| ==>
        forall i :: 0 <= i < |o.attempts[k].sent| && o.attempts[k].sent[i].ok ==>
          o.attempts[k].sent[i].event.nonce <= nonce
  }

  lemma RecordedBatch(log: seq<Event>, attempts: seq<Attempt>, lo: nat, hi: nat, last: nat)
    requires ValidLog(log) && InSequence(log, attempts, lo, hi) && GotThrough(attempts, last)
    requires forall k :: 0 <= k < |attempts| ==>
               forall i :: 0 <= i < |attempts[k].sent| && attempts[k].sent[i].ok ==>
                 attempts[k].sent[i].event.nonce <= hi
    ensures last <= hi
  {
    var a := attempts[|attempts| - 1];
    assert Sends(log, a);
    if a.sent != [] {
      var n := |a.sent| - 1;
      assert a.sent[n].event == log[a.reload + n];
    }
  }

  /** A pass that starts low enough for the last claim it reads leaves nothing behind unclaimed. */
  lemma SeenKeeps(log: seq<Event>, s: State, confirmed: nat, o: Outcome, s': State)
    requires ValidLog(log) && Step(log, s, confirmed, o, s') && !o.Idle?
    requires Below(log, s.recorded) <= o.seen.nonce && Recorded(o, s'.claim.nonce)
    ensures NothingSkipped(log, s')
  {
    hide Batch, Below, InSequence, GotThrough;
    MissedIff(log, s, confirmed, o, s');
    NothingSkippedIff(log, s');
    BatchPlace(log, s.recorded, o.end, o.seen.nonce);
    if o.NothingNew? {
      BelowMonotone(log, o.end, o.end + 1);
    } else if o.Sent? {
      var b := Batch(log, s.recorded, o.end, o.seen.nonce);
      RecordedBatch(log, o.attempts, o.seen.nonce, s'.claim.nonce, b[|b| - 1].nonce);
      BatchLast(log, s.recorded, o.end, o.seen.nonce);
    }
  }

  /** A pass keeps all unclaimed events ahead, if the successes it reports are recorded. */
  lemma PassKeeps(log: seq<Event>, s: State, confirmed: nat, o: Outcome, s': State)
    requires ValidLog(log) && NothingSkipped(log, s) && Step(log, s, confirmed, o, s')
    ensures Recorded(o, s'.claim.nonce) ==> NothingSkipped(log, s')
    ensures !o.Missed?
  {
    NothingSkippedIff(log, s);
    if !o.Idle? {
      MissedIff(log, s, confirmed, o, s');
      if Recorded(o, s'.claim.nonce) { SeenKeeps(log, s, confirmed, o, s'); }
    }
  }

  /** An event below `h` that is not claimed, if there is one, is in the slice that ends at or above `h`. */
  lemma UnclaimedInBatch(log: seq<Event>, b: seq<Event>, lo: nat, h: nat, nonce: nat)
    requires ValidLog(log) && lo + |b| <= |log| && b == log[lo..lo + |b|]
    requires lo <= nonce && Below(log, h) < lo + |b|
    ensures Below(log, h) <= nonce <==> (forall e :: e in b && e.height < h ==> e.nonce <= nonce)
  {
    hide Below;
    BelowSplits(log, h);
    if nonce < Below(log, h) {
      assert b[nonce - lo] == log[nonce];
    } else {
      forall e | e in b && e.height < h
        ensures e.nonce <= nonce
      {
        var k :| 0 <= k < |b| && b[k] == e;
        assert log[lo + k] == e;
      }
    }
  }

  /**
    Without that: every pass but a successful send keeps all unclaimed events ahead, and that
    one does exactly if the batch's events in blocks below its last event's are claimed.
   */
  lemma PassKeepsIff(log: seq<Event>, s: State, confirmed: nat, o: Outcome, s': State)
    requires ValidLog(log) && NothingSkipped(log, s) && Step(log, s, confirmed, o, s')
    ensures !o.Sent? ==> NothingSkipped(log, s')
    ensures o.Sent? ==>
      (NothingSkipped(log, s') <==>
       forall e :: e in Batch(log, s.recorded, o.end, o.seen.nonce) && e.height < s'.recorded ==>
         e.nonce <= s'.claim.nonce)
  {
    hide Batch, Below, InSequence, GotThrough;
    NothingSkippedIff(log, s');
    if o.Sent? {
      var b := Batch(log, s.recorded, o.end, o.seen.nonce);
      BatchPlace(log, s.recorded, o.end, o.seen.nonce);
      BatchLast(log, s.recorded, o.end, o.seen.nonce);
      BelowSplits(log, s'.recorded);
      UnclaimedInBatch(log, b, o.seen.nonce, s'.recorded, s'.claim.nonce);
    } else {
      PassKeeps(log, s, confirmed, o, s');
    }
  }

  /** The missed-event branch repairs the recorded height whatever it was before. */
  lemma MissedRestores(log: seq<Event>, s: State, confirmed: nat, o: Outcome, s': State)
    requires ValidLog(log) && Step(log, s, confirmed, o, s') && o.Missed?
    ensures !NothingSkipped(log, s)
    ensures NothingSkipped(log, s')
  {
    if NothingSkipped(log, s) {
      PassKeeps(log, s, confirmed, o, s');
    }
  }

  lemma TwoDeposits() returns (log: seq<Event>)
    ensures log == [Event(Deposit, 1, 5), Event(Deposit, 2, 10)] && ValidLog(log)
    ensures Below(log, 0) == 0 && Below(log, 10) == 1
    ensures Batch(log, 0, 50, 0) == log && Batch(log, 10, 50, 0) == [log[1]]
  {
    log := [Event(Deposit, 1, 5), Event(Deposit, 2, 10)];
    BelowSplits(log, 0);
    BelowSplits(log, 10);
    BelowSplits(log, 51);
    assert log[0].height == 5 && log[1].height == 10;
    assert Below(log, 0) == 0 && Below(log, 10) == 1 && Below(log, 51) == 2;
    assert log[0..2] == log;
  }

  /**
    A broadcast can succeed and the claim still never be included.  The next pass then starts
    above an unclaimed event, notices it, and goes back.
   */
  lemma LostClaimIsMissed() returns (
      log: seq<Event>, s: State, lost: Outcome, s': State, found: Outcome, s'': State)
    ensures ValidLog(log) && NothingSkipped(log, s)
    ensures Step(log, s, 50, lost, s') && lost.Sent? && !Recorded(lost, s'.claim.nonce)
    ensures !NothingSkipped(log, s')
    ensures Step(log, s', 50, found, s'') && found.Missed? && NothingSkipped(log, s'')
  {
    hide Batch, Below;
    log := TwoDeposits();
    s, s', s'' := State(Claim(0, 0), 0, 100), State(Claim(0, 0), 10, 100), State(Claim(0, 0), 0, 100);
    var attempt := Attempt(0, [Submission(log[0], 0, 0, true), Submission(log[1], 0, 0, true)]);
    lost, found := Sent(Claim(0, 0), 50, [attempt]), Missed(Claim(0, 0), 50);
    assert Sends(log, attempt) && lost.attempts[0] == attempt;
    assert attempt.sent[0].ok && attempt.sent[0].event.nonce == 1;
    assert log[0].height == 5;
  }
}
