/**
  findLatestValsetOnEth: a search for the latest ValsetUpdated event that walks back through
  the chain in windows of 2000 blocks.
 */
module ValsetSearch {
  import opened Sorting
  import opened Valsets

  const BLOCKS_TO_SEARCH: nat := 2000

  /** A ValsetUpdated event; Peggy.sol emits one validator per power. */
  datatype UpdateEvent = UpdateEvent(nonce: nat, height: nat, validators: seq<string>, powers: seq<nat>) {
    predicate Valid() { |powers| <= |validators| }
  }

  /** Events in blocks a..b, in log order. */
  function InBlocks(log: seq<UpdateEvent>, a: nat, b: nat): seq<UpdateEvent> {
    if log == [] then []
    else
      var e := log[|log| - 1];
      InBlocks(log[..|log| - 1], a, b) + (if a <= e.height <= b then [e] else [])
  }

  lemma {:induction false} InBlocksMember(log: seq<UpdateEvent>, a: nat, b: nat, e: UpdateEvent)
    ensures e in InBlocks(log, a, b) <==> e in log && a <= e.height <= b
  {
    if log != [] {
      InBlocksMember(log[..|log| - 1], a, b, e);
      assert log == log[..|log| - 1] + [log[|log| - 1]];
    }
  }

  /** Later blocks never carry smaller nonces. */
  ghost predicate NoncesGrow(log: seq<UpdateEvent>) {
    forall x, y :: x in log && y in log && x.height < y.height ==> x.nonce <= y.nonce
  }

  predicate NewerFirst(x: UpdateEvent, y: UpdateEvent) { x.nonce > y.nonce }

  datatype Search = Found(event: UpdateEvent) | NotFound | QueryFailed

  /** Blocks above `from`, up to the head, hold no event. */
  ghost predicate NoneAbove(log: seq<UpdateEvent>, from: nat, head: nat) {
    forall e :: e in log ==> !(from < e.height <= head)
  }

  /** The answer a scan of all blocks from 0 to `head` would justify. */
  ghost predicate AgreesWithFullScan(log: seq<UpdateEvent>, head: nat, r: Search) {
    match r
    case Found(e) =>
      && e in InBlocks(log, 0, head)
      && (NoncesGrow(log) ==> forall x :: x in InBlocks(log, 0, head) ==> x.nonce <= e.nonce)
    case NotFound => InBlocks(log, 0, head) == []
    case QueryFailed => true
  }

  /** Start of the first window, going back from `current`, that holds an event; 0 if there is none. */
  function WindowStart(log: seq<UpdateEvent>, current: nat): (start: nat)
    ensures start <= current
  {
    if current == 0 then 0
    else
      var start := if current <= BLOCKS_TO_SEARCH then 0 else current - BLOCKS_TO_SEARCH;
      if InBlocks(log, start, current) != [] then start else WindowStart(log, start)
  }

  /** `e` has the greatest nonce of all events in blocks a..b. */
  ghost predicate GreatestIn(log: seq<UpdateEvent>, a: nat, b: nat, e: UpdateEvent) {
    e in InBlocks(log, a, b) && forall x :: x in InBlocks(log, a, b) ==> x.nonce <= e.nonce
  }

  /** No event below the window where the search stops has a greater nonce than all those in it. */
  ghost predicate NewestWindowWins(log: seq<UpdateEvent>, head: nat) {
    forall x :: x in InBlocks(log, 0, head) ==>
      exists y :: y in InBlocks(log, WindowStart(log, head), head) && x.nonce <= y.nonce
  }

  lemma GreatestIff(log: seq<UpdateEvent>, head: nat, e: UpdateEvent)
    requires GreatestIn(log, WindowStart(log, head), head, e)
    ensures GreatestIn(log, 0, head, e) <==> NewestWindowWins(log, head)
  {
    var start := WindowStart(log, head);
    InBlocksMember(log, start, head, e);
    InBlocksMember(log, 0, head, e);
    if NewestWindowWins(log, head) {
      forall x | x in InBlocks(log, 0, head)
        ensures x.nonce <= e.nonce
      {
        var y :| y in InBlocks(log, start, head) && x.nonce <= y.nonce;
      }
    }
  }

  class EthNode {
    const log: seq<UpdateEvent>

    constructor (log: seq<UpdateEvent>)
      ensures this.log == log
    {
      this.log := log;
    }

    /** GetValsetUpdatedEvents: may fail, answers in any order. */
    method ValsetUpdates(a: nat, b: nat) returns (ok: bool, events: seq<UpdateEvent>)
      ensures ok ==> multiset(events) == multiset(InBlocks(log, a, b))
    {
      ok := *;
      events := InBlocks(log, a, b);
    }
  }

  /** Sorts a window's events newest first and takes the first. */
  method NewestOf(events: seq<UpdateEvent>) returns (e: UpdateEvent)
    requires events != []
    ensures e in events && forall x :: x in events ==> x.nonce <= e.nonce
  {
    var sorted := Sort(events, NewerFirst);
    SortSorted(events, NewerFirst);
    assert |multiset(sorted)| == |multiset(events)|;
    e := sorted[0];
    ElementOf(e, sorted, events);
    forall x | x in events ensures x.nonce <= e.nonce {
      ElementOf(x, events, sorted);
      var k :| 0 <= k < |sorted| && sorted[k] == x;
      if k > 0 { assert !NewerFirst(sorted[k], sorted[0]); }
    }
  }

  lemma NoEvents(log: seq<UpdateEvent>, a: nat, b: nat, events: seq<UpdateEvent>)
    requires multiset(events) == multiset(InBlocks(log, a, b)) && events == []
    ensures InBlocks(log, a, b) == []
  {
    assert |multiset(InBlocks(log, a, b))| == |multiset(events)| == 0;
  }

  lemma SomeEvent(log: seq<UpdateEvent>, a: nat, b: nat, events: seq<UpdateEvent>)
    requires multiset(events) == multiset(InBlocks(log, a, b)) && events != []
    ensures InBlocks(log, a, b) != []
  {
    assert |multiset(InBlocks(log, a, b))| == |multiset(events)| > 0;
  }

  lemma WindowEmptied(log: seq<UpdateEvent>, start: nat, current: nat, head: nat)
    requires NoneAbove(log, current, head) && InBlocks(log, start, current) == [] && start <= current <= head
    ensures NoneAbove(log, start, head)
    ensures start == 0 ==> InBlocks(log, 0, head) == []
  {
    forall e | e in log ensures !(start <= e.height <= head) {
      InBlocksMember(log, start, current, e);
    }
    if start == 0 && InBlocks(log, 0, head) != [] {
      InBlocksMember(log, 0, head, InBlocks(log, 0, head)[0]);
    }
  }

  lemma NewestOfWindow(
    log: seq<UpdateEvent>, start: nat, current: nat, head: nat, events: seq<UpdateEvent>, e: UpdateEvent)
    requires NoneAbove(log, current, head) && start <= current <= head
    requires multiset(events) == multiset(InBlocks(log, start, current))
    requires e in events && forall x :: x in events ==> x.nonce <= e.nonce
    ensures AgreesWithFullScan(log, head, Found(e)) && GreatestIn(log, start, head, e)
  {
    forall x | x in InBlocks(log, start, head)
      ensures x in events
    {
      InBlocksMember(log, start, head, x);
      InBlocksMember(log, start, current, x);
      ElementOf(x, InBlocks(log, start, current), events);
    }
    InBlocksMember(log, start, head, e);
    ElementOf(e, events, InBlocks(log, start, current));
    InBlocksMember(log, start, current, e);
    InBlocksMember(log, 0, head, e);
    if NoncesGrow(log) {
      forall x | x in InBlocks(log, 0, head) ensures x.nonce <= e.nonce {
        InBlocksMember(log, 0, head, x);
        InBlocksMember(log, start, current, x);
        if start <= x.height {
          ElementOf(x, InBlocks(log, start, current), events);
        }
      }
    }
  }

  /**
    The windowed search agrees with a scan of all blocks exactly if the head is positive or
    block 0 holds no event.  The event found has the greatest nonce exactly if no older window
    holds a greater one.
   */
  method FindLatestEvent(node: EthNode, head: nat) returns (r: Search)
    ensures head > 0 ==> AgreesWithFullScan(node.log, head, r)
    ensures head == 0 ==> r == NotFound
    ensures !r.QueryFailed? ==>
      (AgreesWithFullScan(node.log, head, r) <==> head > 0 || InBlocks(node.log, 0, 0) == [])
    ensures r.Found? ==>
      && GreatestIn(node.log, WindowStart(node.log, head), head, r.event)
      && (GreatestIn(node.log, 0, head, r.event) <==> NewestWindowWins(node.log, head))
  {
    var current: nat := head;
    while current > 0
      invariant current <= head && NoneAbove(node.log, current, head)
      invariant current == 0 && head > 0 ==> InBlocks(node.log, 0, head) == []
      invariant WindowStart(node.log, head) == WindowStart(node.log, current)
    {
      var start := if current <= BLOCKS_TO_SEARCH then 0 else current - BLOCKS_TO_SEARCH;
      var ok, events := node.ValsetUpdates(start, current);
      if !ok { return QueryFailed; }
      if |events| == 0 {
        NoEvents(node.log, start, current, events);
        WindowEmptied(node.log, start, current, head);
        current := start;
      } else {
        var e := NewestOf(events);
        SomeEvent(node.log, start, current, events);
        NewestOfWindow(node.log, start, current, head, events, e);
        GreatestIff(node.log, head, e);
        return Found(e);
      }
    }
    r := NotFound;
  }

  /**
    An event in block 0 makes the answer "not found" wrong for every head, and for head 0 it is
    the answer of the search.
   */
  lemma GenesisHeadIsNotSearched(log: seq<UpdateEvent>, e: UpdateEvent, head: nat)
    requires e in log && e.height == 0
    ensures !AgreesWithFullScan(log, head, NotFound)
    ensures InBlocks(log, 0, 0) != []
  {
    hide InBlocks;
    InBlocksMember(log, 0, 0, e);
    InBlocksMember(log, 0, head, e);
  }

  /** Without growing nonces the search can miss the greatest one: it stops at the first window with an event. */
  lemma OlderWindowMayHoldGreatestNonce() returns (log: seq<UpdateEvent>, e: UpdateEvent, x: UpdateEvent)
    ensures !NoncesGrow(log) && !NewestWindowWins(log, 5000)
    ensures WindowStart(log, 5000) == 3000 && InBlocks(log, 3000, 5000) == [e]
    ensures x in InBlocks(log, 0, 5000) && x.nonce > e.nonce
  {
    x := UpdateEvent(2, 10, [], []);
    e := UpdateEvent(1, 4000, [], []);
    log := [x, e];
    assert log[..1] == [x];
    assert InBlocks([x], 3000, 5000) == InBlocks([], 3000, 5000) == [] by { assert [x][..0] == []; }
    InBlocksMember(log, 0, 5000, x);
  }

  function MembersOf(e: UpdateEvent): seq<Member>
    requires e.Valid()
  {
    seq(|e.powers|, i requires 0 <= i < |e.powers| => Member(e.validators[i], e.powers[i]))
  }

  /** Pairs every power with the validator at the same index. */
  method BuildMembers(e: UpdateEvent) returns (members: array<Member>)
    requires e.Valid()
    ensures fresh(members) && members[..] == MembersOf(e)
  {
    members := new Member[|e.powers|](_ => Member("", 0));
    for idx := 0 to |e.powers|
      invariant forall k :: 0 <= k < idx ==> members[k] == Member(e.validators[k], e.powers[k])
    {
      members[idx] := Member(e.validators[idx], e.powers[idx]);
    }
  }

  /**
    The valset built from the event found, compared against the one Injective stored.  The
    comparison sorts the members of the result too.
   */
  method FindLatestValset(node: EthNode, head: nat, cosmos: Valset?)
    returns (r: Search, valset: Valset?, reports: seq<Report>)
    requires forall e :: e in node.log ==> e.Valid()
    modifies if cosmos == null then {} else {cosmos.members}
    ensures head > 0 ==> AgreesWithFullScan(node.log, head, r)
    ensures r.Found? <==> valset != null
    ensures r.Found? ==> r.event.Valid() && valset.nonce == r.event.nonce
                         && multiset(valset.members[..]) == multiset(MembersOf(r.event))
    ensures r.Found? && cosmos != null ==>
              (reports == [] <==> cosmos.nonce == r.event.nonce
                                  && old(multiset(cosmos.members[..])) == multiset(MembersOf(r.event)))
  {
    r := FindLatestEvent(node, head);
    valset, reports := null, [];
    if r.Found? {
      InBlocksMember(node.log, 0, head, r.event);
      var members := BuildMembers(r.event);
      var v := new Valset(r.event.nonce, members);
      reports := CheckIfValsetsDiffer(cosmos, v);
      valset := v;
    }
  }
}
