/**
  The bridge contract's event log, as the oracle sees it through height-range queries.

  `log` is the history that ends up confirmed on Ethereum.  Peggy.sol numbers its events
  1, 2, 3, ... and blocks only move forward, so event n is `log[n - 1]` and heights never
  decrease along the log.
 */
module EthLog {
  import opened MachineWords
  import opened Sorting

  datatype Kind = Deposit | Withdrawal | ValsetUpdate | Erc20Deployment

  datatype Event = Event(kind: Kind, nonce: nat, height: nat)

  /** Contiguous nonces starting at 1, and heights that never decrease with the nonce. */
  ghost predicate ValidLog(log: seq<Event>) {
    && |log| < U64
    && (forall i :: 0 <= i < |log| ==> log[i].nonce == i + 1)
    && (forall i, j :: 0 <= i < j < |log| ==> log[i].height <= log[j].height)
  }

  /** How many of the first `n` events lie strictly below height `h`. */
  function BelowUpTo(log: seq<Event>, h: nat, n: nat): (r: nat)
    requires n <= |log|
    ensures r <= n
  {
    if n == 0 then 0 else BelowUpTo(log, h, n - 1) + (if log[n - 1].height < h then 1 else 0)
  }

  function Below(log: seq<Event>, h: nat): (r: nat)
    ensures r <= |log|
  {
    BelowUpTo(log, h, |log|)
  }

  lemma {:induction false} BelowUpToSplits(log: seq<Event>, h: nat, n: nat)
    requires ValidLog(log) && n <= |log|
    ensures forall i :: 0 <= i < n ==> (log[i].height < h <==> i < BelowUpTo(log, h, n))
  {
    if n > 0 { BelowUpToSplits(log, h, n - 1); }
  }

  /** In a valid log the events below `h` are exactly the first `Below(log, h)` ones. */
  lemma BelowSplits(log: seq<Event>, h: nat)
    requires ValidLog(log)
    ensures forall i :: 0 <= i < |log| ==> (log[i].height < h <==> i < Below(log, h))
  {
    BelowUpToSplits(log, h, |log|);
  }

  /** Events of one kind with a height in [a, b]: what a log query answers. */
  function Select(log: seq<Event>, kind: Kind, a: nat, b: nat): seq<Event> {
    if log == [] then []
    else
      var e := log[|log| - 1];
      Select(log[..|log| - 1], kind, a, b) + (if e.kind == kind && a <= e.height <= b then [e] else [])
  }

  /** Events of every kind with a height in [a, b]. */
  function Window(log: seq<Event>, a: nat, b: nat): seq<Event> {
    if log == [] then []
    else
      var e := log[|log| - 1];
      Window(log[..|log| - 1], a, b) + (if a <= e.height <= b then [e] else [])
  }

  /** The four per-kind queries together return each event of the window once. */
  lemma {:induction false} KindsPartitionWindow(log: seq<Event>, a: nat, b: nat)
    ensures multiset(Select(log, Deposit, a, b)) + multiset(Select(log, Withdrawal, a, b))
            + multiset(Select(log, ValsetUpdate, a, b)) + multiset(Select(log, Erc20Deployment, a, b))
            == multiset(Window(log, a, b))
  {
    if log != [] {
      KindsPartitionWindow(log[..|log| - 1], a, b);
    }
  }

  lemma {:induction false} WindowEmpty(log: seq<Event>, a: nat, b: nat)
    requires forall i :: 0 <= i < |log| ==> !(a <= log[i].height <= b)
    ensures Window(log, a, b) == []
  {
    if log != [] { WindowEmpty(log[..|log| - 1], a, b); }
  }

  lemma {:induction false} WindowSplit(log: seq<Event>, lo: nat, hi: nat, a: nat, b: nat)
    requires lo <= hi <= |log|
    requires forall i :: 0 <= i < lo ==> !(a <= log[i].height <= b)
    requires forall i :: lo <= i < hi ==> a <= log[i].height <= b
    requires forall i :: hi <= i < |log| ==> !(a <= log[i].height <= b)
    ensures Window(log, a, b) == log[lo..hi]
  {
    if lo == hi {
      WindowEmpty(log, a, b);
    } else {
      var n := |log| - 1;
      if n < hi {
        WindowSplit(log[..n], lo, n, a, b);
        assert log[lo..hi] == log[..n][lo..n] + [log[n]];
      } else {
        WindowSplit(log[..n], lo, hi, a, b);
        assert log[lo..hi] == log[..n][lo..hi];
      }
    }
  }

  /** A height window of a valid log is a contiguous run of nonces. */
  lemma WindowIsSlice(log: seq<Event>, a: nat, b: nat)
    requires ValidLog(log)
    ensures Below(log, a) <= Below(log, b + 1) ==> Window(log, a, b) == log[Below(log, a)..Below(log, b + 1)]
    ensures Below(log, a) > Below(log, b + 1) ==> Window(log, a, b) == []
  {
    BelowSplits(log, a);
    BelowSplits(log, b + 1);
    if Below(log, a) <= Below(log, b + 1) {
      WindowSplit(log, Below(log, a), Below(log, b + 1), a, b);
    } else {
      WindowEmpty(log, a, b);
    }
  }

  /** Events whose nonce exceeds `nonce`, in the order given. */
  function FilterEvents(events: seq<Event>, nonce: nat): seq<Event> {
    if events == [] then []
    else
      var n := |events| - 1;
      FilterEvents(events[..n], nonce) + (if events[n].nonce > nonce then [events[n]] else [])
  }

  lemma CountAppended(s: seq<Event>, e: Event, x: Event)
    ensures multiset(s + [e])[x] == multiset(s)[x] + if e == x then 1 else 0
  {}

  lemma {:induction false} FilterCounts(events: seq<Event>, nonce: nat, x: Event)
    ensures multiset(FilterEvents(events, nonce))[x] == if x.nonce > nonce then multiset(events)[x] else 0
  {
    if events != [] {
      var n := |events| - 1;
      var rest := FilterEvents(events[..n], nonce);
      FilterCounts(events[..n], nonce, x);
      CountAppended(events[..n], events[n], x);
      CountAppended(rest, events[n], x);
      assert events == events[..n] + [events[n]];
      assert rest + [] == rest;
    }
  }

  lemma FilterRearranged(a: seq<Event>, b: seq<Event>, nonce: nat)
    requires multiset(a) == multiset(b)
    ensures multiset(FilterEvents(a, nonce)) == multiset(FilterEvents(b, nonce))
  {
    forall x ensures multiset(FilterEvents(a, nonce))[x] == multiset(FilterEvents(b, nonce))[x] {
      FilterCounts(a, nonce, x);
      FilterCounts(b, nonce, x);
    }
  }

  /** The events of the window [a, b] newer than `nonce`, as a slice of the log. */
  function Fresh(log: seq<Event>, a: nat, b: nat, nonce: nat): seq<Event> {
    var lo, hi := Max(Below(log, a), nonce), Below(log, b + 1);
    if lo < hi then log[lo..hi] else []
  }

  predicate NonceLess(x: Event, y: Event) { x.nonce < y.nonce }

  lemma {:induction false} FilterAscending(s: seq<Event>, nonce: nat, k: nat)
    requires k <= |s|
    requires forall i :: 0 <= i < k ==> s[i].nonce <= nonce
    requires forall i :: k <= i < |s| ==> s[i].nonce > nonce
    ensures FilterEvents(s, nonce) == s[k..]
  {
    if s != [] {
      var n := |s| - 1;
      if k <= n {
        FilterAscending(s[..n], nonce, k);
        assert s[k..] == s[..n][k..] + [s[n]];
      } else {
        FilterAscending(s[..n], nonce, n);
      }
    }
  }

  lemma FilterSlice(log: seq<Event>, lo: nat, hi: nat, nonce: nat)
    requires ValidLog(log) && lo <= hi <= |log|
    ensures FilterEvents(log[lo..hi], nonce) == if Max(lo, nonce) < hi then log[Max(lo, nonce)..hi] else []
  {
    var m := Max(lo, nonce);
    if m < hi {
      FilterAscending(log[lo..hi], nonce, m - lo);
    } else {
      FilterAscending(log[lo..hi], nonce, hi - lo);
    }
  }

  lemma SliceOrdered(log: seq<Event>, lo: nat, hi: nat)
    requires ValidLog(log) && lo <= hi <= |log|
    ensures Sorted(log[lo..hi], NonceLess) && Separates(log[lo..hi], NonceLess)
  {
    forall x, y | x in log[lo..hi] && y in log[lo..hi] && x.nonce == y.nonce ensures x == y {
      var i :| lo <= i < hi && log[i] == x;
      var j :| lo <= j < hi && log[j] == y;
    }
  }

  /**
    Collecting a window in any order, dropping the claimed events and sorting by nonce
    gives back the unclaimed slice of the log.
   */
  lemma FilterThenSort(log: seq<Event>, events: seq<Event>, a: nat, b: nat, nonce: nat)
    requires ValidLog(log)
    requires multiset(events) == multiset(Window(log, a, b))
    ensures Sort(FilterEvents(events, nonce), NonceLess) == Fresh(log, a, b, nonce)
  {
    WindowIsSlice(log, a, b);
    var lo, hi := Below(log, a), Below(log, b + 1);
    if lo <= hi {
      FilterSlice(log, lo, hi, nonce);
    }
    var kept, unclaimed := FilterEvents(events, nonce), Fresh(log, a, b, nonce);
    assert unclaimed == FilterEvents(Window(log, a, b), nonce);
    FilterRearranged(events, Window(log, a, b), nonce);
    if Max(lo, nonce) < hi {
      SliceOrdered(log, Max(lo, nonce), hi);
    }
    SeparatesRearranged(kept, unclaimed, NonceLess);
    SortSorted(kept, NonceLess);
    OrderedListingUnique(unclaimed, Sort(kept, NonceLess), NonceLess);
  }
}
