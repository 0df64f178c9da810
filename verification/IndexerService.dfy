/**
  The endless loop of injective-chain/server/indexer_service.go that hands new blocks to the
  EVM transaction indexer, while another goroutine moves the latest height and every fetch
  may fail.
 */
module IndexerService {
  import opened MachineWords

  datatype Fetched = Found | NotAvailable | FetchFailed

  /** A block or its results were asked for, and what the node answered. */
  datatype Reply = Reply(height: int, answer: Fetched)

  /** The scan ends on a failure other than a missing block, and on a missing block unless gaps are allowed. */
  predicate Stops(f: Reply, allowGap: bool) {
    f.answer.FetchFailed? || (f.answer.NotAvailable? && !allowGap)
  }

  /**
    The node as the service sees it.  New headers arrive between any two reads of `latest`.
    `horizon` is the greatest height announced in the stretch of the run considered; every
    finite stretch has one.  `replies` are the answers given so far, and `faults` counts those
    that did not find what was asked for.
   */
  class Node {
    const horizon: int
    var latest: int
    ghost var replies: seq<Reply>
    ghost var faults: nat

    constructor (latest: int, horizon: int)
      ensures this.latest == latest && this.horizon == horizon && replies == [] && faults == 0
    {
      this.latest, this.horizon, replies, faults := latest, horizon, [], 0;
    }

    /** The subscription goroutine: a header counts only if it is higher than the latest one. */
    method Announce()
      modifies this`latest
      ensures old(latest) <= latest
      ensures latest == old(latest) || latest <= horizon
    {
      var height: int := *;
      if latest < height <= horizon { latest := height; }
    }

    method Fetch(height: int) returns (r: Fetched)
      modifies this`replies, this`faults
      ensures replies == old(replies) + [Reply(height, r)]
      ensures faults == old(faults) + if r.Found? then 0 else 1
    {
      r := *;
      replies := replies + [Reply(height, r)];
      if !r.Found? { faults := faults + 1; }
    }
  }

  datatype Start = From(height: int) | Panic

  /** The height after which the service starts: nothing available above the index is left out but
      the earliest block, and nothing up to the latest block is indexed if the index is empty. */
  function StartHeight(lastIndexed: int, latest: int, earliest: int, allowGap: bool): (r: Start)
    ensures r.Panic? <==> (lastIndexed != -1 && lastIndexed < earliest && !allowGap)
    ensures r.From? ==> r.height >= 1
    ensures r.From? && lastIndexed >= 1 ==> r.height == Max(lastIndexed, earliest)
    ensures lastIndexed == -1 ==> r == From(Max(1, latest))
  {
    if lastIndexed == -1 then From(if latest <= 0 then 1 else latest)
    else if lastIndexed < earliest then
      if allowGap then From(if earliest <= 0 then 1 else earliest) else Panic
    else From(if lastIndexed <= 0 then 1 else lastIndexed)
  }

  ghost predicate Increasing(s: seq<int>) {
    forall i, j :: 0 <= i < j < |s| ==> s[i] < s[j]
  }

  /** Every height in (start, last] was handed over, or was reported missing under allowGap. */
  ghost predicate Accounted(start: int, last: int, handed: seq<int>, missing: set<int>, allowGap: bool) {
    forall h :: start < h <= last ==> h in handed || (allowGap && h in missing)
  }

  /** Every height strictly between `lo` and `hi` was reported missing under allowGap. */
  ghost predicate Skipped(lo: int, hi: int, missing: set<int>, allowGap: bool) {
    forall h :: lo < h < hi ==> h in missing && allowGap
  }

  ghost predicate Books(start: int, last: int, handed: seq<int>, missing: set<int>, allowGap: bool) {
    && Increasing(handed)
    && (forall k :: 0 <= k < |handed| ==> start < handed[k] <= last)
    && last == (if handed == [] then start else handed[|handed| - 1])
    && Accounted(start, last, handed, missing, allowGap)
  }

  /** A height counts as missing only if the node said so, and is handed over only if the node had it. */
  ghost predicate Reported(handed: seq<int>, missing: set<int>, replies: seq<Reply>) {
    && (forall h :: h in missing ==> Reply(h, NotAvailable) in replies)
    && (forall h :: h in handed ==> Reply(h, Found) in replies)
  }

  /**
    The answers for height `i` came after those before: the block was asked for, and its results
    if the block was found.
   */
  ghost predicate Asked(before: seq<Reply>, replies: seq<Reply>, i: int) {
    || (|replies| == |before| + 1 && replies == before + [Reply(i, replies[|before|].answer)]
        && !replies[|before|].answer.Found?)
    || (|replies| == |before| + 2 && replies == before + [Reply(i, Found), Reply(i, replies[|before| + 1].answer)])
  }

  /** The answers after those before; only the last one may end a scan. */
  ghost predicate Scanned(before: seq<Reply>, replies: seq<Reply>, allowGap: bool) {
    && |before| <= |replies| && before == replies[..|before|]
    && forall k :: |before| <= k < |replies| - 1 ==> !Stops(replies[k], allowGap)
  }

  lemma ReportedMore(handed: seq<int>, missing: set<int>, replies: seq<Reply>, replies': seq<Reply>)
    requires Reported(handed, missing, replies) && |replies| <= |replies'| && replies == replies'[..|replies|]
    ensures Reported(handed, missing, replies')
  {
    forall f | f in replies
      ensures f in replies'
    {
      var k :| 0 <= k < |replies| && replies[k] == f;
      assert replies'[k] == f;
    }
  }

  /** One more height keeps a scan going, if nothing before it ended the scan. */
  lemma ScannedNext(before: seq<Reply>, replies: seq<Reply>, replies': seq<Reply>, i: int, allowGap: bool)
    requires Scanned(before, replies, allowGap) && Asked(replies, replies', i)
    requires |replies| == |before| || !Stops(replies[|replies| - 1], allowGap)
    ensures Scanned(before, replies', allowGap)
  {
    assert forall k :: 0 <= k < |replies| ==> replies'[k] == replies[k];
  }

  /** Handing over the next height that is not missing keeps the books. */
  lemma HandOver(start: int, last: int, handed: seq<int>, missing: set<int>, allowGap: bool, i: int)
    requires Books(start, last, handed, missing, allowGap)
    requires last < i && Skipped(last, i, missing, allowGap)
    ensures Books(start, i, handed + [i], missing, allowGap)
  {
    forall h | start < h <= i
      ensures h in handed + [i] || (allowGap && h in missing)
    {
      if h <= last {
        assert h in handed || (allowGap && h in missing);
      } else if h < i {
        assert h in missing;
      } else {
        assert (handed + [i])[|handed|] == h;
      }
    }
  }

  /** Another missing height keeps the books. */
  lemma MoreMissing(start: int, last: int, handed: seq<int>, missing: set<int>, allowGap: bool, i: int)
    requires Books(start, last, handed, missing, allowGap)
    ensures Books(start, last, handed, missing + {i}, allowGap)
  {
  }

  /** No height is handed over twice. */
  lemma {:induction false} HandedAtMostOnce(handed: seq<int>, h: int)
    requires Increasing(handed)
    ensures multiset(handed)[h] == if h in handed then 1 else 0
  {
    if handed != [] {
      var n := |handed| - 1;
      var init := handed[..n];
      assert handed == init + [handed[n]];
      HandedAtMostOnce(init, h);
      assert handed[n] !in init;
    }
  }

  lemma {:induction false} ConsecutiveAt(start: int, last: int, handed: seq<int>, missing: set<int>, k: nat)
    requires Books(start, last, handed, missing, false) && k < |handed|
    ensures handed[k] == start + 1 + k
  {
    if k > 0 { ConsecutiveAt(start, last, handed, missing, k - 1); }
    var next := start + 1 + k;
    assert next <= handed[k] <= last;
    assert next in handed;
    var j :| 0 <= j < |handed| && handed[j] == next;
    assert k <= j;
  }

  /** Without allowGap the heights handed over are start + 1, start + 2, ... up to last. */
  lemma NoGapMeansConsecutive(start: int, last: int, handed: seq<int>, missing: set<int>)
    requires Books(start, last, handed, missing, false)
    ensures handed == seq(last - start, k => start + 1 + k)
  {
    forall k: nat | k < |handed|
      ensures handed[k] == start + 1 + k
    {
      ConsecutiveAt(start, last, handed, missing, k);
    }
  }

  class EVMIndexerService {
    const node: Node
    const allowGap: bool
    var lastBlock: int
    /** Heights passed to IndexBlock, in order. */
    var handed: seq<int>
    ghost var start: int
    ghost var missing: set<int>
    /** Heights whose IndexBlock failed; the failure is logged and otherwise ignored. */
    ghost var failed: set<int>

    ghost predicate Valid()
      reads this, node
    {
      && Books(start, lastBlock, handed, missing, allowGap)
      && Reported(handed, missing, node.replies)
      && (lastBlock == start || lastBlock <= node.latest)
      && forall h :: h in failed ==> h in handed
    }

    constructor (node: Node, allowGap: bool)
      ensures this.node == node && this.allowGap == allowGap
      ensures handed == [] && missing == {} && failed == {} && start == lastBlock && Valid()
    {
      this.node, this.allowGap := node, allowGap;
      lastBlock, handed, start, missing, failed := 0, [], 0, {}, {};
    }

    /** The part of OnStart before the loop; `latest` is still moving. */
    method Begin(lastIndexed: int, earliest: int) returns (panicked: bool)
      requires handed == [] && missing == {} && failed == {}
      modifies this, node`latest
      ensures handed == [] && missing == {} && failed == {} && old(node.latest) <= node.latest
      ensures panicked == StartHeight(lastIndexed, node.latest, earliest, allowGap).Panic?
      ensures !panicked ==> Valid() && StartHeight(lastIndexed, node.latest, earliest, allowGap) == From(start)
    {
      node.Announce();
      lastBlock := lastIndexed;
      if lastBlock == -1 {
        lastBlock := node.latest;
      } else if lastBlock < earliest {
        if !allowGap { return true; }
        lastBlock := earliest;
      }
      if lastBlock <= 0 { lastBlock := 1; }
      start := lastBlock;
      panicked := false;
    }

    /**
      One height of the scan; `stop` is the break that ends it, `err` what is left in the error.
      Both are decided by the last answer of the node for this height.
     */
    method IndexHeight(i: int) returns (stop: bool, err: bool)
      requires Valid() && lastBlock < i <= node.latest
      requires Skipped(lastBlock, i, missing, allowGap)
      modifies this`lastBlock, this`handed, this`missing, this`failed, node`replies, node`faults
      ensures Valid() && old(handed) <= handed && old(missing) <= missing
      ensures Asked(old(node.replies), node.replies, i)
      ensures stop <==> Stops(node.replies[|node.replies| - 1], allowGap)
      ensures err <==> !node.replies[|node.replies| - 1].answer.Found?
      ensures err <==> node.faults > old(node.faults)
      ensures node.faults >= old(node.faults)
      ensures stop ==> err && unchanged(this)
      ensures !stop && err ==> allowGap && missing == old(missing) + {i} && lastBlock == old(lastBlock)
      ensures !err ==> lastBlock == i && handed == old(handed) + [i]
      ensures old(failed) <= failed <= old(failed) + {i}
    {
      hide Books, Skipped;
      ghost var before := node.replies;
      var block := node.Fetch(i);
      var results := Found;
      if block.Found? { results := node.Fetch(i); }
      ReportedMore(handed, missing, before, node.replies);
      if !block.Found? || !results.Found? {
        if allowGap && (block.NotAvailable? || results.NotAvailable?) {
          MoreMissing(start, lastBlock, handed, missing, allowGap, i);
          missing := missing + {i};
          return false, true;
        }
        return true, true;
      }
      var indexed: bool := *;
      if !indexed { failed := failed + {i}; }
      HandOver(start, lastBlock, handed, missing, allowGap, i);
      handed := handed + [i];
      lastBlock := i;
      return false, false;
    }

    /**
      The scan from lastBlock + 1; `latest` is read again at every height.  It ends at an answer
      that stops it, or once every height up to `latest` was handed over or skipped.
     */
    method Scan() returns (err: bool)
      requires Valid() && lastBlock < node.latest
      modifies this`lastBlock, this`handed, this`missing, this`failed, node
      ensures Valid() && old(handed) <= handed && old(missing) <= missing
      ensures old(node.latest) <= node.latest && old(node.faults) <= node.faults
      ensures Scanned(old(node.replies), node.replies, allowGap) && |old(node.replies)| < |node.replies|
      ensures !Stops(node.replies[|node.replies| - 1], allowGap)
              ==> Skipped(lastBlock, node.latest + 1, missing, allowGap)
      ensures err <==> !node.replies[|node.replies| - 1].answer.Found?
      ensures !err ==> lastBlock == node.latest
      ensures err ==> old(node.faults) < node.faults
    {
      err := false;
      var i := lastBlock + 1;
      assert Scanned(node.replies, node.replies, allowGap);
      hide Books, Reported, Asked, Scanned;
      while i <= node.latest
        invariant Valid() && lastBlock < i <= node.latest + 1
        invariant old(handed) <= handed && old(missing) <= missing && old(node.latest) <= node.latest
        invariant Skipped(lastBlock, i, missing, allowGap)
        invariant !err ==> lastBlock == i - 1
        invariant Scanned(old(node.replies), node.replies, allowGap)
        invariant |node.replies| == |old(node.replies)| ==> i == old(lastBlock) + 1
        invariant |node.replies| > |old(node.replies)| ==>
                    var last := node.replies[|node.replies| - 1];
                    !Stops(last, allowGap) && (err <==> !last.answer.Found?)
        invariant old(node.faults) <= node.faults && (err ==> old(node.faults) < node.faults)
        decreases (if node.latest <= node.horizon then node.horizon else node.latest) - i
      {
        var stop;
        ghost var before := node.replies;
        stop, err := IndexHeight(i);
        ScannedNext(old(node.replies), before, node.replies, i, allowGap);
        if stop { return; }
        i := i + 1;
        node.Announce();
      }
    }

    /**
      Any number of turns of the endless loop.  Without a failed fetch it catches up with every
      header announced before it.
     */
    method Serve(turns: nat)
      requires Valid()
      modifies this`lastBlock, this`handed, this`missing, this`failed, node
      ensures Valid() && old(handed) <= handed && old(missing) <= missing
      ensures old(node.latest) <= node.latest
      ensures turns > 0 && node.faults == old(node.faults) ==> old(node.latest) <= lastBlock
    {
      for turn := 0 to turns
        invariant Valid() && old(handed) <= handed && old(missing) <= missing
        invariant old(node.latest) <= node.latest && old(node.faults) <= node.faults
        invariant turn > 0 && node.faults == old(node.faults) ==> old(node.latest) <= lastBlock
      {
        node.Announce();
        if lastBlock < node.latest {
          var err := Scan();
        }
      }
    }
  }
}
