/**
  The commands of cmd/injectived/cmd_indexer.go that fill the transaction index backward or
  forward, each of which may stop early.
 */
module IndexCommands {
  import opened IndexHistory
  import IndexerService

  /** The step a session takes, given the heights it indexed. */
  ghost function SessionStep(keyed: set<int>, began: int, height: int, last: int, ok: set<int>): Command {
    var stop := (if last <= height then last else height) + 1;
    Service(height, began, stop, Range(ServiceFrom(keyed, began), stop) - ok)
  }

  /**
    A session of the service, up to the chain's height `height`, is a possible step of the
    history: it loses the heights it was not given and those it failed to index.
   */
  lemma SessionIsServiceStep(
    blocks: Blocks, indexed: set<int>, began: int, earliest: int, height: int, start: int, last: int,
    handed: seq<int>, missing: set<int>, failed: set<int>, allowGap: bool)
    requires Positive(indexed) && 0 <= began <= height && (last == start || last <= height)
    requires IndexerService.StartHeight(Last(Keyed(blocks, indexed)), began, earliest, allowGap)
             == IndexerService.From(start)
    requires IndexerService.Books(start, last, handed, missing, allowGap)
    ensures var ok := set h | h in handed && h !in failed;
            var c := SessionStep(Keyed(blocks, indexed), began, height, last, ok);
            && Possible(c) && c.height == height
            && After(blocks, indexed, c) == indexed + ok
            && (!allowGap && failed == {} ==> c.lost == {})
  {
    var keyed, ok := Keyed(blocks, indexed), set h | h in handed && h !in failed;
    var c := SessionStep(keyed, began, height, last, ok);
    var lo := ServiceFrom(keyed, began);
    assert lo <= start + 1;
    forall h | h in ok
      ensures h in Range(lo, c.stop)
    {
      var k :| 0 <= k < |handed| && handed[k] == h;
    }
    if !allowGap && failed == {} {
      IndexerService.NoGapMeansConsecutive(start, last, handed, missing);
      forall h | h in Range(lo, c.stop)
        ensures h in ok
      {
        assert handed[h - start - 1] == h;
      }
    }
  }

  /** The EVM transaction indexer over its key-value store. */
  class KVIndexer {
    const blocks: int -> bool
    /** Heights found in tx-index keys. */
    var keyed: set<int>
    /** Heights whose IndexBlock succeeded. */
    ghost var indexed: set<int>

    ghost predicate Valid()
      reads this
    {
      keyed == Keyed(blocks, indexed) && Positive(indexed)
    }

    constructor (blocks: Blocks)
      ensures this.blocks == blocks && indexed == {} && Valid()
    {
      this.blocks, keyed, indexed := blocks, {}, {};
    }

    /** Writes the block's keys in one batch; a block without any writes nothing. */
    method IndexBlock(height: int) returns (ok: bool)
      requires Valid() && height >= 1
      modifies this
      ensures Valid() && indexed == old(indexed) + if ok then {height} else {}
    {
      ok := *;
      if ok {
        if blocks(height) { keyed := keyed + {height}; }
        indexed := indexed + {height};
      }
    }

    method FirstIndexedBlock() returns (first: int)
      ensures IsFirst(keyed, first)
    {
      var rest := keyed;
      first := -1;
      assert keyed - rest == {};
      assert IsFirst({}, first);
      hide IsFirst;
      while rest != {}
        invariant rest <= keyed && IsFirst(keyed - rest, first)
        decreases |rest|
      {
        Inhabited(rest);
        var k :| k in rest;
        assert keyed - (rest - {k}) == keyed - rest + {k};
        assert keyed == rest <==> keyed - rest == {};
        FirstWith(keyed - rest, first, k);
        if keyed == rest || k < first { first := k; }
        rest := rest - {k};
      }
      assert keyed - rest == keyed;
    }

    method LastIndexedBlock() returns (last: int)
      ensures IsLast(keyed, last)
    {
      var rest := keyed;
      last := -1;
      assert keyed - rest == {};
      assert IsLast({}, last);
      hide IsLast;
      while rest != {}
        invariant rest <= keyed && IsLast(keyed - rest, last)
        decreases |rest|
      {
        Inhabited(rest);
        var k :| k in rest;
        assert keyed - (rest - {k}) == keyed - rest + {k};
        assert keyed == rest <==> keyed - rest == {};
        LastWith(keyed - rest, last, k);
        if keyed == rest || k > last { last := k; }
        rest := rest - {k};
      }
      assert keyed - rest == keyed;
    }

    /** Loads a block and its results and indexes it; each of the three may fail. */
    method LoadAndIndex(height: int) returns (ok: bool)
      requires Valid() && height >= 1
      modifies this
      ensures Valid() && indexed == old(indexed) + if ok then {height} else {}
    {
      ok := *;
      if ok { ok := IndexBlock(height); }
    }

    /** `index-eth-tx backward` */
    method IndexBackward(height: int) returns (ok: bool, ghost c: Command)
      requires Valid() && height >= 0
      modifies this
      ensures Valid() && c.Backward? && c.height == height && Possible(c)
      ensures indexed == After(blocks, old(indexed), c)
      ensures ok ==> c.stop == 1
    {
      var first := FirstIndexedBlock();
      assert first == First(keyed);
      if first == -1 { first := height; }
      ok := true;
      var i := first - 1;
      while i > 0
        invariant Valid() && i <= first - 1
        invariant i >= 0 || i == first - 1
        invariant indexed == old(indexed) + Range(i + 1, first)
      {
        ok := LoadAndIndex(i);
        if !ok { break; }
        i := i - 1;
      }
      c := Backward(height, if ok then 1 else i + 1);
    }

    /** `index-eth-tx forward` */
    method IndexForward(height: int) returns (ok: bool, ghost c: Command)
      requires Valid() && height >= 0
      modifies this
      ensures Valid() && c == Forward(height, c.stop) && Possible(c)
      ensures indexed == After(blocks, old(indexed), c)
      ensures ok ==> c.stop == height + 1
    {
      var last := LastIndexedBlock();
      assert last == Last(keyed);
      if last == -1 { last := 0; }
      ok := true;
      var i := last + 1;
      while i <= height
        invariant Valid() && last + 1 <= i
        invariant i <= height + 1 || i == last + 1
        invariant indexed == old(indexed) + Range(last + 1, i)
      {
        ok := LoadAndIndex(i);
        if !ok { break; }
        i := i + 1;
      }
      c := Forward(height, if ok then height + 1 else i);
    }
  }
}
