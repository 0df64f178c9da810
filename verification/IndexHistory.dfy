/**
  What any run of the commands of cmd/injectived/cmd_indexer.go, each stopped anywhere, leaves
  in the transaction index.

  The store knows a height only by the tx-index keys of that block, so a block without an
  Ethereum transaction leaves no trace in it.
 */
module IndexHistory {

  /** Says of each height whether its block leaves a tx-index key. */
  type Blocks = int -> bool

  /** The heights lo, lo + 1, ..., hi - 1. */
  ghost function Range(lo: int, hi: int): (r: set<int>)
    ensures forall h :: h in r <==> lo <= h < hi
    decreases hi - lo
  {
    if hi <= lo then {} else Range(lo, hi - 1) + {hi - 1}
  }

  /** The indexed heights that the store can see. */
  ghost function Keyed(blocks: Blocks, indexed: set<int>): set<int> {
    set h | h in indexed && blocks(h)
  }

  ghost predicate IsFirst(keyed: set<int>, first: int) {
    if keyed == {} then first == -1 else first in keyed && forall k :: k in keyed ==> first <= k
  }

  ghost predicate IsLast(keyed: set<int>, last: int) {
    if keyed == {} then last == -1 else last in keyed && forall k :: k in keyed ==> k <= last
  }

  lemma NoMembers(s: set<int>)
    requires forall k :: k !in s
    ensures s == {}
  {
    var none: set<int> := {};
    assert forall k :: k in s <==> k in none;
  }

  lemma Inhabited(s: set<int>)
    requires s != {}
    ensures exists k :: k in s
  {
    if forall k :: k !in s { NoMembers(s); }
  }

  /** The first of a set with one more member. */
  lemma FirstWith(keyed: set<int>, first: int, k: int)
    requires IsFirst(keyed, first)
    ensures IsFirst(keyed + {k}, if keyed == {} || k < first then k else first)
  {
    assert k in keyed + {k};
  }

  lemma LastWith(keyed: set<int>, last: int, k: int)
    requires IsLast(keyed, last)
    ensures IsLast(keyed + {k}, if keyed == {} || k > last then k else last)
  {
    assert k in keyed + {k};
  }

  lemma {:induction false} FirstExists(keyed: set<int>)
    ensures exists first :: IsFirst(keyed, first)
  {
    if keyed == {} {
      assert IsFirst(keyed, -1);
    } else {
      Inhabited(keyed);
      var k :| k in keyed;
      FirstExists(keyed - {k});
      var first :| IsFirst(keyed - {k}, first);
      FirstWith(keyed - {k}, first, k);
      assert keyed == keyed - {k} + {k};
    }
  }

  lemma {:induction false} LastExists(keyed: set<int>)
    ensures exists last :: IsLast(keyed, last)
  {
    if keyed == {} {
      assert IsLast(keyed, -1);
    } else {
      Inhabited(keyed);
      var k :| k in keyed;
      LastExists(keyed - {k});
      var last :| IsLast(keyed - {k}, last);
      LastWith(keyed - {k}, last, k);
      assert keyed == keyed - {k} + {k};
    }
  }

  ghost function First(keyed: set<int>): (first: int)
    ensures IsFirst(keyed, first)
  {
    FirstExists(keyed);
    var first :| IsFirst(keyed, first);
    first
  }

  ghost function Last(keyed: set<int>): (last: int)
    ensures IsLast(keyed, last)
  {
    LastExists(keyed);
    var last :| IsLast(keyed, last);
    last
  }

  /**
    A command or a service session: the chain's height when it stopped, and where it stopped.
    `Backward` stopped before indexing `stop - 1`, the others before indexing `stop`.  `began`
    is the height at a session's start and `lost` the heights it passed without indexing them:
    blocks that were not available, or that it failed to index.
   */
  datatype Command =
    | Backward(height: int, stop: int)
    | Forward(height: int, stop: int)
    | Service(height: int, began: int, stop: int, lost: set<int>)

  /** Commands never index below 1, nor above the chain. */
  predicate Possible(c: Command) {
    match c
    case Backward(height, stop) => 0 <= height && 1 <= stop
    case Forward(height, stop) => 0 <= height && stop <= height + 1
    case Service(height, began, stop, _) => 0 <= began <= height && stop <= height + 1
  }

  /** The first height a session goes for. */
  ghost function ServiceFrom(keyed: set<int>, began: int): int {
    (if keyed != {} then Last(keyed) else if began <= 0 then 1 else began) + 1
  }

  /** The heights indexed once the command has stopped. */
  ghost function After(blocks: Blocks, indexed: set<int>, c: Command): set<int> {
    var keyed := Keyed(blocks, indexed);
    match c
    case Backward(height, stop) =>
      indexed + Range(stop, if keyed == {} then height else First(keyed))
    case Forward(height, stop) =>
      indexed + Range(if keyed == {} then 1 else Last(keyed) + 1, stop)
    case Service(_, began, stop, lost) =>
      indexed + (Range(ServiceFrom(keyed, began), stop) - lost)
  }

  ghost function Run(blocks: Blocks, indexed: set<int>, commands: seq<Command>): set<int>
    decreases |commands|
  {
    if commands == [] then indexed else Run(blocks, After(blocks, indexed, commands[0]), commands[1..])
  }

  /** The commands of one node: the chain only grows. */
  ghost predicate History(commands: seq<Command>) {
    && (forall k :: 0 <= k < |commands| ==> Possible(commands[k]))
    && forall j, k :: 0 <= j < k < |commands| ==> commands[j].height <= commands[k].height
  }

  // ---------- no gaps between the first and the last key ----------

  ghost predicate Positive(indexed: set<int>) {
    forall h :: h in indexed ==> h >= 1
  }

  /** Every height between two that the store can see was indexed. */
  ghost predicate Gapless(blocks: Blocks, indexed: set<int>) {
    forall a, h, b :: a in Keyed(blocks, indexed) && b in Keyed(blocks, indexed) && a <= h <= b ==> h in indexed
  }

  /** Extending downward from the first key, or upward from the last, leaves no gap. */
  lemma ExtendKeepsGapless(blocks: Blocks, indexed: set<int>, lo: int, hi: int)
    requires Gapless(blocks, indexed)
    requires
      var keyed := Keyed(blocks, indexed);
      keyed == {} || First(keyed) == hi || Last(keyed) + 1 == lo
    ensures Gapless(blocks, indexed + Range(lo, hi))
  {
    var keyed, grown := Keyed(blocks, indexed), indexed + Range(lo, hi);
    forall a, h, b | a in Keyed(blocks, grown) && b in Keyed(blocks, grown) && a <= h <= b
      ensures h in grown
    {
      assert a in Range(lo, hi) || a in keyed;
      assert b in Range(lo, hi) || b in keyed;
      if keyed != {} && h !in Range(lo, hi) {
        if First(keyed) == hi {
          if h >= hi { assert b in keyed && hi in keyed; }
        } else {
          if h < lo { assert a in keyed && lo - 1 in keyed; }
        }
      }
    }
  }

  /** A block in lo..hi - 1 was indexed and left a key. */
  ghost predicate KeyLeft(blocks: Blocks, lo: int, hi: int, lost: set<int>) {
    exists x :: x in Range(lo, hi) && x !in lost && blocks(x)
  }

  /**
    A session is harmless if every height it lost was indexed already, or lies below the
    first key or above the last key that it leaves in the store.
   */
  ghost predicate Harmless(blocks: Blocks, indexed: set<int>, c: Command) {
    c.Service? ==>
      var keyed := Keyed(blocks, indexed);
      var lo := ServiceFrom(keyed, c.began);
      forall h :: h in Range(lo, c.stop) && h in c.lost && h !in indexed ==>
        (keyed == {} && !KeyLeft(blocks, lo, h, c.lost)) || !KeyLeft(blocks, h + 1, c.stop, c.lost)
  }

  /** A height lost between two keys is a gap. */
  lemma HarmLeavesGap(blocks: Blocks, indexed: set<int>, c: Command)
    requires !Harmless(blocks, indexed, c)
    ensures !Gapless(blocks, After(blocks, indexed, c))
  {
    var keyed, grown := Keyed(blocks, indexed), After(blocks, indexed, c);
    var lo := ServiceFrom(keyed, c.began);
    var h :| h in Range(lo, c.stop) && h in c.lost && h !in indexed
             && (keyed == {} ==> KeyLeft(blocks, lo, h, c.lost)) && KeyLeft(blocks, h + 1, c.stop, c.lost);
    var b :| b in Range(h + 1, c.stop) && b !in c.lost && blocks(b);
    assert b in Range(lo, c.stop) && b in Keyed(blocks, grown) && h !in grown;
    if keyed == {} {
      var a :| a in Range(lo, h) && a !in c.lost && blocks(a);
      assert a in Range(lo, c.stop) && a in Keyed(blocks, grown);
    } else {
      assert Last(keyed) in Keyed(blocks, grown);
    }
  }

  lemma HarmlessKeepsGapless(blocks: Blocks, indexed: set<int>, c: Command)
    requires Gapless(blocks, indexed) && c.Service? && Harmless(blocks, indexed, c)
    ensures Gapless(blocks, After(blocks, indexed, c))
  {
    var keyed, grown := Keyed(blocks, indexed), After(blocks, indexed, c);
    var lo, stop, lost := ServiceFrom(keyed, c.began), c.stop, c.lost;
    forall a, h, b | a in Keyed(blocks, grown) && b in Keyed(blocks, grown) && a <= h <= b
      ensures h in grown
    {
      assert a in keyed || a in Range(lo, stop) - lost;
      assert b in keyed || b in Range(lo, stop) - lost;
      if h < lo {
        if keyed != {} { assert a in keyed && Last(keyed) in keyed; }
      } else {
        assert h in grown ||
               (&& h in Range(lo, stop) && h in lost && h !in indexed
                && b in Range(h + 1, stop) && b !in lost
                && (keyed == {} ==> a in Range(lo, h) && a !in lost));
      }
    }
  }

  /** From a store without gaps, a step leaves one without gaps exactly if it is harmless. */
  lemma StepGaplessIff(blocks: Blocks, indexed: set<int>, c: Command)
    requires Gapless(blocks, indexed)
    ensures Gapless(blocks, After(blocks, indexed, c)) <==> Harmless(blocks, indexed, c)
  {
    var keyed := Keyed(blocks, indexed);
    match c
    case Backward(height, stop) =>
      ExtendKeepsGapless(blocks, indexed, stop, if keyed == {} then height else First(keyed));
    case Forward(height, stop) =>
      ExtendKeepsGapless(blocks, indexed, if keyed == {} then 1 else Last(keyed) + 1, stop);
    case Service(_, _, _, _) =>
      if Harmless(blocks, indexed, c) {
        HarmlessKeepsGapless(blocks, indexed, c);
      } else {
        HarmLeavesGap(blocks, indexed, c);
      }
  }

  /** No step ever fills a gap: all of them work outside the keys there are. */
  lemma GapPersists(blocks: Blocks, indexed: set<int>, c: Command)
    requires !Gapless(blocks, indexed)
    ensures !Gapless(blocks, After(blocks, indexed, c))
  {
    var keyed, grown := Keyed(blocks, indexed), After(blocks, indexed, c);
    var a, h, b :| a in keyed && b in keyed && a <= h <= b && h !in indexed;
    assert First(keyed) <= a && b <= Last(keyed);
    assert a in Keyed(blocks, grown) && b in Keyed(blocks, grown) && h !in grown;
  }

  lemma {:induction false} GapPersistsRun(blocks: Blocks, indexed: set<int>, commands: seq<Command>)
    requires !Gapless(blocks, indexed)
    ensures !Gapless(blocks, Run(blocks, indexed, commands))
    decreases |commands|
  {
    if commands != [] {
      GapPersists(blocks, indexed, commands[0]);
      GapPersistsRun(blocks, After(blocks, indexed, commands[0]), commands[1..]);
    }
  }

  /** Every step of the history is harmless where it is taken. */
  ghost predicate AllHarmless(blocks: Blocks, indexed: set<int>, commands: seq<Command>)
    decreases |commands|
  {
    commands == [] ||
    (Harmless(blocks, indexed, commands[0]) && AllHarmless(blocks, After(blocks, indexed, commands[0]), commands[1..]))
  }

  /** After any history the store has no gap if and only if every session in it was harmless. */
  lemma {:induction false} RunGaplessIff(blocks: Blocks, indexed: set<int>, commands: seq<Command>)
    requires Gapless(blocks, indexed)
    ensures Gapless(blocks, Run(blocks, indexed, commands)) <==> AllHarmless(blocks, indexed, commands)
    decreases |commands|
  {
    if commands != [] {
      StepGaplessIff(blocks, indexed, commands[0]);
      if Harmless(blocks, indexed, commands[0]) {
        RunGaplessIff(blocks, After(blocks, indexed, commands[0]), commands[1..]);
      } else {
        GapPersistsRun(blocks, After(blocks, indexed, commands[0]), commands[1..]);
      }
    }
  }

  /** No session passed a height without indexing it. */
  ghost predicate NothingLost(commands: seq<Command>) {
    forall k :: 0 <= k < |commands| && commands[k].Service? ==> commands[k].lost == {}
  }

  lemma {:induction false} NothingLostIsHarmless(blocks: Blocks, indexed: set<int>, commands: seq<Command>)
    requires NothingLost(commands)
    ensures AllHarmless(blocks, indexed, commands)
    decreases |commands|
  {
    if commands != [] { NothingLostIsHarmless(blocks, After(blocks, indexed, commands[0]), commands[1..]); }
  }

  /**
    Whatever commands and harmless sessions ran and wherever each stopped, no height between
    the first and the last indexed block is missing, and the store holds the keys of every
    block in between.
   */
  lemma RunKeepsGapless(blocks: Blocks, indexed: set<int>, commands: seq<Command>)
    requires Gapless(blocks, indexed) && AllHarmless(blocks, indexed, commands)
    ensures
      var end := Run(blocks, indexed, commands);
      var keyed := Keyed(blocks, end);
      && Gapless(blocks, end)
      && (keyed != {} ==> Range(First(keyed), Last(keyed) + 1) <= end)
      && forall h :: keyed != {} && First(keyed) <= h <= Last(keyed) && blocks(h) ==> h in keyed
  {
    RunGaplessIff(blocks, indexed, commands);
  }

  /** A session that fails to index block 2 and goes on leaves a gap for good. */
  lemma FailedBlockLeavesGap(blocks: Blocks)
    requires blocks(1) && blocks(3)
    ensures var commands := [Forward(1, 2), Service(3, 1, 4, {2})];
            History(commands) && !Gapless(blocks, Run(blocks, {}, commands))
  {
    var c, d := Forward(1, 2), Service(3, 1, 4, {2});
    RunOfTwo(blocks, {}, c, d);
    assert After(blocks, {}, c) == {1};
    assert Keyed(blocks, {1}) == {1} && Last({1}) == 1;
    var end := After(blocks, {1}, d);
    assert Range(2, 4) - {2} == {3};
    assert end == {1, 3};
    assert 1 in Keyed(blocks, end) && 3 in Keyed(blocks, end) && 2 !in end;
  }

  lemma RunOfTwo(blocks: Blocks, indexed: set<int>, c: Command, d: Command)
    ensures Run(blocks, indexed, [c, d]) == After(blocks, After(blocks, indexed, c), d)
  {
    var middle := After(blocks, indexed, c);
    assert [c, d][1..] == [d] && [d][1..] == [];
    assert Run(blocks, middle, [d]) == Run(blocks, After(blocks, middle, d), []);
  }

  /** On an empty index, going back starts below the latest block, and going forward at the first one. */
  lemma FromEmptyIndex(blocks: Blocks, height: int)
    ensures Run(blocks, {}, [Backward(height, 1)]) == Range(1, height)
    ensures Run(blocks, {}, [Forward(height, height + 1)]) == Range(1, height + 1)
  {
    assert Keyed(blocks, {}) == {};
    assert Run(blocks, After(blocks, {}, Backward(height, 1)), []) == Range(1, height);
    assert Run(blocks, After(blocks, {}, Forward(height, height + 1)), []) == Range(1, height + 1);
  }

  /**
    From any state that commands can leave, one backward and then one forward command, neither
    stopped early, index every block of the chain.
   */
  lemma BackwardThenForwardIndexesAll(blocks: Blocks, indexed: set<int>, height: int)
    requires Gapless(blocks, indexed)
    ensures Range(1, height + 1) <= Run(blocks, indexed, [Backward(height, 1), Forward(height, height + 1)])
  {
    var b, f := Backward(height, 1), Forward(height, height + 1);
    var middle := After(blocks, indexed, b);
    var end := After(blocks, middle, f);
    RunOfTwo(blocks, indexed, b, f);
    var keyed, keyed' := Keyed(blocks, indexed), Keyed(blocks, middle);
    forall h | 1 <= h <= height
      ensures h in end
    {
      if keyed' != {} && h <= Last(keyed') {
        if keyed == {} {
          assert Last(keyed') in Range(1, height);
        } else {
          if h >= First(keyed) {
            assert Last(keyed') in keyed;
          }
        }
      }
    }
  }

  // ---------- a single interval ----------

  ghost predicate IsInterval(indexed: set<int>) {
    forall a, h, b :: a in indexed && b in indexed && a <= h <= b ==> h in indexed
  }

  lemma UnkeyedBlockLeavesHole(blocks: Blocks, h: int) returns (commands: seq<Command>)
    requires h >= 1 && !blocks(h)
    ensures History(commands) && NothingLost(commands) && !IsInterval(Run(blocks, {}, commands))
  {
    var c, d := Backward(h + 1, h), Backward(h + 3, h + 2);
    commands := [c, d];
    RunOfTwo(blocks, {}, c, d);
    assert After(blocks, {}, c) == {h};
    assert Keyed(blocks, {h}) == {};
    assert After(blocks, {h}, d) == {h, h + 2};
    var end := Run(blocks, {}, commands);
    assert h in end && h + 2 in end && h + 1 !in end;
  }

  lemma {:induction false} RunPositive(blocks: Blocks, indexed: set<int>, commands: seq<Command>)
    requires Positive(indexed) && History(commands)
    ensures Positive(Run(blocks, indexed, commands))
    decreases |commands|
  {
    if commands != [] { RunPositive(blocks, After(blocks, indexed, commands[0]), commands[1..]); }
  }

  /** Every block carries an Ethereum transaction. */
  ghost predicate AllKeyed(blocks: Blocks) {
    forall h :: h >= 1 ==> blocks(h)
  }

  ghost predicate AlwaysInterval(blocks: Blocks) {
    forall commands | History(commands) && NothingLost(commands) :: IsInterval(Run(blocks, {}, commands))
  }

  /**
    The indexed heights form a single interval after every history that loses nothing exactly when every block
    carries an Ethereum transaction.
   */
  lemma SingleIntervalIff(blocks: Blocks)
    ensures AlwaysInterval(blocks) <==> AllKeyed(blocks)
  {
    if AllKeyed(blocks) {
      forall commands | History(commands) && NothingLost(commands)
        ensures IsInterval(Run(blocks, {}, commands))
      {
        NothingLostIsHarmless(blocks, {}, commands);
        RunKeepsGapless(blocks, {}, commands);
        RunPositive(blocks, {}, commands);
        var end := Run(blocks, {}, commands);
        assert Keyed(blocks, end) == end;
      }
    } else {
      var h :| h >= 1 && !blocks(h);
      var commands := UnkeyedBlockLeavesHole(blocks, h);
    }
  }
}
