/**
  How command-line arguments are handed out, as a function of the leaves that ask, and when
  every argument goes to exactly one of them.
 */
module CliDesk {
  import opened Options
  import opened CliArgs

  /** Where a value came from: the cursor, or an index mapping. */
  datatype Source = Positional(index: nat) | Mapped(index: nat)

  /** The leaf `name` was given the argument at the source's index. */
  datatype Taken = Taken(name: string, source: Source)

  /** The arguments, some of them blanked, the cursor, and what was handed out so far. */
  datatype Desk = Desk(args: seq<string>, next: nat, log: seq<Taken>)

  /** Index mappings, and what becomes of a value on its way through one; None is an error. */
  datatype Mapping = Mapping(index: map<string, nat>, transform: (string, string) -> Option<string>)

  /** The first argument from `i` on that is not blank, or the number of arguments. */
  function FirstFilled(args: seq<string>, i: nat): (r: nat)
    requires i <= |args|
    ensures i <= r <= |args| && (r < |args| ==> args[r] != "")
    ensures forall k :: i <= k < r ==> args[k] == ""
    decreases |args| - i
  {
    if i == |args| || args[i] != "" then i else FirstFilled(args, i + 1)
  }

  predicate Open(d: Desk) {
    d.next <= |d.args|
  }

  /** The cursor's next argument, if there is one. */
  function FromCursor(d: Desk, name: string): (r: Desk)
    requires Open(d)
    ensures Open(r) && |r.args| == |d.args| && d.log <= r.log
  {
    var c := FirstFilled(d.args, d.next);
    if c == |d.args| then d.(next := c) else Desk(d.args, c + 1, d.log + [Taken(name, Positional(c))])
  }

  /** One leaf is served: first by its mapping, else, if it is empty, by the cursor. */
  function Serve(d: Desk, ask: Ask, m: Mapping): (r: Option<Desk>)
    requires Open(d)
    ensures r.Some? ==> Open(r.value) && |r.value.args| == |d.args| && d.log <= r.value.log
  {
    var Ask(name, zero) := ask;
    if name in m.index && m.index[name] < |d.args| then
      var i := m.index[name];
      var d' := Desk(d.args[i := ""], d.next, d.log + [Taken(name, Mapped(i))]);
      match m.transform(name, d.args[i])
      case None => None
      case Some(val) => Some(if val == "" && zero then FromCursor(d', name) else d')
    else Some(if zero then FromCursor(d, name) else d)
  }

  /** All leaves are served in turn. */
  function ServeAll(d: Desk, asks: seq<Ask>, m: Mapping): (r: Option<Desk>)
    requires Open(d)
    ensures r.Some? ==> Open(r.value) && |r.value.args| == |d.args|
  {
    if asks == [] then Some(d)
    else
      var r := ServeAll(d, asks[..|asks| - 1], m);
      if r.None? then None else Serve(r.value, asks[|asks| - 1], m)
  }

  lemma {:induction false} ServeConcat(d: Desk, a: seq<Ask>, b: seq<Ask>, m: Mapping)
    requires Open(d)
    ensures var r := ServeAll(d, a, m);
            ServeAll(d, a + b, m) == if r.None? then None else ServeAll(r.value, b, m)
    decreases |b|
  {
    if b == [] {
      assert a + b == a;
    } else {
      var n := |b| - 1;
      ServeConcat(d, a, b[..n], m);
      assert (a + b)[..|a| + n] == a + b[..n];
    }
  }

  // ---------- one argument for each leaf ----------

  /**
    The mappings of the leaves that ask lead to different arguments that exist, no argument is
    blank, and none turns blank on its way through a mapping.
   */
  ghost predicate Clean(asks: seq<Ask>, m: Mapping, args: seq<string>) {
    && "" !in args
    && (forall k :: 0 <= k < |asks| && asks[k].name in m.index ==>
          m.index[asks[k].name] < |args|
          && m.transform(asks[k].name, args[m.index[asks[k].name]]) != Some(""))
    && (forall j, k :: 0 <= j < k < |asks| && asks[j].name in m.index && asks[k].name in m.index ==>
          m.index[asks[j].name] != m.index[asks[k].name])
  }

  /** Only empty or mapped leaves ask. */
  ghost predicate Asking(asks: seq<Ask>, mapped: set<string>) {
    forall k :: 0 <= k < |asks| ==> asks[k].zero || asks[k].name in mapped
  }

  lemma {:induction false} WantedAsk(fs: seq<Field>, flags: set<string>, mapped: set<string>)
    ensures Asking(Wanted(fs, flags, mapped), mapped)
    decreases fs, 1
  {
    if fs != [] {
      WantedAsk(fs[..|fs| - 1], flags, mapped);
      WantedByAsk(fs[|fs| - 1], flags, mapped);
    }
  }

  lemma {:induction false} WantedByAsk(f: Field, flags: set<string>, mapped: set<string>)
    ensures Asking(WantedBy(f, flags, mapped), mapped)
    decreases f, 0
  {
    match f
    case Leaf(_, _) =>
    case Nested(_, fields) => WantedAsk(fields, flags, mapped);
    case AnyBox(_, content) => WantedAsk(content, flags, mapped);
  }

  /** Every leaf was given an argument, and no argument was given out twice. */
  ghost predicate OneEach(log: seq<Taken>, count: nat) {
    && |log| == count
    && (forall k :: 0 <= k < |log| ==> log[k].source.index < count)
    && NoneTwice(log)
  }

  ghost predicate NoneTwice(log: seq<Taken>) {
    forall j, k :: 0 <= j < k < |log| ==> log[j].source.index != log[k].source.index
  }

  /** Where the cursor stands once the first `k` leaves are served, whatever the arguments say. */
  function CursorAt(asks: seq<Ask>, index: map<string, nat>, count: nat): (r: (nat, set<nat>))
    ensures r.0 <= count
  {
    if asks == [] then (0, {})
    else
      var (next, taken) := CursorAt(asks[..|asks| - 1], index, count);
      var name := asks[|asks| - 1].name;
      if name in index then (next, taken + {index[name]})
      else
        var c := FirstFree(next, taken, count);
        (if c < count then c + 1 else c, taken)
  }

  function FirstFree(i: nat, taken: set<nat>, count: nat): (r: nat)
    requires i <= count
    ensures i <= r <= count && (r < count ==> r !in taken)
    ensures forall k :: i <= k < r ==> k in taken
    decreases count - i
  {
    if i == count || i !in taken then i else FirstFree(i + 1, taken, count)
  }

  /** The cursor never passes an argument before the leaf it is mapped to is served. */
  ghost predicate NeverPassed(asks: seq<Ask>, index: map<string, nat>, count: nat) {
    forall k :: 0 <= k < |asks| && asks[k].name in index ==> CursorAt(asks[..k], index, count).0 <= index[asks[k].name]
  }

  /** The desk after clean leaves were served: blanks are what mappings took. */
  ghost predicate Tracks(d: Desk, args: seq<string>, next: nat, taken: set<nat>) {
    && |d.args| == |args| && d.next == next <= |args|
    && (forall i :: 0 <= i < |args| ==> d.args[i] == if i in taken then "" else args[i])
    && (forall k :: 0 <= k < |d.log| ==> d.log[k].source.index < |args|)
    && (forall k :: 0 <= k < |d.log| ==>
          if d.log[k].source.Positional? then d.log[k].source.index < next else d.log[k].source.index in taken)
    && (forall i: nat :: i < next ==> i in taken || exists k :: 0 <= k < |d.log| && d.log[k].source == Positional(i))
    && (forall i: nat :: i in taken ==> exists k :: 0 <= k < |d.log| && d.log[k].source == Mapped(i))
  }

  lemma {:induction false} FreeIsFilled(args: seq<string>, args': seq<string>, i: nat, taken: set<nat>)
    requires "" !in args && |args'| == |args| && i <= |args|
    requires forall k :: 0 <= k < |args| ==> args'[k] == if k in taken then "" else args[k]
    ensures FirstFilled(args', i) == FirstFree(i, taken, |args|)
    decreases |args| - i
  {
    if i < |args| && i in taken { FreeIsFilled(args, args', i + 1, taken); }
  }

  /** A mapped leaf: its argument is blanked and logged. */
  lemma MappedTracks(d: Desk, args: seq<string>, next: nat, taken: set<nat>, name: string, i: nat)
    requires Tracks(d, args, next, taken) && i < |args|
    ensures Tracks(Desk(d.args[i := ""], d.next, d.log + [Taken(name, Mapped(i))]), args, next, taken + {i})
  {
    var d' := Desk(d.args[i := ""], d.next, d.log + [Taken(name, Mapped(i))]);
    assert d'.log[|d.log|].source == Mapped(i);
    forall j: nat | j in taken + {i}
      ensures exists k :: 0 <= k < |d'.log| && d'.log[k].source == Mapped(j)
    {
      if j in taken {
        var k :| 0 <= k < |d.log| && d.log[k].source == Mapped(j);
        assert d'.log[k].source == Mapped(j);
      }
    }
    forall j: nat | j < next
      ensures j in taken + {i} || exists k :: 0 <= k < |d'.log| && d'.log[k].source == Positional(j)
    {
      if j !in taken {
        var k :| 0 <= k < |d.log| && d.log[k].source == Positional(j);
        assert d'.log[k].source == Positional(j);
      }
    }
  }

  /** A leaf served by the cursor. */
  lemma CursorTracks(d: Desk, args: seq<string>, next: nat, taken: set<nat>, name: string)
    requires Tracks(d, args, next, taken) && "" !in args
    ensures var c := FirstFree(next, taken, |args|);
            && Tracks(FromCursor(d, name), args, if c < |args| then c + 1 else c, taken)
            && FromCursor(d, name).log == d.log + if c < |args| then [Taken(name, Positional(c))] else []
  {
    FreeIsFilled(args, d.args, next, taken);
    var c, d' := FirstFree(next, taken, |args|), FromCursor(d, name);
    if c < |args| { assert d'.log[|d.log|].source == Positional(c); }
    forall j: nat | j < d'.next
      ensures j in taken || exists k :: 0 <= k < |d'.log| && d'.log[k].source == Positional(j)
    {
      if j !in taken && j < next {
        var k :| 0 <= k < |d.log| && d.log[k].source == Positional(j);
        assert d'.log[k].source == Positional(j);
      }
    }
    forall j: nat | j in taken
      ensures exists k :: 0 <= k < |d'.log| && d'.log[k].source == Mapped(j)
    {
      var k :| 0 <= k < |d.log| && d.log[k].source == Mapped(j);
      assert d'.log[k].source == Mapped(j);
    }
  }

  /** What mappings took is what the leaves served so far are mapped to. */
  lemma {:induction false} TakenByAsks(asks: seq<Ask>, index: map<string, nat>, count: nat, i: nat)
    requires i in CursorAt(asks, index, count).1
    ensures exists k :: 0 <= k < |asks| && asks[k].name in index && index[asks[k].name] == i
  {
    var n := |asks| - 1;
    if i in CursorAt(asks[..n], index, count).1 {
      TakenByAsks(asks[..n], index, count, i);
      var k :| 0 <= k < n && asks[..n][k].name in index && index[asks[..n][k].name] == i;
      assert asks[k].name in index;
    } else {
      assert asks[n].name in index;
    }
  }

  lemma NotYetTaken(asks: seq<Ask>, m: Mapping, args: seq<string>)
    requires asks != [] && Clean(asks, m, args) && asks[|asks| - 1].name in m.index
    ensures m.index[asks[|asks| - 1].name] !in CursorAt(asks[..|asks| - 1], m.index, |args|).1
  {
    var n := |asks| - 1;
    var i := m.index[asks[n].name];
    forall k | 0 <= k < n && asks[..n][k].name in m.index
      ensures m.index[asks[..n][k].name] != i
    {
      assert asks[..n][k] == asks[k];
    }
    if i in CursorAt(asks[..n], m.index, |args|).1 { TakenByAsks(asks[..n], m.index, |args|, i); }
  }

  lemma FirstDesk(args: seq<string>)
    ensures Tracks(Desk(args, 0, []), args, 0, {})
  {}

  /** Serving clean leaves moves the cursor as the names alone say. */
  lemma {:induction false} ServeTracks(asks: seq<Ask>, m: Mapping, args: seq<string>)
    requires Clean(asks, m, args) && Asking(asks, m.index.Keys) && ServeAll(Desk(args, 0, []), asks, m).Some?
    ensures var (next, taken) := CursorAt(asks, m.index, |args|);
            Tracks(ServeAll(Desk(args, 0, []), asks, m).value, args, next, taken)
  {
    hide Tracks;
    if asks == [] {
      FirstDesk(args);
    } else {
      var n := |asks| - 1;
      ServeTracks(asks[..n], m, args);
      ServeOneTracks(asks, m, args);
    }
  }

  /** The desk before the last leaf is served. */
  function Before(asks: seq<Ask>, m: Mapping, args: seq<string>): Desk
    requires asks != [] && ServeAll(Desk(args, 0, []), asks, m).Some?
  {
    ServeAll(Desk(args, 0, []), asks[..|asks| - 1], m).value
  }

  /** What serving the last leaf does, by mapping or by cursor. */
  lemma ServeOneTracks(asks: seq<Ask>, m: Mapping, args: seq<string>)
    requires asks != [] && Clean(asks, m, args) && Asking(asks, m.index.Keys)
    requires ServeAll(Desk(args, 0, []), asks, m).Some?
    requires var (next, taken) := CursorAt(asks[..|asks| - 1], m.index, |args|);
             Tracks(Before(asks, m, args), args, next, taken)
    ensures var (next, taken) := CursorAt(asks, m.index, |args|);
            Tracks(ServeAll(Desk(args, 0, []), asks, m).value, args, next, taken)
    ensures var (next, taken) := CursorAt(asks[..|asks| - 1], m.index, |args|);
            var name, d := asks[|asks| - 1].name, Before(asks, m, args);
            var c := FirstFree(next, taken, |args|);
            && ServeAll(Desk(args, 0, []), asks, m).value.log == d.log +
               (if name in m.index then [Taken(name, Mapped(m.index[name]))]
                else if c < |args| then [Taken(name, Positional(c))] else [])
            && (name in m.index ==> m.index[name] !in taken && m.index[name] < |args|)
  {
    var n := |asks| - 1;
    var (next, taken) := CursorAt(asks[..n], m.index, |args|);
    var d, name := Before(asks, m, args), asks[n].name;
    if name in m.index {
      var i := m.index[name];
      NotYetTaken(asks, m, args);
      MappedTracks(d, args, next, taken, name, i);
      assert d.args[i] == args[i];
    } else {
      CursorTracks(d, args, next, taken, name);
    }
  }

  // ---------- exactly when it is one to one ----------

  function Indices(log: seq<Taken>): set<nat> {
    set k | 0 <= k < |log| :: log[k].source.index
  }

  lemma {:induction false} IndicesCount(log: seq<Taken>)
    ensures |Indices(log)| <= |log|
    ensures NoneTwice(log) ==> |Indices(log)| == |log|
  {
    if log != [] {
      var n := |log| - 1;
      IndicesCount(log[..n]);
      assert Indices(log) == Indices(log[..n]) + {log[n].source.index} by {
        assert forall k :: 0 <= k < n ==> log[..n][k] == log[k];
      }
    }
  }

  function UpTo(count: nat): (r: set<nat>)
    ensures |r| == count && forall i: nat :: i in r <==> i < count
  {
    if count == 0 then {} else UpTo(count - 1) + {count - 1}
  }

  lemma SubsetSize(a: set<nat>, b: set<nat>)
    requires a <= b
    ensures |a| <= |b| && (|a| == |b| ==> a == b)
  {
    assert b == a + (b - a);
    assert |b| == |a| + |b - a|;
    if |a| == |b| { assert b - a == {}; }
  }

  /** One argument each means that every argument was used. */
  lemma OneEachUsesAll(log: seq<Taken>, count: nat, i: nat)
    requires OneEach(log, count) && i < count
    ensures exists k :: 0 <= k < |log| && log[k].source.index == i
  {
    IndicesCount(log);
    SubsetSize(Indices(log), UpTo(count));
    assert i in Indices(log);
  }

  /** While arguments are left that no leaf was given, the cursor finds one. */
  lemma CursorFinds(d: Desk, args: seq<string>, next: nat, taken: set<nat>)
    requires Tracks(d, args, next, taken) && |d.log| < |args|
    ensures FirstFree(next, taken, |args|) < |args|
  {
    if FirstFree(next, taken, |args|) == |args| {
      forall i: nat | i < |args|
        ensures i in Indices(d.log)
      {
        if i in taken {
          var k :| 0 <= k < |d.log| && d.log[k].source == Mapped(i);
        } else {
          var k :| 0 <= k < |d.log| && d.log[k].source == Positional(i);
        }
      }
      SubsetSize(UpTo(|args|), Indices(d.log));
      IndicesCount(d.log);
    }
  }

  /** A leaf whose argument the cursor has not passed gets one that nobody has. */
  lemma NewEntry(d: Desk, args: seq<string>, next: nat, taken: set<nat>, t: Taken)
    requires Tracks(d, args, next, taken) && NoneTwice(d.log)
    requires t.source.index !in taken && next <= t.source.index
    ensures NoneTwice(d.log + [t])
  {}

  /** What was handed out stays handed out. */
  lemma {:induction false} LogGrows(asks: seq<Ask>, m: Mapping, args: seq<string>, k: nat)
    requires ServeAll(Desk(args, 0, []), asks, m).Some? && k <= |asks|
    ensures var before := ServeAll(Desk(args, 0, []), asks[..k], m);
            before.Some? && before.value.log <= ServeAll(Desk(args, 0, []), asks, m).value.log
    decreases |asks|
  {
    hide Serve;
    if k < |asks| {
      var n := |asks| - 1;
      LogGrows(asks[..n], m, args, k);
      assert asks[..n][..k] == asks[..k];
    } else {
      assert asks[..k] == asks;
    }
  }

  lemma CleanPrefix(asks: seq<Ask>, m: Mapping, args: seq<string>, k: nat)
    requires Clean(asks, m, args) && Asking(asks, m.index.Keys) && k <= |asks|
    ensures Clean(asks[..k], m, args) && Asking(asks[..k], m.index.Keys)
  {}

  lemma NeverPassedPrefix(asks: seq<Ask>, index: map<string, nat>, count: nat, k: nat)
    requires NeverPassed(asks, index, count) && k <= |asks|
    ensures NeverPassed(asks[..k], index, count)
  {
    forall j | 0 <= j < k && asks[..k][j].name in index
      ensures CursorAt(asks[..k][..j], index, count).0 <= index[asks[..k][j].name]
    {
      assert asks[..k][..j] == asks[..j] && asks[..k][j] == asks[j];
    }
  }

  /** Each leaf has its own entry, in order. */
  ghost predicate Named(log: seq<Taken>, asks: seq<Ask>) {
    |log| == |asks| && forall k :: 0 <= k < |asks| ==> log[k].name == asks[k].name
  }

  ghost predicate Fits(log: seq<Taken>, asks: seq<Ask>) {
    Named(log, asks) && NoneTwice(log)
  }

  lemma NamedAppend(log: seq<Taken>, asks: seq<Ask>, t: Taken)
    requires asks != [] && Named(log, asks[..|asks| - 1]) && t.name == asks[|asks| - 1].name
    ensures Named(log + [t], asks)
  {
    assert forall k :: 0 <= k < |asks| - 1 ==> asks[..|asks| - 1][k] == asks[k];
  }

  lemma NothingFits()
    ensures Fits([], [])
  {}

  /** The entry of the last leaf. */
  function Entry(asks: seq<Ask>, index: map<string, nat>, count: nat): Taken
    requires asks != []
  {
    var name := asks[|asks| - 1].name;
    var (next, taken) := CursorAt(asks[..|asks| - 1], index, count);
    Taken(name, if name in index then Mapped(index[name]) else Positional(FirstFree(next, taken, count)))
  }

  lemma EntryFits(asks: seq<Ask>, m: Mapping, args: seq<string>, d: Desk)
    requires 0 < |asks| <= |args| && Clean(asks, m, args) && Fits(d.log, asks[..|asks| - 1])
    requires NeverPassed(asks, m.index, |args|)
    requires var (next, taken) := CursorAt(asks[..|asks| - 1], m.index, |args|); Tracks(d, args, next, taken)
    ensures var t := Entry(asks, m.index, |args|);
            Fits(d.log + [t], asks) && t.source.index < |args|
  {
    hide Tracks, NoneTwice, Named, CursorAt;
    var n := |asks| - 1;
    var (next, taken) := CursorAt(asks[..n], m.index, |args|);
    var t := Entry(asks, m.index, |args|);
    NamedAppend(d.log, asks, t);
    assert |d.log| == n by { NamedLength(d.log, asks[..n]); }
    if asks[n].name in m.index {
      NotYetTaken(asks, m, args);
    } else {
      CursorFinds(d, args, next, taken);
    }
    NewEntry(d, args, next, taken, t);
  }

  lemma NamedLength(log: seq<Taken>, asks: seq<Ask>)
    requires Named(log, asks)
    ensures |log| == |asks|
  {}

  /** If the cursor never passes a mapped argument, every leaf is given one of its own. */
  lemma {:induction false} NeverPassedFits(asks: seq<Ask>, m: Mapping, args: seq<string>)
    requires Clean(asks, m, args) && Asking(asks, m.index.Keys) && ServeAll(Desk(args, 0, []), asks, m).Some?
    requires |asks| <= |args| && NeverPassed(asks, m.index, |args|)
    ensures Fits(ServeAll(Desk(args, 0, []), asks, m).value.log, asks)
    decreases |asks|
  {
    if asks == [] {
      NothingFits();
    } else {
      hide Tracks, Fits, Clean, Asking, NeverPassed, ServeAll;
      var n := |asks| - 1;
      LogGrows(asks, m, args, n);
      CleanPrefix(asks, m, args, n);
      NeverPassedPrefix(asks, m.index, |args|, n);
      NeverPassedFits(asks[..n], m, args);
      ServeTracks(asks[..n], m, args);
      ServeOneTracks(asks, m, args);
      EntryFits(asks, m, args, Before(asks, m, args));
    }
  }

  /** A mapped argument that the cursor has passed is given out a second time. */
  lemma PassedMeansTwice(asks: seq<Ask>, m: Mapping, args: seq<string>, k: nat)
    requires Clean(asks, m, args) && Asking(asks, m.index.Keys) && ServeAll(Desk(args, 0, []), asks, m).Some?
    requires k < |asks| && asks[k].name in m.index
    requires m.index[asks[k].name] < CursorAt(asks[..k], m.index, |args|).0
    ensures !NoneTwice(ServeAll(Desk(args, 0, []), asks, m).value.log)
  {
    hide CursorAt, ServeAll;
    var served, i := asks[..k + 1], m.index[asks[k].name];
    assert served[..k] == asks[..k];
    LogGrows(asks, m, args, k + 1);
    LogGrows(asks, m, args, k);
    CleanPrefix(asks, m, args, k + 1);
    CleanPrefix(asks, m, args, k);
    ServeTracks(asks[..k], m, args);
    ServeOneTracks(served, m, args);
    var d, log := Before(served, m, args), ServeAll(Desk(args, 0, []), served, m).value.log;
    var j :| 0 <= j < |d.log| && d.log[j].source == Positional(i);
    assert log[j].source.index == log[|d.log|].source.index;
  }

  /**
    Of as many arguments as leaves ask, every one goes to exactly one leaf if and only if the
    cursor never passes an argument before the leaf it is mapped to is served.
   */
  lemma OneEachIff(asks: seq<Ask>, m: Mapping, args: seq<string>)
    requires Clean(asks, m, args) && Asking(asks, m.index.Keys) && ServeAll(Desk(args, 0, []), asks, m).Some?
    requires |asks| == |args|
    ensures OneEach(ServeAll(Desk(args, 0, []), asks, m).value.log, |args|) <==> NeverPassed(asks, m.index, |args|)
    ensures NeverPassed(asks, m.index, |args|) ==> Named(ServeAll(Desk(args, 0, []), asks, m).value.log, asks)
  {
    hide CursorAt, ServeAll, NoneTwice;
    ServeTracks(asks, m, args);
    if NeverPassed(asks, m.index, |args|) {
      NeverPassedFits(asks, m, args);
    } else {
      var k :| 0 <= k < |asks| && asks[k].name in m.index
               && m.index[asks[k].name] < CursorAt(asks[..k], m.index, |args|).0;
      PassedMeansTwice(asks, m, args, k);
    }
  }

  /** The k-th argument for the k-th leaf. */
  function InOrder(asks: seq<Ask>): seq<Taken> {
    seq(|asks|, k requires 0 <= k < |asks| => Taken(asks[k].name, Positional(k)))
  }

  /** Without mappings the arguments go to the leaves in order. */
  lemma {:induction false} UnmappedInOrder(asks: seq<Ask>, m: Mapping, args: seq<string>)
    requires m.index.Keys == {} && Asking(asks, {}) && "" !in args && |asks| <= |args|
    ensures ServeAll(Desk(args, 0, []), asks, m) == Some(Desk(args, |asks|, InOrder(asks)))
    decreases |asks|
  {
    if asks == [] {
      assert InOrder(asks) == [];
    } else {
      var n := |asks| - 1;
      UnmappedInOrder(asks[..n], m, args);
      assert FirstFilled(args, n) == n;
      assert asks[n].name !in m.index.Keys;
      assert InOrder(asks) == InOrder(asks[..n]) + [Taken(asks[n].name, Positional(n))];
    }
  }

  /** The leaf B is mapped to the first argument. */
  function LateMapping(): Mapping {
    Mapping(map["B" := 0], (name, val) => Some(val))
  }

  lemma LateMessage() returns (msg: seq<Field>)
    ensures WellFormed(msg, false) && TidyCommand(msg, {}, {"B"}) && NumFields(msg, false, {}, {"B"}) == 2
    ensures Wanted(Filled(msg), {}, {"B"}) == [Ask("A", true), Ask("B", true)]
  {
    var a, b := Leaf("A", true), Leaf("B", true);
    msg := [a, b];
    assert !FromCtx("A") && !FromCtx("B");
    assert msg[..1] == [a] && [a][..0] == [];
    assert Filled([a]) == [a];
    assert Filled(msg) == msg;
    assert Wanted([a], {}, {"B"}) == [Ask("A", true)];
    assert NumFields([a], false, {}, {"B"}) == 1;
  }

  lemma LateServe(x: string, y: string)
    requires x != "" && y != ""
    ensures ServeAll(Desk([x, y], 0, []), [Ask("A", true), Ask("B", true)], LateMapping())
            == Some(Desk(["", y], 1, [Taken("A", Positional(0)), Taken("B", Mapped(0))]))
  {
    var d, m := Desk([x, y], 0, []), LateMapping();
    var a, b := Ask("A", true), Ask("B", true);
    assert [a, b][..1] == [a] && [a][..0] == [];
    assert ServeAll(d, [], m) == Some(d);
    assert FirstFilled([x, y], 0) == 0;
    assert FromCursor(d, "A") == Desk([x, y], 1, [Taken("A", Positional(0))]);
    var d' := Desk([x, y], 1, [Taken("A", Positional(0))]);
    assert ServeAll(d, [a], m) == Serve(d, a, m) == Some(d');
    assert m.transform("B", x) == Some(x);
    assert [x, y][0 := ""] == ["", y];
    assert d'.log + [Taken("B", Mapped(0))] == [Taken("A", Positional(0)), Taken("B", Mapped(0))];
    assert Serve(d', b, m) == Some(Desk(["", y], 1, [Taken("A", Positional(0)), Taken("B", Mapped(0))]));
  }

  /**
    A leaf served by the cursor in front of a leaf mapped to the first argument: both are given
    the first argument, and the second is dropped.
   */
  lemma LateMappingDoubles(x: string, y: string) returns (msg: seq<Field>, log: seq<Taken>)
    requires x != "" && y != ""
    ensures WellFormed(msg, false) && TidyCommand(msg, {}, {"B"}) && NumFields(msg, false, {}, {"B"}) == 2
    ensures var asks := Wanted(Filled(msg), {}, {"B"});
            && Clean(asks, LateMapping(), [x, y])
            && ServeAll(Desk([x, y], 0, []), asks, LateMapping()) == Some(Desk(["", y], 1, log))
    ensures log == [Taken("A", Positional(0)), Taken("B", Mapped(0))] && !OneEach(log, 2)
  {
    hide ServeAll, Wanted, Filled, WellFormed, TidyCommand, NumFields;
    msg := LateMessage();
    LateServe(x, y);
    log := [Taken("A", Positional(0)), Taken("B", Mapped(0))];
    assert log[0].source.index == log[1].source.index;
  }
}
