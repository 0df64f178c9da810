/**
  Handing out command-line arguments: the walk of ParseFieldsFromFlagsAndArgs in
  cli/parsers.go over a message, with its cursor and the arguments it blanks on the way.
 */
module CliParser {
  import opened Options
  import opened CliArgs
  import opened CliDesk

  /**
    The cursor moves left to right and gives nothing out twice, nor anything that an index
    mapping took before.
   */
  ghost predicate Orderly(log: seq<Taken>) {
    forall a, b :: 0 <= a < b < |log| && log[b].source.Positional? ==>
      if log[a].source.Positional? then log[a].source.index < log[b].source.index
      else log[a].source.index != log[b].source.index
  }

  /** What the log says about the arguments that are left and about the cursor. */
  ghost predicate Consistent(d: Desk, given: seq<string>) {
    && |d.args| == |given| && Open(d)
    && (forall i :: 0 <= i < |given| ==> d.args[i] == given[i] || d.args[i] == "")
    && (forall k :: 0 <= k < |d.log| ==>
          && d.log[k].source.index < |given|
          && (if d.log[k].source.Positional? then d.log[k].source.index < d.next
              else d.args[d.log[k].source.index] == ""))
    && Orderly(d.log)
  }

  lemma CursorConsistent(d: Desk, given: seq<string>, name: string)
    requires Consistent(d, given)
    ensures Consistent(FromCursor(d, name), given)
  {}

  lemma MappedConsistent(d: Desk, given: seq<string>, name: string, i: nat)
    requires Consistent(d, given) && i < |given|
    ensures Consistent(Desk(d.args[i := ""], d.next, d.log + [Taken(name, Mapped(i))]), given)
  {}

  lemma WantedSnoc(fs: seq<Field>, i: nat, flags: set<string>, mapped: set<string>)
    requires i < |fs|
    ensures Wanted(fs[..i + 1], flags, mapped) == Wanted(fs[..i], flags, mapped) + WantedBy(fs[i], flags, mapped)
  {
    assert fs[..i + 1][..i] == fs[..i];
  }

  lemma AsksConcat(a: seq<Ask>, b: seq<Ask>, c: seq<Ask>)
    ensures (a + b) + c == a + (b + c)
  {}

  class ArgParser {
    const mapping: Mapping
    const flags: set<string>
    ghost const given: seq<string>

    var args: seq<string>
    var next: nat
    ghost var log: seq<Taken>
    /** Leaves that asked for an argument. */
    ghost var asked: seq<Ask>

    ghost function View(): Desk
      reads this
    {
      Desk(args, next, log)
    }

    ghost predicate Valid()
      reads this
    {
      Consistent(View(), given)
    }

    constructor (mapping: Mapping, flags: set<string>, args: seq<string>)
      ensures Valid() && this.mapping == mapping && this.flags == flags
      ensures View() == Desk(args, 0, []) && given == args && asked == []
    {
      this.mapping, this.flags := mapping, flags;
      this.args, next, given, log, asked := args, 0, args, [], [];
    }

    /** getValueFromPositionalArg: the next argument that is not blank. */
    method GetPositional(name: string) returns (val: Option<string>)
      requires Valid()
      modifies this`next, this`log
      ensures Valid() && View() == FromCursor(old(View()), name)
      ensures val == if log == old(log) then None else Some(given[next - 1])
    {
      CursorConsistent(View(), given, name);
      while next < |args|
        invariant next <= |args| && log == old(log)
        invariant FirstFilled(args, old(next)) == FirstFilled(args, next)
      {
        var arg := args[next];
        next := next + 1;
        if arg != "" {
          log := log + [Taken(name, Positional(next - 1))];
          return Some(arg);
        }
      }
      val := None;
    }

    /** tryGetValueFromArg: takes the mapped argument and blanks it; `ok` is false on an error. */
    method GetMapped(name: string) returns (ok: bool, val: Option<string>)
      requires Valid()
      modifies this`args, this`log
      ensures Valid()
      ensures var mapped := name in mapping.index && mapping.index[name] < |old(args)|;
              && (!mapped || !ok ==> val.None? && View() == old(View()))
              && (!mapped ==> ok)
              && (mapped ==> ok == mapping.transform(name, old(args)[mapping.index[name]]).Some?)
              && (mapped && ok ==>
                    var i := mapping.index[name];
                    var r := mapping.transform(name, old(args)[i]);
                    && val == (if r == Some("") then None else r)
                    && View() == Desk(old(args)[i := ""], next, old(log) + [Taken(name, Mapped(i))]))
    {
      if name !in mapping.index || |args| <= mapping.index[name] { return true, None; }
      var i := mapping.index[name];
      var transformed := mapping.transform(name, args[i]);
      if transformed.None? { return false, None; }
      MappedConsistent(View(), given, name, i);
      args := args[i := ""];
      log := log + [Taken(name, Mapped(i))];
      // A blank value counts as none; the cursor is asked next.
      return true, if transformed.value == "" then None else transformed;
    }

    /** getValueFromArgOrPositional for a leaf that no flag sets. */
    method ParseLeaf(name: string, zero: bool) returns (ok: bool)
      requires Valid() && name !in flags
      modifies this`args, this`next, this`log, this`asked
      ensures Valid() && old(log) <= log
      ensures asked == old(asked) + WantedBy(Leaf(name, zero), flags, mapping.index.Keys)
      ensures ok ==> Some(View()) == Serve(old(View()), Ask(name, zero), mapping)
    {
      hide Consistent, FirstFilled;
      if name in mapping.index || zero { asked := asked + [Ask(name, zero)]; }
      var val;
      ok, val := GetMapped(name);
      if !ok { return; }
      if val.None? && zero {
        val := GetPositional(name);
      }
      if val.Some? { ok := *; } // the text may not parse
    }

    /** A leaf that does not ask is served by doing nothing. */
    lemma LeafServed(d: Desk, name: string, zero: bool)
      requires Open(d) && name !in flags
      ensures ServeAll(d, WantedBy(Leaf(name, zero), flags, mapping.index.Keys), mapping)
              == Serve(d, Ask(name, zero), mapping)
    {
      assert [Ask(name, zero)][..0] == [];
      assert ServeAll(d, [], mapping) == Some(d);
    }

    /** parseField: a flag sets the whole field, structs and the content of an Any are walked. */
    method ParseField(f: Field) returns (ok: bool)
      requires Valid()
      modifies this`args, this`next, this`log, this`asked
      ensures Valid() && old(log) <= log
      ensures ok ==> asked == old(asked) + WantedBy(f, flags, mapping.index.Keys)
      ensures ok ==> Some(View()) == ServeAll(old(View()), WantedBy(f, flags, mapping.index.Keys), mapping)
      decreases f, 0
    {
      assert old(asked) + [] == old(asked);
      hide Consistent, Serve;
      if f.name in flags {
        ok := *;  // the flag's own value may be refused
        return;
      }
      match f {
        case Leaf(name, zero) =>
          ok := ParseLeaf(name, zero);
          LeafServed(old(View()), name, zero);
        case Nested(_, fields) => ok := ParseFields(fields);
        case AnyBox(_, content) =>
          ok := ParseFields(content);
          if ok { ok := *; }  // packing the content again may fail
      }
    }

    /** parseStruct: field by field, up to the first error. */
    method ParseFields(fs: seq<Field>) returns (ok: bool)
      requires Valid()
      modifies this`args, this`next, this`log, this`asked
      ensures Valid() && old(log) <= log
      ensures ok ==> asked == old(asked) + Wanted(fs, flags, mapping.index.Keys)
      ensures ok ==> Some(View()) == ServeAll(old(View()), Wanted(fs, flags, mapping.index.Keys), mapping)
      decreases fs, 1
    {
      ok := true;
      assert Wanted(fs[..0], flags, mapping.index.Keys) == [] && ServeAll(View(), [], mapping) == Some(View());
      assert fs[..0] == [] && old(asked) + [] == old(asked);
      hide Consistent, Serve, ServeAll, Wanted, WantedBy;
      for i := 0 to |fs|
        invariant ok && Valid() && old(log) <= log
        invariant asked == old(asked) + Wanted(fs[..i], flags, mapping.index.Keys)
        invariant Some(View()) == ServeAll(old(View()), Wanted(fs[..i], flags, mapping.index.Keys), mapping)
      {
        ghost var a, b := Wanted(fs[..i], flags, mapping.index.Keys), WantedBy(fs[i], flags, mapping.index.Keys);
        WantedSnoc(fs, i, flags, mapping.index.Keys);
        ServeConcat(old(View()), a, b, mapping);
        ok := ParseField(fs[i]);
        if !ok { return; }
        AsksConcat(old(asked), a, b);
      }
      assert fs[..|fs|] == fs;
    }
  }

  /**
    A transaction command.  Its declared number of arguments is enforced; then the sender is
    filled in and the arguments are handed out.  In a tidy command as many leaves ask as there
    are arguments, and if mappings and arguments are clean, every argument goes to exactly one
    leaf if and only if the cursor never passes an argument before the leaf it is mapped to.
   */
  method RunTx(msg: seq<Field>, mapping: Mapping, flags: set<string>, args: seq<string>)
    returns (ok: bool, parser: ArgParser)
    requires WellFormed(msg, false)
    ensures parser.Valid() && parser.given == args
    ensures ok ==> |args| == NumFields(msg, false, flags, mapping.index.Keys) - |flags|
    ensures ok ==> parser.asked == Wanted(Filled(msg), flags, mapping.index.Keys)
    ensures ok ==> Some(parser.View()) == ServeAll(Desk(args, 0, []), parser.asked, mapping)
    ensures ok && TidyCommand(msg, flags, mapping.index.Keys) ==>
      && |parser.asked| == |args|
      && (Clean(parser.asked, mapping, args) ==>
            && (OneEach(parser.log, |args|) <==> NeverPassed(parser.asked, mapping.index, |args|))
            && (NeverPassed(parser.asked, mapping.index, |args|) ==> Named(parser.log, parser.asked)))
    ensures ok && TidyCommand(msg, flags, {}) && mapping.index.Keys == {} && "" !in args ==>
      parser.log == InOrder(parser.asked)
  {
    hide Named, InOrder, TidyCommand, Clean, OneEach, NeverPassed, Consistent, Serve, Wanted, Filled, NumFields;
    parser := new ArgParser(mapping, flags, args);
    var declared := ParseNumFields(msg, false, flags, mapping.index.Keys);
    if |args| != declared - |flags| { return false, parser; }
    ok := parser.ParseFields(Filled(msg));
    if ok {
      assert [] + Wanted(Filled(msg), flags, mapping.index.Keys) == Wanted(Filled(msg), flags, mapping.index.Keys);
      WantedAsk(Filled(msg), flags, mapping.index.Keys);
      if TidyCommand(msg, flags, mapping.index.Keys) {
        DeclaredIsDemanded(msg, flags, mapping.index.Keys);
        if Clean(parser.asked, mapping, args) { OneEachIff(parser.asked, mapping, args); }
        if mapping.index.Keys == {} && "" !in args { UnmappedInOrder(parser.asked, mapping, args); }
      }
    }
  }
}
