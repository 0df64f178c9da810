/**
  Command-line arguments of generated transaction commands (cli/parsers.go, cli/tx.go).

  The number of arguments a command declares is computed by one walk over an empty message,
  the arguments are handed out by another walk over the message with its sender filled in.
  A message is a tree of fields; the text of a value and the parsing of a single value are not
  modelled.
 */
module CliArgs {

  /** A leaf is any field set from one string; `zero` says that it has no value yet. */
  datatype Field =
    | Leaf(name: string, zero: bool)
    | Nested(name: string, fields: seq<Field>)
    | AnyBox(name: string, content: seq<Field>)

  /** isFilledFromCtx */
  predicate FromCtx(name: string) {
    name in {"Sender", "SubaccountId", "FeeRecipient", "Proposer", "Granter", "SourceSubaccountId"}
  }

  /**
    Which messages the walks accept: sender-like fields are leaves, and an Any is never nil,
    so that none occurs inside a struct that is counted from an empty value (`blank`).
   */
  predicate WellFormed(fs: seq<Field>, blank: bool)
    decreases fs
  {
    fs == [] ||
    var n := |fs| - 1;
    && WellFormed(fs[..n], blank)
    && match fs[n]
       case Leaf(_, _) => true
       case Nested(name, fields) => !FromCtx(name) && WellFormed(fields, true)
       case AnyBox(name, content) => !FromCtx(name) && !blank && WellFormed(content, false)
  }

  // ---------- the number of arguments ----------

  /** What the count of parseNumFields must come to. */
  function NumFields(fs: seq<Field>, blank: bool, flags: set<string>, mapped: set<string>): int
    decreases fs, 1
  {
    if fs == [] then 0
    else NumFields(fs[..|fs| - 1], blank, flags, mapped) + NumField(fs[|fs| - 1], blank, flags, mapped)
  }

  function NumField(f: Field, blank: bool, flags: set<string>, mapped: set<string>): int
    decreases f, 0
  {
    if FromCtx(f.name) then (if f.name in flags || f.name in mapped then 1 else 0)
    else
      match f
      case Leaf(_, zero) => if blank || zero then 1 else 0
      case Nested(_, fields) => NumFields(fields, true, flags, mapped)
      case AnyBox(_, content) => NumFields(content, false, flags, mapped)
  }

  /** A field without a value needs an argument, unless it is one of the six filled in from the sender. */
  lemma SenderNeedsNoArgument(name: string, blank: bool)
    ensures NumFields([Leaf(name, true)], blank, {}, {}) ==
            if name == "Sender" || name == "SubaccountId" || name == "FeeRecipient" || name == "Proposer"
               || name == "Granter" || name == "SourceSubaccountId"
            then 0 else 1
  {
    assert [Leaf(name, true)][..0] == [];
  }

  /** parseNumFields: starts from the number of fields and corrects it field by field. */
  method ParseNumFields(fs: seq<Field>, blank: bool, flags: set<string>, mapped: set<string>) returns (num: int)
    requires WellFormed(fs, blank)
    ensures num == NumFields(fs, blank, flags, mapped)
    decreases fs
  {
    num := |fs|;
    for i := 0 to |fs|
      invariant num == |fs| - i + NumFields(fs[..i], blank, flags, mapped)
    {
      WellFormedAt(fs, blank, i);
      assert fs[..i + 1][..i] == fs[..i];
      if FromCtx(fs[i].name) {
        if fs[i].name !in flags && fs[i].name !in mapped { num := num - 1; }
      } else {
        match fs[i] {
          case Leaf(_, zero) =>
            if !blank && !zero { num := num - 1; }
          case Nested(_, fields) =>
            var inner := ParseNumFields(fields, true, flags, mapped);
            num := num + inner - 1;
          case AnyBox(_, content) =>
            var inner := ParseNumFields(content, false, flags, mapped);
            num := num + inner - 1;
        }
      }
    }
    assert fs[..|fs|] == fs;
  }

  lemma {:induction false} WellFormedAt(fs: seq<Field>, blank: bool, i: nat)
    requires WellFormed(fs, blank) && i < |fs|
    ensures fs[i].Nested? ==> WellFormed(fs[i].fields, true)
    ensures fs[i].AnyBox? ==> WellFormed(fs[i].content, false)
  {
    if i < |fs| - 1 { WellFormedAt(fs[..|fs| - 1], blank, i); }
  }

  // ---------- the values that parsing asks for ----------

  /** fillSenderFromCtx: sender-like leaves get a value, except inside an Any. */
  function Filled(fs: seq<Field>): (r: seq<Field>)
    ensures |r| == |fs|
    decreases fs, 1
  {
    if fs == [] then [] else Filled(fs[..|fs| - 1]) + [FilledField(fs[|fs| - 1])]
  }

  function FilledField(f: Field): Field
    decreases f, 0
  {
    match f
    case Leaf(name, zero) => Leaf(name, zero && !FromCtx(name))
    case Nested(name, fields) => Nested(name, Filled(fields))
    case AnyBox(_, _) => f
  }

  /** A leaf that asks for an argument. */
  datatype Ask = Ask(name: string, zero: bool)

  /** The leaves that ask for an argument, in the order of parsing. */
  function Wanted(fs: seq<Field>, flags: set<string>, mapped: set<string>): seq<Ask>
    decreases fs, 1
  {
    if fs == [] then [] else Wanted(fs[..|fs| - 1], flags, mapped) + WantedBy(fs[|fs| - 1], flags, mapped)
  }

  function WantedBy(f: Field, flags: set<string>, mapped: set<string>): seq<Ask>
    decreases f, 0
  {
    if f.name in flags then []
    else
      match f
      case Leaf(name, zero) => if name in mapped || zero then [Ask(name, zero)] else []
      case Nested(_, fields) => Wanted(fields, flags, mapped)
      case AnyBox(_, content) => Wanted(content, flags, mapped)
  }

  // ---------- the two walks agree ----------

  /** Names of all leaves. */
  function LeafNames(fs: seq<Field>): seq<string>
    decreases fs, 1
  {
    if fs == [] then [] else LeafNames(fs[..|fs| - 1]) + LeafNamesOf(fs[|fs| - 1])
  }

  function LeafNamesOf(f: Field): seq<string>
    decreases f, 0
  {
    match f
    case Leaf(name, _) => [name]
    case Nested(_, fields) => LeafNames(fields)
    case AnyBox(_, content) => LeafNames(content)
  }

  /**
    What a command author must keep to: flags and index mappings name leaves that have no
    value yet or get it from the context; nested structs start out empty; nothing inside an
    Any (`sender` is false there) is sender-like.
   */
  predicate Tidy(fs: seq<Field>, blank: bool, sender: bool, flags: set<string>, mapped: set<string>)
    decreases fs, 1
  {
    fs == [] || (Tidy(fs[..|fs| - 1], blank, sender, flags, mapped)
                 && TidyField(fs[|fs| - 1], blank, sender, flags, mapped))
  }

  predicate TidyField(f: Field, blank: bool, sender: bool, flags: set<string>, mapped: set<string>)
    decreases f, 0
  {
    match f
    case Leaf(name, zero) =>
      if FromCtx(name) then sender else (blank || name in flags || name in mapped ==> zero)
    case Nested(name, fields) => name !in flags && Tidy(fields, true, sender, flags, mapped)
    case AnyBox(name, content) => name !in flags && Tidy(content, false, false, flags, mapped)
  }

  function CountIn(names: seq<string>, keys: set<string>): nat {
    if names == [] then 0 else CountIn(names[..|names| - 1], keys) + if names[|names| - 1] in keys then 1 else 0
  }

  lemma {:induction false} CountInConcat(a: seq<string>, b: seq<string>, keys: set<string>)
    ensures CountIn(a + b, keys) == CountIn(a, keys) + CountIn(b, keys)
  {
    if b == [] {
      assert a + b == a;
    } else {
      var n := |b| - 1;
      assert (a + b)[..|a| + n] == a + b[..n];
      CountInConcat(a, b[..n], keys);
    }
  }

  /** Counted fields are the wanted ones and those that a flag sets. */
  ghost predicate Balanced(
    fs: seq<Field>, filled: seq<Field>, blank: bool, flags: set<string>, mapped: set<string>) {
    NumFields(fs, blank, flags, mapped) == |Wanted(filled, flags, mapped)| + CountIn(LeafNames(fs), flags)
  }

  ghost predicate FieldBalanced(f: Field, filled: Field, blank: bool, flags: set<string>, mapped: set<string>) {
    NumField(f, blank, flags, mapped) == |WantedBy(filled, flags, mapped)| + CountIn(LeafNamesOf(f), flags)
  }

  lemma BalancedAppend(
    fs: seq<Field>, filled: seq<Field>, f: Field, g: Field, blank: bool, flags: set<string>, mapped: set<string>)
    requires Balanced(fs, filled, blank, flags, mapped) && FieldBalanced(f, g, blank, flags, mapped)
    ensures Balanced(fs + [f], filled + [g], blank, flags, mapped)
  {
    hide NumField, WantedBy, LeafNamesOf, CountIn;
    assert (fs + [f])[..|fs|] == fs && (filled + [g])[..|filled|] == filled;
    CountInConcat(LeafNames(fs), LeafNamesOf(f), flags);
  }

  lemma LeafBalanced(name: string, zero: bool, blank: bool, sender: bool, flags: set<string>, mapped: set<string>)
    requires TidyField(Leaf(name, zero), blank, sender, flags, mapped)
    ensures FieldBalanced(Leaf(name, zero), FilledField(Leaf(name, zero)), blank, flags, mapped)
    ensures !sender ==> FieldBalanced(Leaf(name, zero), Leaf(name, zero), blank, flags, mapped)
  {
    hide FromCtx;
    assert LeafNamesOf(Leaf(name, zero)) == [name];
    assert [name][..0] == [];
    assert CountIn([name], flags) == if name in flags then 1 else 0;
  }

  lemma NestedBalanced(
    name: string, fields: seq<Field>, filled: seq<Field>, blank: bool, flags: set<string>, mapped: set<string>)
    requires !FromCtx(name) && name !in flags && Balanced(fields, filled, true, flags, mapped)
    ensures FieldBalanced(Nested(name, fields), Nested(name, filled), blank, flags, mapped)
  {
    hide FromCtx, NumFields, Wanted, LeafNames, CountIn;
  }

  lemma AnyBalanced(name: string, content: seq<Field>, blank: bool, flags: set<string>, mapped: set<string>)
    requires !FromCtx(name) && name !in flags && Balanced(content, content, false, flags, mapped)
    ensures FieldBalanced(AnyBox(name, content), AnyBox(name, content), blank, flags, mapped)
  {
    hide FromCtx, NumFields, Wanted, LeafNames, CountIn;
  }

  /** What the hypotheses say about the last field and those before it. */
  lemma TidyLast(fs: seq<Field>, blank: bool, sender: bool, flags: set<string>, mapped: set<string>)
    requires fs != [] && WellFormed(fs, blank) && Tidy(fs, blank, sender, flags, mapped)
    ensures WellFormed(fs[..|fs| - 1], blank) && Tidy(fs[..|fs| - 1], blank, sender, flags, mapped)
    ensures var last := fs[|fs| - 1];
            && (if last.Leaf? then TidyField(last, blank, sender, flags, mapped)
                else !FromCtx(last.name) && last.name !in flags)
            && (last.Nested? ==> WellFormed(last.fields, true) && Tidy(last.fields, true, sender, flags, mapped))
            && (last.AnyBox? ==> WellFormed(last.content, false) && Tidy(last.content, false, false, flags, mapped))
  {
    hide FromCtx;
  }

  lemma NothingBalanced(blank: bool, flags: set<string>, mapped: set<string>)
    ensures Balanced([], [], blank, flags, mapped)
  {}

  /** In a tidy message the two walks balance, once the sender is filled in. */
  lemma {:induction false} WalksBalance(fs: seq<Field>, blank: bool, flags: set<string>, mapped: set<string>)
    requires WellFormed(fs, blank) && Tidy(fs, blank, true, flags, mapped)
    ensures Balanced(fs, Filled(fs), blank, flags, mapped)
    decreases fs
  {
    hide WellFormed, Tidy, TidyField, FromCtx, Balanced, FieldBalanced;
    if fs == [] {
      NothingBalanced(blank, flags, mapped);
    } else {
      var n := |fs| - 1;
      var init, last := fs[..n], fs[n];
      TidyLast(fs, blank, true, flags, mapped);
      WalksBalance(init, blank, flags, mapped);
      match last {
        case Leaf(name, zero) => LeafBalanced(name, zero, blank, true, flags, mapped);
        case Nested(name, fields) =>
          WalksBalance(fields, true, flags, mapped);
          NestedBalanced(name, fields, Filled(fields), blank, flags, mapped);
        case AnyBox(name, content) =>
          AnyWalksBalance(content, false, flags, mapped);
          AnyBalanced(name, content, blank, flags, mapped);
      }
      BalancedAppend(init, Filled(init), last, FilledField(last), blank, flags, mapped);
      assert init + [last] == fs;
    }
  }

  /** The same inside an Any, whose leaves the context does not fill. */
  lemma {:induction false} AnyWalksBalance(fs: seq<Field>, blank: bool, flags: set<string>, mapped: set<string>)
    requires WellFormed(fs, blank) && Tidy(fs, blank, false, flags, mapped)
    ensures Balanced(fs, fs, blank, flags, mapped)
    decreases fs
  {
    hide WellFormed, Tidy, TidyField, FromCtx, Balanced, FieldBalanced;
    if fs == [] {
      NothingBalanced(blank, flags, mapped);
    } else {
      var n := |fs| - 1;
      var init, last := fs[..n], fs[n];
      TidyLast(fs, blank, false, flags, mapped);
      AnyWalksBalance(init, blank, flags, mapped);
      match last {
        case Leaf(name, zero) => LeafBalanced(name, zero, blank, false, flags, mapped);
        case Nested(name, fields) =>
          AnyWalksBalance(fields, true, flags, mapped);
          NestedBalanced(name, fields, fields, blank, flags, mapped);
        case AnyBox(name, content) =>
          AnyWalksBalance(content, false, flags, mapped);
          AnyBalanced(name, content, blank, flags, mapped);
      }
      BalancedAppend(init, init, last, last, blank, flags, mapped);
      assert init + [last] == fs;
    }
  }

  lemma {:induction false} CountInRemove(names: seq<string>, keys: set<string>, k: string)
    requires k in keys
    ensures CountIn(names, keys) == CountIn(names, keys - {k}) + multiset(names)[k]
  {
    if names != [] {
      var n := |names| - 1;
      assert names == names[..n] + [names[n]];
      CountInRemove(names[..n], keys, k);
    }
  }

  lemma {:induction false} CountInNone(names: seq<string>, keys: set<string>)
    requires names == [] || keys == {}
    ensures CountIn(names, keys) == 0
  {
    if names != [] { CountInNone(names[..|names| - 1], keys); }
  }

  lemma {:induction false} EachOnce(names: seq<string>, keys: set<string>)
    requires forall k :: k in keys ==> multiset(names)[k] == 1
    ensures CountIn(names, keys) == |keys|
    decreases |keys|
  {
    if keys == {} {
      CountInNone(names, keys);
    } else {
      var k :| k in keys;
      CountInRemove(names, keys, k);
      EachOnce(names, keys - {k});
    }
  }

  /** A tidy message of which every flag names exactly one leaf. */
  ghost predicate TidyCommand(msg: seq<Field>, flags: set<string>, mapped: set<string>) {
    Tidy(msg, false, true, flags, mapped) && forall k :: k in flags ==> multiset(LeafNames(msg))[k] == 1
  }

  /** The command declares exactly as many arguments as parsing will ask for. */
  lemma DeclaredIsDemanded(msg: seq<Field>, flags: set<string>, mapped: set<string>)
    requires WellFormed(msg, false) && TidyCommand(msg, flags, mapped)
    ensures NumFields(msg, false, flags, mapped) - |flags| == |Wanted(Filled(msg), flags, mapped)|
  {
    WalksBalance(msg, false, flags, mapped);
    EachOnce(LeafNames(msg), flags);
  }
}
