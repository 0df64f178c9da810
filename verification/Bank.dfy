/**
  Balances as the fee decorators of injective-chain/app/ante/fee.go move them: what one
  transfer changes, and what any list of fee payments adds up to.
 */
module Bank {
  import opened Strings

  type Address = string
  datatype Coin = Coin(denom: string, amount: int)

  /** sdk.Coins.IsValid, without the syntax of denominations. */
  predicate IsValid(coins: seq<Coin>) {
    && (forall i :: 0 <= i < |coins| ==> coins[i].amount > 0)
    && (forall i :: 0 < i < |coins| ==> StringLess(coins[i - 1].denom, coins[i].denom))
  }

  predicate IsZero(coins: seq<Coin>) {
    forall i :: 0 <= i < |coins| ==> coins[i].amount == 0
  }

  function AmountOf(coins: seq<Coin>, denom: string): int {
    if coins == [] then 0
    else
      var last := coins[|coins| - 1];
      AmountOf(coins[..|coins| - 1], denom) + if last.denom == denom then last.amount else 0
  }

  lemma {:induction false} ZeroAmount(coins: seq<Coin>, denom: string)
    requires IsZero(coins)
    ensures AmountOf(coins, denom) == 0
  {
    if coins != [] { ZeroAmount(coins[..|coins| - 1], denom); }
  }

  type Balances = map<(Address, string), int>

  function Balance(b: Balances, a: Address, denom: string): int {
    if (a, denom) in b then b[(a, denom)] else 0
  }

  // ---------- transfers ----------

  /** What a transfer adds to the balance of `a`. */
  function Change(a: Address, from: Address, to: Address, coins: seq<Coin>, denom: string): int {
    (if a == to then AmountOf(coins, denom) else 0) - (if a == from then AmountOf(coins, denom) else 0)
  }

  ghost predicate Moved(b: Balances, b': Balances, from: Address, to: Address, coins: seq<Coin>) {
    forall a, d :: Balance(b', a, d) == Balance(b, a, d) + Change(a, from, to, coins, d)
  }

  /** The coins were added to, or taken from, the balances of `a` alone. */
  ghost predicate Applied(b: Balances, b': Balances, a: Address, coins: seq<Coin>, add: bool) {
    forall x, d :: Balance(b', x, d) ==
                   Balance(b, x, d) + if x != a then 0 else if add then AmountOf(coins, d) else -AmountOf(coins, d)
  }

  lemma AmountOfPrefix(coins: seq<Coin>, i: nat, d: string)
    requires i < |coins|
    ensures AmountOf(coins[..i + 1], d) == AmountOf(coins[..i], d) + if coins[i].denom == d then coins[i].amount else 0
  {
    assert coins[..i + 1][..i] == coins[..i];
  }

  lemma ApplyOne(b: Balances, b': Balances, a: Address, coins: seq<Coin>, i: nat, add: bool)
    requires i < |coins| && Applied(b, b', a, coins[..i], add)
    ensures
      var c := coins[i];
      Applied(b, b'[(a, c.denom) := Balance(b', a, c.denom) + if add then c.amount else -c.amount], a,
              coins[..i + 1], add)
  {
    forall d { AmountOfPrefix(coins, i, d); }
  }

  lemma ApplyNone(b: Balances, a: Address, add: bool)
    ensures Applied(b, b, a, [], add)
  {
    forall d { AbsentDenom([], d); }
  }

  ghost predicate NoDebt(b: Balances) {
    forall a, d :: Balance(b, a, d) >= 0
  }

  predicate Affords(b: Balances, a: Address, coins: seq<Coin>) {
    forall i :: 0 <= i < |coins| ==> coins[i].amount <= Balance(b, a, coins[i].denom)
  }

  /** Takes every coin, one after the other, or stops at the first that is not there. */
  method Take(b: Balances, from: Address, coins: seq<Coin>) returns (ok: bool, b': Balances)
    requires IsValid(coins)
    ensures ok <==> Affords(b, from, coins)
    ensures ok ==> Applied(b, b', from, coins, false)
    ensures NoDebt(b) ==> NoDebt(b')
  {
    b' := b;
    assert coins[..0] == [];
    ApplyNone(b, from, false);
    for i := 0 to |coins|
      invariant Applied(b, b', from, coins[..i], false)
      invariant forall k :: 0 <= k < i ==> coins[k].amount <= Balance(b, from, coins[k].denom)
      invariant NoDebt(b) ==> NoDebt(b')
    {
      AmountNotYet(coins, i);
      assert Balance(b', from, coins[i].denom) == Balance(b, from, coins[i].denom);
      if Balance(b', from, coins[i].denom) < coins[i].amount { return false, b'; }
      ApplyOne(b, b', from, coins, i, false);
      b' := b'[(from, coins[i].denom) := Balance(b', from, coins[i].denom) - coins[i].amount];
    }
    ok := true;
    assert coins[..|coins|] == coins;
  }

  method Give(b: Balances, to: Address, coins: seq<Coin>) returns (b': Balances)
    requires IsValid(coins)
    ensures Applied(b, b', to, coins, true)
    ensures NoDebt(b) ==> NoDebt(b')
  {
    b' := b;
    assert coins[..0] == [];
    ApplyNone(b, to, true);
    for i := 0 to |coins|
      invariant Applied(b, b', to, coins[..i], true)
      invariant NoDebt(b) ==> NoDebt(b')
    {
      ApplyOne(b, b', to, coins, i, true);
      b' := b'[(to, coins[i].denom) := Balance(b', to, coins[i].denom) + coins[i].amount];
    }
    assert coins[..|coins|] == coins;
  }

  /** SendCoins; besides a missing coin, a lock or a restriction on the coins can block it. */
  method SendCoins(b: Balances, from: Address, to: Address, coins: seq<Coin>, blocked: bool)
    returns (ok: bool, b': Balances)
    requires IsValid(coins)
    ensures ok <==> !blocked && Affords(b, from, coins)
    ensures ok ==> Moved(b, b', from, to, coins)
    ensures NoDebt(b) ==> NoDebt(b')
  {
    b' := b;
    if blocked { return false, b'; }
    ok, b' := Take(b, from, coins);
    if ok { b' := Give(b', to, coins); }
  }

  lemma {:induction false} LaterDenomGreater(coins: seq<Coin>, k: nat, i: nat)
    requires IsValid(coins) && k < i < |coins|
    ensures StringLess(coins[k].denom, coins[i].denom)
  {
    if k + 1 < i {
      LaterDenomGreater(coins, k, i - 1);
      StringTransitive(coins[k].denom, coins[i - 1].denom, coins[i].denom);
    }
  }

  /** In valid coins a denomination occurs once. */
  lemma {:induction false} AmountNotYet(coins: seq<Coin>, i: nat)
    requires IsValid(coins) && i < |coins|
    ensures AmountOf(coins[..i], coins[i].denom) == 0
  {
    var d := coins[i].denom;
    forall k: nat | k < i
      ensures coins[k].denom != d
    {
      LaterDenomGreater(coins, k, i);
      StringIrreflexive(d);
    }
    AbsentDenom(coins[..i], d);
  }

  lemma {:induction false} AbsentDenom(coins: seq<Coin>, d: string)
    requires forall k :: 0 <= k < |coins| ==> coins[k].denom != d
    ensures AmountOf(coins, d) == 0
  {
    if coins != [] { AbsentDenom(coins[..|coins| - 1], d); }
  }

  // ---------- payments ----------

  /** A fee taken from `payer` by one accepted transaction. */
  datatype Payment = Payment(payer: Address, fee: seq<Coin>)

  /** What a list of payments into `pool` adds to the balance of `a`. */
  function Flow(payments: seq<Payment>, pool: Address, a: Address, d: string): int {
    if payments == [] then 0
    else
      var p := payments[|payments| - 1];
      Flow(payments[..|payments| - 1], pool, a, d) + Change(a, p.payer, pool, p.fee, d)
  }

  /** Fees paid by others than the pool itself. */
  function PaidByOthers(payments: seq<Payment>, pool: Address, d: string): int {
    if payments == [] then 0
    else
      var p := payments[|payments| - 1];
      PaidByOthers(payments[..|payments| - 1], pool, d) + if p.payer == pool then 0 else AmountOf(p.fee, d)
  }

  lemma {:induction false} PoolGains(payments: seq<Payment>, pool: Address, d: string)
    ensures Flow(payments, pool, pool, d) == PaidByOthers(payments, pool, d)
  {
    if payments != [] { PoolGains(payments[..|payments| - 1], pool, d); }
  }

  ghost predicate Distinct(holders: seq<Address>) {
    forall i, j :: 0 <= i < j < |holders| ==> holders[i] != holders[j]
  }

  /** Sum of the balances of the holders. */
  function Total(b: Balances, holders: seq<Address>, d: string): int {
    if holders == [] then 0
    else Total(b, holders[..|holders| - 1], d) + Balance(b, holders[|holders| - 1], d)
  }

  function TotalChange(holders: seq<Address>, p: Payment, pool: Address, d: string): int {
    if holders == [] then 0
    else
      TotalChange(holders[..|holders| - 1], p, pool, d) + Change(holders[|holders| - 1], p.payer, pool, p.fee, d)
  }

  function TotalFlow(holders: seq<Address>, payments: seq<Payment>, pool: Address, d: string): int {
    if holders == [] then 0
    else
      TotalFlow(holders[..|holders| - 1], payments, pool, d) + Flow(payments, pool, holders[|holders| - 1], d)
  }

  lemma {:induction false} ChangeOfHolders(holders: seq<Address>, p: Payment, pool: Address, d: string)
    requires Distinct(holders)
    ensures TotalChange(holders, p, pool, d) ==
            (if pool in holders then AmountOf(p.fee, d) else 0) - (if p.payer in holders then AmountOf(p.fee, d) else 0)
  {
    if holders != [] {
      var init, last := holders[..|holders| - 1], holders[|holders| - 1];
      assert holders == init + [last] && last !in init;
      ChangeOfHolders(init, p, pool, d);
    }
  }

  lemma {:induction false} FlowOfHolders(holders: seq<Address>, payments: seq<Payment>, pool: Address, d: string)
    requires payments != []
    ensures TotalFlow(holders, payments, pool, d) ==
            TotalFlow(holders, payments[..|payments| - 1], pool, d) +
            TotalChange(holders, payments[|payments| - 1], pool, d)
  {
    if holders != [] { FlowOfHolders(holders[..|holders| - 1], payments, pool, d); }
  }

  lemma {:induction false} NoPaymentsNoFlow(holders: seq<Address>, pool: Address, d: string)
    ensures TotalFlow(holders, [], pool, d) == 0
  {
    if holders != [] { NoPaymentsNoFlow(holders[..|holders| - 1], pool, d); }
  }

  /** Payments between holders cancel out. */
  lemma {:induction false} FlowCancels(holders: seq<Address>, payments: seq<Payment>, pool: Address, d: string)
    requires Distinct(holders) && pool in holders
    requires forall k :: 0 <= k < |payments| ==> payments[k].payer in holders
    ensures TotalFlow(holders, payments, pool, d) == 0
    decreases |payments|
  {
    if payments == [] {
      NoPaymentsNoFlow(holders, pool, d);
    } else {
      var n := |payments| - 1;
      FlowOfHolders(holders, payments, pool, d);
      ChangeOfHolders(holders, payments[n], pool, d);
      FlowCancels(holders, payments[..n], pool, d);
    }
  }

  /** The balances `b` after `payments` into `pool`. */
  ghost predicate Ledger(b: Balances, b': Balances, payments: seq<Payment>, pool: Address) {
    forall a, d :: Balance(b', a, d) == Balance(b, a, d) + Flow(payments, pool, a, d)
  }

  lemma {:induction false} LedgerTotals(
    b: Balances, b': Balances, payments: seq<Payment>, pool: Address, holders: seq<Address>, d: string)
    requires Ledger(b, b', payments, pool)
    ensures Total(b', holders, d) == Total(b, holders, d) + TotalFlow(holders, payments, pool, d)
  {
    if holders != [] { LedgerTotals(b, b', payments, pool, holders[..|holders| - 1], d); }
  }

  /**
    Whoever paid, the coins of all holders together stay the same, and the pool gains exactly
    the fees that others paid.
   */
  lemma LedgerConserves(
    b: Balances, b': Balances, payments: seq<Payment>, pool: Address, holders: seq<Address>, d: string)
    requires Ledger(b, b', payments, pool) && Distinct(holders) && pool in holders
    requires forall k :: 0 <= k < |payments| ==> payments[k].payer in holders
    ensures Total(b', holders, d) == Total(b, holders, d)
    ensures Balance(b', pool, d) == Balance(b, pool, d) + PaidByOthers(payments, pool, d)
  {
    LedgerTotals(b, b', payments, pool, holders, d);
    FlowCancels(holders, payments, pool, d);
    PoolGains(payments, pool, d);
  }

  lemma LedgerExtends(b: Balances, b': Balances, b'': Balances, payments: seq<Payment>, p: Payment, pool: Address)
    requires Ledger(b, b', payments, pool)
    requires Moved(b', b'', p.payer, pool, p.fee)
    ensures Ledger(b, b'', payments + [p], pool)
  {
    assert (payments + [p])[..|payments|] == payments;
  }
}
