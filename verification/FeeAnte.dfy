/**
  The fee decorators of injective-chain/app/ante/fee.go inside the two decorator chains that
  use them (injective-chain/app/ante/ante.go): who pays, and what happens to the coins.

  The decorators of other packages, the price check and the fee-grant keeper are answers in
  the request.  A transaction that any decorator rejects leaves the balances as they were.
 */
module FeeAnte {
  import opened Options
  import opened Bank
  import opened Eip712

  /**
    A transaction, with the accounts as they stand once public keys are set, the fee the
    checker returned, whether a fee grant allows the fee, whether a lock or restriction blocks
    the transfer, and whether the remaining decorators accept.
   */
  datatype Request = Request(
    ctx: Context, tx: Tx, accounts: Accounts, checkedFee: Option<seq<Coin>>,
    grantAllows: bool, transferBlocked: bool, othersAccept: bool)

  datatype Route = Web3Route | NormalRoute | NotHandled

  /** NewAnteHandler routes by the first extension option alone. */
  function RouteOf(tx: Tx): Route {
    if tx.extensions == [] then NormalRoute
    else if tx.extensions[0].OtherOption? then NotHandled
    else Web3Route
  }

  /** The fee that is due: simulation takes the transaction's word for it. */
  function FeeDue(req: Request): Option<seq<Coin>> {
    if req.ctx.simulate then Some(req.tx.fee) else req.checkedFee
  }

  /** The delegate named by the first option, or the transaction's own fee payer. */
  function NamedPayer(lib: Library, tx: Tx): Option<Address> {
    match Delegation(tx)
    case None => Some(tx.feePayer)
    case Some(option) => lib.fromBech32(option.feePayer)
  }

  predicate GasMissing(req: Request) {
    !req.ctx.simulate && req.ctx.height > 0 && req.tx.gas == 0
  }

  /** The fee can be taken from `payer`. */
  predicate Payable(b: Balances, payer: Address, fee: seq<Coin>, blocked: bool) {
    IsZero(fee) || (IsValid(fee) && !blocked && Affords(b, payer, fee))
  }

  /** A Web3 transaction names a payer, in a readable option, from whom the fee can be taken. */
  predicate Web3Payable(lib: Library, b: Balances, req: Request) {
    && !GasMissing(req) && FeeDue(req).Some?
    && !(req.tx.extensions != [] && req.tx.extensions[0].Unreadable?)
    && NamedPayer(lib, req.tx).Some? && NamedPayer(lib, req.tx).value in req.accounts
    && Payable(b, NamedPayer(lib, req.tx).value, FeeDue(req).value, req.transferBlocked)
  }

  /** The fee can be taken from the fee payer, or from a granter whose grant allows it. */
  predicate NormalPayable(b: Balances, req: Request, feegrantEnabled: bool) {
    var granter := req.tx.feeGranter;
    var payer := if granter.Some? then granter.value else req.tx.feePayer;
    && !GasMissing(req) && FeeDue(req).Some? && payer in req.accounts
    && (granter.Some? ==> feegrantEnabled && (payer == req.tx.feePayer || req.grantAllows))
    && Payable(b, payer, FeeDue(req).value, req.transferBlocked)
  }

  class AnteHandler {
    const lib: Library
    /** Address of the auction module's fee subaccount. */
    const pool: Address
    const feeCollectorSet: bool
    const feegrantEnabled: bool
    var balances: Balances

    ghost const initial: Balances
    /** Every address that ever has an account. */
    ghost const known: set<Address>
    ghost var payments: seq<Payment>

    ghost predicate Valid()
      reads this
    {
      && Ledger(initial, balances, payments, pool)
      && forall k :: 0 <= k < |payments| ==> payments[k].payer in known
    }

    constructor (
      lib: Library, pool: Address, feeCollectorSet: bool, feegrantEnabled: bool, balances: Balances,
      ghost known: set<Address>)
      ensures Valid() && this.balances == balances == initial && payments == [] && this.known == known
      ensures this.lib == lib && this.pool == pool
      ensures this.feeCollectorSet == feeCollectorSet && this.feegrantEnabled == feegrantEnabled
    {
      this.lib, this.pool, this.feeCollectorSet, this.feegrantEnabled := lib, pool, feeCollectorSet, feegrantEnabled;
      this.balances, initial, this.known, payments := balances, balances, known, [];
    }

    /** What the two chains ask of a transaction, apart from the decorators of other packages. */
    ghost predicate Acceptable(b: Balances, req: Request) {
      match RouteOf(req.tx)
      case NotHandled => false
      case NormalRoute => NormalPayable(b, req, feegrantEnabled)
      case Web3Route =>
        && feeCollectorSet && Web3Payable(lib, b, req)
        && (req.ctx.recheck || AllPass(lib, req.ctx, req.tx, req.accounts))
    }

    /** The coins of the fee are all there, or there is nothing to take. */
    ghost predicate Covered(b: Balances, req: Request, payer: Address) {
      var fee := if req.ctx.simulate || req.checkedFee.None? then req.tx.fee else req.checkedFee.value;
      || (forall c :: c in fee ==> c.amount == 0)
      || (IsValid(fee) && !req.transferBlocked && forall c :: c in fee ==> c.amount <= Balance(b, payer, c.denom))
    }

    /** A transaction without options is accepted exactly if its granter, or else its fee payer, can pay. */
    lemma NormalAcceptedIff(b: Balances, req: Request)
      requires req.tx.extensions == []
      ensures var granter := req.tx.feeGranter;
              var payer := if granter.Some? then granter.value else req.tx.feePayer;
              Acceptable(b, req) <==>
                && (req.ctx.simulate || req.ctx.height == 0 || req.tx.gas > 0)
                && (req.ctx.simulate || req.checkedFee.Some?)
                && payer in req.accounts && Covered(b, req, payer)
                && (granter.Some? ==> feegrantEnabled && (payer == req.tx.feePayer || req.grantAllows))
    {
    }

    /**
      A Web3 transaction is accepted exactly if the delegate, or without one the fee payer, can pay,
      and outside simulation and recheck every signer signed, and the delegate with each of them.
     */
    lemma Web3AcceptedIff(b: Balances, req: Request)
      requires req.tx.extensions != [] && req.tx.extensions[0].Web3Option?
      requires !req.ctx.simulate && !req.ctx.recheck && req.tx.signers != []
      ensures var option := req.tx.extensions[0].option;
              var payer := if option.feePayer == [] then Some(req.tx.feePayer) else lib.fromBech32(option.feePayer);
              Acceptable(b, req) <==>
                && feeCollectorSet && (req.ctx.height == 0 || req.tx.gas > 0) && req.checkedFee.Some?
                && payer.Some? && payer.value in req.accounts && Covered(b, req, payer.value)
                && OptionUsable(lib, req.ctx, req.tx)
                && req.tx.signatures.Some? && |req.tx.signatures.value| == |req.tx.signers|
                && (forall i :: 0 <= i < |req.tx.signers| ==>
                      && SignerSigned(lib, req.ctx, req.tx, req.accounts, i)
                      && (option.feePayer != [] ==>
                            DelegateSigned(lib, req.ctx, req.tx, req.accounts, i, option, payer.value)))
    {
      if req.tx.signatures.Some? && |req.tx.signatures.value| == |req.tx.signers| {
        hide SignerPasses, SignerSigned, DelegateSigned, OptionUsable;
        forall i | 0 <= i < |req.tx.signers| { PassesIff(lib, req.ctx, req.tx, req.accounts, i); }
        assert AllPass(lib, req.ctx, req.tx, req.accounts) ==> SignerPasses(lib, req.ctx, req.tx, req.accounts, 0);
      }
    }

    /** DeductFees: a fee of nothing moves nothing. */
    method DeductFees(payer: Address, fee: seq<Coin>, blocked: bool) returns (ok: bool)
      modifies this`balances
      ensures ok <==> Payable(old(balances), payer, fee, blocked)
      ensures ok ==> Moved(old(balances), balances, payer, pool, fee)
      ensures NoDebt(old(balances)) ==> NoDebt(balances)
    {
      if IsZero(fee) {
        forall d { ZeroAmount(fee, d); }
        return true;
      }
      if !IsValid(fee) { return false; }
      ok, balances := SendCoins(balances, payer, pool, fee, blocked);
    }

    /** DeductFeeDecorator: the first option's fee payer, if it names one, else the transaction's. */
    method DeductFee(req: Request) returns (paid: Option<Payment>)
      modifies this`balances
      ensures paid.Some? <==> feeCollectorSet && Web3Payable(lib, old(balances), req)
      ensures paid.Some? ==> Moved(old(balances), balances, paid.value.payer, pool, paid.value.fee)
      ensures paid.Some? ==> Some(paid.value.fee) == FeeDue(req) && paid.value.payer in req.accounts
      ensures paid.Some? ==> NamedPayer(lib, req.tx) == Some(paid.value.payer)
      ensures NoDebt(old(balances)) ==> NoDebt(balances)
    {
      var tx := req.tx;
      if GasMissing(req) || !feeCollectorSet { return None; }
      var feeDelegated, feePayer := false, tx.feePayer;
      if tx.extensions != [] {
        match tx.extensions[0] {
          case Unreadable => return None;
          case OtherOption =>
          case Web3Option(option) =>
            if option.feePayer != [] {
              var parsed := lib.fromBech32(option.feePayer);
              if parsed.None? { return None; }
              feeDelegated, feePayer := true, parsed.value;
            }
        }
      }
      if !feeDelegated { feePayer := tx.feePayer; }
      if feePayer !in req.accounts { return None; }
      var fee := FeeDue(req);
      if fee.None? { return None; }
      var ok := DeductFees(feePayer, fee.value, req.transferBlocked);
      return if ok then Some(Payment(feePayer, fee.value)) else None;
    }

    /** AuctionFeeDecorator: a fee granter pays in place of the fee payer, if the grant allows it. */
    method CheckDeductFee(req: Request) returns (paid: Option<Payment>)
      modifies this`balances
      ensures paid.Some? <==> NormalPayable(old(balances), req, feegrantEnabled)
      ensures paid.Some? ==> Moved(old(balances), balances, paid.value.payer, pool, paid.value.fee)
      ensures paid.Some? ==> Some(paid.value.fee) == FeeDue(req) && paid.value.payer in req.accounts
      ensures paid.Some? ==>
        match req.tx.feeGranter
        case None => paid.value.payer == req.tx.feePayer
        case Some(granter) =>
          paid.value.payer == granter && feegrantEnabled && (granter == req.tx.feePayer || req.grantAllows)
      ensures NoDebt(old(balances)) ==> NoDebt(balances)
    {
      if GasMissing(req) { return None; }
      var fee := FeeDue(req);
      if fee.None? { return None; }
      var deductFeesFrom := req.tx.feePayer;
      if req.tx.feeGranter.Some? {
        if !feegrantEnabled { return None; }
        if req.tx.feeGranter.value != req.tx.feePayer && !req.grantAllows { return None; }
        deductFeesFrom := req.tx.feeGranter.value;
      }
      if deductFeesFrom !in req.accounts { return None; }
      var ok := DeductFees(deductFeesFrom, fee.value, req.transferBlocked);
      return if ok then Some(Payment(deductFeesFrom, fee.value)) else None;
    }

    /**
      One transaction.  In the Web3 chain the fee is taken before the signatures are checked,
      so a bad signature has to take the payment back.
     */
    method Handle(req: Request) returns (paid: Option<Payment>)
      requires Valid() && req.accounts.Keys <= known
      modifies this`balances, this`payments
      ensures Valid()
      ensures paid.Some? <==> req.othersAccept && Acceptable(old(balances), req)
      ensures paid.None? ==> balances == old(balances) && payments == old(payments)
      ensures paid.Some? ==>
        && payments == old(payments) + [paid.value]
        && Moved(old(balances), balances, paid.value.payer, pool, paid.value.fee)
        && Some(paid.value.fee) == FeeDue(req)
      ensures paid.Some? && RouteOf(req.tx).Web3Route? && !req.ctx.simulate && !req.ctx.recheck && req.tx.signers != []
              ==> Authorised(lib, req.ctx, req.tx, req.accounts, paid.value.payer)
      ensures paid.Some? && RouteOf(req.tx).Web3Route? && !req.ctx.simulate && !req.ctx.recheck ==>
                && req.tx.signatures.Some? && |req.tx.signatures.value| == |req.tx.signers|
                && (forall i :: 0 <= i < |req.tx.signers| ==> SignerSigned(lib, req.ctx, req.tx, req.accounts, i))
                && (req.tx.signers != [] ==> OptionUsable(lib, req.ctx, req.tx))
      ensures paid.Some? && req.ctx.simulate ==> paid.value.fee == req.tx.fee
      ensures paid.Some? && !req.ctx.simulate ==>
                req.checkedFee == Some(paid.value.fee) && (req.ctx.height > 0 ==> req.tx.gas > 0)
      ensures paid.Some? && RouteOf(req.tx).NormalRoute? ==>
        || paid.value.payer == req.tx.feePayer
        || (req.tx.feeGranter == Some(paid.value.payer) && feegrantEnabled && req.grantAllows)
      ensures NoDebt(old(balances)) ==> NoDebt(balances)
    {
      var before := balances;
      paid := None;
      var accepted := req.othersAccept;
      match RouteOf(req.tx) {
        case NotHandled => return;
        case NormalRoute =>
          paid := CheckDeductFee(req);
        case Web3Route =>
          paid := DeductFee(req);
          var verified := CheckSignatures(lib, req.ctx, req.tx, req.accounts);
          accepted := accepted && verified;
          if accepted && paid.Some? {
            ConsentChecked(lib, req, paid.value.payer);
            if !req.ctx.recheck && !req.ctx.simulate {
              AllPassMeansSigned(lib, req.ctx, req.tx, req.accounts);
            }
          }
      }
      if accepted && paid.Some? {
        LedgerExtends(initial, before, balances, payments, paid.value, pool);
        payments := payments + [paid.value];
      } else {
        paid := None;
        balances := before;
      }
    }

    /**
      Any run of transactions: nothing is created or lost, and the auction fee subaccount
      gains exactly the fees that others paid.
     */
    method HandleAll(reqs: seq<Request>)
      requires Valid() && forall k :: 0 <= k < |reqs| ==> reqs[k].accounts.Keys <= known
      modifies this`balances, this`payments
      ensures Valid() && old(payments) <= payments
      ensures NoDebt(old(balances)) ==> NoDebt(balances)
      ensures forall holders, d :: Distinct(holders) && pool in holders && (forall a :: a in known ==> a in holders) ==>
        && Total(balances, holders, d) == Total(initial, holders, d)
        && Balance(balances, pool, d) == Balance(initial, pool, d) + PaidByOthers(payments, pool, d)
    {
      for i := 0 to |reqs|
        invariant Valid() && old(payments) <= payments
        invariant NoDebt(old(balances)) ==> NoDebt(balances)
      {
        var paid := Handle(reqs[i]);
      }
      forall holders, d | Distinct(holders) && pool in holders && (forall a :: a in known ==> a in holders)
        ensures
          && Total(balances, holders, d) == Total(initial, holders, d)
          && Balance(balances, pool, d) == Balance(initial, pool, d) + PaidByOthers(payments, pool, d)
      {
        LedgerConserves(initial, balances, payments, pool, holders, d);
      }
    }
  }

  /**
    The fee decorator and the signature decorator read the option separately; if both accept,
    the account debited is one that agreed to pay.
   */
  lemma ConsentChecked(lib: Library, req: Request, payer: Address)
    requires NamedPayer(lib, req.tx) == Some(payer)
    requires req.ctx.recheck || AllPass(lib, req.ctx, req.tx, req.accounts)
    ensures !req.ctx.recheck && !req.ctx.simulate && req.tx.signers != [] ==>
              Authorised(lib, req.ctx, req.tx, req.accounts, payer)
  {
    if !req.ctx.recheck && !req.ctx.simulate && Delegation(req.tx).Some? {
      forall i | 0 <= i < |req.tx.signers|
        ensures DelegateSigned(lib, req.ctx, req.tx, req.accounts, i, Delegation(req.tx).value, payer)
      {
        VerifiedMeansDelegateSigned(lib, req.ctx, req.tx, req.accounts, i, payer);
      }
    }
  }
}
