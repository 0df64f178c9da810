/**
  Signature checks of transactions that carry ExtensionOptionsWeb3Tx
  (injective-chain/app/ante/eip712.go), and when a fee payer agreed to pay.

  Bech32, typed-data encoding, hashing and curve arithmetic are uninterpreted functions.
 */
module Eip712 {
  import opened Options
  import opened WireVarint
  import opened WireMessages
  import opened Bank

  datatype SignMode = AminoJson | Eip712V2 | OtherMode
  datatype SigData = Single(mode: SignMode, signature: seq<Byte>) | Multi
  datatype Signature = Signature(sequence: nat, data: SigData)

  /** An extension option; Unreadable is one of the Web3 type that does not unpack. */
  datatype Extension = Web3Option(option: Web3Tx) | Unreadable | OtherOption

  datatype Tx = Tx(
    extensions: seq<Extension>,
    feePayer: Address,
    feeGranter: Option<Address>,
    gas: nat,
    fee: seq<Coin>,
    signers: seq<Address>,
    signatures: Option<seq<Signature>>)

  datatype Account = Account(pubKey: Option<seq<Byte>>, number: nat, sequence: nat)
  type Accounts = map<Address, Account>

  datatype Context = Context(chainId: string, height: nat, recheck: bool, simulate: bool)

  datatype SignerData = SignerData(address: Address, chainId: string, accountNumber: nat, sequence: nat)

  /** feePayer and feePayerSig are nil unless both were given. */
  datatype Web3Options = Web3Options(chainId: int, feePayer: Option<Address>, feePayerSig: seq<Byte>)

  datatype Library = Library(
    fromBech32: seq<Byte> -> Option<Address>,
    typedDataHash: (SignMode, Tx, SignerData, Web3Options) -> Option<seq<Byte>>,
    recoverSigner: (seq<Byte>, seq<Byte>) -> Option<Address>,
    verifySignature: (seq<Byte>, seq<Byte>, seq<Byte>) -> bool)

  // ---------- who agreed to pay ----------

  /** The first option, if it names somebody else to pay the fee. */
  function Delegation(tx: Tx): Option<Web3Tx> {
    if tx.extensions != [] && tx.extensions[0].Web3Option? && tx.extensions[0].option.feePayer != []
    then Some(tx.extensions[0].option)
    else None
  }

  function SignerDataOf(ctx: Context, signer: Address, acc: Account): SignerData {
    SignerData(signer, ctx.chainId, if ctx.height == 0 then 0 else acc.number, acc.sequence)
  }

  /**
    The delegate's signature was recovered from the typed data that signer `i` signed, and
    that typed data names the delegate as the fee payer.
   */
  predicate DelegateSigned(
    lib: Library, ctx: Context, tx: Tx, accounts: Accounts, i: nat, option: Web3Tx, delegate: Address)
    requires i < |tx.signers|
  {
    && tx.signatures.Some? && i < |tx.signatures.value|
    && tx.signatures.value[i].data.Single?
    && tx.signers[i] in accounts
    && var hash := lib.typedDataHash(
                     tx.signatures.value[i].data.mode, tx,
                     SignerDataOf(ctx, tx.signers[i], accounts[tx.signers[i]]),
                     Web3Options(option.typedDataChainId, Some(delegate), option.feePayerSig));
    && hash.Some?
    && lib.recoverSigner(hash.value, option.feePayerSig) == Some(delegate)
  }

  /** `payer` is the transaction's own fee payer, or the named delegate who signed for every signer. */
  ghost predicate Authorised(lib: Library, ctx: Context, tx: Tx, accounts: Accounts, payer: Address) {
    match Delegation(tx)
    case None => payer == tx.feePayer
    case Some(option) =>
      && lib.fromBech32(option.feePayer) == Some(payer) && tx.signers != []
      && forall i :: 0 <= i < |tx.signers| ==> DelegateSigned(lib, ctx, tx, accounts, i, option, payer)
  }

  // ---------- what a signer agreed to ----------

  /** The options that the first extension names; the delegate is read from its Bech32 form. */
  function NamedOptions(lib: Library, tx: Tx): Web3Options {
    if tx.extensions == [] || !tx.extensions[0].Web3Option? then Web3Options(0, None, [])
    else
      var option := tx.extensions[0].option;
      if option.feePayer == [] then Web3Options(option.typedDataChainId, None, [])
      else Web3Options(option.typedDataChainId, lib.fromBech32(option.feePayer), option.feePayerSig)
  }

  /**
    Signer `i` has a key and gives its account's sequence number; and the first 64 of the 65 bytes
    of its signature verify under that key for the typed data of this transaction, its own
    account, this chain and the options named.
   */
  predicate SignerSigned(lib: Library, ctx: Context, tx: Tx, accounts: Accounts, i: nat)
    requires i < |tx.signers| && tx.signatures.Some? && i < |tx.signatures.value|
  {
    var sig, signer := tx.signatures.value[i], tx.signers[i];
    && signer in accounts && accounts[signer].pubKey.Some? && sig.sequence == accounts[signer].sequence
    && sig.data.Single? && sig.data.mode in {AminoJson, Eip712V2} && |sig.data.signature| == 65
    && var account := accounts[signer];
    && var hash := lib.typedDataHash(
                     sig.data.mode, tx,
                     SignerData(signer, ctx.chainId, if ctx.height == 0 then 0 else account.number, account.sequence),
                     NamedOptions(lib, tx));
    && hash.Some? && lib.verifySignature(account.pubKey.value, hash.value, sig.data.signature[..64])
  }

  /** The first extension, if it is a Web3 option, is for this chain, and names a delegate only with a signature. */
  predicate OptionUsable(lib: Library, ctx: Context, tx: Tx) {
    tx.extensions != [] ==>
      && !tx.extensions[0].Unreadable?
      && (tx.extensions[0].Web3Option? ==>
            var option := tx.extensions[0].option;
            && (ctx.chainId == "injective-1" ==> option.typedDataChainId in {1, 1776})
            && (ctx.chainId in {"injective-777", "injective-888"} ==> option.typedDataChainId in {11155111, 1439})
            && ctx.chainId in {"injective-1", "injective-777", "injective-888"}
            && (option.feePayer != [] ==> lib.fromBech32(option.feePayer).Some? && option.feePayerSig != []))
  }

  // ---------- the checks ----------

  /** Typed data may be signed for Ethereum's networks instead of Injective's own. */
  predicate ChainIdAllowed(chainId: string, typedDataChainId: int) {
    || (chainId == "injective-1" && (typedDataChainId == 1 || typedDataChainId == 1776))
    || ((chainId == "injective-777" || chainId == "injective-888")
        && (typedDataChainId == 11155111 || typedDataChainId == 1439))
  }

  /** GetWeb3ExtensionOptions; None is an error. */
  function GetWeb3Options(lib: Library, tx: Tx, signer: SignerData): Option<Web3Options> {
    if tx.extensions == [] then Some(Web3Options(0, None, []))
    else
      match tx.extensions[0]
      case Unreadable => None
      case OtherOption => Some(Web3Options(0, None, []))
      case Web3Option(option) =>
        if !ChainIdAllowed(signer.chainId, option.typedDataChainId) then None
        else if option.feePayer == [] then Some(Web3Options(option.typedDataChainId, None, []))
        else
          match lib.fromBech32(option.feePayer)
          case None => None
          case Some(payer) =>
            if option.feePayerSig == [] then None
            else Some(Web3Options(option.typedDataChainId, Some(payer), option.feePayerSig))
  }

  /** GenerateTypedDataAndVerifySignatureEIP712. */
  predicate VerifyEip712(lib: Library, pubKey: seq<Byte>, signer: SignerData, data: SigData, tx: Tx) {
    && data.Single? && !data.mode.OtherMode?
    && var opts := GetWeb3Options(lib, tx, signer);
    && opts.Some?
    && var hash := lib.typedDataHash(data.mode, tx, signer, opts.value);
    && hash.Some?
    && (opts.value.feePayer.Some? && opts.value.feePayerSig != [] ==>
          lib.recoverSigner(hash.value, opts.value.feePayerSig) == opts.value.feePayer)
    && |data.signature| == 65
    && lib.verifySignature(pubKey, hash.value, data.signature[..64])
  }

  /** What the decorator asks of signer `i`. */
  predicate SignerPasses(lib: Library, ctx: Context, tx: Tx, accounts: Accounts, i: nat)
    requires i < |tx.signers| && tx.signatures.Some? && i < |tx.signatures.value|
  {
    var sig, signer := tx.signatures.value[i], tx.signers[i];
    && signer in accounts
    && var acc := accounts[signer];
    && (!ctx.simulate ==> acc.pubKey.Some?)
    && sig.sequence == acc.sequence
    && (!ctx.simulate ==> VerifyEip712(lib, acc.pubKey.value, SignerDataOf(ctx, signer, acc), sig.data, tx))
  }

  /**
    The decorator passes a signer exactly if the signer signed, the option is usable, and the
    delegate it names, if any, signed the same typed data.
   */
  lemma PassesIff(lib: Library, ctx: Context, tx: Tx, accounts: Accounts, i: nat)
    requires i < |tx.signers| && tx.signatures.Some? && i < |tx.signatures.value| && !ctx.simulate
    ensures SignerPasses(lib, ctx, tx, accounts, i) <==>
              && SignerSigned(lib, ctx, tx, accounts, i) && OptionUsable(lib, ctx, tx)
              && (Delegation(tx).Some? ==>
                    var option := Delegation(tx).value;
                    DelegateSigned(lib, ctx, tx, accounts, i, option, lib.fromBech32(option.feePayer).value))
  {
    var signer := tx.signers[i];
    if signer in accounts && OptionUsable(lib, ctx, tx) {
      assert GetWeb3Options(lib, tx, SignerDataOf(ctx, signer, accounts[signer])) == Some(NamedOptions(lib, tx));
    }
  }

  ghost predicate AllPass(lib: Library, ctx: Context, tx: Tx, accounts: Accounts) {
    && tx.signatures.Some? && |tx.signatures.value| == |tx.signers|
    && forall i :: 0 <= i < |tx.signers| ==> SignerPasses(lib, ctx, tx, accounts, i)
  }

  /** The signer loop of Eip712SigVerificationDecorator. */
  method CheckSignatures(lib: Library, ctx: Context, tx: Tx, accounts: Accounts) returns (ok: bool)
    ensures ok <==> ctx.recheck || AllPass(lib, ctx, tx, accounts)
  {
    if ctx.recheck { return true; }
    if tx.signatures.None? { return false; }
    var sigs := tx.signatures.value;
    if |sigs| != |tx.signers| { return false; }
    for i := 0 to |sigs|
      invariant forall k :: 0 <= k < i ==> SignerPasses(lib, ctx, tx, accounts, k)
    {
      ghost var passes := SignerPasses(lib, ctx, tx, accounts, i);
      if tx.signers[i] !in accounts { return false; }
      var acc := accounts[tx.signers[i]];
      if !ctx.simulate && acc.pubKey.None? { return false; }
      if sigs[i].sequence != acc.sequence { return false; }
      var signerData := SignerDataOf(ctx, tx.signers[i], acc);
      if !ctx.simulate && !VerifyEip712(lib, acc.pubKey.value, signerData, sigs[i].data, tx) { return false; }
    }
    ok := true;
  }

  /** Outside simulation, signatures that all pass are the signers' own. */
  lemma AllPassMeansSigned(lib: Library, ctx: Context, tx: Tx, accounts: Accounts)
    requires AllPass(lib, ctx, tx, accounts) && !ctx.simulate
    ensures forall i :: 0 <= i < |tx.signers| ==> SignerSigned(lib, ctx, tx, accounts, i)
    ensures tx.signers != [] ==> OptionUsable(lib, ctx, tx)
  {
    forall i | 0 <= i < |tx.signers|
      ensures SignerSigned(lib, ctx, tx, accounts, i)
    {
      PassesIff(lib, ctx, tx, accounts, i);
    }
    if tx.signers != [] { PassesIff(lib, ctx, tx, accounts, 0); }
  }

  /** A verified signature carries the delegate's consent with it. */
  lemma VerifiedMeansDelegateSigned(lib: Library, ctx: Context, tx: Tx, accounts: Accounts, i: nat, delegate: Address)
    requires i < |tx.signers| && tx.signatures.Some? && i < |tx.signatures.value|
    requires !ctx.simulate && SignerPasses(lib, ctx, tx, accounts, i)
    requires Delegation(tx).Some? && lib.fromBech32(Delegation(tx).value.feePayer) == Some(delegate)
    ensures DelegateSigned(lib, ctx, tx, accounts, i, Delegation(tx).value, delegate)
  {
    var signer := SignerDataOf(ctx, tx.signers[i], accounts[tx.signers[i]]);
    var option := Delegation(tx).value;
    assert GetWeb3Options(lib, tx, signer) ==
           Some(Web3Options(option.typedDataChainId, Some(delegate), option.feePayerSig));
  }
}
