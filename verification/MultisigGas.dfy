/**
  Gas for signature verification: DefaultSigVerificationGasConsumer and
  ConsumeMultisignatureVerificationGas call each other down a tree of nested multisignatures.
 */
module MultisigGas {

  const ETH_SECP256K1_COST: nat := 21000

  datatype PubKey = Ed25519 | Secp256k1 | EthSecp256k1 | Multi(keys: seq<PubKey>) | Unrecognized

  /** Signature data; in a multisignature bit i says that key i signed. */
  datatype SigData = Single | MultiSig(bits: seq<bool>, sigs: seq<SigData>)

  datatype Params = Params(ed25519Cost: nat, secp256k1Cost: nat)

  /** An out-of-gas or out-of-range panic ends the transaction like an error does. */
  datatype Outcome = Ok | WrongSigData | InvalidPubKey | OutOfGas | IndexPanic

  // ---------- what is signed, and by whom ----------

  /** Number of set bits before position `i`. */
  function Rank(bits: seq<bool>, i: nat): nat
    requires i <= |bits|
  {
    if i == 0 then 0 else Rank(bits, i - 1) + (if bits[i - 1] then 1 else 0)
  }

  /** Every key that signed is recognised, and has its signature at the rank of its bit. */
  predicate WellFormed(pk: PubKey, sig: SigData)
    decreases pk, 0
  {
    match pk
    case Unrecognized => false
    case Multi(keys) => sig.MultiSig? && WellFormedUpTo(keys, sig.bits, sig.sigs, |sig.bits|)
    case _ => true
  }

  predicate WellFormedUpTo(keys: seq<PubKey>, bits: seq<bool>, sigs: seq<SigData>, n: nat)
    requires n <= |bits|
    decreases keys, n
  {
    n == 0 ||
    (&& WellFormedUpTo(keys, bits, sigs, n - 1)
     && (bits[n - 1] ==>
           && n - 1 < |keys| && Rank(bits, n - 1) < |sigs|
           && WellFormed(keys[n - 1], sigs[Rank(bits, n - 1)])))
  }

  /** The leaf keys whose signatures are verified, in order. */
  function SigningLeaves(pk: PubKey, sig: SigData): seq<PubKey>
    requires WellFormed(pk, sig)
    decreases pk, 0
  {
    match pk
    case Multi(keys) => LeavesUpTo(keys, sig.bits, sig.sigs, |sig.bits|)
    case _ => [pk]
  }

  function LeavesUpTo(keys: seq<PubKey>, bits: seq<bool>, sigs: seq<SigData>, n: nat): seq<PubKey>
    requires n <= |bits| && WellFormedUpTo(keys, bits, sigs, n)
    decreases keys, n
  {
    if n == 0 then []
    else LeavesUpTo(keys, bits, sigs, n - 1)
         + (if bits[n - 1] then SigningLeaves(keys[n - 1], sigs[Rank(bits, n - 1)]) else [])
  }

  function LeafCost(pk: PubKey, p: Params): nat {
    match pk
    case Ed25519 => p.ed25519Cost
    case Secp256k1 => p.secp256k1Cost
    case EthSecp256k1 => ETH_SECP256K1_COST
    case _ => 0
  }

  function TotalCost(leaves: seq<PubKey>, p: Params): nat {
    if leaves == [] then 0 else TotalCost(leaves[..|leaves| - 1], p) + LeafCost(leaves[|leaves| - 1], p)
  }

  lemma {:induction false} TotalCostAdds(a: seq<PubKey>, b: seq<PubKey>, p: Params)
    ensures TotalCost(a + b, p) == TotalCost(a, p) + TotalCost(b, p)
    decreases |b|
  {
    if b == [] {
      assert a + b == a;
    } else {
      TotalCostAdds(a, b[..|b| - 1], p);
      assert (a + b)[..|a + b| - 1] == a + b[..|b| - 1];
    }
  }

  /** Only keys that can verify a signature are charged for. */
  lemma {:induction false} LeavesAreKeys(pk: PubKey, sig: SigData)
    requires WellFormed(pk, sig)
    ensures forall k :: k in SigningLeaves(pk, sig) ==> k in {Ed25519, Secp256k1, EthSecp256k1}
    decreases pk, 0
  {
    if pk.Multi? { LeavesUpToAreKeys(pk.keys, sig.bits, sig.sigs, |sig.bits|); }
  }

  lemma {:induction false} LeavesUpToAreKeys(keys: seq<PubKey>, bits: seq<bool>, sigs: seq<SigData>, n: nat)
    requires n <= |bits| && WellFormedUpTo(keys, bits, sigs, n)
    ensures forall k :: k in LeavesUpTo(keys, bits, sigs, n) ==> k in {Ed25519, Secp256k1, EthSecp256k1}
    decreases keys, n
  {
    if n > 0 {
      LeavesUpToAreKeys(keys, bits, sigs, n - 1);
      if bits[n - 1] { LeavesAreKeys(keys[n - 1], sigs[Rank(bits, n - 1)]); }
    }
  }

  lemma StepCost(keys: seq<PubKey>, bits: seq<bool>, sigs: seq<SigData>, n: nat, p: Params)
    requires 0 < n <= |bits| && WellFormedUpTo(keys, bits, sigs, n)
    ensures TotalCost(LeavesUpTo(keys, bits, sigs, n), p)
            == TotalCost(LeavesUpTo(keys, bits, sigs, n - 1), p)
             + if bits[n - 1] then TotalCost(SigningLeaves(keys[n - 1], sigs[Rank(bits, n - 1)]), p) else 0
  {
    if bits[n - 1] {
      TotalCostAdds(LeavesUpTo(keys, bits, sigs, n - 1), SigningLeaves(keys[n - 1], sigs[Rank(bits, n - 1)]), p);
    } else {
      assert LeavesUpTo(keys, bits, sigs, n) == LeavesUpTo(keys, bits, sigs, n - 1);
    }
  }

  /** What holds of all bits holds of the first `i`, and costs no more. */
  lemma {:induction false} PrefixCost(keys: seq<PubKey>, bits: seq<bool>, sigs: seq<SigData>, i: nat, n: nat, p: Params)
    requires i <= n <= |bits| && WellFormedUpTo(keys, bits, sigs, n)
    ensures WellFormedUpTo(keys, bits, sigs, i)
    ensures TotalCost(LeavesUpTo(keys, bits, sigs, i), p) <= TotalCost(LeavesUpTo(keys, bits, sigs, n), p)
    decreases n
  {
    if i < n {
      PrefixCost(keys, bits, sigs, i, n - 1, p);
      StepCost(keys, bits, sigs, n, p);
    }
  }

  // ---------- which key each signature belongs to ----------

  /** The set bits among the first `n`, in order. */
  function SetBits(bits: seq<bool>, n: nat): seq<nat>
    requires n <= |bits|
  {
    if n == 0 then [] else SetBits(bits, n - 1) + (if bits[n - 1] then [n - 1] else [])
  }

  lemma {:induction false} SetBitsAre(bits: seq<bool>, n: nat)
    requires n <= |bits|
    ensures forall p :: p in SetBits(bits, n) <==> 0 <= p < n && bits[p]
    ensures forall j, k :: 0 <= j < k < |SetBits(bits, n)| ==> SetBits(bits, n)[j] < SetBits(bits, n)[k]
  {
    if n > 0 {
      SetBitsAre(bits, n - 1);
      var init := SetBits(bits, n - 1);
      assert forall k :: 0 <= k < |init| ==> init[k] in init;
    }
  }

  /** The rank of a position is the number of set bits before it. */
  lemma {:induction false} RankCounts(bits: seq<bool>, i: nat)
    requires i <= |bits|
    ensures Rank(bits, i) == |SetBits(bits, i)| == |set k | 0 <= k < i && bits[k]|
  {
    if i > 0 {
      RankCounts(bits, i - 1);
      var before, upTo := set k | 0 <= k < i - 1 && bits[k], set k | 0 <= k < i && bits[k];
      assert upTo == if bits[i - 1] then before + {i - 1} else before;
    }
  }

  /** Over the set bits the ranks are 0, 1, 2, ... without gap or repetition. */
  lemma {:induction false} RanksAreConsecutive(bits: seq<bool>, n: nat, k: nat)
    requires n <= |bits| && k < |SetBits(bits, n)|
    ensures SetBits(bits, n)[k] < n && Rank(bits, SetBits(bits, n)[k]) == k
  {
    RankCounts(bits, n - 1);
    if k < |SetBits(bits, n - 1)| { RanksAreConsecutive(bits, n - 1, k); }
  }

  /** Signature k stands for the key at the k-th of the given positions. */
  predicate InOrder(keys: seq<PubKey>, positions: seq<nat>, sigs: seq<SigData>) {
    && |positions| <= |sigs|
    && forall k :: 0 <= k < |positions| ==> positions[k] < |keys| && WellFormed(keys[positions[k]], sigs[k])
  }

  /** The signing leaves, signature by signature. */
  function LeavesInOrder(keys: seq<PubKey>, positions: seq<nat>, sigs: seq<SigData>): seq<PubKey>
    requires InOrder(keys, positions, sigs)
  {
    if positions == [] then []
    else
      var k := |positions| - 1;
      LeavesInOrder(keys, positions[..k], sigs) + SigningLeaves(keys[positions[k]], sigs[k])
  }

  lemma InOrderNext(keys: seq<PubKey>, positions: seq<nat>, sigs: seq<SigData>, i: nat)
    ensures InOrder(keys, positions + [i], sigs) <==>
              && InOrder(keys, positions, sigs)
              && |positions| < |sigs| && i < |keys| && WellFormed(keys[i], sigs[|positions|])
    ensures InOrder(keys, positions + [i], sigs) ==>
              LeavesInOrder(keys, positions + [i], sigs)
              == LeavesInOrder(keys, positions, sigs) + SigningLeaves(keys[i], sigs[|positions|])
  {
    var ps := positions + [i];
    assert ps[..|positions|] == positions && ps[|positions|] == i;
    if InOrder(keys, ps, sigs) {
      forall k | 0 <= k < |positions|
        ensures positions[k] < |keys| && WellFormed(keys[positions[k]], sigs[k])
      {
        assert ps[k] == positions[k];
      }
    }
  }

  /** Walking the first `n` bits pairs the signatures, in the order given, with the keys whose bits are set. */
  ghost predicate Pairs(keys: seq<PubKey>, bits: seq<bool>, sigs: seq<SigData>, n: nat)
    requires n <= |bits|
  {
    && (WellFormedUpTo(keys, bits, sigs, n) <==> InOrder(keys, SetBits(bits, n), sigs))
    && (WellFormedUpTo(keys, bits, sigs, n) ==>
          LeavesUpTo(keys, bits, sigs, n) == LeavesInOrder(keys, SetBits(bits, n), sigs))
  }

  lemma SetBitPairs(keys: seq<PubKey>, bits: seq<bool>, sigs: seq<SigData>, i: nat)
    requires i < |bits| && bits[i] && Pairs(keys, bits, sigs, i)
    ensures Pairs(keys, bits, sigs, i + 1)
  {
    hide WellFormed, SigningLeaves, InOrder, LeavesInOrder, Rank;
    RankCounts(bits, i);
    InOrderNext(keys, SetBits(bits, i), sigs, i);
  }

  lemma UnsetBitPairs(keys: seq<PubKey>, bits: seq<bool>, sigs: seq<SigData>, i: nat)
    requires i < |bits| && !bits[i] && Pairs(keys, bits, sigs, i)
    ensures Pairs(keys, bits, sigs, i + 1)
  {
    hide WellFormed, SigningLeaves, InOrder, LeavesInOrder, Rank;
    assert SetBits(bits, i + 1) == SetBits(bits, i);
    if WellFormedUpTo(keys, bits, sigs, i) {
      assert LeavesUpTo(keys, bits, sigs, i + 1) == LeavesUpTo(keys, bits, sigs, i);
    }
  }

  lemma {:induction false} SignaturesInOrder(keys: seq<PubKey>, bits: seq<bool>, sigs: seq<SigData>, n: nat)
    requires n <= |bits|
    ensures Pairs(keys, bits, sigs, n)
    decreases n
  {
    if n > 0 {
      SignaturesInOrder(keys, bits, sigs, n - 1);
      hide Pairs;
      if bits[n - 1] { SetBitPairs(keys, bits, sigs, n - 1); } else { UnsetBitPairs(keys, bits, sigs, n - 1); }
    }
  }

  // ---------- the recursive consumer ----------

  /** A gas meter panics once the limit is passed; a meter without limit has limit 2^64 - 1. */
  class GasMeter {
    var consumed: nat
    const limit: nat

    constructor (limit: nat)
      ensures consumed == 0 && this.limit == limit
    {
      consumed, this.limit := 0, limit;
    }

    method ConsumeGas(amount: nat) returns (o: Outcome)
      modifies this
      ensures consumed == old(consumed) + amount
      ensures o == if consumed <= limit then Ok else OutOfGas
    {
      consumed := consumed + amount;
      o := if consumed <= limit then Ok else OutOfGas;
    }
  }

  /** The well-formed signatures the remaining gas pays for. */
  ghost predicate Payable(pk: PubKey, sig: SigData, p: Params, consumed: nat, limit: nat) {
    WellFormed(pk, sig) && consumed + TotalCost(SigningLeaves(pk, sig), p) <= limit
  }

  function CostUpTo(keys: seq<PubKey>, bits: seq<bool>, sigs: seq<SigData>, n: nat, p: Params): nat
    requires n <= |bits| && WellFormedUpTo(keys, bits, sigs, n)
  {
    TotalCost(LeavesUpTo(keys, bits, sigs, n), p)
  }

  ghost predicate PayableUpTo(
    keys: seq<PubKey>, bits: seq<bool>, sigs: seq<SigData>, n: nat, p: Params, consumed: nat, limit: nat)
    requires n <= |bits|
  {
    WellFormedUpTo(keys, bits, sigs, n) && consumed + CostUpTo(keys, bits, sigs, n, p) <= limit
  }

  lemma UnsetBit(keys: seq<PubKey>, bits: seq<bool>, sigs: seq<SigData>, i: nat, p: Params)
    requires i < |bits| && !bits[i] && WellFormedUpTo(keys, bits, sigs, i)
    ensures WellFormedUpTo(keys, bits, sigs, i + 1)
    ensures CostUpTo(keys, bits, sigs, i + 1, p) == CostUpTo(keys, bits, sigs, i, p)
  {
    StepCost(keys, bits, sigs, i + 1, p);
  }

  lemma SetBit(keys: seq<PubKey>, bits: seq<bool>, sigs: seq<SigData>, i: nat, p: Params, consumed: nat, limit: nat)
    requires i < |bits| && bits[i] && i < |keys| && Rank(bits, i) < |sigs| && WellFormedUpTo(keys, bits, sigs, i)
    ensures PayableUpTo(keys, bits, sigs, i + 1, p, consumed, limit)
            <==> Payable(keys[i], sigs[Rank(bits, i)], p, consumed + CostUpTo(keys, bits, sigs, i, p), limit)
    ensures PayableUpTo(keys, bits, sigs, i + 1, p, consumed, limit) ==>
              CostUpTo(keys, bits, sigs, i + 1, p)
              == CostUpTo(keys, bits, sigs, i, p) + TotalCost(SigningLeaves(keys[i], sigs[Rank(bits, i)]), p)
  {
    hide TotalCost, SigningLeaves;
    if WellFormedUpTo(keys, bits, sigs, i + 1) { StepCost(keys, bits, sigs, i + 1, p); }
  }

  /** A signature that is payable as a whole is payable at every set bit. */
  lemma PayableAtBit(
    keys: seq<PubKey>, bits: seq<bool>, sigs: seq<SigData>, i: nat, p: Params, consumed: nat, limit: nat)
    requires i < |bits| && bits[i] && PayableUpTo(keys, bits, sigs, |bits|, p, consumed, limit)
    ensures i < |keys| && Rank(bits, i) < |sigs| && WellFormedUpTo(keys, bits, sigs, i)
    ensures Payable(keys[i], sigs[Rank(bits, i)], p, consumed + CostUpTo(keys, bits, sigs, i, p), limit)
  {
    PrefixCost(keys, bits, sigs, i + 1, |bits|, p);
    PrefixCost(keys, bits, sigs, i, i + 1, p);
    SetBit(keys, bits, sigs, i, p, consumed, limit);
  }

  /** The first `n` bits were paid for, starting from `before`. */
  ghost predicate PaidUpTo(
    keys: seq<PubKey>, bits: seq<bool>, sigs: seq<SigData>, n: nat, p: Params, before: nat, limit: nat, consumed: nat)
    requires n <= |bits|
  {
    PayableUpTo(keys, bits, sigs, n, p, before, limit) && consumed == before + CostUpTo(keys, bits, sigs, n, p)
  }

  lemma NothingPaid(keys: seq<PubKey>, bits: seq<bool>, sigs: seq<SigData>, p: Params, before: nat, limit: nat)
    requires before <= limit
    ensures PaidUpTo(keys, bits, sigs, 0, p, before, limit, before)
  {}

  lemma PaidBit(
    keys: seq<PubKey>, bits: seq<bool>, sigs: seq<SigData>, i: nat, p: Params, before: nat, limit: nat, consumed: nat)
    requires i < |bits| && PaidUpTo(keys, bits, sigs, i, p, before, limit, consumed)
    ensures !bits[i] ==> PaidUpTo(keys, bits, sigs, i + 1, p, before, limit, consumed)
    ensures bits[i] && i < |keys| && Rank(bits, i) < |sigs|
            && Payable(keys[i], sigs[Rank(bits, i)], p, consumed, limit) ==>
              PaidUpTo(keys, bits, sigs, i + 1, p, before, limit,
                       consumed + TotalCost(SigningLeaves(keys[i], sigs[Rank(bits, i)]), p))
  {
    if !bits[i] {
      UnsetBit(keys, bits, sigs, i, p);
    } else if i < |keys| && Rank(bits, i) < |sigs| {
      SetBit(keys, bits, sigs, i, p, before, limit);
    }
  }

  lemma SingleLeafCost(pk: PubKey, p: Params)
    ensures TotalCost([pk], p) == LeafCost(pk, p)
  {
    assert [pk][..0] == [];
  }

  /** Accepts exactly the well-formed signatures that fit the limit, and charges the sum over the signing leaves. */
  method ConsumeSignatureGas(meter: GasMeter, pk: PubKey, sig: SigData, p: Params) returns (o: Outcome)
    requires meter.consumed <= meter.limit
    modifies meter
    ensures o == Ok <==> old(Payable(pk, sig, p, meter.consumed, meter.limit))
    ensures o == Ok ==> meter.consumed == old(meter.consumed) + TotalCost(SigningLeaves(pk, sig), p)
    ensures o == Ok && pk.Ed25519? ==> meter.consumed == old(meter.consumed) + p.ed25519Cost
    ensures o == Ok && pk.Secp256k1? ==> meter.consumed == old(meter.consumed) + p.secp256k1Cost
    ensures o == Ok && pk.EthSecp256k1? ==> meter.consumed == old(meter.consumed) + 21000
    decreases pk, 1
  {
    SingleLeafCost(pk, p);
    match pk
    case Ed25519 => o := meter.ConsumeGas(p.ed25519Cost);
    case Secp256k1 => o := meter.ConsumeGas(p.secp256k1Cost);
    case EthSecp256k1 => o := meter.ConsumeGas(ETH_SECP256K1_COST);
    case Multi(keys) =>
      if !sig.MultiSig? { return WrongSigData; }
      o := ConsumeMultisignatureGas(meter, keys, sig.bits, sig.sigs, p);
    case Unrecognized => o := InvalidPubKey;
  }

  /** Accepts exactly if every set bit has a key and, in order, a payable signature, and charges for those. */
  method ConsumeMultisignatureGas(meter: GasMeter, keys: seq<PubKey>, bits: seq<bool>, sigs: seq<SigData>, p: Params)
    returns (o: Outcome)
    requires meter.consumed <= meter.limit
    modifies meter
    ensures o == Ok <==> PayableUpTo(keys, bits, sigs, |bits|, p, old(meter.consumed), meter.limit)
    ensures o == Ok ==> meter.consumed == old(meter.consumed) + CostUpTo(keys, bits, sigs, |bits|, p)
    ensures o == Ok <==>
              && InOrder(keys, SetBits(bits, |bits|), sigs)
              && old(meter.consumed) + TotalCost(LeavesInOrder(keys, SetBits(bits, |bits|), sigs), p) <= meter.limit
    decreases keys, 0
  {
    hide Payable, SigningLeaves, TotalCost, InOrder, LeavesInOrder;
    SignaturesInOrder(keys, bits, sigs, |bits|);
    ghost var before := meter.consumed;
    var sigIndex := 0;
    NothingPaid(keys, bits, sigs, p, before, meter.limit);
    for i := 0 to |bits|
      invariant sigIndex == Rank(bits, i)
      invariant PaidUpTo(keys, bits, sigs, i, p, before, meter.limit, meter.consumed)
    {
      PaidBit(keys, bits, sigs, i, p, before, meter.limit, meter.consumed);
      if bits[i] {
        if PayableUpTo(keys, bits, sigs, |bits|, p, before, meter.limit) {
          PayableAtBit(keys, bits, sigs, i, p, before, meter.limit);
        }
        if i >= |keys| || sigIndex >= |sigs| { return IndexPanic; }
        o := ConsumeSignatureGas(meter, keys[i], sigs[sigIndex], p);
        if o != Ok { return; }
        sigIndex := sigIndex + 1;
      }
    }
    o := Ok;
  }
}
