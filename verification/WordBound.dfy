/**
  The 256-bit bound of injective-chain/types/int.go: a word-count shortcut in front of the
  full bit-length test, for any word size and any bit limit.
 */
module WordBound {
  import opened MachineWords

  /** A big.Int: nil, or a sign and words, least significant first; the top word may be zero. */
  datatype BigInt = Nil | Int(negative: bool, words: seq<nat>)

  /** Every word fits in `w` bits. */
  predicate IsWords(words: seq<nat>, w: nat) {
    forall k :: 0 <= k < |words| ==> words[k] < Dbl(1, w)
  }

  function Magnitude(words: seq<nat>, w: nat): nat {
    if words == [] then 0 else words[0] + Dbl(1, w) * Magnitude(words[1..], w)
  }

  function Value(i: BigInt, w: nat): int
    requires i.Int?
  {
    if i.negative then 0 - Magnitude(i.words, w) else Magnitude(i.words, w)
  }

  /** bigIntOverflows: the bit length is only computed for values with many words. */
  predicate Overflows(words: seq<nat>, w: nat, limit: nat)
    requires w > 0
  {
    |words| > limit / w && BitLen(Magnitude(words, w)) > limit
  }

  predicate IsValid(i: BigInt, w: nat, limit: nat)
    requires w > 0
  {
    i == Nil || !Overflows(i.words, w, limit)
  }

  lemma {:induction false} PowerAdds(a: nat, b: nat)
    ensures Dbl(1, a + b) == Dbl(1, a) * Dbl(1, b)
  {
    if a > 0 { PowerAdds(a - 1, b); }
  }

  lemma {:induction false} PowerMonotone(a: nat, b: nat)
    requires a <= b
    ensures Dbl(1, a) <= Dbl(1, b)
  {
    if a < b { PowerMonotone(a, b - 1); }
  }

  lemma {:induction false} BitLenBounds(x: nat, n: nat)
    ensures BitLen(x) <= n <==> x < Dbl(1, n)
    decreases n
  {
    if n > 0 && x > 0 { BitLenBounds(x / 2, n - 1); }
  }

  lemma DigitBound(d: nat, m: nat, p: nat, q: nat)
    requires d < p && m < q
    ensures d + p * m < p * q
  {
    assert p * (m + 1) <= p * q;
  }

  /** n words of w bits hold a value of at most n * w bits. */
  lemma {:induction false} MagnitudeBound(words: seq<nat>, w: nat)
    requires IsWords(words, w)
    ensures Magnitude(words, w) < Dbl(1, |words| * w)
    decreases |words|
  {
    if words != [] {
      var n := |words| - 1;
      MagnitudeBound(words[1..], w);
      DigitBound(words[0], Magnitude(words[1..], w), Dbl(1, w), Dbl(1, n * w));
      PowerAdds(w, n * w);
      assert w + n * w == |words| * w;
    }
  }

  lemma FewWordsFit(n: nat, w: nat, limit: nat)
    requires w > 0 && n <= limit / w
    ensures n * w <= limit
  {
    assert n * w <= (limit / w) * w <= limit;
  }

  /** The shortcut never changes the answer: a value is rejected exactly when it exceeds 2^limit - 1. */
  lemma OverflowsIff(words: seq<nat>, w: nat, limit: nat)
    requires w > 0 && IsWords(words, w)
    ensures Overflows(words, w, limit) <==> Magnitude(words, w) > Dbl(1, limit) - 1
  {
    BitLenBounds(Magnitude(words, w), limit);
    if |words| <= limit / w {
      MagnitudeBound(words, w);
      FewWordsFit(|words|, w, limit);
      PowerMonotone(|words| * w, limit);
    }
  }

  /** Leading zero words do not change the verdict, although they may switch the shortcut off. */
  lemma {:induction false} TopZeroWordIrrelevant(words: seq<nat>, w: nat, limit: nat)
    requires w > 0 && IsWords(words, w)
    ensures Magnitude(words + [0], w) == Magnitude(words, w)
    ensures Overflows(words + [0], w, limit) <==> Overflows(words, w, limit)
  {
    TopZeroWord(words, w);
    OverflowsIff(words, w, limit);
    OverflowsIff(words + [0], w, limit);
  }

  lemma {:induction false} TopZeroWord(words: seq<nat>, w: nat)
    ensures Magnitude(words + [0], w) == Magnitude(words, w)
    decreases |words|
  {
    if words == [] {
      assert [0][1..] == [];
    } else {
      TopZeroWord(words[1..], w);
      assert (words + [0])[1..] == words[1..] + [0];
    }
  }

  /** An sdk Int, which is nil if made from a nil big.Int; OutOfBound is the error. */
  datatype SafeInt = Made(value: int) | MadeNil | OutOfBound

  /** SafeNewIntFromBigInt */
  function SafeNewInt(i: BigInt, w: nat, limit: nat): SafeInt
    requires w > 0
  {
    if !IsValid(i, w, limit) then OutOfBound else if i == Nil then MadeNil else Made(Value(i, w))
  }

  /** SaturatedNewInt */
  function SaturatedNewInt(i: BigInt, w: nat, limit: nat): SafeInt
    requires w > 0
  {
    if !IsValid(i, w, limit) then Made(Dbl(1, limit) - 1) else if i == Nil then MadeNil else Made(Value(i, w))
  }

  /** Both constructors keep a value inside the bound as it is and never let one outside through. */
  lemma ConstructorsRespectBound(i: BigInt, w: nat, limit: nat)
    requires w > 0 && (i.Int? ==> IsWords(i.words, w))
    ensures i == Nil ==> SafeNewInt(i, w, limit) == SaturatedNewInt(i, w, limit) == MadeNil
    ensures i.Int? ==>
      var max := Dbl(1, limit) - 1;
      && (SafeNewInt(i, w, limit) == if -max <= Value(i, w) <= max then Made(Value(i, w)) else OutOfBound)
      && (SaturatedNewInt(i, w, limit) == Made(if -max <= Value(i, w) <= max then Value(i, w) else max))
  {
    if i.Int? { OverflowsIff(i.words, w, limit); }
  }
}
