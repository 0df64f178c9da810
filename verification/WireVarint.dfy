/**
  Base 128 varints, as the generated protobuf code writes and reads them: seven payload bits
  a byte, least significant group first, top bit set on every byte but the last, and a reader
  that gives up after ten bytes.
 */
module WireVarint {
  import opened MachineWords

  type Byte = x: int | 0 <= x < 0x100

  datatype Error =
    | IntOverflow
    | UnexpectedEof
    | InvalidLength
    | UnexpectedEndOfGroup
    | IllegalWireType
    | EndGroupForNonGroup
    | IllegalTag
    | WrongWireType

  // ---------- writing ----------

  function PutVarint(v: nat): seq<Byte> {
    if v < 0x80 then [v] else [v % 0x80 + 0x80] + PutVarint(v / 0x80)
  }

  /** Size of a varint, computed from the bit length of x|1. */
  function Sov(x: nat): nat {
    (BitLen(BitOr(x, 1)) + 6) / 7
  }

  lemma BitLenSeven(x: nat)
    requires x >= 0x80
    ensures BitLen(x) == 7 + BitLen(x / 0x80)
  {
    BitLenHalf(x);
    BitLenHalf(x / 2);
    BitLenHalf(x / 4);
    BitLenHalf(x / 8);
    BitLenHalf(x / 16);
    BitLenHalf(x / 32);
    BitLenHalf(x / 64);
    assert x / 2 / 2 == x / 4 && x / 4 / 2 == x / 8 && x / 8 / 2 == x / 16;
    assert x / 16 / 2 == x / 32 && x / 32 / 2 == x / 64 && x / 64 / 2 == x / 0x80;
  }

  lemma BitLenHalf(x: nat)
    requires x > 0
    ensures BitLen(x) == 1 + BitLen(x / 2)
  {
  }

  lemma BitLenSmall(x: nat)
    requires 0 < x < 0x80
    ensures 1 <= BitLen(x) <= 7
  {
    BitLenHalf(x);
    if x / 2 > 0 { BitLenHalf(x / 2); }
    if x / 4 > 0 { BitLenHalf(x / 4); assert x / 2 / 2 == x / 4; }
    if x / 8 > 0 { BitLenHalf(x / 8); assert x / 4 / 2 == x / 8; }
    if x / 16 > 0 { BitLenHalf(x / 16); assert x / 8 / 2 == x / 16; }
    if x / 32 > 0 { BitLenHalf(x / 32); assert x / 16 / 2 == x / 32; }
    if x / 64 > 0 { BitLenHalf(x / 64); assert x / 32 / 2 == x / 64; }
  }

  lemma {:induction false} SovOfOdd(x: nat)
    requires x > 0
    ensures (BitLen(x) + 6) / 7 == |PutVarint(x)|
  {
    if x < 0x80 {
      BitLenSmall(x);
    } else {
      BitLenSeven(x);
      SovOfOdd(x / 0x80);
    }
  }

  /** Setting the lowest bit does not change how many bytes a value takes. */
  lemma OddSameLength(x: nat)
    ensures BitOr(x, 1) > 0 && |PutVarint(BitOr(x, 1))| == |PutVarint(x)|
  {
    BitOrOne(x);
    if x >= 0x80 {
      assert BitOr(x, 1) / 0x80 == x / 0x80;
    }
  }

  /** The size computed beforehand is the number of bytes written. */
  lemma SovIsLength(x: nat)
    ensures Sov(x) == |PutVarint(x)|
  {
    OddSameLength(x);
    SovOfOdd(BitOr(x, 1));
  }

  // ---------- reading ----------

  /** `raw` is the value before truncation to the field's width, `next` the index after it. */
  datatype Varint = Read(raw: nat, next: nat) | Fail(err: Error)

  /** Reads on at index `i`, with `k` bytes of this varint already behind. */
  function GetVarint(data: seq<Byte>, i: nat, k: nat): (r: Varint)
    ensures r.Read? ==> i < r.next <= |data|
    decreases 10 - k
  {
    if k >= 10 then Fail(IntOverflow)
    else if i >= |data| then Fail(UnexpectedEof)
    else if data[i] < 0x80 then Read(data[i], i + 1)
    else
      match GetVarint(data, i + 1, k + 1)
      case Fail(e) => Fail(e)
      case Read(raw, next) => Read(data[i] - 0x80 + 0x80 * raw, next)
  }

  /** Bytes beyond a varint that was read do not matter. */
  lemma {:induction false} GetVarintLocal(a: seq<Byte>, b: seq<Byte>, i: nat, k: nat)
    requires GetVarint(a, i, k).Read?
    ensures GetVarint(a + b, i, k) == GetVarint(a, i, k)
    decreases 10 - k
  {
    if a[i] >= 0x80 { GetVarintLocal(a, b, i + 1, k + 1); }
  }

  function Moved(v: Varint, n: nat): Varint {
    match v case Read(raw, next) => Read(raw, next + n) case Fail(e) => Fail(e)
  }

  /** Bytes before the starting index do not matter. */
  lemma {:induction false} GetVarintMoved(a: seq<Byte>, b: seq<Byte>, i: nat, k: nat)
    ensures GetVarint(a + b, |a| + i, k) == Moved(GetVarint(b, i, k), |a|)
    decreases 10 - k
  {
    if k < 10 && i < |b| {
      assert (a + b)[|a| + i] == b[i];
      if b[i] >= 0x80 { GetVarintMoved(a, b, i + 1, k + 1); }
    }
  }

  /** Any spelling of a varint, also one padded with zero groups. */
  predicate WellFormedVarint(v: seq<Byte>) {
    && 1 <= |v| <= 10
    && v[|v| - 1] < 0x80
    && forall j :: 0 <= j < |v| - 1 ==> v[j] >= 0x80
  }

  function RawValue(v: seq<Byte>): nat {
    if v == [] then 0 else v[0] % 0x80 + 0x80 * RawValue(v[1..])
  }

  /** The bytes `v` stand at index `i` of `data`. */
  ghost predicate StandsAt(data: seq<Byte>, i: nat, v: seq<Byte>) {
    i + |v| <= |data| && data[i..i + |v|] == v
  }

  lemma StandsSplit(data: seq<Byte>, i: nat, a: seq<Byte>, b: seq<Byte>)
    requires StandsAt(data, i, a + b)
    ensures StandsAt(data, i, a) && StandsAt(data, i + |a|, b)
  {
    assert data[i..i + |a|] == data[i..i + |a + b|][..|a|];
    assert data[i + |a|..i + |a| + |b|] == data[i..i + |a + b|][|a|..];
  }

  lemma {:induction false} GetVarintSpelled(data: seq<Byte>, i: nat, v: seq<Byte>, k: nat)
    requires v != [] && k + |v| <= 10 && v[|v| - 1] < 0x80 && StandsAt(data, i, v)
    requires forall j :: 0 <= j < |v| - 1 ==> v[j] >= 0x80
    ensures GetVarint(data, i, k) == Read(RawValue(v), i + |v|)
    decreases |v|
  {
    assert data[i] == data[i..i + |v|][0];
    if |v| > 1 {
      assert data[i + 1..i + 1 + |v[1..]|] == data[i..i + |v|][1..];
      GetVarintSpelled(data, i + 1, v[1..], k + 1);
    }
  }

  /** Where the bytes of a well-formed varint stand, its value is read back. */
  lemma GetVarintAt(data: seq<Byte>, i: nat, v: seq<Byte>)
    requires WellFormedVarint(v) && StandsAt(data, i, v)
    ensures GetVarint(data, i, 0) == Read(RawValue(v), i + |v|)
  {
    GetVarintSpelled(data, i, v, 0);
  }

  /** x << 7k: `x` moved up by `k` groups of seven bits. */
  function Shl(x: nat, k: nat): nat {
    if k == 0 then x else 0x80 * Shl(x, k - 1)
  }

  /** A value below 128^k fits in k bytes, and reading the bytes gives it back. */
  lemma {:induction false} PutVarintSpells(v: nat, k: nat)
    requires 1 <= k && v < Shl(1, k)
    ensures 1 <= |PutVarint(v)| <= k && PutVarint(v)[|PutVarint(v)| - 1] < 0x80
    ensures forall j :: 0 <= j < |PutVarint(v)| - 1 ==> PutVarint(v)[j] >= 0x80
    ensures RawValue(PutVarint(v)) == v
    decreases k
  {
    if v >= 0x80 {
      assert v / 0x80 < Shl(1, k - 1);
      PutVarintSpells(v / 0x80, k - 1);
      var rest := PutVarint(v / 0x80);
      assert PutVarint(v)[1..] == rest;
      forall j | 0 <= j < |rest| ensures PutVarint(v)[j + 1] == rest[j] {}
    }
  }

  lemma PutVarintWellFormed(v: nat)
    requires v < U64
    ensures WellFormedVarint(PutVarint(v)) && RawValue(PutVarint(v)) == v
  {
    ShlValues(1);
    PutVarintSpells(v, 10);
  }

  lemma ShlValues(x: nat)
    ensures Shl(x, 0) == x && Shl(x, 1) == 0x80 * x && Shl(x, 2) == 0x4000 * x && Shl(x, 3) == 0x20_0000 * x
    ensures Shl(x, 4) == 0x1000_0000 * x && Shl(x, 5) == 0x8_0000_0000 * x && Shl(x, 6) == 0x400_0000_0000 * x
    ensures Shl(x, 7) == 0x2_0000_0000_0000 * x && Shl(x, 8) == 0x100_0000_0000_0000 * x
    ensures Shl(x, 9) == 0x8000_0000_0000_0000 * x && Shl(x, 10) == 0x40_0000_0000_0000_0000 * x
  {
    assert Shl(x, 1) == 0x80 * x && Shl(x, 2) == 0x4000 * x && Shl(x, 3) == 0x20_0000 * x;
    assert Shl(x, 4) == 0x1000_0000 * x && Shl(x, 5) == 0x8_0000_0000 * x && Shl(x, 6) == 0x400_0000_0000 * x;
    assert Shl(x, 7) == 0x2_0000_0000_0000 * x && Shl(x, 8) == 0x100_0000_0000_0000 * x;
    assert Shl(x, 9) == 0x8000_0000_0000_0000 * x;
  }

  // ---------- the reading loop ----------

  /** `x` in a word of `modulus` values. */
  function Low(x: nat, modulus: nat): nat
    requires modulus > 0
  {
    x % modulus
  }

  /** acc |= group << 7k in a word of `modulus` values: the shifted group loses its high bits. */
  function OrShifted(acc: nat, group: nat, k: nat, modulus: nat): nat
    requires modulus > 0
  {
    BitOr(acc, Low(Shl(group, k), modulus))
  }

  lemma {:induction false} ShlDoubles(x: nat, k: nat)
    ensures Shl(x, k) == Dbl(x, 7 * k)
  {
    if k > 0 {
      ShlDoubles(x, k - 1);
      DblSeven(x, 7 * (k - 1));
    }
  }

  /** The groups read so far and the next one occupy different bits. */
  lemma OrIsSum(partial: nat, group: nat, k: nat)
    requires partial < Shl(1, k)
    ensures BitOr(partial, Shl(group, k)) == partial + Shl(group, k)
  {
    ShlDoubles(1, k);
    ShlDoubles(group, k);
    BitOrDisjoint(partial, group, 7 * k);
  }

  lemma MulMonotone(a: nat, b: nat, m: nat)
    requires a <= b
    ensures a * m <= b * m
  {
  }

  lemma DivModUnique(y: nat, q: nat, x: nat, m: nat)
    requires x < m && y == q * m + x
    ensures y / m == q && y % m == x
  {
    var d, r := y / m, y % m;
    assert y == d * m + r;
    if d > q { MulMonotone(q + 1, d, m); }
    if d < q { MulMonotone(d + 1, q, m); }
  }

  lemma Regroup(d: nat, q: nat, r: nat, p: nat)
    ensures (d * q + r) * p == d * (p * q) + r * p
  {
  }

  /** The place value `p` divides the word: the sum stays below `m`. */
  lemma TruncatesBelow(partial: nat, group: nat, p: nat, q: nat, m: nat)
    requires partial < p && q > 0 && p * q == m
    ensures partial % m + (group * p) % m == (partial + group * p) % m
    ensures partial % m == partial && (group * p) % m == (group % q) * p
  {
    var d, r := group / q, group % q;
    assert group == d * q + r;
    Regroup(d, q, r, p);
    MulMonotone(r + 1, q, p);
    DivModUnique(group * p, d, r * p, m);
    DivModUnique(partial + group * p, d, r * p + partial, m);
    DivModUnique(partial, 0, partial, m);
  }

  /** The word divides the place value: the group is shifted out. */
  lemma TruncatesAbove(partial: nat, group: nat, q: nat, m: nat)
    requires m > 0
    ensures partial % m == (partial + group * (q * m)) % m
    ensures (group * (q * m)) % m == 0
  {
    var d := partial / m;
    assert group * (q * m) == (group * q) * m;
    assert (d + group * q) * m == d * m + (group * q) * m;
    DivModUnique(group * (q * m), group * q, 0, m);
    DivModUnique(partial + group * (q * m), d + group * q, partial % m, m);
  }

  lemma PlaceValues(k: nat, modulus: nat)
    requires k < 10 && (modulus == U64 || modulus == U32)
    ensures var p := Shl(1, k);
            && p > 0
            && (p <= modulus ==> p * (modulus / p) == modulus && modulus / p > 0)
            && (p > modulus ==> (p / modulus) * modulus == p)
  {
    ShlValues(1);
  }

  lemma {:induction false} ShlScales(x: nat, k: nat)
    ensures Shl(x, k) == x * Shl(1, k)
  {
    if k > 0 { ShlScales(x, k - 1); }
  }

  /** Truncating after every group, as the loop does, equals truncating once at the end. */
  lemma OrShiftedTruncates(partial: nat, group: nat, k: nat, modulus: nat)
    requires k < 10 && partial < Shl(1, k)
    requires modulus == U64 || modulus == U32
    ensures OrShifted(Low(partial, modulus), group, k, modulus) == Low(partial + Shl(group, k), modulus)
  {
    hide Shl, BitOr;
    PlaceValues(k, modulus);
    ShlScales(group, k);
    var p := Shl(1, k);
    if p <= modulus {
      var q := modulus / p;
      TruncatesBelow(partial, group, p, q, modulus);
      ShlScales(group % q, k);
      OrIsSum(partial, group % q, k);
    } else {
      TruncatesAbove(partial, group, p / modulus, modulus);
      BitOrZero(partial % modulus);
    }
  }

  lemma {:induction false} ShlAdds(b: nat, r: nat, k: nat)
    ensures Shl(b + 0x80 * r, k) == Shl(b, k) + Shl(r, k + 1)
  {
    if k > 0 { ShlAdds(b, r, k - 1); }
  }

  lemma {:induction false} ShlFits(group: nat, k: nat)
    requires group < 0x80
    ensures Shl(group, k) + Shl(1, k) <= Shl(1, k + 1)
  {
    if k > 0 { ShlFits(group, k - 1); }
  }

  /** The outcome of the loop when `k` groups worth `partial` have been read and `i` is next. */
  function Resume(data: seq<Byte>, i: nat, k: nat, partial: nat): Varint {
    match GetVarint(data, i, k)
    case Fail(e) => Fail(e)
    case Read(raw, next) => Read(partial + Shl(raw, k), next)
  }

  lemma ResumeStep(data: seq<Byte>, i: nat, k: nat, partial: nat)
    requires k < 10 && i < |data| && partial < Shl(1, k)
    ensures partial + Shl(data[i] % 0x80, k) < Shl(1, k + 1)
    ensures data[i] >= 0x80 ==>
              Resume(data, i, k, partial) == Resume(data, i + 1, k + 1, partial + Shl(data[i] % 0x80, k))
    ensures data[i] < 0x80 ==> Resume(data, i, k, partial) == Read(partial + Shl(data[i] % 0x80, k), i + 1)
  {
    ShlFits(data[i] % 0x80, k);
    if data[i] >= 0x80 && GetVarint(data, i + 1, k + 1).Read? {
      ShlAdds(data[i] % 0x80, GetVarint(data, i + 1, k + 1).raw, k);
    }
  }

  /** A varint read into a target type of `modulus` values. */
  function Truncated(v: Varint, modulus: nat): Varint
    requires modulus > 0
  {
    match v case Fail(e) => Fail(e) case Read(raw, next) => Read(Low(raw, modulus), next)
  }

  /** `k` groups worth `partial` were read into `acc`, and the varint goes on at `i`. */
  ghost predicate Reading(data: seq<Byte>, start: nat, modulus: nat, acc: nat, i: nat, k: nat, partial: nat)
    requires modulus > 0
  {
    && partial < Shl(1, k) && acc == Low(partial, modulus)
    && GetVarint(data, start, 0) == Resume(data, i, k, partial)
  }

  lemma ReadingStarts(data: seq<Byte>, start: nat, modulus: nat)
    requires modulus > 0
    ensures Reading(data, start, modulus, 0, start, 0, 0)
  {}

  lemma ReadingFails(data: seq<Byte>, start: nat, modulus: nat, acc: nat, i: nat, k: nat, partial: nat)
    requires modulus > 0 && Reading(data, start, modulus, acc, i, k, partial)
    ensures k >= 10 ==> GetVarint(data, start, 0) == Fail(IntOverflow)
    ensures k < 10 && i >= |data| ==> GetVarint(data, start, 0) == Fail(UnexpectedEof)
  {}

  /** One byte more. */
  lemma ReadingStep(data: seq<Byte>, start: nat, modulus: nat, acc: nat, i: nat, k: nat, partial: nat)
    requires (modulus == U64 || modulus == U32) && k < 10 && i < |data|
    requires Reading(data, start, modulus, acc, i, k, partial)
    ensures var acc' := OrShifted(acc, data[i] % 0x80, k, modulus);
            && (data[i] < 0x80 ==> Truncated(GetVarint(data, start, 0), modulus) == Read(acc', i + 1))
            && (data[i] >= 0x80 ==>
                  Reading(data, start, modulus, acc', i + 1, k + 1, partial + Shl(data[i] % 0x80, k)))
  {
    hide GetVarint, Resume, Shl, OrShifted, Low;
    ResumeStep(data, i, k, partial);
    OrShiftedTruncates(partial, data[i] % 0x80, k, modulus);
  }

  /** The accumulation loop, for a target type of `modulus` values. */
  method ReadVarint(data: seq<Byte>, start: nat, modulus: nat) returns (r: Varint)
    requires modulus == U64 || modulus == U32
    ensures r == Truncated(GetVarint(data, start, 0), modulus)
  {
    hide Reading, OrShifted, Shl, GetVarint, Low;
    var acc: nat, i: nat, k: nat := 0, start, 0;
    ghost var partial: nat := 0;
    ReadingStarts(data, start, modulus);
    while true
      invariant k <= 10 && Reading(data, start, modulus, acc, i, k, partial)
      decreases 10 - k
    {
      ReadingFails(data, start, modulus, acc, i, k, partial);
      if 7 * k >= 64 { return Fail(IntOverflow); }
      if i >= |data| { return Fail(UnexpectedEof); }
      ReadingStep(data, start, modulus, acc, i, k, partial);
      var b := data[i];
      i := i + 1;
      acc := OrShifted(acc, b % 0x80, k, modulus);
      partial := partial + Shl(b % 0x80, k);
      if b < 0x80 { return Read(acc, i); }
      k := k + 1;
    }
  }
}
