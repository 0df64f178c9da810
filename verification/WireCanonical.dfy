/**
  The bytes Marshal writes are canonical: known fields only, in ascending order of their
  numbers, with the shortest varints and nothing for a value of zero.  No other byte string
  of that form decodes to the same message.
 */
module WireCanonical {
  import opened MachineWords
  import opened Options
  import opened WireVarint
  import opened WireMessages
  import opened WireEncoding

  // ---------- shortest varints ----------

  /** A varint without padding: its last group is zero only if it is the only one. */
  predicate Minimal(v: seq<Byte>) {
    WellFormedVarint(v) && (|v| == 1 || v[|v| - 1] != 0)
  }

  lemma PutCons(b: Byte, x: nat)
    requires b >= 0x80 && x > 0
    ensures PutVarint(b % 0x80 + 0x80 * x) == [b] + PutVarint(x)
  {
    var y := b % 0x80 + 0x80 * x;
    assert y % 0x80 + 0x80 == b && y / 0x80 == x;
  }

  lemma PutOne(v: seq<Byte>)
    requires |v| == 1 && v[0] < 0x80
    ensures v == PutVarint(RawValue(v)) && RawValue(v) == v[0]
  {
    assert v[1..] == [];
  }

  lemma {:induction false} SpelledByPut(v: seq<Byte>)
    requires v != [] && v[|v| - 1] < 0x80 && (|v| == 1 || v[|v| - 1] != 0)
    requires forall j :: 0 <= j < |v| - 1 ==> v[j] >= 0x80
    ensures v == PutVarint(RawValue(v)) && (v != [0] ==> RawValue(v) > 0)
  {
    hide PutVarint;
    if |v| == 1 {
      PutOne(v);
    } else {
      var rest := v[1..];
      assert rest[|rest| - 1] == v[|v| - 1];
      SpelledByPut(rest);
      PutCons(v[0], RawValue(rest));
      assert v == [v[0]] + rest;
    }
  }

  lemma {:induction false} PutEndsNonZero(x: nat)
    requires x > 0
    ensures PutVarint(x)[|PutVarint(x)| - 1] != 0
  {
    if x >= 0x80 { PutEndsNonZero(x / 0x80); }
  }

  /** The varint written for a number is the one spelling of it without padding. */
  lemma MinimalIff(v: seq<Byte>, x: nat)
    requires x < U64
    ensures Minimal(v) && RawValue(v) == x <==> v == PutVarint(x)
  {
    PutVarintWellFormed(x);
    if x > 0 { PutEndsNonZero(x); }
    if Minimal(v) && RawValue(v) == x { SpelledByPut(v); }
  }

  lemma OneByteIs(v: seq<Byte>, tag: Byte)
    requires Minimal(v) && RawValue(v) == tag < 0x80
    ensures v == [tag] == PutVarint(tag)
  {
    assert PutVarint(tag) == [tag];
    MinimalIff(v, tag);
  }

  // ---------- the canonical form ----------

  /** What a number field may hold on the wire: a value of its type, and not zero. */
  predicate Fits(m: Msg, num: int, v: nat) {
    && 0 < v < 0x1_0000_0000_0000_0000
    && (m.Result? ==>
          && (num == 2 || num == 3 ==> v < 0x1_0000_0000)
          && (num == 4 ==> v < 0x8000_0000 || v >= 0xffff_ffff_8000_0000)
          && (num == 5 ==> v == 1))
  }

  function NumberOf(f: WireField): nat { RawValue(f.tag) / 8 }

  /** A field of `m`, spelled without padding, with a value that is not zero. */
  predicate CanonicalField(m: Msg, f: WireField) {
    match f
    case VarintField(tag, value) =>
      && Minimal(tag) && Minimal(value) && RawValue(tag) % 8 == 0
      && IsNumber(m, NumberOf(f)) && Fits(m, NumberOf(f), RawValue(value))
    case LengthField(tag, length, payload) =>
      && Minimal(tag) && Minimal(length) && RawValue(tag) % 8 == 2
      && IsBytes(m, NumberOf(f)) && RawValue(length) == |payload| && payload != []
    case _ => false
  }

  /** Canonical fields, each number at most once and in ascending order. */
  ghost predicate Canonical(m: Msg, fs: seq<WireField>) {
    && (forall i :: 0 <= i < |fs| ==> CanonicalField(m, fs[i]))
    && (forall i, j :: 0 <= i < j < |fs| ==> NumberOf(fs[i]) < NumberOf(fs[j]))
  }

  function FieldsBytes(fs: seq<WireField>): seq<Byte> {
    if fs == [] then [] else FieldBytes(fs[0]) + FieldsBytes(fs[1..])
  }

  // ---------- the fields of a message ----------

  datatype Value = Number(number: nat) | Payload(payload: seq<Byte>)

  /** The message types that hold their own values; TxResponseData holds messages. */
  type Record = m: Msg | !m.Data? witness EMPTY_GENERIC

  function FieldCount(m: Record): nat {
    match m case Result(_) => 7 case Web3(_) => 3 case Generic(_) => 2
  }

  /** The value of field `num`, as it goes onto the wire. */
  function ValueOf(m: Record, num: nat): Value
    requires 1 <= num <= FieldCount(m)
  {
    match m
    case Result(t) =>
      Number(match num
             case 1 => AsUint64(t.height)
             case 2 => t.txIndex
             case 3 => t.msgIndex
             case 4 => AsUint64(t.ethTxIndex)
             case 5 => if t.failed then 1 else 0
             case 6 => t.gasUsed
             case _ => t.cumulativeGasUsed)
    case Web3(w) =>
      (match num
       case 1 => Number(w.typedDataChainId)
       case 2 => Payload(w.feePayer)
       case _ => Payload(w.feePayerSig))
    case Generic(g) => Payload(if num == 1 then g.header else g.data)
  }

  predicate Blank(v: Value) { v == Number(0) || v == Payload([]) }

  function FieldOf(num: nat, v: Value): WireField {
    match v
    case Number(n) => VarintField(PutVarint(8 * num), PutVarint(n))
    case Payload(b) => LengthField(PutVarint(8 * num + 2), PutVarint(|b|), b)
  }

  /** The fields numbered `num` and up that are not blank. */
  function FieldsFrom(m: Record, num: nat): seq<WireField>
    requires 1 <= num
    decreases 8 - num
  {
    if num > FieldCount(m) then []
    else (if Blank(ValueOf(m, num)) then [] else [FieldOf(num, ValueOf(m, num))]) + FieldsFrom(m, num + 1)
  }

  /** No payload is so long that its length does not fit a varint. */
  predicate Small(m: Record) {
    forall num :: 1 <= num <= FieldCount(m) && ValueOf(m, num).Payload? ==> |ValueOf(m, num).payload| < U64
  }

  lemma FieldOfCanonical(m: Record, num: nat)
    requires 1 <= num <= FieldCount(m) && !Blank(ValueOf(m, num))
    requires Small(m)
    ensures var f := FieldOf(num, ValueOf(m, num)); CanonicalField(m, f) && WellFormed(f) && NumberOf(f) == num
  {
    hide PutVarint, RawValue, AsUint64;
    var v := ValueOf(m, num);
    var tag := 8 * num + if v.Number? then 0 else 2;
    MinimalIff(PutVarint(tag), tag);
    if v.Number? {
      FitsOf(m, num);
      MinimalIff(PutVarint(v.number), v.number);
    } else {
      MinimalIff(PutVarint(|v.payload|), |v.payload|);
    }
  }

  lemma FitsOf(m: Record, num: nat)
    requires 1 <= num <= FieldCount(m) && ValueOf(m, num).Number? && !Blank(ValueOf(m, num))
    ensures IsNumber(m, num) && Fits(m, num, ValueOf(m, num).number)
  {}

  /** Canonical fields that are well formed and numbered `num` or more. */
  ghost predicate Listing(m: Record, fs: seq<WireField>, num: nat) {
    Canonical(m, fs) && forall f :: f in fs ==> WellFormed(f) && num <= NumberOf(f)
  }

  lemma NothingListed(m: Record, num: nat)
    ensures Listing(m, [], num)
  {}

  lemma ListingBelow(m: Record, fs: seq<WireField>, num: nat)
    requires Listing(m, fs, num + 1)
    ensures Listing(m, fs, num)
  {
    hide Canonical, WellFormed, NumberOf;
  }

  lemma ListingNext(m: Record, f: WireField, fs: seq<WireField>)
    requires CanonicalField(m, f) && WellFormed(f) && Listing(m, fs, NumberOf(f) + 1)
    ensures Listing(m, [f] + fs, NumberOf(f))
  {
    hide CanonicalField, WellFormed, NumberOf;
    assert forall i :: 0 <= i < |fs| ==> fs[i] in fs;
  }

  lemma {:induction false} FieldsFromListing(m: Record, num: nat)
    requires 1 <= num && Small(m)
    ensures Listing(m, FieldsFrom(m, num), num)
    decreases 8 - num
  {
    hide Listing, CanonicalField, WellFormed, ValueOf, FieldOf, NumberOf, Small;
    if num > FieldCount(m) {
      NothingListed(m, num);
    } else {
      FieldsFromListing(m, num + 1);
      var rest := FieldsFrom(m, num + 1);
      if Blank(ValueOf(m, num)) {
        assert FieldsFrom(m, num) == rest;
        ListingBelow(m, rest, num);
      } else {
        FieldOfCanonical(m, num);
        ListingNext(m, FieldOf(num, ValueOf(m, num)), rest);
      }
    }
  }

  // ---------- decoding canonical fields ----------

  /** The message once `f` is stored in it. */
  function Store(m: Record, f: WireField): (r: Record)
    requires CanonicalField(m, f)
    ensures SameKind(m, r)
  {
    if f.VarintField? then WithNumber(m, NumberOf(f), RawValue(f.value))
    else WithBytes(m, NumberOf(f), f.payload).msg
  }

  lemma CanonicalBytes(m: Record, f: WireField)
    requires CanonicalField(m, f) && (f.LengthField? ==> |f.payload| < U64)
    ensures NumberOf(f) <= 7
    ensures f.VarintField? ==> FieldBytes(f) == PutNumber(8 * NumberOf(f), RawValue(f.value))
    ensures f.LengthField? ==> FieldBytes(f) == PutBytes(8 * NumberOf(f) + 2, f.payload, true)
    ensures f == FieldOf(NumberOf(f), if f.VarintField? then Number(RawValue(f.value)) else Payload(f.payload))
  {
    hide Minimal, RawValue, PutVarint;
    var tag := RawValue(f.tag);
    OneByteIs(f.tag, tag);
    if f.VarintField? {
      MinimalIff(f.value, RawValue(f.value));
    } else {
      MinimalIff(f.length, |f.payload|);
      assert [tag] + (f.length + f.payload) == [tag] + f.length + f.payload;
    }
  }

  lemma FieldAccepted(m: Record, f: WireField, rest: seq<Byte>)
    requires CanonicalField(m, f) && |FieldBytes(f) + rest| < I63
    ensures Accepted(m, FieldBytes(f) + rest) == Accepted(Store(m, f), rest)
  {
    hide Accepted, PutVarint, RawValue, Minimal;
    CanonicalBytes(m, f);
    if f.VarintField? {
      NumberAccepted(m, NumberOf(f), 8 * NumberOf(f), RawValue(f.value), rest);
    } else {
      BytesAccepted(m, NumberOf(f), 8 * NumberOf(f) + 2, f.payload, true, rest);
    }
  }

  /** Storing the fields one after the other. */
  function StoreAll(m: Record, fs: seq<WireField>): Record
    requires forall i :: 0 <= i < |fs| ==> CanonicalField(m, fs[i])
    decreases |fs|
  {
    if fs == [] then m
    else
      SameFields(m, Store(m, fs[0]), fs[1..]);
      StoreAll(Store(m, fs[0]), fs[1..])
  }

  /** Which fields are canonical depends on the type of the message alone. */
  lemma SameFields(m: Record, n: Record, fs: seq<WireField>)
    requires SameKind(m, n)
    ensures forall i :: 0 <= i < |fs| && CanonicalField(m, fs[i]) ==> CanonicalField(n, fs[i])
  {
  }

  lemma SameCanonical(m: Record, n: Record, fs: seq<WireField>)
    requires SameKind(m, n) && Canonical(m, fs)
    ensures Canonical(n, fs)
  {
    SameFields(m, n, fs);
  }

  lemma {:induction false} FieldsAccepted(m: Record, fs: seq<WireField>)
    requires Canonical(m, fs) && |FieldsBytes(fs)| < I63
    ensures Accepted(m, FieldsBytes(fs)) == Some(StoreAll(m, fs))
    decreases |fs|
  {
    if fs != [] {
      var m' := Store(m, fs[0]);
      SameFields(m, m', fs[1..]);
      FieldsAccepted(m', fs[1..]);
      FieldAccepted(m, fs[0], FieldsBytes(fs[1..]));
    }
  }

  // ---------- reading the fields off again ----------

  /** A value that fits its field's type is not changed by storing it. */
  lemma FittingKept(v: nat)
    requires v < U64
    ensures AsUint64(AsInt64(v)) == v && v % U64 == v
    ensures v < U32 ==> v % U32 == v
    ensures v < 0x8000_0000 || v >= 0xffff_ffff_8000_0000 ==> AsUint64(AsInt32(v)) == v
  {
  }

  lemma NumberSets(m: Record, at: nat, v: nat, num: nat)
    requires IsNumber(m, at) && Fits(m, at, v) && 1 <= num <= FieldCount(m)
    ensures ValueOf(WithNumber(m, at, v), num) == if num == at then Number(v) else ValueOf(m, num)
  {
    FittingKept(v);
    hide AsUint64, AsInt64, AsInt32;
  }

  lemma PayloadSets(m: Record, at: nat, b: seq<Byte>, num: nat)
    requires IsBytes(m, at) && 1 <= num <= FieldCount(m)
    ensures WithBytes(m, at, b).Ok? && SameKind(m, WithBytes(m, at, b).msg)
    ensures ValueOf(WithBytes(m, at, b).msg, num) == if num == at then Payload(b) else ValueOf(m, num)
  {
    hide Decode;
  }

  /** Storing a field sets its value and no other. */
  lemma StoreSets(m: Record, f: WireField, num: nat)
    requires CanonicalField(m, f) && 1 <= num <= FieldCount(m)
    ensures num == NumberOf(f) ==>
              ValueOf(Store(m, f), num) == if f.VarintField? then Number(RawValue(f.value)) else Payload(f.payload)
    ensures num != NumberOf(f) ==> ValueOf(Store(m, f), num) == ValueOf(m, num)
  {
    hide RawValue, Minimal, WithNumber, WithBytes, ValueOf;
    if f.VarintField? {
      NumberSets(m, NumberOf(f), RawValue(f.value), num);
    } else {
      PayloadSets(m, NumberOf(f), f.payload, num);
    }
  }

  /** Every field comes after `num`. */
  ghost predicate After(fs: seq<WireField>, num: nat) {
    forall i :: 0 <= i < |fs| ==> num < NumberOf(fs[i])
  }

  lemma {:induction false} StoreAllKeeps(m: Record, fs: seq<WireField>, num: nat)
    requires Canonical(m, fs) && 1 <= num <= FieldCount(m)
    requires After(fs, num)
    ensures SameKind(m, StoreAll(m, fs)) && ValueOf(StoreAll(m, fs), num) == ValueOf(m, num)
    decreases |fs|
  {
    if fs != [] {
      var m' := Store(m, fs[0]);
      SameFields(m, m', fs[1..]);
      StoreAllKeeps(m', fs[1..], num);
      StoreSets(m, fs[0], num);
    }
  }

  ghost predicate BlankFrom(m: Record, num: nat) {
    forall j :: 1 <= j && num <= j <= FieldCount(m) ==> Blank(ValueOf(m, j))
  }

  lemma {:induction false} BlankHasNoFields(m: Record, num: nat)
    requires 1 <= num && BlankFrom(m, num)
    ensures FieldsFrom(m, num) == []
    decreases 8 - num
  {
    if num <= FieldCount(m) { BlankHasNoFields(m, num + 1); }
  }

  lemma StoreBlank(m: Record, f: WireField)
    requires CanonicalField(m, f) && BlankFrom(m, NumberOf(f))
    ensures BlankFrom(Store(m, f), NumberOf(f) + 1)
  {
    forall j | 1 <= j && NumberOf(f) + 1 <= j <= FieldCount(m)
      ensures Blank(ValueOf(Store(m, f), j))
    {
      StoreSets(m, f, j);
    }
  }

  /** The field just stored is the first that is read off. */
  lemma FirstField(m: Record, f: WireField, n: Record)
    requires CanonicalField(m, f) && (f.LengthField? ==> |f.payload| < U64)
    requires SameKind(m, n) && 1 <= NumberOf(f) <= FieldCount(m)
    requires ValueOf(n, NumberOf(f)) == ValueOf(Store(m, f), NumberOf(f))
    ensures FieldsFrom(n, NumberOf(f)) == [f] + FieldsFrom(n, NumberOf(f) + 1)
  {
    hide RawValue, Minimal, PutVarint;
    StoreSets(m, f, NumberOf(f));
    CanonicalBytes(m, f);
  }

  lemma CanonicalNumber(m: Record, f: WireField)
    requires CanonicalField(m, f)
    ensures 1 <= NumberOf(f) <= FieldCount(m)
  {}

  lemma CanonicalTail(m: Record, fs: seq<WireField>)
    requires Canonical(m, fs) && fs != []
    ensures Canonical(Store(m, fs[0]), fs[1..])
    ensures After(fs[1..], NumberOf(fs[0]))
    ensures StoreAll(m, fs) == StoreAll(Store(m, fs[0]), fs[1..])
    ensures |FieldsBytes(fs[1..])| <= |FieldsBytes(fs)|
  {
    SameFields(m, Store(m, fs[0]), fs[1..]);
    hide CanonicalField, Store, NumberOf;
  }

  /** If the later fields are read off, so is the first. */
  lemma RecoveredFirst(m: Record, fs: seq<WireField>)
    requires Canonical(m, fs) && fs != [] && |FieldsBytes(fs)| < I63
    requires FieldsFrom(StoreAll(m, fs), NumberOf(fs[0]) + 1) == fs[1..]
    ensures NumberOf(fs[0]) >= 1 && FieldsFrom(StoreAll(m, fs), NumberOf(fs[0])) == fs
  {
    CanonicalNumber(m, fs[0]);
    CanonicalTail(m, fs);
    StoreAllKeeps(Store(m, fs[0]), fs[1..], NumberOf(fs[0]));
    hide Canonical, CanonicalField, ValueOf, Store, NumberOf, StoreAll;
    FirstField(m, fs[0], StoreAll(m, fs));
  }

  /** A number that no field has is passed over. */
  lemma RecoveredWithout(m: Record, fs: seq<WireField>, num: nat)
    requires Canonical(m, fs) && 1 <= num && BlankFrom(m, num)
    requires fs != [] && After(fs, num) && FieldsFrom(StoreAll(m, fs), num + 1) == fs
    ensures FieldsFrom(StoreAll(m, fs), num) == fs
  {
    CanonicalNumber(m, fs[0]);
    StoreAllKeeps(m, fs, num);
    hide Canonical, CanonicalField, ValueOf, FieldOf, NumberOf, StoreAll;
  }

  lemma FirstIsLeast(m: Record, fs: seq<WireField>, num: nat)
    requires Canonical(m, fs) && fs != [] && num < NumberOf(fs[0])
    ensures After(fs, num)
  {}

  lemma BlankOrFirst(m: Record, fs: seq<WireField>, num: nat)
    requires Canonical(m, fs) && fs != [] && 1 <= num && BlankFrom(m, num) && After(fs, num - 1)
    ensures num <= NumberOf(fs[0]) <= FieldCount(m) <= 7 && BlankFrom(m, num + 1)
  {
    CanonicalNumber(m, fs[0]);
  }

  /** The fields stored in a blank message are the fields it then has. */
  lemma {:induction false} FieldsRecovered(m: Record, fs: seq<WireField>, num: nat)
    requires Canonical(m, fs) && |FieldsBytes(fs)| < I63
    requires 1 <= num && BlankFrom(m, num) && After(fs, num - 1)
    ensures FieldsFrom(StoreAll(m, fs), num) == fs
    decreases |fs|, 8 - num
  {
    hide After, CanonicalField, ValueOf, FieldOf, Store, NumberOf, BlankFrom, FieldsFrom;
    if fs == [] {
      BlankHasNoFields(m, num);
    } else {
      hide StoreAll;
      BlankOrFirst(m, fs, num);
      if num < NumberOf(fs[0]) {
        FirstIsLeast(m, fs, num);
        FieldsRecovered(m, fs, num + 1);
        RecoveredWithout(m, fs, num);
      } else {
        CanonicalTail(m, fs);
        StoreBlank(m, fs[0]);
        FieldsRecovered(Store(m, fs[0]), fs[1..], num + 1);
        RecoveredFirst(m, fs);
      }
    }
  }

  // ---------- the encodings are canonical ----------

  /** What is written for one field. */
  function Put(m: Record, num: nat): seq<Byte>
    requires 1 <= num <= FieldCount(m)
  {
    match ValueOf(m, num)
    case Number(n) => PutNumber(8 * num, n)
    case Payload(b) => PutBytes(8 * num + 2, b, false)
  }

  lemma PutIsField(m: Record, num: nat)
    requires 1 <= num <= FieldCount(m)
    ensures Put(m, num) == if Blank(ValueOf(m, num)) then [] else FieldBytes(FieldOf(num, ValueOf(m, num)))
  {
    assert PutVarint(8 * num) == [8 * num] && PutVarint(8 * num + 2) == [8 * num + 2];
    match ValueOf(m, num)
    case Number(_) =>
    case Payload(b) => assert [8 * num + 2] + PutVarint(|b|) + b == [8 * num + 2] + (PutVarint(|b|) + b);
  }

  /** The bytes of the fields from `num` on are those of field `num`, if any, and the rest. */
  lemma BytesFrom(m: Record, num: nat)
    requires 1 <= num <= FieldCount(m)
    ensures FieldsBytes(FieldsFrom(m, num)) == Put(m, num) + FieldsBytes(FieldsFrom(m, num + 1))
  {
    PutIsField(m, num);
    hide ValueOf, FieldOf, FieldBytes, Put;
    var rest := FieldsFrom(m, num + 1);
    if Blank(ValueOf(m, num)) {
      assert FieldsFrom(m, num) == rest;
      assert [] + FieldsBytes(rest) == FieldsBytes(rest);
    } else {
      var f := FieldOf(num, ValueOf(m, num));
      assert ([f] + rest)[1..] == rest;
    }
  }

  function Encoding(m: Record): seq<Byte> {
    match m case Result(t) => EncodeTxResult(t) case Web3(w) => EncodeWeb3Tx(w) case Generic(g) => EncodeGeneric(g)
  }

  lemma NoBytes(a: seq<Byte>)
    ensures a + FieldsBytes([]) == a
  {}

  lemma TxResultTailFields(t: TxResult)
    ensures EncodeTxResultTail(t) == FieldsBytes(FieldsFrom(Result(t), 4))
  {
    var m := Result(t);
    hide FieldsBytes;
    BytesFrom(m, 4);
    BytesFrom(m, 5);
    BytesFrom(m, 6);
    BytesFrom(m, 7);
    NoBytes(Put(m, 7));
    hide PutNumber, FieldsFrom;
  }

  lemma TxResultFields(t: TxResult)
    ensures EncodeTxResult(t) == FieldsBytes(FieldsFrom(Result(t), 1))
  {
    var m := Result(t);
    hide FieldsBytes, FieldsFrom, EncodeTxResultTail, PutNumber;
    BytesFrom(m, 1);
    BytesFrom(m, 2);
    BytesFrom(m, 3);
    TxResultTailFields(t);
  }

  lemma EncodingIsFields(m: Record)
    ensures Encoding(m) == FieldsBytes(FieldsFrom(m, 1))
  {
    hide FieldsBytes;
    match m
    case Result(t) => TxResultFields(t);
    case Web3(w) =>
      BytesFrom(m, 1);
      BytesFrom(m, 2);
      BytesFrom(m, 3);
      NoBytes(Put(m, 3));
    case Generic(g) =>
      BytesFrom(m, 1);
      BytesFrom(m, 2);
      NoBytes(Put(m, 2));
  }

  function Zero(m: Record): Record {
    match m
    case Result(_) => Result(TxResult(0, 0, 0, 0, false, 0, 0))
    case Web3(_) => Web3(Web3Tx(0, [], []))
    case Generic(_) => Generic(GenericMessage([], []))
  }

  /** The encoding of a message is the bytes of its fields that are not blank, in canonical form. */
  lemma EncodingIsCanonical(m: Record)
    requires Small(m)
    ensures Canonical(m, FieldsFrom(m, 1)) && Encoding(m) == FieldsBytes(FieldsFrom(m, 1))
    ensures forall f :: f in FieldsFrom(m, 1) ==> WellFormed(f)
  {
    FieldsFromListing(m, 1);
    EncodingIsFields(m);
  }

  /** Whatever canonical fields decode to a message, their bytes are its encoding. */
  lemma CanonicalUnique(m: Record, fs: seq<WireField>)
    requires Canonical(m, fs) && |FieldsBytes(fs)| < I63
    requires Accepted(Zero(m), FieldsBytes(fs)) == Some(m)
    ensures FieldsBytes(fs) == Encoding(m)
  {
    hide CanonicalField, Accepted, Encoding;
    SameFields(m, Zero(m), fs);
    FieldsAccepted(Zero(m), fs);
    forall i | 0 <= i < |fs| ensures 0 < NumberOf(fs[i]) { CanonicalNumber(m, fs[i]); }
    FieldsRecovered(Zero(m), fs, 1);
    EncodingIsFields(m);
  }

  // ---------- TxResponseData ----------

  /** `f` is field 1, spelled without padding, and holds the canonical fields `body`. */
  ghost predicate CanonicalElement(f: WireField, body: seq<WireField>) {
    && f.LengthField? && Minimal(f.tag) && RawValue(f.tag) == 0x0a
    && Minimal(f.length) && RawValue(f.length) == |f.payload| && f.payload == FieldsBytes(body)
    && Canonical(EMPTY_GENERIC, body)
  }

  /** One element per message, in order. */
  ghost predicate CanonicalData(fs: seq<WireField>, bodies: seq<seq<WireField>>) {
    |fs| == |bodies| && forall i :: 0 <= i < |fs| ==> CanonicalElement(fs[i], bodies[i])
  }

  function DataFields(ms: seq<GenericMessage>): seq<WireField> {
    if ms == [] then []
    else
      var payload := EncodeGeneric(ms[0]);
      [LengthField([0x0a], PutVarint(|payload|), payload)] + DataFields(ms[1..])
  }

  function Bodies(ms: seq<GenericMessage>): seq<seq<WireField>> {
    if ms == [] then [] else [FieldsFrom(Generic(ms[0]), 1)] + Bodies(ms[1..])
  }

  lemma OneByte(tag: Byte)
    requires tag < 0x80
    ensures Minimal([tag]) && RawValue([tag]) == tag
  {
    assert PutVarint(tag) == [tag];
    MinimalIff([tag], tag);
  }

  lemma ElementSpelling(tag: Byte, payload: seq<Byte>)
    requires |payload| < U64 && tag < 0x80
    ensures Minimal([tag]) && RawValue([tag]) == tag
    ensures Minimal(PutVarint(|payload|)) && RawValue(PutVarint(|payload|)) == |payload|
    ensures FieldBytes(LengthField([tag], PutVarint(|payload|), payload)) == PutBytes(tag, payload, true)
  {
    hide Minimal, RawValue, PutVarint;
    OneByte(tag);
    MinimalIff(PutVarint(|payload|), |payload|);
    assert [tag] + PutVarint(|payload|) + payload == [tag] + (PutVarint(|payload|) + payload);
  }

  lemma SmallGeneric(g: GenericMessage)
    requires |EncodeGeneric(g)| < U64
    ensures Small(Generic(g))
  {
    hide PutVarint;
  }

  lemma ElementBytes(g: GenericMessage)
    requires |EncodeGeneric(g)| < U64
    ensures var payload := EncodeGeneric(g);
            var f := LengthField([0x0a], PutVarint(|payload|), payload);
            CanonicalElement(f, FieldsFrom(Generic(g), 1)) && FieldBytes(f) == PutBytes(0x0a, payload, true)
  {
    hide EncodeGeneric, PutVarint, Minimal, RawValue, FieldsFrom, Canonical, FieldBytes, PutBytes, FieldsBytes, Small;
    SmallGeneric(g);
    EncodingIsCanonical(Generic(g));
    SameCanonical(Generic(g), EMPTY_GENERIC, FieldsFrom(Generic(g), 1));
    ElementSpelling(0x0a, EncodeGeneric(g));
  }

  /** The encoding of a list is one canonical element after the other. */
  lemma {:induction false} DataIsCanonical(ms: seq<GenericMessage>)
    requires |EncodeData(ms)| < U64
    ensures CanonicalData(DataFields(ms), Bodies(ms)) && EncodeData(ms) == FieldsBytes(DataFields(ms))
  {
    if ms != [] {
      DataIsCanonical(ms[1..]);
      hide EncodeGeneric, CanonicalElement, FieldBytes, PutVarint;
      var fs, bodies := DataFields(ms), Bodies(ms);
      ElementBytes(ms[0]);
      assert fs[1..] == DataFields(ms[1..]) && bodies[1..] == Bodies(ms[1..]);
      forall i | 0 <= i < |fs|
        ensures CanonicalElement(fs[i], bodies[i])
      {
        if i > 0 { assert fs[i] == fs[1..][i - 1] && bodies[i] == bodies[1..][i - 1]; }
      }
    }
  }

  /** A canonical element is the one written for the message it holds. */
  lemma ElementIs(f: WireField, body: seq<WireField>) returns (g: GenericMessage)
    requires CanonicalElement(f, body) && |f.payload| < I63
    ensures FieldBytes(f) == PutBytes(0x0a, EncodeGeneric(g), true)
  {
    hide Accepted, FieldsBytes, EncodeGeneric, PutVarint, RawValue, Minimal, CanonicalField;
    FieldsAccepted(EMPTY_GENERIC, body);
    StoreAllKind(EMPTY_GENERIC, body);
    g := StoreAll(EMPTY_GENERIC, body).generic;
    SameCanonical(EMPTY_GENERIC, Generic(g), body);
    CanonicalUnique(Generic(g), body);
    OneByteIs(f.tag, 0x0a);
    MinimalIff(f.length, |f.payload|);
    assert [0x0a] + f.length + f.payload == [0x0a] + (f.length + f.payload);
  }

  lemma {:induction false} StoreAllKind(m: Record, fs: seq<WireField>)
    requires forall i :: 0 <= i < |fs| ==> CanonicalField(m, fs[i])
    ensures SameKind(m, StoreAll(m, fs))
    decreases |fs|
  {
    if fs != [] {
      SameFields(m, Store(m, fs[0]), fs[1..]);
      StoreAllKind(Store(m, fs[0]), fs[1..]);
    }
  }

  lemma {:induction false} DataIs(fs: seq<WireField>, bodies: seq<seq<WireField>>) returns (ms: seq<GenericMessage>)
    requires CanonicalData(fs, bodies) && |FieldsBytes(fs)| < I63
    ensures FieldsBytes(fs) == EncodeData(ms)
    decreases |fs|
  {
    if fs == [] {
      ms := [];
    } else {
      assert CanonicalElement(fs[0], bodies[0]);
      assert |fs[0].payload| <= |FieldBytes(fs[0])|;
      hide CanonicalElement, FieldBytes, EncodeGeneric;
      var g := ElementIs(fs[0], bodies[0]);
      var rest := DataIs(fs[1..], bodies[1..]);
      ms := [g] + rest;
      assert ms[1..] == rest;
    }
  }

  /** No other bytes of that form decode to the same list. */
  lemma DataUnique(fs: seq<WireField>, bodies: seq<seq<WireField>>, ms: seq<GenericMessage>)
    requires CanonicalData(fs, bodies) && |FieldsBytes(fs)| < I63
    requires Accepted(Data([]), FieldsBytes(fs)) == Some(Data(ms))
    ensures FieldsBytes(fs) == EncodeData(ms)
  {
    hide CanonicalData, Accepted, FieldsBytes, EncodeData;
    var ns := DataIs(fs, bodies);
    DataAppends([], ns);
    assert [] + ns == ns;
  }

  // ---------- field numbers ----------

  /** Each field of TxResult under its own number; `true` is written as 1. */
  lemma TxResultNumbers(height: Int64, index: Uint32, ethTxIndex: Int32, gas: Uint64)
    requires height != 0 && index != 0 && ethTxIndex != 0 && gas != 0
    ensures var zero := TxResult(0, 0, 0, 0, false, 0, 0);
            && EncodeTxResult(zero) == []
            && EncodeTxResult(zero.(height := height)) == [0x08] + PutVarint(AsUint64(height))
            && EncodeTxResult(zero.(txIndex := index)) == [0x10] + PutVarint(index)
            && EncodeTxResult(zero.(msgIndex := index)) == [0x18] + PutVarint(index)
            && EncodeTxResult(zero.(ethTxIndex := ethTxIndex)) == [0x20] + PutVarint(AsUint64(ethTxIndex))
            && EncodeTxResult(zero.(failed := true)) == [0x28, 0x01]
            && EncodeTxResult(zero.(gasUsed := gas)) == [0x30] + PutVarint(gas)
            && EncodeTxResult(zero.(cumulativeGasUsed := gas)) == [0x38] + PutVarint(gas)
  {
  }

  lemma OptionNumbers(chainId: Uint64, payer: seq<Byte>, sig: seq<Byte>)
    requires chainId != 0 && payer != [] && sig != []
    ensures && EncodeWeb3Tx(Web3Tx(0, [], [])) == []
            && EncodeWeb3Tx(Web3Tx(chainId, [], [])) == [0x08] + PutVarint(chainId)
            && EncodeWeb3Tx(Web3Tx(0, payer, [])) == [0x12] + PutVarint(|payer|) + payer
            && EncodeWeb3Tx(Web3Tx(0, [], sig)) == [0x1a] + PutVarint(|sig|) + sig
  {
  }

  lemma MessageNumbers(header: seq<Byte>, data: seq<Byte>)
    requires header != [] && data != []
    ensures && EncodeGeneric(GenericMessage([], [])) == []
            && EncodeGeneric(GenericMessage(header, [])) == [0x0a] + PutVarint(|header|) + header
            && EncodeGeneric(GenericMessage([], data)) == [0x12] + PutVarint(|data|) + data
  {
  }

  lemma ListNumbers(ms: seq<GenericMessage>, g: GenericMessage)
    ensures EncodeData([]) == []
    ensures EncodeData([g] + ms) == [0x0a] + PutVarint(|EncodeGeneric(g)|) + EncodeGeneric(g) + EncodeData(ms)
  {
    hide EncodeGeneric, PutVarint;
    assert ([g] + ms)[1..] == ms;
  }
}
